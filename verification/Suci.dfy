/** SUCI packing: hexCharToByte and encodeSuci of
    onvm_test/ueRanEmulator/main.go, and a reader of the layout they write. */
module Suci {
  import opened Bytes

  type nibble = x: int | 0 <= x < 0x10

  datatype MobileIdentity5GS = MobileIdentity5GS(Buffer: seq<byte>, Len: uint16)

  /** Characters that are no hexadecimal digit give 0. */
  function HexCharToByte(c: char): nibble {
    if '0' <= c <= '9' then c as int - '0' as int
    else if 'a' <= c <= 'f' then c as int - 'a' as int + 10
    else if 'A' <= c <= 'F' then c as int - 'A' as int + 10
    else 0
  }

  /** hi << 4 | lo */
  function Octet(hi: nibble, lo: nibble): byte {
    hi * 0x10 + lo
  }

  function Pair(hi: char, lo: char): byte {
    Octet(HexCharToByte(hi), HexCharToByte(lo))
  }

  function OddOne(lo: char): byte {
    Octet(0xf, HexCharToByte(lo))
  }

  // ---------- The layout ----------

  /** The MSIN, two digits an octet, low nibble first. */
  function Packed(msin: string): (s: seq<byte>)
    ensures |s| == (|msin| + 1) / 2
  {
    if msin == [] then []
    else if |msin| == 1 then [OddOne(msin[0])]
    else [Pair(msin[1], msin[0])] + Packed(msin[2..])
  }

  /** How many digits are not MSIN. */
  function PlmnDigits(mncLen: int): nat {
    if mncLen > 2 then 6 else 5
  }

  /** Octets 1 to 3: MCC and MNC. */
  function PlmnOctets(d: string, mncLen: int): (s: seq<byte>)
    requires |d| >= PlmnDigits(mncLen)
    ensures |s| == 3
  {
    if mncLen > 2 then [Pair(d[1], d[0]), Pair(d[3], d[2]), Pair(d[5], d[4])]
    else [Pair(d[1], d[0]), OddOne(d[2]), Pair(d[4], d[3])]
  }

  function Header(imsi: string, mncLen: int): (s: seq<byte>)
    requires |imsi| >= PlmnDigits(mncLen)
    ensures |s| == 8
  {
    [0x01] + PlmnOctets(imsi, mncLen) + [0xf0, 0xff, 0x00, 0x00]
  }

  /** None where the program panics: the IMSI is shorter than its MCC and MNC. */
  function Suci(imsi: string, mncLen: int): Option<MobileIdentity5GS> {
    if |imsi| < PlmnDigits(mncLen) then None
    else
      var buffer := Header(imsi, mncLen) + Packed(imsi[PlmnDigits(mncLen)..]);
      Some(MobileIdentity5GS(buffer, |buffer| % 0x1_0000))
  }

  /** Every digit has its value, in either case of the letters; anything else
      counts as 0. */
  lemma HexValue(c: char, v: nat)
    requires v < 0x10
    ensures HexCharToByte(c) == v <==>
              || c == "0123456789abcdef"[v] || c == "0123456789ABCDEF"[v]
              || (v == 0 && !('0' <= c <= '9' || 'a' <= c <= 'f' || 'A' <= c <= 'F'))
  {
    assert "0123456789abcdef"[v] == if v < 10 then '0' + v as char else 'a' + (v - 10) as char;
    assert "0123456789ABCDEF"[v] == if v < 10 then '0' + v as char else 'A' + (v - 10) as char;
  }

  /** The identity octet by octet: the digits in pairs, the second of a pair in
      the high half; 0xf above the third digit when the MNC has two, and above
      the last digit of an odd MSIN. */
  ghost predicate PackedAs(suci: MobileIdentity5GS, imsi: string, mncLen: int) {
    var n := if mncLen > 2 then 6 else 5;
    && |imsi| >= n
    && var b := suci.Buffer;
    && |b| == 8 + (|imsi| - n + 1) / 2 && suci.Len == |b| % 0x1_0000
    && b[0] == 0x01 && IsPair(b[1], HexCharToByte(imsi[1]), imsi[0])
    && (if mncLen > 2 then
          IsPair(b[2], HexCharToByte(imsi[3]), imsi[2]) && IsPair(b[3], HexCharToByte(imsi[5]), imsi[4])
        else
          IsPair(b[2], 0xf, imsi[2]) && IsPair(b[3], HexCharToByte(imsi[4]), imsi[3]))
    && b[4] == 0xf0 && b[5] == 0xff && b[6] == 0x00 && b[7] == 0x00
    && forall k: nat | n + 2 * k < |imsi| ::
         IsPair(b[8 + k], if n + 2 * k + 1 < |imsi| then HexCharToByte(imsi[n + 2 * k + 1]) else 0xf, imsi[n + 2 * k])
  }

  predicate IsPair(o: byte, hi: nibble, lo: char) {
    o as int == 0x10 * (hi as int) + HexCharToByte(lo)
  }

  lemma {:induction false} PackedAt(msin: string, k: nat)
    requires 2 * k < |msin|
    ensures IsPair(Packed(msin)[k], if 2 * k + 1 < |msin| then HexCharToByte(msin[2 * k + 1]) else 0xf, msin[2 * k])
    decreases k
  {
    if k == 0 {
    } else {
      PackedAt(msin[2..], k - 1);
      assert Packed(msin)[k] == Packed(msin[2..])[k - 1];
      assert msin[2..][2 * (k - 1)] == msin[2 * k];
      assert 2 * k + 1 < |msin| ==> msin[2..][2 * (k - 1) + 1] == msin[2 * k + 1];
    }
  }

  lemma SuciOctetsExactly(imsi: string, mncLen: int)
    ensures
      var suci := Suci(imsi, mncLen);
      && (suci.Some? <==> |imsi| >= (if mncLen > 2 then 6 else 5))
      && (suci.Some? ==> PackedAs(suci.value, imsi, mncLen))
  {
    var n := PlmnDigits(mncLen);
    if |imsi| >= n {
      var h, msin := Header(imsi, mncLen), imsi[n..];
      var b := h + Packed(msin);
      forall k: nat | n + 2 * k < |imsi|
        ensures IsPair(b[8 + k], if n + 2 * k + 1 < |imsi| then HexCharToByte(imsi[n + 2 * k + 1]) else 0xf,
                       imsi[n + 2 * k])
      {
        PackedAt(msin, k);
        assert b[8 + k] == Packed(msin)[k] && msin[2 * k] == imsi[n + 2 * k];
        assert 2 * k + 1 < |msin| ==> msin[2 * k + 1] == imsi[n + 2 * k + 1];
      }
      assert forall i | 0 <= i < 8 :: b[i] == h[i];
    }
  }

  method EncodeSuci(imsi: string, mncLen: int) returns (suci: Option<MobileIdentity5GS>)
    ensures suci == Suci(imsi, mncLen)
    ensures suci.Some? <==> |imsi| >= (if mncLen > 2 then 6 else 5)
    ensures suci.Some? ==> PackedAs(suci.value, imsi, mncLen)
  {
    SuciOctetsExactly(imsi, mncLen);
    var buffer: seq<byte> := [0x01, 0x00, 0x00, 0x00, 0xf0, 0xff, 0x00, 0x00];
    if |imsi| < 2 {
      return None;
    }
    buffer := buffer[1 := Pair(imsi[1], imsi[0])];
    var msin;
    if mncLen > 2 {
      if |imsi| < 6 {
        return None;
      }
      buffer := buffer[2 := Pair(imsi[3], imsi[2])][3 := Pair(imsi[5], imsi[4])];
      msin := imsi[6..];
    } else {
      if |imsi| < 5 {
        return None;
      }
      buffer := buffer[2 := OddOne(imsi[2])][3 := Pair(imsi[4], imsi[3])];
      msin := imsi[5..];
    }
    assert buffer == Header(imsi, mncLen);
    buffer := AppendMsin(buffer, msin);
    return Some(MobileIdentity5GS(buffer, |buffer| % 0x1_0000));
  }

  lemma PackedFrom(msin: string, i: nat)
    requires i < |msin|
    ensures i + 1 == |msin| ==> Packed(msin[i..]) == [OddOne(msin[i])]
    ensures i + 1 < |msin| ==> Packed(msin[i..]) == [Pair(msin[i + 1], msin[i])] + Packed(msin[i + 2..])
  {
    if i + 1 < |msin| {
      assert msin[i..][2..] == msin[i + 2..];
    }
  }

  /** The loop of encodeSuci: append a zero octet, then overwrite it. */
  method AppendMsin(header: seq<byte>, msin: string) returns (buffer: seq<byte>)
    ensures buffer == header + Packed(msin)
  {
    buffer := header;
    var i := 0;
    while i < |msin|
      invariant i <= |msin| + 1
      invariant i <= |msin| ==> buffer + Packed(msin[i..]) == header + Packed(msin)
      invariant i > |msin| ==> buffer == header + Packed(msin)
    {
      ghost var before := buffer;
      PackedFrom(msin, i);
      buffer := buffer + [0x00];
      var j := |buffer| - 1;
      if i + 1 == |msin| {
        buffer := buffer[j := OddOne(msin[i])];
        assert buffer == before + [OddOne(msin[i])];
      } else {
        buffer := buffer[j := Pair(msin[i + 1], msin[i])];
        assert buffer == before + [Pair(msin[i + 1], msin[i])];
      }
      i := i + 2;
    }
    assert i == |msin| ==> buffer + Packed(msin[i..]) == buffer;
  }

  // ---------- Reading the layout back ----------

  function Digit(x: nibble): char {
    if x < 10 then '0' + x as char else 'a' + (x - 10) as char
  }

  function Lo(o: byte): char {
    Digit(o % 0x10)
  }

  function Hi(o: byte): char {
    Digit(o / 0x10)
  }

  predicate HasFiller(o: byte) {
    o / 0x10 == 0xf
  }

  function Unpacked(s: seq<byte>): string {
    if s == [] then []
    else if |s| == 1 && HasFiller(s[0]) then [Lo(s[0])]
    else [Lo(s[0]), Hi(s[0])] + Unpacked(s[1..])
  }

  /** MCC and MNC, and the length of the MNC: a filler says 2. */
  function ReadPlmn(o1: byte, o2: byte, o3: byte): (string, int) {
    if HasFiller(o2) then ([Lo(o1), Hi(o1), Lo(o2), Lo(o3), Hi(o3)], 2)
    else ([Lo(o1), Hi(o1), Lo(o2), Hi(o2), Lo(o3), Hi(o3)], 3)
  }

  predicate IsSuci(s: seq<byte>) {
    |s| >= 8 && s[0] == 0x01 && s[4..8] == [0xf0, 0xff, 0x00, 0x00]
  }

  /** The IMSI and the length of its MNC. */
  function Read(s: seq<byte>): (string, int)
    requires IsSuci(s)
  {
    var (plmn, mncLen) := ReadPlmn(s[1], s[2], s[3]);
    (plmn + Unpacked(s[8..]), mncLen)
  }

  predicate IsLowerHex(c: char) {
    '0' <= c <= '9' || 'a' <= c <= 'f'
  }

  predicate AllLowerHex(s: string) {
    forall i | 0 <= i < |s| :: IsLowerHex(s[i])
  }

  /** An even MSIN whose last digit is f: taken for a filler. */
  predicate EndsInFiller(msin: string) {
    msin != [] && |msin| % 2 == 0 && msin[|msin| - 1] == 'f'
  }

  lemma DigitOfByte(c: char)
    ensures Digit(HexCharToByte(c)) == c <==> IsLowerHex(c)
    ensures IsLowerHex(c) ==> (HexCharToByte(c) == 0xf <==> c == 'f')
  {
  }

  lemma ByteOfDigit(x: nibble)
    ensures HexCharToByte(Digit(x)) == x && IsLowerHex(Digit(x))
    ensures Digit(x) == 'f' <==> x == 0xf
  {
  }

  lemma OctetReads(hi: nibble, lo: nibble)
    ensures Hi(Octet(hi, lo)) == Digit(hi) && Lo(Octet(hi, lo)) == Digit(lo)
    ensures HasFiller(Octet(hi, lo)) <==> hi == 0xf
  {
    var o := Octet(hi, lo);
    assert o / 0x10 == hi && o % 0x10 == lo;
  }

  lemma PairReads(hi: char, lo: char)
    ensures Lo(Pair(hi, lo)) == lo <==> IsLowerHex(lo)
    ensures Hi(Pair(hi, lo)) == hi <==> IsLowerHex(hi)
    ensures IsLowerHex(hi) ==> (HasFiller(Pair(hi, lo)) <==> hi == 'f')
    ensures Lo(OddOne(lo)) == lo <==> IsLowerHex(lo)
    ensures HasFiller(OddOne(lo))
  {
    OctetReads(HexCharToByte(hi), HexCharToByte(lo));
    OctetReads(0xf, HexCharToByte(lo));
    DigitOfByte(hi);
    DigitOfByte(lo);
  }

  /** An octet is packed again from the digits read from it. */
  lemma PairOfRead(o: byte)
    ensures Pair(Hi(o), Lo(o)) == o && (HasFiller(o) ==> OddOne(Lo(o)) == o)
    ensures IsLowerHex(Lo(o)) && IsLowerHex(Hi(o)) && (Hi(o) == 'f' <==> HasFiller(o))
  {
    ByteOfDigit(o % 0x10);
    ByteOfDigit(o / 0x10);
  }

  lemma TwoMore(a: char, b: char, rest: string)
    ensures
      var msin := [a, b] + rest;
      && Packed(msin) == [Pair(b, a)] + Packed(rest)
      && EndsInFiller(msin) == (if rest == [] then b == 'f' else EndsInFiller(rest))
      && AllLowerHex(msin) == (IsLowerHex(a) && IsLowerHex(b) && AllLowerHex(rest))
  {
    var msin := [a, b] + rest;
    assert msin[2..] == rest && msin[0] == a && msin[1] == b;
    assert |msin| % 2 == |rest| % 2;
    assert rest != [] ==> msin[|msin| - 1] == rest[|rest| - 1];
    assert forall i | 0 <= i < |rest| :: rest[i] == msin[i + 2];
  }

  lemma OneMore(o: byte, s: seq<byte>)
    ensures Unpacked([o] + s) == if s == [] && HasFiller(o) then [Lo(o)] else [Lo(o), Hi(o)] + Unpacked(s)
  {
    assert ([o] + s)[1..] == s;
  }

  /** An MSIN is read back exactly when its characters are lower-case
      hexadecimal digits and it does not end in what looks like a filler. */
  lemma {:induction false} UnpackedPacked(msin: string)
    ensures Unpacked(Packed(msin)) == msin <==> AllLowerHex(msin) && !EndsInFiller(msin)
  {
    if |msin| == 1 {
      PairReads(msin[0], msin[0]);
    } else if |msin| >= 2 {
      var a, b, rest := msin[0], msin[1], msin[2..];
      assert msin == [a, b] + rest;
      PairReads(b, a);
      UnpackedPacked(rest);
      TwoMore(a, b, rest);
      OneMore(Pair(b, a), Packed(rest));
      SameTwo(Lo(Pair(b, a)), Hi(Pair(b, a)), Unpacked(Packed(rest)), a, b, rest);
    }
  }

  lemma SameTwo(a: char, b: char, s: string, c: char, d: char, t: string)
    ensures [a, b] + s == [c, d] + t <==> a == c && b == d && s == t
  {
    assert ([a, b] + s)[2..] == s && ([a, b] + s)[0] == a && ([a, b] + s)[1] == b;
    assert ([c, d] + t)[2..] == t && ([c, d] + t)[0] == c && ([c, d] + t)[1] == d;
  }

  lemma {:induction false} PackedUnpacked(s: seq<byte>)
    ensures Packed(Unpacked(s)) == s && AllLowerHex(Unpacked(s)) && !EndsInFiller(Unpacked(s))
  {
    if s == [] {
    } else {
      var o, rest := s[0], s[1..];
      assert s == [o] + rest;
      PairOfRead(o);
      PackedUnpacked(rest);
      OneMore(o, rest);
      TwoMore(Lo(o), Hi(o), Unpacked(rest));
    }
  }

  /** The inputs a SUCI can be read back to. */
  predicate Readable(imsi: string, mncLen: int) {
    && (mncLen == 2 || mncLen == 3) && |imsi| >= PlmnDigits(mncLen)
    && AllLowerHex(imsi)
    && (mncLen == 3 ==> imsi[3] != 'f')
    && !EndsInFiller(imsi[PlmnDigits(mncLen)..])
  }

  /** A SUCI determines the IMSI and the MNC length exactly when the IMSI is
      made of lower-case hexadecimal digits, none of them where an f would be
      taken for a filler, and the MNC length is 2 or 3. */
  lemma ReadSuci(imsi: string, mncLen: int)
    requires |imsi| >= PlmnDigits(mncLen)
    ensures
      var s := Suci(imsi, mncLen).value.Buffer;
      IsSuci(s) && (Read(s) == (imsi, mncLen) <==> Readable(imsi, mncLen))
  {
    var n := PlmnDigits(mncLen);
    var plmn, msin := imsi[..n], imsi[n..];
    var o := PlmnOctets(plmn, mncLen);
    assert o == PlmnOctets(imsi, mncLen);
    var s := Header(imsi, mncLen) + Packed(msin);
    SuciOctets(s, o, Packed(msin));
    UnpackedPacked(msin);
    ReadPlmnOctets(plmn, mncLen);
    var (p, m) := ReadPlmn(o[0], o[1], o[2]);
    var u := Unpacked(Packed(msin));
    assert Read(s) == (p + u, m);
    assert imsi == plmn + msin;
    SameParts(p, u, plmn, msin);
  }

  lemma SameParts(p: string, u: string, plmn: string, msin: string)
    ensures |p| == |plmn| ==> (p + u == plmn + msin <==> p == plmn && u == msin)
    ensures AllLowerHex(plmn + msin) <==> AllLowerHex(plmn) && AllLowerHex(msin)
  {
    var imsi, n := plmn + msin, |plmn|;
    assert imsi[..n] == plmn && imsi[n..] == msin;
    assert (p + u)[..|p|] == p && (p + u)[|p|..] == u;
  }

  lemma SuciOctets(s: seq<byte>, o: seq<byte>, packed: seq<byte>)
    requires |o| == 3 && s == [0x01] + o + [0xf0, 0xff, 0x00, 0x00] + packed
    ensures IsSuci(s) && s[1] == o[0] && s[2] == o[1] && s[3] == o[2] && s[8..] == packed
  {
  }

  lemma ReadPlmnOctets(d: string, mncLen: int)
    requires |d| == PlmnDigits(mncLen)
    ensures
      var o := PlmnOctets(d, mncLen);
      ReadPlmn(o[0], o[1], o[2]) == (d, mncLen)
      <==> (mncLen == 2 || mncLen == 3) && AllLowerHex(d) && (mncLen == 3 ==> d[3] != 'f')
  {
    PairReads(d[1], d[0]);
    if mncLen > 2 {
      PairReads(d[3], d[2]);
      PairReads(d[5], d[4]);
      LongReads(Pair(d[1], d[0]), Pair(d[3], d[2]), Pair(d[5], d[4]), d);
    } else {
      PairReads(d[2], d[2]);
      PairReads(d[4], d[3]);
      ShortReads(Pair(d[1], d[0]), OddOne(d[2]), Pair(d[4], d[3]), d);
    }
  }

  lemma ReadLong(o1: byte, o2: byte, o3: byte, d: string)
    requires |d| == 6
    ensures ReadPlmn(o1, o2, o3).0 == d
      <==> !HasFiller(o2) && Lo(o1) == d[0] && Hi(o1) == d[1] && Lo(o2) == d[2] && Hi(o2) == d[3]
           && Lo(o3) == d[4] && Hi(o3) == d[5]
    ensures ReadPlmn(o1, o2, o3).0 == d ==> ReadPlmn(o1, o2, o3).1 == 3
  {
  }

  lemma ReadShort(o1: byte, o2: byte, o3: byte, d: string)
    requires |d| == 5
    ensures ReadPlmn(o1, o2, o3).0 == d
      <==> HasFiller(o2) && Lo(o1) == d[0] && Hi(o1) == d[1] && Lo(o2) == d[2]
           && Lo(o3) == d[3] && Hi(o3) == d[4]
    ensures ReadPlmn(o1, o2, o3).0 == d ==> ReadPlmn(o1, o2, o3).1 == 2
  {
  }

  /** What PairReads says of an octet. */
  ghost predicate Reflects(o: byte, hi: char, lo: char) {
    && (Lo(o) == lo <==> IsLowerHex(lo))
    && (Hi(o) == hi <==> IsLowerHex(hi))
    && (IsLowerHex(hi) ==> (HasFiller(o) <==> hi == 'f'))
  }

  lemma SixDigits(d: string)
    requires |d| == 6
    ensures AllLowerHex(d) <==> && IsLowerHex(d[0]) && IsLowerHex(d[1]) && IsLowerHex(d[2])
                                && IsLowerHex(d[3]) && IsLowerHex(d[4]) && IsLowerHex(d[5])
  {
  }

  lemma FiveDigits(d: string)
    requires |d| == 5
    ensures AllLowerHex(d) <==> && IsLowerHex(d[0]) && IsLowerHex(d[1]) && IsLowerHex(d[2])
                                && IsLowerHex(d[3]) && IsLowerHex(d[4])
  {
  }

  lemma LongReads(o1: byte, o2: byte, o3: byte, d: string)
    requires |d| == 6
    requires Reflects(o1, d[1], d[0]) && Reflects(o2, d[3], d[2]) && Reflects(o3, d[5], d[4])
    ensures ReadPlmn(o1, o2, o3) == (d, 3) <==> AllLowerHex(d) && d[3] != 'f'
  {
    ReadLong(o1, o2, o3, d);
    SixDigits(d);
  }

  lemma ShortReads(o1: byte, o2: byte, o3: byte, d: string)
    requires |d| == 5
    requires Reflects(o1, d[1], d[0]) && Reflects(o3, d[4], d[3])
    requires HasFiller(o2) && (Lo(o2) == d[2] <==> IsLowerHex(d[2]))
    ensures ReadPlmn(o1, o2, o3) == (d, 2) <==> AllLowerHex(d)
  {
    ReadShort(o1, o2, o3, d);
    FiveDigits(d);
  }

  lemma PackedAgain(s: seq<byte>)
    requires IsSuci(s)
    ensures
      var (imsi, mncLen) := Read(s);
      Suci(imsi, mncLen).Some? && Suci(imsi, mncLen).value.Buffer == s
  {
    var (plmn, mncLen) := ReadPlmn(s[1], s[2], s[3]);
    var msin := Unpacked(s[8..]);
    var imsi, n := plmn + msin, PlmnDigits(mncLen);
    PackedUnpacked(s[8..]);
    PlmnOctetsOfRead(s[1], s[2], s[3]);
    assert imsi[..n] == plmn && imsi[n..] == msin;
    SameOctets(imsi, plmn, mncLen);
    assert s == [0x01] + [s[1], s[2], s[3]] + s[4..8] + s[8..];
  }

  lemma SameOctets(imsi: string, plmn: string, mncLen: int)
    requires |plmn| == PlmnDigits(mncLen) && plmn <= imsi
    ensures PlmnOctets(imsi, mncLen) == PlmnOctets(plmn, mncLen)
  {
    assert forall i | 0 <= i < |plmn| :: imsi[i] == plmn[i];
  }

  /** Every buffer with the fixed octets is the SUCI of what is read from it. */
  lemma SuciOfRead(s: seq<byte>)
    requires IsSuci(s)
    ensures
      var (imsi, mncLen) := Read(s);
      Readable(imsi, mncLen) && Suci(imsi, mncLen).Some? && Suci(imsi, mncLen).value.Buffer == s
  {
    var (imsi, mncLen) := Read(s);
    PackedAgain(s);
    ReadSuci(imsi, mncLen);
  }

  lemma PlmnOctetsOfRead(o1: byte, o2: byte, o3: byte)
    ensures
      var (plmn, mncLen) := ReadPlmn(o1, o2, o3);
      |plmn| == PlmnDigits(mncLen) && PlmnOctets(plmn, mncLen) == [o1, o2, o3]
  {
    PairOfRead(o1);
    PairOfRead(o2);
    PairOfRead(o3);
  }

  predicate Decimal(s: string) {
    forall i | 0 <= i < |s| :: '0' <= s[i] <= '9'
  }

  /** Decimal IMSIs of any length, with an MNC of 2 or 3 digits, never share a
      SUCI. */
  lemma DecimalSucisDiffer(a: string, m: int, b: string, n: int)
    requires 2 <= m <= 3 && 2 <= n <= 3 && Decimal(a) && Decimal(b)
    requires |a| >= PlmnDigits(m) && |b| >= PlmnDigits(n)
    ensures Suci(a, m).value.Buffer == Suci(b, n).value.Buffer <==> a == b && m == n
  {
    ReadSuci(a, m);
    ReadSuci(b, n);
  }
}
