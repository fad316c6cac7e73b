/**
 CalculateIpv4HeaderChecksum of onvm_test/ranUe.go, which folds once, compared
 with the checksum of onvm_test/rawudp.go, which folds until nothing is left.
 */
module Ipv4HeaderChecksum {
  import opened Bytes
  import opened Checksum

  /** ipv4.Header. The fields are integers of any value; src and dst are the
      results of To4, None when it gives nil. */
  datatype Header = Header(version: int, tos: int, totalLen: int, id: int, flags: int, fragOff: int,
                           ttl: int, protocol: int, src: Option<Address>, dst: Option<Address>)

  /** Every field fits its place on the wire; of the fragment offset only the
      low 13 bits are used anyway. */
  predicate FitsWire(h: Header) {
    && 0 <= h.version < 0x10 && 0 <= h.tos < 0x100
    && 0 <= h.totalLen < 0x1_0000 && 0 <= h.id < 0x1_0000
    && 0 <= h.flags < 8
    && 0 <= h.ttl < 0x100 && 0 <= h.protocol < 0x100
    && h.src.Some? && h.dst.Some?
  }

  // ---------- The bits ----------

  function Abs(x: int): nat {
    if x < 0 then -x else x
  }

  /** Bitwise or of two integers in two's complement. */
  function Or(x: int, y: int): int
    decreases Abs(x) + Abs(y)
  {
    if x == 0 then y
    else if y == 0 then x
    else if x == -1 || y == -1 then -1
    else (if x % 2 == 1 || y % 2 == 1 then 1 else 0) + 2 * Or(x / 2, y / 2)
  }

  /** It is or bit by bit: on the lowest bits and on all above them. */
  lemma OrBitwise(x: int, y: int)
    ensures Or(x, y) % 2 == 1 <==> x % 2 == 1 || y % 2 == 1
    ensures Or(x, y) / 2 == Or(x / 2, y / 2)
  {
    if x == 0 || y == 0 {
    } else if x == -1 || y == -1 {
      assert -1 / 2 == -1 && -1 % 2 == 1;
      assert Or(x / 2, y / 2) == -1;
    } else {
      LowestBit(if x % 2 == 1 || y % 2 == 1 then 1 else 0, Or(x / 2, y / 2));
    }
  }

  lemma LowestBit(b: int, z: int)
    requires 0 <= b <= 1
    ensures (b + 2 * z) % 2 == b && (b + 2 * z) / 2 == z
  {
  }

  /** a << k */
  function Shift(a: nat, k: nat): nat {
    if k == 0 then a else 2 * Shift(a, k - 1)
  }

  lemma FourBits(a: nat, k: nat)
    ensures Shift(a, k + 4) == 0x10 * Shift(a, k)
  {
    assert Shift(a, k + 2) == 4 * Shift(a, k);
  }

  lemma Shifts(a: nat)
    ensures Shift(a, 8) == a * 0x100 && Shift(a, 13) == a * 0x2000
  {
    FourBits(a, 0);
    FourBits(a, 4);
    FourBits(a, 8);
  }

  /** Where the bits of the two do not meet, or is addition. */
  lemma {:induction false} OrAdds(a: nat, k: nat, y: nat)
    requires y < Shift(1, k)
    ensures Or(Shift(a, k), y) == Shift(a, k) + y
    decreases k
  {
    if k == 0 || y == 0 || a == 0 {
      ShiftOfZero(k);
    } else {
      assert Shift(a, k) / 2 == Shift(a, k - 1);
      OrAdds(a, k - 1, y / 2);
    }
  }

  lemma {:induction false} ShiftOfZero(k: nat)
    ensures Shift(0, k) == 0
  {
    if k == 0 {
    } else {
      ShiftOfZero(k - 1);
    }
  }

  lemma {:induction false} OrCommutes(x: int, y: int)
    ensures Or(x, y) == Or(y, x)
    decreases Abs(x) + Abs(y)
  {
    if x == 0 || y == 0 || x == -1 || y == -1 {
    } else {
      OrCommutes(x / 2, y / 2);
    }
  }

  lemma ShiftedOr(a: nat, y: nat)
    requires y < 0x100
    ensures Or(a * 0x100, y) == a * 0x100 + y
  {
    Shifts(1);
    Shifts(a);
    OrAdds(a, 8, y);
  }

  lemma FragmentOr(f: nat, flags: nat)
    requires f < 0x2000
    ensures Or(f, flags * 0x2000) == flags * 0x2000 + f
  {
    Shifts(1);
    Shifts(flags);
    OrAdds(flags, 13, f);
    OrCommutes(f, flags * 0x2000);
  }

  // ---------- The header on the wire ----------

  /** The header as ten words, the checksum among them zero. */
  function HeaderWords(h: Header): (ws: seq<uint16>)
    requires FitsWire(h)
    ensures |ws| == 10
  {
    var src, dst := h.src.value, h.dst.value;
    [ Word16(h.version * 0x10 + 5, h.tos), h.totalLen, h.id, h.flags * 0x2000 + h.fragOff % 0x2000,
      Word16(h.ttl, h.protocol), 0,
      Word16(src[0], src[1]), Word16(src[2], src[3]), Word16(dst[0], dst[1]), Word16(dst[2], dst[3]) ]
  }

  function Serialise(ws: seq<uint16>): (s: seq<byte>)
    ensures |s| == 2 * |ws|
  {
    if ws == [] then [] else BigEndian16(ws[0]) + Serialise(ws[1..])
  }

  /** The 20 octets of the header, its checksum field zero. */
  function Wire(h: Header): (s: seq<byte>)
    requires FitsWire(h)
    ensures |s| == 20
  {
    Serialise(HeaderWords(h))
  }

  lemma {:induction false} SerialiseAt(ws: seq<uint16>, i: nat)
    requires i < |ws|
    ensures IsWord(Serialise(ws), 2 * i, ws[i])
  {
    if i == 0 {
      BigEndianIsWord(ws[0]);
    } else {
      SerialiseAt(ws[1..], i - 1);
      assert Serialise(ws)[2..] == Serialise(ws[1..]);
    }
  }

  lemma SerialisedHalves(ws: seq<uint16>, i: nat, hi: byte, lo: byte)
    requires i < |ws| && ws[i] == Word16(hi, lo)
    ensures Serialise(ws)[2 * i] == hi && Serialise(ws)[2 * i + 1] == lo
  {
    SerialiseAt(ws, i);
  }

  /** The header octet by octet. */
  lemma WireOctets(h: Header)
    requires FitsWire(h)
    ensures
      var w := Wire(h);
      && w[0] == h.version * 0x10 + 5 && w[1] == h.tos
      && IsWord(w, 2, h.totalLen) && IsWord(w, 4, h.id)
      && IsWord(w, 6, h.flags * 0x2000 + h.fragOff % 0x2000)
      && w[8] == h.ttl && w[9] == h.protocol && w[10] == 0 && w[11] == 0
      && w[12..16] == h.src.value && w[16..] == h.dst.value
  {
    var w, ws, src, dst := Wire(h), HeaderWords(h), h.src.value, h.dst.value;
    SerialisedHalves(ws, 0, h.version * 0x10 + 5, h.tos);
    SerialiseAt(ws, 1);
    SerialiseAt(ws, 2);
    SerialiseAt(ws, 3);
    SerialisedHalves(ws, 4, h.ttl, h.protocol);
    SerialisedHalves(ws, 5, 0, 0);
    SerialisedHalves(ws, 6, src[0], src[1]);
    SerialisedHalves(ws, 7, src[2], src[3]);
    SerialisedHalves(ws, 8, dst[0], dst[1]);
    SerialisedHalves(ws, 9, dst[2], dst[3]);
  }

  lemma {:induction false} WordsOfSerialise(ws: seq<uint16>)
    ensures Words(Serialise(ws)) == ws
  {
    if ws == [] {
    } else {
      WordsOfSerialise(ws[1..]);
      assert Serialise(ws)[2..] == Serialise(ws[1..]);
    }
  }

  lemma SumFrom(ws: seq<uint16>, i: nat)
    requires i < |ws|
    ensures Sum(ws[i..]) == ws[i] + Sum(ws[i + 1..])
  {
    assert ws[i..][1..] == ws[i + 1..];
  }

  lemma SumOfTen(ws: seq<uint16>)
    requires |ws| == 10
    ensures Sum(ws) == ws[0] as int + ws[1] + ws[2] + ws[3] + ws[4] + ws[5] + ws[6] + ws[7] + ws[8] + ws[9]
  {
    assert ws[0..] == ws;
    SumFrom(ws, 0); SumFrom(ws, 1); SumFrom(ws, 2); SumFrom(ws, 3); SumFrom(ws, 4);
    SumFrom(ws, 5); SumFrom(ws, 6); SumFrom(ws, 7); SumFrom(ws, 8); SumFrom(ws, 9);
  }

  /** The carries added in once. */
  function FoldedOnce(sum: nat): nat {
    sum / 0x1_0000 + sum % 0x1_0000
  }

  lemma WireSums(h: Header)
    requires FitsWire(h)
    ensures Sum(Words(Wire(h))) == Sum(HeaderWords(h))
    ensures OnesSum(Words(Wire(h))) == Folded(Sum(HeaderWords(h)))
  {
    WordsOfSerialise(HeaderWords(h));
    FoldedSumIsOnesSum(HeaderWords(h));
  }

  /** What a uint32 keeps of an integer. */
  function Low32(x: int): uint32 {
    x % 0x1_0000_0000
  }

  lemma AddLow32(a: int, b: int)
    ensures Add32(Low32(a), Low32(b)) == Low32(a + b)
  {
    var p, q := a / 0x1_0000_0000, b / 0x1_0000_0000;
    assert a == 0x1_0000_0000 * p + Low32(a) && b == 0x1_0000_0000 * q + Low32(b);
    LowPart(Add32(Low32(a), Low32(b)), a + b, p + q + Carry32(Low32(a), Low32(b)));
  }

  lemma LowPart(r: uint32, n: int, k: int)
    requires n == r + 0x1_0000_0000 * k
    ensures Low32(n) == r
  {
  }

  /** The fields that are not addresses, as integers of any size. */
  function FieldTotal(h: Header): int {
    Or((h.version * 0x10 + 5) * 0x100, h.tos) + h.totalLen + h.id
    + Or(h.fragOff % 0x2000, h.flags * 0x2000) + Or(h.ttl * 0x100, h.protocol)
  }

  function AddressTotal(a: Address): nat {
    0x100 * (a[0] as int) + a[1] + 0x100 * (a[2] as int) + a[3]
  }

  lemma TotalFits(h: Header)
    requires FitsWire(h)
    ensures FieldTotal(h) + AddressTotal(h.src.value) + AddressTotal(h.dst.value) == Sum(HeaderWords(h)) <= 9 * 0xffff
  {
    ShiftedOr(h.version * 0x10 + 5, h.tos);
    FragmentOr(h.fragOff % 0x2000, h.flags);
    ShiftedOr(h.ttl, h.protocol);
    SumOfTen(HeaderWords(h));
  }

  /** The nine additions on a uint32 accumulator. */
  method AddFields(h: Header, src: Address, dst: Address) returns (sum: uint32)
    ensures sum == Low32(FieldTotal(h) + AddressTotal(src) + AddressTotal(dst))
  {
    sum := 0;
    ghost var total := 0;
    sum, total := AddTerm(sum, Or((h.version * 0x10 + 5) * 0x100, h.tos), total);
    sum, total := AddTerm(sum, h.totalLen, total);
    sum, total := AddTerm(sum, h.id, total);
    sum, total := AddTerm(sum, Or(h.fragOff % 0x2000, h.flags * 0x2000), total);
    sum, total := AddTerm(sum, Or(h.ttl * 0x100, h.protocol), total);
    sum, total := AddTerm(sum, Word16(src[0], src[1]), total);
    sum, total := AddTerm(sum, Word16(src[2], src[3]), total);
    sum, total := AddTerm(sum, Word16(dst[0], dst[1]), total);
    sum, total := AddTerm(sum, Word16(dst[2], dst[3]), total);
  }

  /** sum += uint32(term) */
  method AddTerm(sum: uint32, term: int, ghost total: int) returns (r: uint32, ghost total1: int)
    requires sum == Low32(total)
    ensures total1 == total + term && r == Low32(total1)
  {
    AddLow32(total, term);
    r := Add32(sum, Low32(term));
    total1 := total + term;
  }

  /** None is the panic on an address that is not IPv4. When every field fits
      its place, the low half of the result is the checksum exactly when the
      single fold stays below 0xffff. At 0xffff it is zero, where the checksum
      would be sent as all ones; above, it is one too large. */
  method CalculateIpv4HeaderChecksum(h: Header) returns (r: Option<uint32>)
    ensures r.None? <==> h.src.None? || h.dst.None?
    ensures r.Some? ==>
              var total := FieldTotal(h) + AddressTotal(h.src.value) + AddressTotal(h.dst.value);
              r.value + FoldedOnce(Low32(total)) == 0xffff_ffff
    ensures FitsWire(h) ==>
              (r.value % 0x1_0000 == Transmitted(OnesSum(Words(Wire(h)))) <==> FoldedOnce(Sum(Words(Wire(h)))) < 0xffff)
    ensures FitsWire(h) && FoldedOnce(Sum(Words(Wire(h)))) == 0xffff ==> r.value % 0x1_0000 == 0
    ensures FitsWire(h) && FoldedOnce(Sum(Words(Wire(h)))) > 0xffff ==>
              r.value % 0x1_0000 == Transmitted(OnesSum(Words(Wire(h)))) + 1
  {
    if h.src.None? || h.dst.None? {
      return None;
    }
    var sum := AddFields(h, h.src.value, h.dst.value);
    var c := ComplementOfOneFold(sum);
    if FitsWire(h) {
      WireSums(h);
      TotalFits(h);
      LowPart(Sum(HeaderWords(h)), Sum(HeaderWords(h)), 0);
    }
    return Some(c);
  }

  method ComplementOfOneFold(sum: uint32) returns (r: uint32)
    ensures r + FoldedOnce(sum) == 0xffff_ffff
    ensures sum <= 9 * 0xffff ==>
              && (r % 0x1_0000 == Transmitted(Folded(sum)) <==> FoldedOnce(sum) < 0xffff)
              && (FoldedOnce(sum) == 0xffff ==> r % 0x1_0000 == 0)
              && (FoldedOnce(sum) > 0xffff ==> r % 0x1_0000 == Transmitted(Folded(sum)) + 1)
  {
    var once := sum / 0x1_0000 + sum % 0x1_0000;
    r := 0xffff_ffff - once;
    if sum <= 9 * 0xffff {
      OneFold(sum, Folded(sum));
    }
  }

  lemma OneFold(sum: nat, s: uint16)
    requires sum <= 9 * 0xffff && Folded(sum) == s
    ensures FoldedOnce(sum) <= 0xffff ==> FoldedOnce(sum) == s
    ensures FoldedOnce(sum) > 0xffff ==> FoldedOnce(sum) == s + 0xffff && s < 0xfffe
  {
    var t := FoldedOnce(sum);
    if sum > 0xffff {
      FoldStep(sum);
    }
    assert Folded(t) == s;
    if t > 0xffff {
      FoldedIs(t, 1, t - 0xffff);
    }
  }
}
