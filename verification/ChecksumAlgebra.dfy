/** What the one's-complement sum cannot tell apart, and what it can. */
module ChecksumAlgebra {
  import opened Bytes
  import opened Checksum

  // ---------- Byte order (section 2(B) of RFC 1071) ----------

  function Swap(x: uint16): uint16 {
    x % 0x100 * 0x100 + x / 0x100
  }

  /** The buffer with the octets of every word exchanged. */
  function SwapOctets(buf: seq<byte>): (r: seq<byte>)
    requires |buf| % 2 == 0
    ensures |r| == |buf|
    decreases |buf|
  {
    if buf == [] then [] else [buf[1], buf[0]] + SwapOctets(buf[2..])
  }

  /** Modulo 65535, exchanging the octets is multiplying by 256. */
  lemma SwapIsTimes256(x: uint16) returns (h: int)
    ensures Swap(x) == 0x100 * x - 0xffff * h
    ensures Swap(x) == 0 <==> x == 0
  {
    h := x / 0x100;
  }

  lemma TimesAdds(a: uint16, b: uint16, x: uint16, y: uint16, z: uint16, h: int, i: int, j: int)
    requires x == 0x100 * a - 0xffff * h && (x == 0 <==> a == 0)
    requires y == 0x100 * b - 0xffff * i && (y == 0 <==> b == 0)
    requires z == 0x100 * OnesAdd(a, b) - 0xffff * j && (z == 0 <==> OnesAdd(a, b) == 0)
    ensures z == OnesAdd(x, y)
  {
    var k := h + i - j + (if x + y > 0xffff then 1 else 0) - (if a + b > 0xffff then 0x100 else 0);
    assert z - OnesAdd(x, y) == 0xffff * k;
    assert -1 <= k <= 1;
    assert OnesAdd(a, b) == 0 <==> a == 0 && b == 0;
    assert OnesAdd(x, y) == 0 <==> x == 0 && y == 0;
  }

  lemma SwapAdds(a: uint16, b: uint16)
    ensures Swap(OnesAdd(a, b)) == OnesAdd(Swap(a), Swap(b))
  {
    var h := SwapIsTimes256(a);
    var i := SwapIsTimes256(b);
    var j := SwapIsTimes256(OnesAdd(a, b));
    TimesAdds(a, b, Swap(a), Swap(b), Swap(OnesAdd(a, b)), h, i, j);
  }

  lemma {:induction false} SwapCommutesWithSum(buf: seq<byte>)
    requires |buf| % 2 == 0
    ensures OnesSum(Words(SwapOctets(buf))) == Swap(OnesSum(Words(buf)))
    decreases |buf|
  {
    if buf == [] {
    } else {
      SwapCommutesWithSum(buf[2..]);
      WordsCons(buf[0], buf[1], buf[2..]);
      WordsCons(buf[1], buf[0], SwapOctets(buf[2..]));
      assert buf == [buf[0], buf[1]] + buf[2..];
      SwapWord(buf[0], buf[1]);
      SwapAdds(Word16(buf[0], buf[1]), OnesSum(Words(buf[2..])));
    }
  }

  lemma WordsCons(hi: byte, lo: byte, rest: seq<byte>)
    ensures Words([hi, lo] + rest) == [Word16(hi, lo)] + Words(rest)
  {
    assert ([hi, lo] + rest)[2..] == rest;
  }

  lemma SwapWord(hi: byte, lo: byte)
    ensures Swap(Word16(hi, lo)) == Word16(lo, hi)
  {
    assert Word16(hi, lo) / 0x100 == hi;
  }

  /** An odd tail with the zero octet that the sum takes it to have. */
  function Padded(buf: seq<byte>): (r: seq<byte>)
    ensures |r| % 2 == 0
  {
    if |buf| % 2 == 0 then buf else buf + [0]
  }

  lemma {:induction false} PaddingIsFree(buf: seq<byte>)
    ensures Words(Padded(buf)) == Words(buf)
    decreases |buf|
  {
    if |buf| < 2 {
    } else {
      PaddingIsFree(buf[2..]);
      assert Padded(buf)[2..] == Padded(buf[2..]);
    }
  }

  /** Exchanging the octets of every word, padding included, exchanges those of
      the checksum. */
  lemma ByteOrderIndependence(buf: seq<byte>)
    ensures Transmitted(OnesSum(Words(SwapOctets(Padded(buf))))) == Swap(Transmitted(OnesSum(Words(buf))))
  {
    PaddingIsFree(buf);
    SwapCommutesWithSum(Padded(buf));
    SwapTransmitted(OnesSum(Words(buf)));
  }

  lemma SwapTransmitted(s: uint16)
    ensures Transmitted(Swap(s)) == Swap(Transmitted(s))
  {
    var hi, lo := s / 0x100, s % 0x100;
    SwapWord(hi, lo);
    SwapWord(0xff - hi, 0xff - lo);
    SwapWord(0xff, 0xff);
    assert Word16(0xff - hi, 0xff - lo) == 0xffff - Word16(hi, lo);
  }

  // ---------- Order of the words ----------

  function Without(ws: seq<uint16>, i: nat): (r: seq<uint16>)
    requires i < |ws|
    ensures |r| == |ws| - 1
  {
    ws[..i] + ws[i + 1..]
  }

  lemma {:induction false} SumWithout(ws: seq<uint16>, i: nat)
    requires i < |ws|
    ensures Sum(ws) == ws[i] + Sum(Without(ws, i))
  {
    if i == 0 {
      assert Without(ws, 0) == ws[1..];
    } else {
      SumWithout(ws[1..], i - 1);
      assert Without(ws, i)[1..] == Without(ws[1..], i - 1);
    }
  }

  lemma MultisetWithout(ws: seq<uint16>, i: nat)
    requires i < |ws|
    ensures multiset(Without(ws, i)) == multiset(ws) - multiset{ws[i]}
  {
    assert ws == ws[..i] + [ws[i]] + ws[i + 1..];
  }

  lemma SameWithout(a: seq<uint16>, b: seq<uint16>) returns (i: nat)
    requires multiset(a) == multiset(b) && a != []
    ensures i < |b| && b[i] == a[0]
    ensures multiset(Without(a, 0)) == multiset(Without(b, i))
  {
    assert a[0] in multiset(b);
    i :| 0 <= i < |b| && b[i] == a[0];
    MultisetWithout(a, 0);
    MultisetWithout(b, i);
  }

  lemma {:induction false} SumOfPermutation(a: seq<uint16>, b: seq<uint16>)
    requires multiset(a) == multiset(b)
    ensures Sum(a) == Sum(b)
    decreases |a|
  {
    if a == [] {
      assert |multiset(b)| == 0;
    } else {
      var i := SameWithout(a, b);
      SumOfPermutation(Without(a, 0), Without(b, i));
      SumWithout(a, 0);
      SumWithout(b, i);
    }
  }

  /** Aligned words may be moved about without changing the checksum. */
  lemma OrderIndependence(a: seq<byte>, b: seq<byte>)
    requires multiset(Words(a)) == multiset(Words(b))
    ensures OnesSum(Words(a)) == OnesSum(Words(b))
  {
    SumOfPermutation(Words(a), Words(b));
    FoldedSumIsOnesSum(Words(a));
    FoldedSumIsOnesSum(Words(b));
  }

  // ---------- Corruption of one word ----------

  lemma CongruentFold(n: nat, m: nat)
    requires n > 0 && m > 0
    ensures Folded(n) == Folded(m) <==> (n - m) % 0xffff == 0
  {
    var k := FoldedDecomposes(n);
    var l := FoldedDecomposes(m);
    assert n - m == 0xffff * (k - l) + (Folded(n) - Folded(m));
    if (n - m) % 0xffff == 0 {
      var q := (n - m) / 0xffff;
      assert 0xffff * (q - k + l) == Folded(n) - Folded(m);
    }
  }

  /** Replacing one aligned word of a buffer that verifies goes unnoticed
      exactly when the new word is congruent to the old one modulo 65535 and
      the buffer has not become all zero. */
  lemma CorruptionDetectedExactly(buf: seq<byte>, i: nat, w: uint16)
    requires 2 * i + 2 <= |buf| && Verifies(buf)
    ensures Verifies(PutWord(buf, i, w))
            <==> (w - Word16(buf[2 * i], buf[2 * i + 1])) % 0xffff == 0 && Sum(Words(PutWord(buf, i, w))) > 0
  {
    var ws := Words(buf);
    WordsPutWord(buf, i, w);
    SumUpdate(ws, i, w);
    FoldedSumIsOnesSum(ws);
    FoldedSumIsOnesSum(ws[i := w]);
    if Sum(ws[i := w]) > 0 {
      CongruentFold(Sum(ws[i := w]), Sum(ws));
    }
  }
}
