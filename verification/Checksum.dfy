/**
 The Internet checksum of onvm_test/rawudp.go, against the one's-complement
 sum that RFC 1071 and RFC 768 define it by.
 */
module Checksum {
  import opened Bytes

  /** The buffer as big-endian words, an odd tail padded with a zero octet. */
  function Words(buf: seq<byte>): (ws: seq<uint16>)
    ensures |ws| == (|buf| + 1) / 2
    decreases |buf|
  {
    if |buf| >= 2 then [Word16(buf[0], buf[1])] + Words(buf[2..])
    else if |buf| == 1 then [Word16(buf[0], 0)]
    else []
  }

  function Sum(ws: seq<uint16>): nat {
    if ws == [] then 0 else ws[0] + Sum(ws[1..])
  }

  /** One's-complement addition: the carry is added back in at the low end. */
  function OnesAdd(a: uint16, b: uint16): uint16 {
    if a + b > 0xffff then a + b - 0xffff else a + b
  }

  function OnesSum(ws: seq<uint16>): uint16 {
    if ws == [] then 0 else OnesAdd(ws[0], OnesSum(ws[1..]))
  }

  /** The complement, with all ones sent instead of zero. */
  function Transmitted(sum: uint16): (c: uint16)
    ensures c != 0
  {
    if sum == 0xffff then 0xffff else 0xffff - sum
  }

  /** The check a receiver makes: the sum over everything, checksum included,
      is all ones. */
  predicate Verifies(buf: seq<byte>) {
    OnesSum(Words(buf)) == 0xffff
  }

  // ---------- Folding ----------

  /** Where folding ends: the representative of n modulo 65535 in 1..65535, or
      0 when nothing was added. */
  function Folded(n: nat): uint16 {
    if n == 0 then 0 else (n - 1) % 0xffff + 1
  }

  lemma FoldedIs(n: nat, k: nat, r: nat)
    requires n == 0xffff * k + r && 0 < r <= 0xffff
    ensures Folded(n) == r
  {
    assert n - 1 == 0xffff * k + (r - 1);
  }

  lemma FoldedDecomposes(n: nat) returns (k: nat)
    ensures n == 0xffff * k + Folded(n)
    ensures n > 0 ==> Folded(n) > 0
  {
    k := if n == 0 then 0 else (n - 1) / 0xffff;
  }

  lemma FoldStep(n: nat)
    requires n > 0xffff
    ensures Folded(n / 0x1_0000 + n % 0x1_0000) == Folded(n)
    ensures n / 0x1_0000 + n % 0x1_0000 < n
  {
    var k := FoldedDecomposes(n);
    var h := n / 0x1_0000;
    assert h + n % 0x1_0000 == n - 0xffff * h;
    assert h <= k by {
      assert n >= 0x1_0000 * h;
    }
    FoldedIs(h + n % 0x1_0000, k - h, Folded(n));
  }

  lemma FoldedAdds(a: uint16, n: nat)
    ensures Folded(a + n) == OnesAdd(a, Folded(n))
  {
    var k := FoldedDecomposes(n);
    var r := a + Folded(n);
    if a + n > 0 {
      if r > 0xffff {
        FoldedIs(a + n, k + 1, r - 0xffff);
      } else {
        FoldedIs(a + n, k, r);
      }
    }
  }

  /** Adding everything up and folding at the end is adding with end-around
      carry all along. */
  lemma {:induction false} FoldedSumIsOnesSum(ws: seq<uint16>)
    ensures Folded(Sum(ws)) == OnesSum(ws)
  {
    if ws == [] {
    } else {
      FoldedSumIsOnesSum(ws[1..]);
      FoldedAdds(ws[0], Sum(ws[1..]));
    }
  }

  // ---------- The accumulator ----------

  lemma {:induction false} SumIsBounded(ws: seq<uint16>)
    ensures Sum(ws) <= 0xffff * |ws|
  {
    if ws == [] {
    } else {
      SumIsBounded(ws[1..]);
    }
  }

  /** Addition of uint32 values, and what it drops. */
  function Add32(a: uint32, b: uint32): uint32 {
    if a + b < 0x1_0000_0000 then a + b else a + b - 0x1_0000_0000
  }

  function Carry32(a: uint32, b: uint32): nat {
    if a + b < 0x1_0000_0000 then 0 else 1
  }

  lemma Residue32(r: uint32, k: nat)
    ensures (r + 0x1_0000_0000 * k) % 0x1_0000_0000 == r
  {
  }

  /** The folding loop of the checksum. */
  method Fold(sum: uint32) returns (r: uint16)
    ensures r == Folded(sum)
  {
    var rest: uint32 := sum;
    while rest > 0xffff
      invariant Folded(rest) == Folded(sum)
      decreases rest
    {
      FoldStep(rest);
      rest := rest / 0x1_0000 + rest % 0x1_0000;
    }
    r := rest;
  }

  /** The adding loop of the checksum, on a uint32 accumulator. */
  method AddUp(buf: seq<byte>) returns (sum: uint32)
    ensures sum == Sum(Words(buf)) % 0x1_0000_0000
  {
    sum := 0;
    var rest := buf;
    ghost var wraps := 0;
    while |rest| >= 2
      invariant sum + Sum(Words(rest)) + 0x1_0000_0000 * wraps == Sum(Words(buf))
      decreases |rest|
    {
      wraps := wraps + Carry32(sum, Word16(rest[0], rest[1]));
      sum := Add32(sum, Word16(rest[0], rest[1]));
      rest := rest[2..];
    }
    if |rest| > 0 {
      wraps := wraps + Carry32(sum, Word16(rest[0], 0));
      sum := Add32(sum, Word16(rest[0], 0));
    }
    Residue32(sum, wraps);
  }

  lemma SameResidue(x: int, y: int, k: int)
    requires x == y + 0xffff * k
    ensures x % 0xffff == y % 0xffff
  {
  }

  /** Two sums are sent alike exactly when they are congruent modulo 65535. */
  lemma TransmittedExact(a: uint16, b: uint16)
    ensures Transmitted(a) == Transmitted(b) <==> (a - b) % 0xffff == 0
  {
  }

  /** Dropping q carries out of 32 bits takes q away from the residue modulo
      65535. */
  lemma DroppedCarries(n: nat)
    ensures Transmitted(Folded(n % 0x1_0000_0000)) == Transmitted(Folded(n))
            <==> n / 0x1_0000_0000 % 0xffff == 0
  {
    var q, r := n / 0x1_0000_0000, n % 0x1_0000_0000;
    assert n == 0x1_0000_0000 * q + r;
    var k := FoldedDecomposes(n);
    var l := FoldedDecomposes(r);
    TransmittedExact(Folded(n), Folded(r));
    SameResidue(Folded(n) - Folded(r), q, 0x1_0001 * q - k + l);
    TransmittedExact(Folded(r), Folded(n));
  }

  /** The carries that a 32-bit accumulator loses. */
  function LostCarries(ws: seq<uint16>): nat {
    Sum(ws) / 0x1_0000_0000
  }

  lemma NothingLost(ws: seq<uint16>)
    requires |ws| <= 65537
    ensures LostCarries(ws) == 0
  {
    SumIsBounded(ws);
  }

  /** The checksum with a 32-bit accumulator is the transmitted one's-complement
      sum exactly when the number of carries lost is a multiple of 65535. */
  lemma AccumulatorExact(ws: seq<uint16>)
    ensures Transmitted(Folded(Sum(ws) % 0x1_0000_0000)) == Transmitted(OnesSum(ws)) <==> LostCarries(ws) % 0xffff == 0
  {
    FoldedSumIsOnesSum(ws);
    DroppedCarries(Sum(ws));
  }

  /** The checksum. It is the transmitted one's-complement sum exactly when the
      accumulator loses a multiple of 65535 carries, and up to 131074 octets it
      loses none. */
  method ChecksumOf(buf: seq<byte>) returns (csum: uint16)
    ensures csum == Transmitted(Folded(Sum(Words(buf)) % 0x1_0000_0000))
    ensures csum == Transmitted(OnesSum(Words(buf))) <==> LostCarries(Words(buf)) % 0xffff == 0
    ensures |buf| <= 131074 ==> csum == Transmitted(OnesSum(Words(buf)))
  {
    var sum := AddUp(buf);
    sum := Fold(sum);
    csum := 0xffff - sum;
    if csum == 0 {
      csum := 0xffff;
    }
    AccumulatorExact(Words(buf));
    if |buf| <= 131074 {
      NothingLost(Words(buf));
    }
  }

  /** The bound is tight: one octet more, and there is a buffer for which the
      checksum is wrong. */
  lemma AccumulatorBoundIsTight(buf: seq<byte>)
    requires |buf| == 131075 && forall i | 0 <= i < |buf| :: buf[i] == 0xff
    ensures Transmitted(Folded(Sum(Words(buf)) % 0x1_0000_0000)) != Transmitted(OnesSum(Words(buf)))
  {
    SumOfOnes(buf, 65537);
    assert LostCarries(Words(buf)) == 1;
    AccumulatorExact(Words(buf));
  }

  lemma {:induction false} SumOfOnes(buf: seq<byte>, n: nat)
    requires |buf| == 2 * n + 1 && forall i | 0 <= i < |buf| :: buf[i] == 0xff
    ensures Sum(Words(buf)) == 0xffff * n + 0xff00
  {
    if n == 0 {
      assert Words(buf)[1..] == [];
    } else {
      SumOfOnes(buf[2..], n - 1);
      assert Words(buf)[1..] == Words(buf[2..]);
    }
  }

  // ---------- Soundness ----------

  lemma {:induction false} SumUpdate(ws: seq<uint16>, i: nat, w: uint16)
    requires i < |ws|
    ensures Sum(ws[i := w]) == Sum(ws) - ws[i] + w
  {
    if i == 0 {
      assert ws[0 := w][1..] == ws[1..];
    } else {
      assert ws[i := w][1..] == ws[1..][i - 1 := w];
      SumUpdate(ws[1..], i - 1, w);
    }
  }

  /** The buffer with the word at an even offset replaced. */
  function PutWord(buf: seq<byte>, i: nat, w: uint16): (r: seq<byte>)
    requires 2 * i + 2 <= |buf|
    ensures |r| == |buf|
  {
    buf[2 * i := w / 0x100][2 * i + 1 := w % 0x100]
  }

  lemma {:induction false} WordsAppend(a: seq<byte>, b: seq<byte>)
    requires |a| % 2 == 0
    ensures Words(a + b) == Words(a) + Words(b)
    decreases |a|
  {
    if a == [] {
      assert a + b == b;
    } else {
      assert (a + b)[2..] == a[2..] + b;
      WordsAppend(a[2..], b);
    }
  }

  /** The words before, at and after place i. */
  lemma WordsSplit(buf: seq<byte>, i: nat, a: seq<byte>, x: byte, y: byte, b: seq<byte>)
    requires |a| == 2 * i && buf == a + [x, y] + b
    ensures Words(buf) == Words(a) + [Word16(x, y)] + Words(b) && |Words(a)| == i
  {
    assert buf == a + ([x, y] + b);
    WordsAppend(a, [x, y] + b);
    assert ([x, y] + b)[2..] == b;
  }

  lemma SplitAt(buf: seq<byte>, i: nat)
    requires 2 * i + 2 <= |buf|
    ensures buf == buf[..2 * i] + [buf[2 * i], buf[2 * i + 1]] + buf[2 * i + 2..]
  {
  }

  lemma SplitPutWord(buf: seq<byte>, i: nat, w: uint16)
    requires 2 * i + 2 <= |buf|
    ensures PutWord(buf, i, w) == buf[..2 * i] + [w / 0x100, w % 0x100] + buf[2 * i + 2..]
  {
  }

  lemma ReplaceMiddle(a: seq<uint16>, x: uint16, b: seq<uint16>, y: uint16)
    ensures (a + [x] + b)[|a| := y] == a + [y] + b
    ensures (a + [x] + b)[|a|] == x
  {
  }

  lemma WordsPutWord(buf: seq<byte>, i: nat, w: uint16)
    requires 2 * i + 2 <= |buf|
    ensures Words(PutWord(buf, i, w)) == Words(buf)[i := w]
    ensures Words(buf)[i] == Word16(buf[2 * i], buf[2 * i + 1])
  {
    var a, b, x, y := buf[..2 * i], buf[2 * i + 2..], buf[2 * i], buf[2 * i + 1];
    SplitAt(buf, i);
    WordsSplit(buf, i, a, x, y, b);
    SplitPutWord(buf, i, w);
    WordsSplit(PutWord(buf, i, w), i, a, w / 0x100, w % 0x100, b);
    WordOfBigEndian(w);
    ReplaceMiddle(Words(a), Word16(x, y), Words(b), w);
  }

  lemma FoldedIsOnes(n: nat)
    requires n > 0
    ensures Folded(n) == 0xffff <==> n % 0xffff == 0
  {
    var k := FoldedDecomposes(n);
    SameResidue(n, Folded(n), k);
  }

  /** A buffer verifies when its words add up to a positive multiple of 65535. */
  lemma VerifiesExactly(buf: seq<byte>, n: nat)
    requires Sum(Words(buf)) == n > 0
    ensures Verifies(buf) <==> n % 0xffff == 0
  {
    FoldedSumIsOnesSum(Words(buf));
    FoldedIsOnes(n);
  }

  /** What is sent completes what was added up to a multiple of 65535. */
  lemma TransmittedCompletes(n: nat) returns (k: nat)
    ensures n + Transmitted(Folded(n)) == 0xffff * k
  {
    k := FoldedDecomposes(n);
    k := k + if Folded(n) == 0xffff then 2 else 1;
  }

  lemma CompletedSum(n: nat, c: uint16)
    requires c == Transmitted(Folded(n % 0x1_0000_0000))
    ensures (n + c) % 0xffff == n / 0x1_0000_0000 % 0xffff
  {
    var q, r := n / 0x1_0000_0000, n % 0x1_0000_0000;
    assert n == 0x1_0000_0000 * q + r;
    var k := TransmittedCompletes(r);
    SameResidue(n + c, q, 0x1_0001 * q + k);
  }

  /** The sum after c was put into a word that was zero. */
  lemma SumAfterInsertion(buf: seq<byte>, i: nat, c: uint16)
    requires 2 * i + 2 <= |buf| && buf[2 * i] == 0 && buf[2 * i + 1] == 0
    ensures Sum(Words(PutWord(buf, i, c))) == Sum(Words(buf)) + c
  {
    WordsPutWord(buf, i, c);
    SumUpdate(Words(buf), i, c);
  }

  lemma CompletedExactly(buf: seq<byte>, ws: seq<uint16>, c: uint16)
    requires Sum(Words(buf)) == Sum(ws) + c
    requires c == Transmitted(Folded(Sum(ws) % 0x1_0000_0000))
    ensures Verifies(buf) <==> LostCarries(ws) % 0xffff == 0
  {
    VerifiesExactly(buf, Sum(ws) + c);
    CompletedSum(Sum(ws), c);
  }

  lemma NothingLostUpTo131074(buf: seq<byte>)
    requires |buf| <= 131074
    ensures LostCarries(Words(buf)) == 0
  {
    assert |Words(buf)| <= 65537;
    NothingLost(Words(buf));
  }

  lemma CompletedWhenNothingLost(buf: seq<byte>, ws: seq<uint16>, c: uint16)
    requires Sum(Words(buf)) == Sum(ws) + c && LostCarries(ws) == 0
    requires c == Transmitted(Folded(Sum(ws) % 0x1_0000_0000))
    ensures Verifies(buf)
  {
    var lost := LostCarries(ws);
    assert lost % 0xffff == 0;
    CompletedExactly(buf, ws, c);
  }

  lemma InsertionExact(buf: seq<byte>, i: nat, c: uint16)
    requires 2 * i + 2 <= |buf| && buf[2 * i] == 0 && buf[2 * i + 1] == 0
    requires c == Transmitted(Folded(Sum(Words(buf)) % 0x1_0000_0000))
    ensures Verifies(PutWord(buf, i, c)) <==> LostCarries(Words(buf)) % 0xffff == 0
  {
    SumAfterInsertion(buf, i, c);
    CompletedExactly(PutWord(buf, i, c), Words(buf), c);
  }

  lemma InsertionUpTo131074(buf: seq<byte>, i: nat, c: uint16)
    requires 2 * i + 2 <= |buf| <= 131074 && buf[2 * i] == 0 && buf[2 * i + 1] == 0
    requires c == Transmitted(Folded(Sum(Words(buf)) % 0x1_0000_0000))
    ensures Verifies(PutWord(buf, i, c))
  {
    SumAfterInsertion(buf, i, c);
    NothingLostUpTo131074(buf);
    CompletedWhenNothingLost(PutWord(buf, i, c), Words(buf), c);
  }

  /** Putting what checksum returns into an aligned field that was zero makes the
      buffer verify if and only if the accumulator loses a multiple of 65535
      carries. Up to 131074 octets it loses none: then it is so whatever the
      length, the contents and the place of the field. */
  lemma ChecksumSound(buf: seq<byte>, i: nat, c: uint16)
    requires 2 * i + 2 <= |buf| && buf[2 * i] == 0 && buf[2 * i + 1] == 0
    requires c == Transmitted(Folded(Sum(Words(buf)) % 0x1_0000_0000))
    ensures Verifies(PutWord(buf, i, c)) <==> LostCarries(Words(buf)) % 0xffff == 0
    ensures |buf| <= 131074 ==> Verifies(PutWord(buf, i, c))
  {
    InsertionExact(buf, i, c);
    if |buf| <= 131074 {
      InsertionUpTo131074(buf, i, c);
    }
  }

  lemma IdealCompletes(buf: seq<byte>, ws: seq<uint16>)
    requires Sum(Words(buf)) == Sum(ws) + Transmitted(OnesSum(ws))
    ensures Verifies(buf)
  {
    FoldedSumIsOnesSum(ws);
    var k := TransmittedCompletes(Sum(ws));
    SameResidue(Sum(ws) + Transmitted(OnesSum(ws)), 0, k);
    VerifiesExactly(buf, Sum(ws) + Transmitted(OnesSum(ws)));
  }

  /** The transmitted one's-complement sum itself makes a buffer of any length
      verify. */
  lemma OnesSumVerifies(buf: seq<byte>, i: nat)
    requires 2 * i + 2 <= |buf| && buf[2 * i] == 0 && buf[2 * i + 1] == 0
    ensures Verifies(PutWord(buf, i, Transmitted(OnesSum(Words(buf)))))
  {
    SumAfterInsertion(buf, i, Transmitted(OnesSum(Words(buf))));
    IdealCompletes(PutWord(buf, i, Transmitted(OnesSum(Words(buf)))), Words(buf));
  }
}
