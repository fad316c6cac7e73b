/** The identities of the load tests: GenerateMobileIdentityGroup of
    onvm_test/registration_test.go. */
module MobileIdentity {
  import opened Bytes

  /** What the generator sets: the last two octets of the SUCI, the port and
      the gNB number. The SUPI is computed from the SUCI by a library. */
  datatype Identity = Identity(x: byte, y: byte, port: int, gnbIdCounter: nat) {
    function Buffer(): seq<byte> {
      [0x01, 0x02, 0xf8, 0x39, 0xf0, 0xff, 0x00, 0x00, 0x00, 0x00, x, y]
    }
  }

  predicate IsBcd(x: nat) {
    x % 0x10 < 10 && x / 0x10 < 10
  }

  /** The number whose two decimal digits the nibbles are. */
  function Decimal(x: nat): nat {
    x / 0x10 * 10 + x % 0x10
  }

  /** Identity i carries the four decimal digits of i, port 9487 + i and gNB
      number 1 + i. */
  predicate IsIdentityOf(id: Identity, i: nat) {
    && IsBcd(id.x) && IsBcd(id.y)
    && 100 * Decimal(id.x) + Decimal(id.y) == i
    && id.port == 9487 + i
    && id.gnbIdCounter == 1 + i
  }

  /** How many octets below x are two decimal digits. */
  function Ordinal(x: nat): nat {
    x / 0x10 * 10 + if x % 0x10 < 10 then x % 0x10 else 10
  }

  lemma OrdinalStep(x: nat)
    ensures Ordinal(x + 1) == Ordinal(x) + if x % 0x10 < 10 then 1 else 0
    ensures x < 0x9a && x % 0x10 < 10 ==> IsBcd(x) && Ordinal(x) == Decimal(x) < 100
  {
    if x % 0x10 == 0xf {
      assert (x + 1) / 0x10 == x / 0x10 + 1;
    } else {
      assert (x + 1) / 0x10 == x / 0x10;
    }
  }

  /** The slice after n identities: 164 long at first, because the product of
      the two bounds wraps in a uint8, and one longer than n from then on. */
  ghost predicate Filled(result: seq<Identity>, n: nat) {
    && |result| == (if n < 164 then 164 else n + 1)
    && (forall j | 0 <= j < n :: IsIdentityOf(result[j], j))
    && (n >= 164 ==> result[n] == result[0])
  }

  /** 10000 identities and the first again. */
  ghost predicate IsGroup(result: seq<Identity>) {
    && |result| == 10001
    && (forall i | 0 <= i < 10000 :: IsIdentityOf(result[i], i))
    && result[10000] == result[0]
  }

  method GenerateMobileIdentityGroup() returns (result: seq<Identity>)
    ensures IsGroup(result)
  {
    var upperX: nat, upperY: nat := 0x9a, 0x9a;
    result := seq(upperX * upperY % 0x100, _ => Identity(0, 0, 0, 0));
    var index, port, gnbIdCounter := 0, 9487, 1;
    var x: nat := 0;
    while x < upperX
      invariant 0 <= x <= upperX
      invariant index == 100 * Ordinal(x) && Filled(result, index)
      invariant port == 9487 + index && gnbIdCounter == 1 + index
    {
      OrdinalStep(x);
      if x % 0x10 < 10 {
        result, index, port, gnbIdCounter := Row(x, upperY, result, index, port, gnbIdCounter);
      }
      x := x + 1;
    }
  }

  /** The inner loop: one row of identities with the same first octet. */
  method Row(x: byte, upperY: nat, result0: seq<Identity>, index0: nat, port0: int, gnbIdCounter0: nat)
    returns (result: seq<Identity>, index: nat, port: int, gnbIdCounter: nat)
    requires upperY == 0x9a && x < 0x9a && IsBcd(x)
    requires index0 == 100 * Decimal(x) && Filled(result0, index0)
    requires port0 == 9487 + index0 && gnbIdCounter0 == 1 + index0
    ensures index == index0 + 100 && Filled(result, index)
    ensures port == 9487 + index && gnbIdCounter == 1 + index
  {
    result, index, port, gnbIdCounter := result0, index0, port0, gnbIdCounter0;
    var y: nat := 0;
    while y < upperY
      invariant 0 <= y <= upperY
      invariant index == index0 + Ordinal(y) && Filled(result, index)
      invariant port == 9487 + index && gnbIdCounter == 1 + index
    {
      OrdinalStep(y);
      if y % 0x10 < 10 {
        result := result[index := Identity(x, y, port, gnbIdCounter)];
        index, port, gnbIdCounter := index + 1, port + 1, gnbIdCounter + 1;
        if index == |result| {
          result := result + [result[0]];
        }
      }
      y := y + 1;
    }
  }

  lemma DecimalInjective(x: nat, y: nat)
    requires IsBcd(x) && IsBcd(y) && Decimal(x) == Decimal(y)
    ensures x == y
  {
    var a, b, c, d := x / 0x10, x % 0x10, y / 0x10, y % 0x10;
    assert 10 * a + b == 10 * c + d && b < 10 && d < 10;
    assert a == c && b == d;
    assert x == 0x10 * a + b && y == 0x10 * c + d;
  }

  /** The SUCI of identity i octet by octet: the last two hold the four digits of
      i. */
  lemma IdentityOctets(id: Identity, i: nat)
    requires IsIdentityOf(id, i)
    ensures i < 10000
    ensures id.Buffer()[..10] == [0x01, 0x02, 0xf8, 0x39, 0xf0, 0xff, 0x00, 0x00, 0x00, 0x00]
    ensures |id.Buffer()| == 12
    ensures id.Buffer()[10] == 0x10 * (i / 1000) + i / 100 % 10
    ensures id.Buffer()[11] == 0x10 * (i / 10 % 10) + i % 10
  {
    var a, b, c, d := id.x / 0x10, id.x % 0x10, id.y / 0x10, id.y % 0x10;
    assert id.x == 0x10 * a + b && id.y == 0x10 * c + d;
    FourDigits(a, b, c, d);
  }

  lemma FourDigits(a: nat, b: nat, c: nat, d: nat)
    requires a < 10 && b < 10 && c < 10 && d < 10
    ensures
      var i := 100 * (10 * a + b) + (10 * c + d);
      i < 10000 && i / 1000 == a && i / 100 % 10 == b && i / 10 % 10 == c && i % 10 == d
  {
    var i := 100 * (10 * a + b) + (10 * c + d);
    assert i / 100 == 10 * a + b;
    assert i / 10 == 10 * (10 * a + b) + c;
    assert (10 * a + b) % 10 == b;
    assert i / 1000 == a;
  }

  lemma DigitPairs(a: nat, b: nat, c: nat, d: nat)
    requires b < 100 && d < 100 && 100 * a + b == 100 * c + d
    ensures a == c && b == d
  {
  }

  /** The nibbles are determined by the number: identities with different
      numbers differ in the SUCI, in the port and in the gNB number. */
  lemma DistinctIdentities(a: Identity, i: nat, b: Identity, j: nat)
    requires IsIdentityOf(a, i) && IsIdentityOf(b, j)
    ensures i != j ==> a.Buffer() != b.Buffer() && a.port != b.port && a.gnbIdCounter != b.gnbIdCounter
    ensures i == j ==> a == b
  {
    if i == j {
      DigitPairs(Decimal(a.x), Decimal(a.y), Decimal(b.x), Decimal(b.y));
      DecimalInjective(a.x, b.x);
      DecimalInjective(a.y, b.y);
    } else {
      assert a.x == a.Buffer()[10] && a.y == a.Buffer()[11];
      assert b.x == b.Buffer()[10] && b.y == b.Buffer()[11];
    }
  }

  ghost predicate PairwiseDistinct(ids: seq<Identity>) {
    forall i, j | 0 <= i < j < |ids| :: ids[i] != ids[j]
  }

  /** The slice taken for a test has distinct identities exactly up to 10000 of
      them: the last of the 10001 repeats the first. Slicing may go on into the
      capacity behind them; whatever lies there, the repetition stays. */
  lemma DistinctExactly(result: seq<Identity>, backing: seq<Identity>, amount: nat)
    requires IsGroup(result) && result <= backing && amount <= |backing|
    ensures PairwiseDistinct(backing[..amount]) <==> amount <= 10000
  {
    var ids := backing[..amount];
    if amount > 10000 {
      assert ids[0] == result[0] && ids[10000] == result[10000];
    } else {
      forall i, j | 0 <= i < j < |ids| ensures ids[i] != ids[j] {
        DistinctIdentities(ids[i], i, ids[j], j);
      }
    }
  }
}
