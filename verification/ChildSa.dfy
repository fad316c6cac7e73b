/**
 The child security association tables of onvm_test/non3gpp_test.go: half
 associations wait under their exchange's message ID, completed ones are kept
 under their own inbound SPI.
 */
module ChildSa {
  import opened Bytes

  // ---------- The tables as values ----------

  /** The SPIs and the key of an association; K is the key material. */
  datatype Sa<+K> = Sa(inbound: uint32, outbound: uint32, key: Option<K>)

  datatype Tables<+K> = Tables(pending: map<uint32, Sa<K>>, completed: map<uint32, Sa<K>>)

  /** What the responder chose: nothing, or a list of proposals, of which only
      the first is used; makeKey is NewChildSAKeyByProposal. */
  datatype Choice<!P, !K> = Choice(proposals: Option<seq<P>>, makeKey: P -> Option<K>) {
    function Key(): Option<K> {
      if proposals.None? || proposals.value == [] then None else makeKey(proposals.value[0])
    }
  }

  function CreateHalf<K>(t: Tables<K>, msgID: uint32, inbound: uint32): Tables<K> {
    t.(pending := t.pending[msgID := Sa(inbound, 0, None)])
  }

  function Complete<K>(t: Tables<K>, msgID: uint32, outbound: uint32, key: Option<K>): (Tables<K>, bool) {
    if msgID !in t.pending then (t, false)
    else
      var t1 := t.(pending := t.pending - {msgID});
      if key.None? then (t1, false)
      else
        var inbound := t.pending[msgID].inbound;
        (t1.(completed := t1.completed[inbound := Sa(inbound, outbound, key)]), true)
  }

  // ---------- The tables as the program keeps them ----------

  class ChildSecurityAssociation<K> {
    var InboundSPI: uint32
    var OutboundSPI: uint32
    var ChildSAKey: Option<K>

    constructor (inbound: uint32)
      ensures InboundSPI == inbound && OutboundSPI == 0 && ChildSAKey == None
    {
      InboundSPI, OutboundSPI, ChildSAKey := inbound, 0, None;
    }

    function Value(): Sa<K>
      reads this
    {
      Sa(InboundSPI, OutboundSPI, ChildSAKey)
    }
  }

  ghost function Values<K>(m: map<uint32, ChildSecurityAssociation<K>>): map<uint32, Sa<K>>
    reads m.Values
  {
    map k | k in m :: m[k].Value()
  }

  lemma ValuesAfterInsert<K>(m: map<uint32, ChildSecurityAssociation<K>>, k: uint32, sa: ChildSecurityAssociation<K>)
    ensures Values(m[k := sa]) == Values(m)[k := sa.Value()]
  {
  }

  lemma ValuesAfterRemove<K>(m: map<uint32, ChildSecurityAssociation<K>>, k: uint32)
    ensures Values(m - {k}) == Values(m) - {k}
  {
  }

  class N3IWFIkeUe<K> {
    var N3IWFChildSecurityAssociation: map<uint32, ChildSecurityAssociation<K>>
    var TemporaryExchangeMsgIDChildSAMapping: map<uint32, ChildSecurityAssociation<K>>

    constructor ()
      ensures Valid() && View() == Tables(map[], map[])
    {
      N3IWFChildSecurityAssociation := map[];
      TemporaryExchangeMsgIDChildSAMapping := map[];
    }

    ghost function Objects(): set<object>
      reads this
    {
      N3IWFChildSecurityAssociation.Values + TemporaryExchangeMsgIDChildSAMapping.Values
    }

    /** A completed association is found under its own inbound SPI, no
        association is in both tables, and none waits under two message IDs. */
    ghost predicate Valid()
      reads this, Objects()
    {
      var done, half := N3IWFChildSecurityAssociation, TemporaryExchangeMsgIDChildSAMapping;
      && (forall spi | spi in done :: done[spi].InboundSPI == spi)
      && (forall spi, m | spi in done && m in half :: done[spi] != half[m])
      && (forall m, n | m in half && n in half && m != n :: half[m] != half[n])
    }

    ghost function View(): Tables<K>
      reads this, Objects()
    {
      Tables(Values(TemporaryExchangeMsgIDChildSAMapping), Values(N3IWFChildSecurityAssociation))
    }

    /** generateSPI, drawing from the given random numbers: the first one whose
        low 32 bits are not the SPI of a completed association. */
    method GenerateSPI(random: seq<nat>) returns (spi: Option<uint32>, spiByte: seq<byte>)
      ensures spi.Some? ==>
                && spi.value !in N3IWFChildSecurityAssociation
                && spiByte == BigEndian32(spi.value)
                && exists i | 0 <= i < |random| ::
                     && spi.value == random[i] % 0x1_0000_0000
                     && forall j | 0 <= j < i :: random[j] % 0x1_0000_0000 in N3IWFChildSecurityAssociation
      ensures spi.None? ==> forall j | 0 <= j < |random| :: random[j] % 0x1_0000_0000 in N3IWFChildSecurityAssociation
    {
      for i := 0 to |random|
        invariant forall j | 0 <= j < i :: random[j] % 0x1_0000_0000 in N3IWFChildSecurityAssociation
      {
        var candidate: uint32 := random[i] % 0x1_0000_0000;
        if candidate !in N3IWFChildSecurityAssociation {
          return Some(candidate), BigEndian32(candidate);
        }
      }
      return None, [];
    }

    method CreateHalfChildSA(msgID: uint32, inboundSPI: uint32)
      requires Valid()
      modifies this
      ensures Valid() && View() == CreateHalf(old(View()), msgID, inboundSPI)
    {
      var childSA := new ChildSecurityAssociation<K>(inboundSPI);
      ValuesAfterInsert(TemporaryExchangeMsgIDChildSAMapping, msgID, childSA);
      TemporaryExchangeMsgIDChildSAMapping := TemporaryExchangeMsgIDChildSAMapping[msgID := childSA];
    }

    /** Keeps a completed association under its inbound SPI. */
    method Record(childSA: ChildSecurityAssociation<K>)
      requires Valid() && childSA !in Objects()
      modifies this`N3IWFChildSecurityAssociation
      ensures Valid()
      ensures View() == old(View()).(completed := old(View()).completed[childSA.InboundSPI := childSA.Value()])
      ensures childSA.InboundSPI in N3IWFChildSecurityAssociation
              && N3IWFChildSecurityAssociation[childSA.InboundSPI] == childSA
    {
      ValuesAfterInsert(N3IWFChildSecurityAssociation, childSA.InboundSPI, childSA);
      N3IWFChildSecurityAssociation := N3IWFChildSecurityAssociation[childSA.InboundSPI := childSA];
    }

    /** Takes a half association out of its table. */
    method TakeHalf(msgID: uint32) returns (childSA: ChildSecurityAssociation<K>)
      requires Valid() && msgID in TemporaryExchangeMsgIDChildSAMapping
      modifies this`TemporaryExchangeMsgIDChildSAMapping
      ensures Valid()
      ensures childSA == old(TemporaryExchangeMsgIDChildSAMapping)[msgID] && childSA !in Objects()
      ensures View() == old(View()).(pending := old(View()).pending - {msgID})
    {
      childSA := TemporaryExchangeMsgIDChildSAMapping[msgID];
      ValuesAfterRemove(TemporaryExchangeMsgIDChildSAMapping, msgID);
      TemporaryExchangeMsgIDChildSAMapping := TemporaryExchangeMsgIDChildSAMapping - {msgID};
    }

    method CompleteChildSA<P>(msgID: uint32, outboundSPI: uint32, chosen: Choice<P, K>)
      returns (r: Option<ChildSecurityAssociation<K>>)
      requires Valid()
      modifies this, TemporaryExchangeMsgIDChildSAMapping.Values
      ensures Valid()
      ensures (View(), r.Some?) == Complete(old(View()), msgID, outboundSPI, chosen.Key())
      ensures r.Some? ==> r.value.InboundSPI in N3IWFChildSecurityAssociation
                          && N3IWFChildSecurityAssociation[r.value.InboundSPI] == r.value
      ensures r.Some? <==>
                && msgID in old(TemporaryExchangeMsgIDChildSAMapping)
                && chosen.proposals.Some? && |chosen.proposals.value| > 0
                && chosen.makeKey(chosen.proposals.value[0]).Some?
      ensures r.Some? ==>
                && r.value == old(TemporaryExchangeMsgIDChildSAMapping)[msgID]
                && r.value.InboundSPI == old(TemporaryExchangeMsgIDChildSAMapping[msgID].InboundSPI)
                && r.value.OutboundSPI == outboundSPI
                && r.value.ChildSAKey == chosen.makeKey(chosen.proposals.value[0])
    {
      if msgID !in TemporaryExchangeMsgIDChildSAMapping {
        return None;
      }
      var childSA := TakeHalf(msgID);
      if chosen.proposals.None? {
        return None;
      }
      if chosen.proposals.value == [] {
        return None;
      }
      ghost var tables := View();
      childSA.OutboundSPI := outboundSPI;
      childSA.ChildSAKey := chosen.makeKey(chosen.proposals.value[0]);
      assert View() == tables;
      if childSA.ChildSAKey.None? {
        return None;
      }
      Record(childSA);
      return Some(childSA);
    }
  }

  // ---------- Whole runs ----------

  datatype Op<+K> =
    | Create(msgID: uint32, inbound: uint32)
    | Finish(msgID: uint32, outbound: uint32, key: Option<K>)

  /** The tables and what has happened so far. */
  datatype Account<+K> = Account(tables: Tables<K>, created: nat, succeeded: nat, failed: nat,
                                 overwritten: nat, replaced: nat)

  /** overwritten counts half associations that lost their message ID to a
      later one, replaced counts completed ones that lost their SPI. */
  function Step<K>(a: Account<K>, op: Op<K>): Account<K> {
    match op
    case Create(m, spi) =>
      a.(tables := CreateHalf(a.tables, m, spi), created := a.created + 1,
         overwritten := a.overwritten + if m in a.tables.pending then 1 else 0)
    case Finish(m, spi, key) =>
      var (t, ok) := Complete(a.tables, m, spi, key);
      if m !in a.tables.pending then a
      else if !ok then a.(tables := t, failed := a.failed + 1)
      else a.(tables := t, succeeded := a.succeeded + 1,
              replaced := a.replaced + if a.tables.pending[m].inbound in a.tables.completed then 1 else 0)
  }

  function Run<K>(a: Account<K>, ops: seq<Op<K>>): Account<K>
    decreases |ops|
  {
    if ops == [] then a else Run(Step(a, ops[0]), ops[1..])
  }

  function Opened<K>(): Account<K> {
    Account(Tables(map[], map[]), 0, 0, 0, 0, 0)
  }

  /** Nothing is lost: every half association ever created still waits, was
      completed, failed, or was overwritten. */
  ghost predicate Balanced<K>(a: Account<K>) {
    && a.created == |a.tables.pending| + a.succeeded + a.failed + a.overwritten
    && a.succeeded == |a.tables.completed| + a.replaced
    && (forall spi | spi in a.tables.completed :: a.tables.completed[spi].inbound == spi)
    && (forall spi | spi in a.tables.completed :: a.tables.completed[spi].key.Some?)
  }

  lemma SizeAfterInsert<V>(m: map<uint32, V>, k: uint32, v: V)
    ensures |m[k := v]| == |m| + if k in m then 0 else 1
  {
    if k in m {
      assert m[k := v].Keys == m.Keys;
    } else {
      assert m[k := v].Keys == m.Keys + {k};
    }
  }

  lemma SizeAfterRemove<V>(m: map<uint32, V>, k: uint32)
    requires k in m
    ensures |m - {k}| == |m| - 1
  {
    assert (m - {k}).Keys == m.Keys - {k};
  }

  lemma StepBalanced<K>(a: Account<K>, op: Op<K>)
    requires Balanced(a)
    ensures Balanced(Step(a, op))
  {
    match op {
      case Create(m, spi) =>
        SizeAfterInsert(a.tables.pending, m, Sa<K>.Sa(spi, 0, None));
      case Finish(m, spi, key) =>
        if m in a.tables.pending {
          SizeAfterRemove(a.tables.pending, m);
          var inbound := a.tables.pending[m].inbound;
          SizeAfterInsert(a.tables.completed, inbound, Sa(inbound, spi, key));
        }
    }
  }

  lemma {:induction false} RunBalanced<K>(a: Account<K>, ops: seq<Op<K>>)
    requires Balanced(a)
    ensures Balanced(Run(a, ops))
    decreases |ops|
  {
    if ops == [] {
    } else {
      StepBalanced(a, ops[0]);
      RunBalanced(Step(a, ops[0]), ops[1..]);
    }
  }

  /** What can be seen when a half association is created: its message ID is not
      in use, and its SPI is neither that of a completed association nor that of
      a waiting one. */
  predicate Careful<K>(a: Account<K>, ops: seq<Op<K>>)
    decreases |ops|
  {
    ops == [] ||
    (&& (ops[0].Create? ==>
           && ops[0].msgID !in a.tables.pending && ops[0].inbound !in a.tables.completed
           && forall m | m in a.tables.pending :: a.tables.pending[m].inbound != ops[0].inbound)
     && Careful(Step(a, ops[0]), ops[1..]))
  }

  /** The waiting SPIs differ from each other and from the completed ones. */
  ghost predicate WaitingDiffer<K>(t: Tables<K>) {
    && (forall m | m in t.pending :: t.pending[m].inbound !in t.completed)
    && forall m, n | m in t.pending && n in t.pending && m != n :: t.pending[m].inbound != t.pending[n].inbound
  }

  lemma {:induction false} CarefulLosesNothing<K>(a: Account<K>, ops: seq<Op<K>>)
    requires Careful(a, ops) && WaitingDiffer(a.tables)
    ensures Run(a, ops).overwritten == a.overwritten && Run(a, ops).replaced == a.replaced
    decreases |ops|
  {
    if ops == [] {
    } else {
      CarefulLosesNothing(Step(a, ops[0]), ops[1..]);
    }
  }

  /** Over every careful run, any number of half associations waiting at a time:
      created = pending + completed + failed, and every completed entry is under
      its own inbound SPI, with a key. */
  lemma CarefulAccount<K>(ops: seq<Op<K>>)
    requires Careful(Opened(), ops)
    ensures
      var a := Run(Opened<K>(), ops);
      && a.created == |a.tables.pending| + |a.tables.completed| + a.failed
      && |a.tables.completed| == a.succeeded
      && forall spi | spi in a.tables.completed ::
           a.tables.completed[spi].inbound == spi && a.tables.completed[spi].key.Some?
  {
    RunBalanced(Opened<K>(), ops);
    CarefulLosesNothing(Opened<K>(), ops);
  }

  /** The discipline of the test: an SPI is generated, and its half association
      created, only when no other is waiting. */
  predicate Sequential<K>(a: Account<K>, ops: seq<Op<K>>)
    decreases |ops|
  {
    ops == [] ||
    (&& (ops[0].Create? ==> a.tables.pending == map[] && ops[0].inbound !in a.tables.completed)
     && Sequential(Step(a, ops[0]), ops[1..]))
  }

  lemma {:induction false} SequentialIsCareful<K>(a: Account<K>, ops: seq<Op<K>>)
    requires Sequential(a, ops)
    ensures Careful(a, ops)
    decreases |ops|
  {
    if ops == [] {
    } else {
      SequentialIsCareful(Step(a, ops[0]), ops[1..]);
    }
  }

  /** So it is for the test, which looks at the completed SPIs alone. */
  lemma SequentialAccount<K>(ops: seq<Op<K>>)
    requires Sequential(Opened(), ops)
    ensures
      var a := Run(Opened<K>(), ops);
      && a.created == |a.tables.pending| + |a.tables.completed| + a.failed
      && forall spi | spi in a.tables.completed ::
           a.tables.completed[spi].inbound == spi && a.tables.completed[spi].key.Some?
  {
    SequentialIsCareful(Opened<K>(), ops);
    CarefulAccount(ops);
  }

  /** A half association waits with its inbound SPI and nothing else; it takes
      the place of one under the same message ID. */
  lemma CreateExactly<K>(t: Tables<K>, msgID: uint32, inbound: uint32)
    ensures
      var t1 := CreateHalf(t, msgID, inbound);
      && t1.completed == t.completed && t1.pending.Keys == t.pending.Keys + {msgID}
      && t1.pending[msgID].inbound == inbound && t1.pending[msgID].outbound == 0 && t1.pending[msgID].key.None?
      && forall m | m in t.pending && m != msgID :: t1.pending[m] == t.pending[m]
  {
  }

  /** A success adds exactly one entry and keeps all others if and only if the
      inbound SPI was free; a failure changes no entry and uses up only its
      own message ID; an unknown message ID changes nothing. */
  lemma CompleteExactly<K>(t: Tables<K>, msgID: uint32, outbound: uint32, key: Option<K>)
    ensures
      var (t1, ok) := Complete(t, msgID, outbound, key);
      if msgID !in t.pending then t1 == t && !ok
      else
        var inbound := t.pending[msgID].inbound;
        && (ok <==> key.Some?)
        && t1.pending == t.pending - {msgID}
        && (!ok ==> t1.completed == t.completed)
        && (ok ==> inbound in t1.completed && t1.completed[inbound] == Sa(inbound, outbound, key))
        && (ok ==> (|t1.completed| == |t.completed| + 1 && t1.completed - {inbound} == t.completed
                    <==> inbound !in t.completed))
        && forall spi | spi in t.completed && spi != inbound ::
             spi in t1.completed && t1.completed[spi] == t.completed[spi]
  {
    var (t1, ok) := Complete(t, msgID, outbound, key);
    if ok {
      var inbound := t.pending[msgID].inbound;
      SizeAfterInsert(t.completed, inbound, Sa(inbound, outbound, key));
      if inbound !in t.completed {
        assert (t1.completed - {inbound}).Keys == t.completed.Keys;
        assert t1.completed - {inbound} == t.completed;
      }
    }
  }

  /** An SPI is compared with completed associations only. Two half
      associations may thus wait with the same one, and the second to complete
      replaces the first. */
  lemma ConcurrentHalvesCollide<K>(m: uint32, n: uint32, spi: uint32, x: uint32, y: uint32, k: K, l: K)
    requires m != n
    ensures
      var ops := [Create(m, spi), Create(n, spi), Finish(m, x, Some(k)), Finish(n, y, Some(l))];
      var a := Run(Opened<K>(), ops);
      a.succeeded == 2 && a.replaced == 1 && a.tables.completed == map[spi := Sa(spi, y, Some(l))]
  {
    var ops := [Create(m, spi), Create(n, spi), Finish(m, x, Some(k)), Finish(n, y, Some(l))];
    var a0 := Opened<K>();
    var a1 := Step(a0, ops[0]);
    var a2 := Step(a1, ops[1]);
    var a3 := Step(a2, ops[2]);
    var a4 := Step(a3, ops[3]);
    assert ops[1..][1..][1..][1..] == [];
    assert ops[1..][1..][1..][0] == ops[3] && ops[1..][1..][0] == ops[2] && ops[1..][0] == ops[1];
    assert Run(a0, ops) == Run(a1, ops[1..]) == Run(a2, ops[1..][1..]) == Run(a3, ops[1..][1..][1..]) == a4;
  }

  /** The inbound SPIs of the associations that were completed, in order. */
  function CompletedSpis<K>(a: Account<K>, ops: seq<Op<K>>): seq<uint32>
    decreases |ops|
  {
    if ops == [] then []
    else
      var later := CompletedSpis(Step(a, ops[0]), ops[1..]);
      if ops[0].Finish? && ops[0].msgID in a.tables.pending && ops[0].key.Some?
      then [a.tables.pending[ops[0].msgID].inbound] + later
      else later
  }

  ghost predicate AllDifferent(spis: seq<uint32>) {
    forall i, j | 0 <= i < j < |spis| :: spis[i] != spis[j]
  }

  ghost predicate NoneIn<V>(spis: seq<uint32>, m: map<uint32, V>) {
    forall i | 0 <= i < |spis| :: spis[i] !in m
  }

  lemma OneMoreSpi<V>(x: uint32, spis: seq<uint32>, m: map<uint32, V>, v: V)
    ensures AllDifferent([x] + spis) && NoneIn([x] + spis, m)
            <==> x !in m && AllDifferent(spis) && NoneIn(spis, m[x := v])
  {
    var all := [x] + spis;
    assert all[0] == x && forall i | 0 <= i < |spis| :: spis[i] == all[i + 1];
    assert forall i | 1 <= i < |all| :: all[i] == spis[i - 1];
  }

  lemma {:induction false} NothingReplaced<K>(a: Account<K>, ops: seq<Op<K>>)
    ensures Run(a, ops).replaced >= a.replaced
    ensures Run(a, ops).replaced == a.replaced
            <==> AllDifferent(CompletedSpis(a, ops)) && NoneIn(CompletedSpis(a, ops), a.tables.completed)
    decreases |ops|
  {
    if ops == [] {
    } else {
      var b := Step(a, ops[0]);
      NothingReplaced(b, ops[1..]);
      if ops[0].Finish? && ops[0].msgID in a.tables.pending && ops[0].key.Some? {
        var x := a.tables.pending[ops[0].msgID].inbound;
        OneMoreSpi(x, CompletedSpis(b, ops[1..]), a.tables.completed, Sa(x, ops[0].outbound, ops[0].key));
      }
    }
  }

  /** Over any run, concurrent or not: every association completed is still in
      the table if and only if their inbound SPIs all differ. */
  lemma KeepsAllExactly<K>(ops: seq<Op<K>>)
    ensures
      var a := Run(Opened<K>(), ops);
      |a.tables.completed| == a.succeeded <==> AllDifferent(CompletedSpis(Opened<K>(), ops))
  {
    RunBalanced(Opened<K>(), ops);
    NothingReplaced(Opened<K>(), ops);
  }
}
