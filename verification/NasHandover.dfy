/**
 The uplink COUNT across N2 handovers: the target context takes over both
 COUNTs of the source context, and only the target protects messages from
 then on (onvm_test/handover_test.go, TestN2Handover and SingleN2Handover alike).
 */
module NasHandover {
  import opened Bytes
  import opened NasSecurity

  /** Encode protects a message, with no new context, in one of the contexts
      made so far; Handover adds a copy of the latest one. */
  datatype Op<+M> = Encode(context: nat, msg: NasMessage<M>) | Handover

  /** A message that went out: the context that protected it, what the library
      ciphered and authenticated it with, and its octets. */
  datatype Use = Use(context: nat, cipher: KeyUse, integrity: KeyUse, octets: seq<byte>)

  /** One operation: the message it sends out, if any, and the contexts after
      it. */
  function Do<M>(lib: Library<M>, keys: Keys, contexts: seq<Endpoint>, op: Op<M>): (r: (Option<Use>, seq<Endpoint>))
    requires contexts != []
    ensures |r.1| == |contexts| + if op.Handover? then 1 else 0
  {
    if op.Handover? then (None, contexts + [contexts[|contexts| - 1]])
    else if op.context >= |contexts| then (None, contexts)
    else
      var (r, e) := Send(lib, keys, Uplink, contexts[op.context], op.msg, true, false);
      var c := contexts[op.context].sent;
      (if r.Ok? then Some(Use(op.context, keys.ForCipher(c, Uplink), keys.ForIntegrity(c, Uplink), r.value)) else None,
       contexts[op.context := e])
  }

  /** The messages that went out, in order. */
  function Uses<M>(lib: Library<M>, keys: Keys, contexts: seq<Endpoint>, ops: seq<Op<M>>): seq<Use>
    requires contexts != []
    decreases |ops|
  {
    if ops == [] then []
    else
      var (u, cs) := Do(lib, keys, contexts, ops[0]);
      var later := Uses(lib, keys, cs, ops[1..]);
      if u.None? then later else [u.value] + later
  }

  /** The COUNTs given to the cipher. */
  function Counts(us: seq<Use>): seq<nat> {
    seq(|us|, i requires 0 <= i < |us| => us[i].cipher.count)
  }

  /** The COUNTs under which messages went out, in order. */
  function CountsUsed<M>(lib: Library<M>, keys: Keys, contexts: seq<Endpoint>, ops: seq<Op<M>>): seq<nat>
    requires contexts != []
  {
    Counts(Uses(lib, keys, contexts, ops))
  }

  /** All that matters of one operation: it sends under the COUNT of a context
      and adds one there, or it leaves every COUNT as it is. */
  lemma DoneExactly<M>(lib: Library<M>, keys: Keys, contexts: seq<Endpoint>, op: Op<M>)
    requires contexts != []
    ensures
      var (u, cs) := Do(lib, keys, contexts, op);
      && (u.None? ==> cs == if op.Handover? then contexts + [contexts[|contexts| - 1]] else contexts)
      && (u.Some? ==>
            && op == Encode(u.value.context, op.msg) && u.value.context < |contexts| == |cs|
            && u.value.cipher.count == u.value.integrity.count == contexts[u.value.context].sent.Get()
            && cs[u.value.context].sent == contexts[u.value.context].sent.AddOne()
            && forall i | 0 <= i < |cs| && i != u.value.context :: cs[i] == contexts[i])
  {
  }

  /** After a handover the older contexts are left alone; n counts contexts. */
  predicate LatestOnly<M>(n: nat, ops: seq<Op<M>>)
    decreases |ops|
  {
    ops == [] ||
    (if ops[0].Handover? then LatestOnly(n + 1, ops[1..])
     else ops[0].context + 1 == n && LatestOnly(n, ops[1..]))
  }

  /** counts are start, start + 1, ... in 24 bits. */
  ghost predicate Consecutive(counts: seq<nat>, start: nat) {
    forall i | 0 <= i < |counts| :: counts[i] == (start + i) % 0x100_0000
  }

  lemma ConsecutiveCons(counts: seq<nat>, c: Count)
    requires Consecutive(counts, c.AddOne().Get())
    ensures Consecutive([c.Get()] + counts, c.Get())
  {
    var start := c.Get();
    forall i | 0 <= i < |[start] + counts| ensures ([start] + counts)[i] == (start + i) % 0x100_0000 {
      if i > 0 {
        assert counts[i - 1] == (c.AddOne().Get() + (i - 1)) % 0x100_0000;
        if start == 0xff_ffff {
          assert start + i == 0x100_0000 + (i - 1);
        }
      }
    }
  }

  lemma CountsCons(u: Use, us: seq<Use>)
    ensures Counts([u] + us) == [u.cipher.count] + Counts(us)
  {
  }

  /** However many handovers happen and however many calls fail, the i-th
      message that goes out uses COUNT start + i. */
  lemma {:induction false} HandoverContinuesCount<M>(lib: Library<M>, keys: Keys, contexts: seq<Endpoint>,
                                                     ops: seq<Op<M>>)
    requires contexts != [] && LatestOnly(|contexts|, ops)
    ensures Consecutive(CountsUsed(lib, keys, contexts, ops), contexts[|contexts| - 1].sent.Get())
    decreases |ops|
  {
    if ops == [] {
      assert CountsUsed(lib, keys, contexts, ops) == [];
    } else {
      var (u, cs) := Do(lib, keys, contexts, ops[0]);
      DoneExactly(lib, keys, contexts, ops[0]);
      HandoverContinuesCount(lib, keys, cs, ops[1..]);
      if u.Some? {
        CountsCons(u.value, Uses(lib, keys, cs, ops[1..]));
        ConsecutiveCons(CountsUsed(lib, keys, cs, ops[1..]), contexts[u.value.context].sent);
      }
    }
  }

  ghost predicate NoReuse(counts: seq<nat>) {
    forall i, j | 0 <= i < j < |counts| :: counts[i] != counts[j]
  }

  /** No COUNT is used twice exactly as long as at most 2^24 messages go out. */
  lemma NoReuseExact(counts: seq<nat>, start: nat)
    requires Consecutive(counts, start)
    ensures NoReuse(counts) <==> |counts| <= 0x100_0000
  {
    if |counts| > 0x100_0000 {
      assert counts[0x100_0000] == (start + 0x100_0000) % 0x100_0000;
      assert counts[0] == (start + 0) % 0x100_0000;
      assert counts[0] == counts[0x100_0000];
    } else {
      forall i, j | 0 <= i < j < |counts| ensures counts[i] != counts[j] {
        DistinctResidues(start + i, start + j);
      }
    }
  }

  lemma DistinctResidues(a: nat, b: nat)
    requires a < b < a + 0x100_0000
    ensures a % 0x100_0000 != b % 0x100_0000
  {
  }

  /** The message is what the library made of some plain octets with exactly
      these keys and one COUNT for both, and ends in its low octet. */
  ghost predicate Keyed<M>(lib: Library<M>, keys: Keys, u: Use) {
    && |u.octets| >= 7 && u.octets[6] as int == u.cipher.count % 0x100
    && u.cipher == KeyUse(keys.cipheringAlg, keys.knasEnc, u.cipher.count, keys.bearer, Uplink)
    && u.integrity == KeyUse(keys.integrityAlg, keys.knasInt, u.cipher.count, keys.bearer, Uplink)
    && (exists plain :: lib.encrypt(u.cipher, plain) == Some(u.octets[7..]))
    && lib.mac(u.integrity, u.octets[6..]) == Some(u.octets[2..6])
  }

  lemma DoneKeyed<M>(lib: Library<M>, keys: Keys, contexts: seq<Endpoint>, op: Op<M>)
    requires contexts != []
    ensures
      var u := Do(lib, keys, contexts, op).0;
      u.Some? ==> Keyed(lib, keys, u.value) && u.value.cipher.count == contexts[u.value.context].sent.value
  {
    if op.Encode? && op.context < |contexts| {
      var e := contexts[op.context];
      SendExactly(lib, keys, Uplink, e, op.msg, true, false);
      var r := Send(lib, keys, Uplink, e, op.msg, true, false).0;
      if r.Ok? {
        var plain := lib.plainEncode(op.msg.body).value;
        var text := lib.encrypt(KeyUse(keys.cipheringAlg, keys.knasEnc, e.sent.value, keys.bearer, Uplink), plain);
        var u := Do(lib, keys, contexts, op).0.value;
        assert r.value[7..] == text.value;
        assert lib.encrypt(u.cipher, plain) == Some(u.octets[7..]);
        assert r.value[6..] == [e.sent.value % 0x100] + text.value;
        var mac := lib.mac(u.integrity, r.value[6..]).value;
        assert r.value[2..6] == mac;
      }
    }
  }

  /** Over every run, each message that goes out was ciphered and authenticated by
      the library under the COUNT that Uses records. */
  lemma {:induction false} UsesReachTheLibrary<M>(lib: Library<M>, keys: Keys, contexts: seq<Endpoint>, ops: seq<Op<M>>)
    requires contexts != []
    ensures forall k | 0 <= k < |Uses(lib, keys, contexts, ops)| :: Keyed(lib, keys, Uses(lib, keys, contexts, ops)[k])
    decreases |ops|
  {
    if ops == [] {
    } else {
      DoneKeyed(lib, keys, contexts, ops[0]);
      UsesReachTheLibrary(lib, keys, Do(lib, keys, contexts, ops[0]).1, ops[1..]);
    }
  }

  /** As long as only the latest context protects messages, no COUNT is used
      twice exactly as long as at most 2^24 messages go out. */
  lemma LatestOnlyNeverReuses<M>(lib: Library<M>, keys: Keys, contexts: seq<Endpoint>, ops: seq<Op<M>>)
    requires contexts != [] && LatestOnly(|contexts|, ops)
    ensures NoReuse(CountsUsed(lib, keys, contexts, ops)) <==> |CountsUsed(lib, keys, contexts, ops)| <= 0x100_0000
  {
    HandoverContinuesCount(lib, keys, contexts, ops);
    NoReuseExact(CountsUsed(lib, keys, contexts, ops), contexts[|contexts| - 1].sent.Get());
  }

  // ---------- Any interleaving ----------

  ghost predicate SomeBy(us: seq<Use>, i: nat) {
    exists k :: 0 <= k < |us| && us[k].context == i
  }

  ghost predicate SomeFrom(us: seq<Use>, i: int) {
    exists k :: 0 <= k < |us| && us[k].context >= i
  }

  /** At no handover do both the source and a context made from then on protect
      messages that go out afterwards. */
  ghost predicate NoStaleSource<M>(lib: Library<M>, keys: Keys, contexts: seq<Endpoint>, ops: seq<Op<M>>)
    requires contexts != []
    decreases |ops|
  {
    ops == [] ||
    (var cs := Do(lib, keys, contexts, ops[0]).1;
     var later := Uses(lib, keys, cs, ops[1..]);
     && (ops[0].Handover? ==> !(SomeBy(later, |contexts| - 1) && SomeFrom(later, |contexts|)))
     && NoStaleSource(lib, keys, cs, ops[1..]))
  }

  /** The first message from the context i uses its COUNT. */
  lemma {:induction false} FirstBy<M>(lib: Library<M>, keys: Keys, contexts: seq<Endpoint>, ops: seq<Op<M>>, i: nat)
    returns (k: nat)
    requires i < |contexts| && SomeBy(Uses(lib, keys, contexts, ops), i)
    ensures k < |Uses(lib, keys, contexts, ops)|
    ensures Uses(lib, keys, contexts, ops)[k].context == i
    ensures Uses(lib, keys, contexts, ops)[k].cipher.count == contexts[i].sent.Get()
    decreases |ops|
  {
    var us := Uses(lib, keys, contexts, ops);
    var (u, cs) := Do(lib, keys, contexts, ops[0]);
    DoneExactly(lib, keys, contexts, ops[0]);
    if u.Some? && u.value.context == i {
      k := 0;
    } else {
      SomeAfter(us, u, Uses(lib, keys, cs, ops[1..]), i);
      k := FirstBy(lib, keys, cs, ops[1..], i);
      k := if u.Some? then k + 1 else k;
    }
  }

  /** The first message from context i or a later one, when these have one
      COUNT, uses it. */
  lemma {:induction false} FirstFrom<M>(lib: Library<M>, keys: Keys, contexts: seq<Endpoint>, ops: seq<Op<M>>, i: nat)
    returns (k: nat)
    requires i < |contexts| && SomeFrom(Uses(lib, keys, contexts, ops), i)
    requires forall j | i <= j < |contexts| :: contexts[j].sent == contexts[i].sent
    ensures k < |Uses(lib, keys, contexts, ops)|
    ensures Uses(lib, keys, contexts, ops)[k].context >= i
    ensures Uses(lib, keys, contexts, ops)[k].cipher.count == contexts[i].sent.Get()
    decreases |ops|
  {
    var us := Uses(lib, keys, contexts, ops);
    var (u, cs) := Do(lib, keys, contexts, ops[0]);
    DoneExactly(lib, keys, contexts, ops[0]);
    if u.Some? && u.value.context >= i {
      k := 0;
    } else {
      SomeAfter(us, u, Uses(lib, keys, cs, ops[1..]), i);
      k := FirstFrom(lib, keys, cs, ops[1..], i);
      k := if u.Some? then k + 1 else k;
    }
  }

  lemma SomeAfter(us: seq<Use>, u: Option<Use>, later: seq<Use>, i: nat)
    requires us == if u.None? then later else [u.value] + later
    ensures SomeBy(us, i) <==> (u.Some? && u.value.context == i) || SomeBy(later, i)
    ensures SomeFrom(us, i) <==> (u.Some? && u.value.context >= i) || SomeFrom(later, i)
  {
    if u.Some? {
      assert us[0] == u.value;
      assert forall k | 0 <= k < |later| :: later[k] == us[k + 1];
      assert forall k | 1 <= k < |us| :: us[k] == later[k - 1];
    }
  }

  /** A stale source and a later context reuse a COUNT. */
  lemma {:induction false} StaleSourceReuses<M>(lib: Library<M>, keys: Keys, contexts: seq<Endpoint>, ops: seq<Op<M>>)
    returns (a: nat, b: nat)
    requires contexts != [] && !NoStaleSource(lib, keys, contexts, ops)
    ensures a < |Uses(lib, keys, contexts, ops)| && b < |Uses(lib, keys, contexts, ops)| && a != b
    ensures Uses(lib, keys, contexts, ops)[a].cipher.count
            == Uses(lib, keys, contexts, ops)[b].cipher.count
    decreases |ops|
  {
    var n := |contexts|;
    var (u, cs) := Do(lib, keys, contexts, ops[0]);
    var later := Uses(lib, keys, cs, ops[1..]);
    DoneExactly(lib, keys, contexts, ops[0]);
    if ops[0].Handover? && SomeBy(later, n - 1) && SomeFrom(later, n) {
      a := FirstBy(lib, keys, cs, ops[1..], n - 1);
      b := FirstFrom(lib, keys, cs, ops[1..], n);
    } else {
      a, b := StaleSourceReuses(lib, keys, cs, ops[1..]);
      if u.Some? {
        a, b := a + 1, b + 1;
      }
    }
  }

  /** Of n contexts, one that is not the latest sends only when none after it
      does. */
  ghost predicate Clean(us: seq<Use>, n: nat) {
    forall i: nat | i + 1 < n :: SomeBy(us, i) ==> !SomeFrom(us, i + 1)
  }

  /** The very first message uses the COUNT its context has now, or, if that
      context is not made yet, the one of the latest. */
  lemma {:induction false} FirstUse<M>(lib: Library<M>, keys: Keys, contexts: seq<Endpoint>, ops: seq<Op<M>>)
    requires contexts != [] && Uses(lib, keys, contexts, ops) != []
    ensures
      var u := Uses(lib, keys, contexts, ops)[0];
      u.cipher.count == contexts[if u.context < |contexts| then u.context else |contexts| - 1].sent.Get()
    decreases |ops|
  {
    var (u, cs) := Do(lib, keys, contexts, ops[0]);
    DoneExactly(lib, keys, contexts, ops[0]);
    if u.Some? {
    } else {
      FirstUse(lib, keys, cs, ops[1..]);
    }
  }

  lemma CleanNext(us: seq<Use>, u: Use, later: seq<Use>, n: nat)
    requires us == [u] + later && later != [] && Clean(us, n) && u.context < n
    ensures if u.context + 1 < n then later[0].context == u.context else later[0].context >= u.context
    ensures Clean(later, n)
  {
    var v := later[0].context;
    assert us[0] == u && us[1] == later[0];
    assert SomeBy(us, u.context) && SomeBy(us, v);
    assert u.context > v ==> SomeFrom(us, v + 1);
    assert v > u.context ==> SomeFrom(us, u.context + 1);
    forall i: nat | i + 1 < n ensures SomeBy(later, i) ==> !SomeFrom(later, i + 1) {
      SomeAfter(us, Some(u), later, i);
      SomeAfter(us, Some(u), later, i + 1);
    }
  }

  /** Without a stale source, the COUNTs are consecutive from the first. */
  lemma {:induction false} CleanIsConsecutive<M>(lib: Library<M>, keys: Keys, contexts: seq<Endpoint>, ops: seq<Op<M>>)
    requires contexts != [] && NoStaleSource(lib, keys, contexts, ops)
    requires Clean(Uses(lib, keys, contexts, ops), |contexts|)
    ensures
      var us := Uses(lib, keys, contexts, ops);
      us != [] ==> Consecutive(Counts(us), us[0].cipher.count)
    decreases |ops|
  {
    if ops == [] {
      assert Uses(lib, keys, contexts, ops) == [];
    } else {
      var (u, cs) := Do(lib, keys, contexts, ops[0]);
      var us, later := Uses(lib, keys, contexts, ops), Uses(lib, keys, cs, ops[1..]);
      DoneExactly(lib, keys, contexts, ops[0]);
      if u.None? {
        CleanIsConsecutive(lib, keys, cs, ops[1..]);
      } else if later == [] {
        assert us == [u.value];
      } else {
        CleanNext(us, u.value, later, |contexts|);
        CleanIsConsecutive(lib, keys, cs, ops[1..]);
        FirstUse(lib, keys, cs, ops[1..]);
        CountsCons(u.value, later);
        ConsecutiveCons(Counts(later), contexts[u.value.context].sent);
      }
    }
  }

  /** Whatever the order of calls in whatever contexts, over any number of
      handovers: no COUNT is used twice if and only if there is no stale source
      and at most 2^24 messages go out. */
  lemma NoReuseAcrossHandovers<M>(lib: Library<M>, keys: Keys, e: Endpoint, ops: seq<Op<M>>)
    ensures NoReuse(CountsUsed(lib, keys, [e], ops))
            <==> NoStaleSource(lib, keys, [e], ops) && |CountsUsed(lib, keys, [e], ops)| <= 0x100_0000
  {
    var us := Uses(lib, keys, [e], ops);
    var counts := CountsUsed(lib, keys, [e], ops);
    if !NoStaleSource(lib, keys, [e], ops) {
      var a, b := StaleSourceReuses(lib, keys, [e], ops);
      assert counts[a] == counts[b];
    } else if us != [] {
      CleanIsConsecutive(lib, keys, [e], ops);
      NoReuseExact(counts, us[0].cipher.count);
    }
  }

  lemma {:induction false} OnlyKnownContexts<M>(lib: Library<M>, keys: Keys, contexts: seq<Endpoint>, ops: seq<Op<M>>)
    requires contexts != [] && forall i | 0 <= i < |ops| :: ops[i].Encode?
    ensures NoStaleSource(lib, keys, contexts, ops)
    ensures forall k | 0 <= k < |Uses(lib, keys, contexts, ops)| ::
              Uses(lib, keys, contexts, ops)[k].context < |contexts|
    decreases |ops|
  {
    if ops == [] {
      assert Uses(lib, keys, contexts, ops) == [];
    } else {
      DoneExactly(lib, keys, contexts, ops[0]);
      OnlyKnownContexts(lib, keys, Do(lib, keys, contexts, ops[0]).1, ops[1..]);
    }
  }

  /** One handover, then any interleaving of calls in the source and the target
      context: no COUNT is used twice if and only if nothing of the source or
      nothing of the target goes out, and at most 2^24 messages do. */
  lemma OneHandover<M>(lib: Library<M>, keys: Keys, e: Endpoint, ops: seq<Op<M>>)
    requires forall i | 0 <= i < |ops| :: ops[i].Encode?
    ensures
      var us := Uses(lib, keys, [e, e], ops);
      && Uses(lib, keys, [e], [Handover] + ops) == us
      && (NoReuse(Counts(us)) <==> !(SomeBy(us, 0) && SomeBy(us, 1)) && |us| <= 0x100_0000)
  {
    var all: seq<Op<M>> := [Handover] + ops;
    var us := Uses(lib, keys, [e, e], ops);
    assert all[1..] == ops && [e] + [e] == [e, e];
    NoReuseAcrossHandovers(lib, keys, e, all);
    OnlyKnownContexts(lib, keys, [e, e], ops);
    assert SomeFrom(us, 1) <==> SomeBy(us, 1);
  }

  /** The COUNTs of the messages from context i. */
  function Of(us: seq<Use>, i: nat): seq<nat> {
    if us == [] then []
    else (if us[0].context == i then [us[0].cipher.count] else []) + Of(us[1..], i)
  }

  lemma {:induction false} OwnCounts<M>(lib: Library<M>, keys: Keys, contexts: seq<Endpoint>, ops: seq<Op<M>>, i: nat)
    requires i < |contexts|
    ensures Consecutive(Of(Uses(lib, keys, contexts, ops), i), contexts[i].sent.Get())
    decreases |ops|
  {
    if ops == [] {
      assert Of(Uses(lib, keys, contexts, ops), i) == [];
    } else {
      var (u, cs) := Do(lib, keys, contexts, ops[0]);
      var us, later := Uses(lib, keys, contexts, ops), Uses(lib, keys, cs, ops[1..]);
      DoneExactly(lib, keys, contexts, ops[0]);
      OwnCounts(lib, keys, cs, ops[1..], i);
      if u.Some? {
        assert us[1..] == later;
        if u.value.context == i {
          ConsecutiveCons(Of(later, i), contexts[i].sent);
        }
      }
    }
  }

  /** What a stale source costs: in any interleaving, its i-th message and the
      i-th of the target use the same COUNT. */
  lemma StaleSourceReusesCounts<M>(lib: Library<M>, keys: Keys, contexts: seq<Endpoint>, ops: seq<Op<M>>)
    requires contexts != []
    ensures
      var n := |contexts|;
      var us := Uses(lib, keys, contexts + [contexts[n - 1]], ops);
      forall i | 0 <= i < |Of(us, n - 1)| && i < |Of(us, n)| :: Of(us, n - 1)[i] == Of(us, n)[i]
  {
    var n := |contexts|;
    OwnCounts(lib, keys, contexts + [contexts[n - 1]], ops, n - 1);
    OwnCounts(lib, keys, contexts + [contexts[n - 1]], ops, n);
  }

  // ---------- The handover of the test ----------

  /** Protects the messages one after the other; returns the COUNTs under
      which they went out. */
  method EncodeAll<M>(lib: Library<M>, ue: RanUeContext, msgs: seq<NasMessage<M>>) returns (used: seq<nat>)
    modifies ue
    ensures Consecutive(used, old(ue.ULCount).Get())
    ensures ue.ULCount.Get() == (old(ue.ULCount).Get() + |used|) % 0x100_0000
  {
    used := [];
    for n := 0 to |msgs|
      invariant Consecutive(used, old(ue.ULCount).Get())
      invariant ue.ULCount.Get() == (old(ue.ULCount).Get() + |used|) % 0x100_0000
    {
      var c := ue.ULCount;
      var r := NASEncode(lib, ue, Some(msgs[n]), true, false);
      assert ue.ULCount == if r.Ok? then c.AddOne() else c;
      if r.Ok? {
        ConsecutiveSnoc(used, old(ue.ULCount).Get(), c);
        used := used + [c.Get()];
      }
    }
  }

  /** The uplink part of one N2 handover: messages before it in the source
      context, the transfer, messages after it in the target context. */
  method HandoverUplink<M>(lib: Library<M>, ue: RanUeContext, before: seq<NasMessage<M>>, after: seq<NasMessage<M>>)
    returns (target: RanUeContext, used: seq<nat>)
    modifies ue
    ensures fresh(target)
    ensures Consecutive(used, old(ue.ULCount).Get())
    ensures target.ULCount.Get() == (old(ue.ULCount).Get() + |used|) % 0x100_0000
  {
    var used0 := EncodeAll(lib, ue, before);
    target := ue.TransferToTarget();
    var used1 := EncodeAll(lib, target, after);
    used := used0 + used1;
    ConsecutiveAppend(used0, used1, old(ue.ULCount).Get(), ue.ULCount.Get());
    AddModulo(old(ue.ULCount).Get(), |used0|, |used1|);
  }

  lemma ConsecutiveSnoc(used: seq<nat>, start: nat, c: Count)
    requires Consecutive(used, start) && c.Get() == (start + |used|) % 0x100_0000
    ensures Consecutive(used + [c.Get()], start)
    ensures c.AddOne().Get() == (start + |used + [c.Get()]|) % 0x100_0000
  {
    AddModulo(start, |used|, 1);
  }

  lemma AddModulo(a: nat, b: nat, c: nat)
    ensures ((a + b) % 0x100_0000 + c) % 0x100_0000 == (a + b + c) % 0x100_0000
  {
  }

  lemma ConsecutiveAppend(a: seq<nat>, b: seq<nat>, start: nat, middle: nat)
    requires Consecutive(a, start) && Consecutive(b, middle)
    requires middle == (start + |a|) % 0x100_0000
    ensures Consecutive(a + b, start)
  {
    forall i | |a| <= i < |a + b| ensures (a + b)[i] == (start + i) % 0x100_0000 {
      AddModulo(start, |a|, i - |a|);
      assert (a + b)[i] == b[i - |a|];
    }
  }
}
