/** Which identities the load test registers: items are spread over workers by
    WorkDistribution, and item i uses the i-th generated identity. backing is the
    generated slice with whatever its capacity holds behind it. */
module RegisteredIdentities {
  import opened MobileIdentity
  import opened WorkDistribution

  /** Every logged item is one of the workload. */
  lemma LoggedItems(p: Params, acts: seq<Action>, i: nat)
    requires CanRun(p, Init(p), acts) && i < |Final(p, Init(p), acts).log|
    ensures LoggedItem(p, Final(p, Init(p), acts), i) < p.Amount()
  {
    InitInv(p);
    RunInv(p, Init(p), acts);
    var s := Final(p, Init(p), acts);
    var (w, k) := s.log[i];
    assert WorkerInv(p, s.workers[w]) && k < p.workLoad;
    TimesIsMonotone(w + 1, p.threads, p.workLoad);
    OneMoreTime(w, p.workLoad);
  }

  function LoggedItem(p: Params, s: State, i: nat): nat
    requires i < |s.log|
  {
    Item(p, s.log[i].0, s.log[i].1)
  }

  lemma LoggedItemsDiffer(p: Params, acts: seq<Action>, i: nat, j: nat)
    requires CanRun(p, Init(p), acts) && i < j < |Final(p, Init(p), acts).log|
    ensures LoggedItem(p, Final(p, Init(p), acts), i) != LoggedItem(p, Final(p, Init(p), acts), j)
  {
    InitInv(p);
    RunInv(p, Init(p), acts);
    var s := Final(p, Init(p), acts);
    assert WorkerInv(p, s.workers[s.log[i].0]) && WorkerInv(p, s.workers[s.log[j].0]);
    SlicesAreDisjoint(p, s.log[i].0, s.log[i].1, s.log[j].0, s.log[j].1);
  }

  /** ids are the identities registered so far, in order. */
  ghost predicate AreRegistered(p: Params, s: State, backing: seq<Identity>, ids: seq<Identity>) {
    && |ids| == |s.log|
    && forall i | 0 <= i < |ids| :: LoggedItem(p, s, i) < |backing| && ids[i] == backing[LoggedItem(p, s, i)]
  }

  /** They are determined after every run. */
  lemma RegisteredExist(p: Params, acts: seq<Action>, backing: seq<Identity>) returns (ids: seq<Identity>)
    requires CanRun(p, Init(p), acts) && p.Amount() <= |backing|
    ensures AreRegistered(p, Final(p, Init(p), acts), backing, ids)
  {
    var s := Final(p, Init(p), acts);
    forall i | 0 <= i < |s.log| ensures LoggedItem(p, s, i) < |backing| {
      LoggedItems(p, acts, i);
    }
    ids := seq(|s.log|, i requires 0 <= i < |s.log| => backing[LoggedItem(p, s, i)]);
  }

  /** In every interleaving, at every moment, no identity was registered twice
      while the workload has at most 10000 items. */
  lemma NeverRegisteredTwice(p: Params, acts: seq<Action>, result: seq<Identity>, backing: seq<Identity>)
    returns (ids: seq<Identity>)
    requires IsGroup(result) && result <= backing && p.Amount() <= 10000
    requires CanRun(p, Init(p), acts)
    ensures AreRegistered(p, Final(p, Init(p), acts), backing, ids) && PairwiseDistinct(ids)
  {
    ids := RegisteredExist(p, acts, backing);
    var s := Final(p, Init(p), acts);
    forall i, j | 0 <= i < j < |ids| ensures ids[i] != ids[j] {
      LoggedItems(p, acts, i);
      LoggedItems(p, acts, j);
      LoggedItemsDiffer(p, acts, i, j);
      DistinctIdentities(ids[i], LoggedItem(p, s, i), ids[j], LoggedItem(p, s, j));
    }
  }

  /** At close the identities registered are distinct if and only if there are at
      most 10000 items. */
  lemma RegisteredExactly(p: Params, acts: seq<Action>, result: seq<Identity>, backing: seq<Identity>)
    returns (ids: seq<Identity>)
    requires IsGroup(result) && result <= backing && p.Amount() <= |backing|
    requires CanRun(p, Init(p), acts) && Final(p, Init(p), acts).reg.closed
    ensures AreRegistered(p, Final(p, Init(p), acts), backing, ids)
    ensures PairwiseDistinct(ids) <==> p.Amount() <= 10000
  {
    if p.Amount() <= 10000 {
      ids := NeverRegisteredTwice(p, acts, result, backing);
    } else {
      ids := RegisteredExist(p, acts, backing);
      var i := EverythingIsDoneAtClose(p, acts, 0);
      var j := EverythingIsDoneAtClose(p, acts, 10000);
      var s := Final(p, Init(p), acts);
      assert LoggedItem(p, s, i) == 0 && LoggedItem(p, s, j) == 10000;
      assert ids[i] == result[0] == result[10000] == ids[j];
    }
  }
}
