/**
 The concurrent paging test of onvm_test/paging_test.go: workers that each
 signal their address, wait until they are paged and go on to the next round,
 and the controller that pings the addresses batch by batch.

 Every interleaving is covered: a run is any sequence of enabled actions. The
 network is one assumption: a worker is paged only after its own address of
 the current round was pinged.
 */
module Paging {
  import opened Bytes
  import opened PagingController

  /** threads and work_load, and the address a worker has in a round. */
  datatype Params = Params(threads: nat, workLoad: nat, address: (nat, nat) -> string)

  /** What a worker sends on the signal channel, by worker and round. */
  datatype Signal = Signal(worker: nat, round: nat)

  /** round counts the finished items; a waiting worker has sent its signal and
      reads messages until it is paged. */
  datatype Worker = Worker(round: nat, waiting: bool)

  /** The controller is at its channel or is pinging from its list. */
  datatype Phase = Receiving | Pinging(next: nat)

  datatype State = State(
    workers: seq<Worker>,
    chan: seq<Signal>,
    controller: Controller<Signal>,
    phase: Phase,
    batches: seq<seq<Signal>>, // the lists flushed so far
    pings: seq<Signal>)        // the pings started so far

  datatype Action = SendSignal(w: nat) | ReceiveSignal | Ping | BePaged(w: nat)

  predicate Blank(p: Params, s: Signal) {
    p.address(s.worker, s.round) == ""
  }

  function Init(p: Params): State {
    State(seq(p.threads, _ => Worker(0, false)), [],
          Controller(seq(p.threads, _ => Signal(0, 0)), 0), Receiving, [], [])
  }

  /** The signal channel has room for threads + 1 values. */
  predicate Enabled(p: Params, s: State, a: Action) {
    match a
    case SendSignal(w) =>
      && w < |s.workers| && !s.workers[w].waiting && s.workers[w].round < p.workLoad
      && |s.chan| < p.threads + 1
    case ReceiveSignal => s.phase.Receiving? && s.chan != [] && s.controller.counter < |s.controller.list|
    case Ping => s.phase.Pinging? && s.phase.next < |s.controller.list|
    case BePaged(w) =>
      && w < |s.workers| && s.workers[w].waiting
      && Signal(w, s.workers[w].round) in s.pings
  }

  function Next(p: Params, s: State, a: Action): State
    requires Enabled(p, s, a)
  {
    match a
    case SendSignal(w) =>
      s.(workers := s.workers[w := s.workers[w].(waiting := true)], chan := s.chan + [Signal(w, s.workers[w].round)])
    case ReceiveSignal =>
      var (c, flushed) := Accept(s.controller, s.chan[0], Blank(p, s.chan[0]));
      var s1 := s.(chan := s.chan[1..], controller := c);
      if flushed.None? then s1
      else s1.(batches := s.batches + [flushed.value], phase := Pinging(0))
    case Ping =>
      var i := s.phase.next;
      s.(pings := s.pings + [s.controller.list[i]],
         phase := if i + 1 == |s.controller.list| then Receiving else Pinging(i + 1))
    case BePaged(w) =>
      s.(workers := s.workers[w := Worker(s.workers[w].round + 1, false)])
  }

  function Addresses(p: Params, ss: seq<Signal>): seq<string> {
    seq(|ss|, i requires 0 <= i < |ss| => p.address(ss[i].worker, ss[i].round))
  }

  /** The controller of the test sees only addresses: what it does with them is
      the image of what this model does with the signals. */
  lemma ControllerSeesAddresses(p: Params, c: Controller<Signal>, a: Signal)
    requires c.counter < |c.list|
    ensures
      var address := p.address(a.worker, a.round);
      var (c1, flushed) := Accept(c, a, Blank(p, a));
      Accept(Controller(Addresses(p, c.list), c.counter), address, address == "")
      == (Controller(Addresses(p, c1.list), c1.counter),
          if flushed.None? then None else Some(Addresses(p, flushed.value)))
  {
    assert Addresses(p, c.list[c.counter := a]) == Addresses(p, c.list)[c.counter := p.address(a.worker, a.round)];
  }

  // ---------- The invariant ----------

  /** Collected in the list or still in the channel. */
  function Pending(s: State): seq<Signal>
    requires s.controller.counter <= |s.controller.list|
  {
    s.controller.list[..s.controller.counter] + s.chan
  }

  ghost predicate DistinctWorkers(ss: seq<Signal>) {
    forall i, j | 0 <= i < j < |ss| :: ss[i].worker != ss[j].worker
  }

  /** Signals of one round from different workers. */
  ghost predicate OfRound(p: Params, ss: seq<Signal>, round: nat) {
    && (forall i | 0 <= i < |ss| :: ss[i].worker < p.threads && ss[i].round == round)
    && DistinctWorkers(ss)
  }

  ghost predicate NoneBlank(p: Params, ss: seq<Signal>) {
    forall i | 0 <= i < |ss| :: !Blank(p, ss[i])
  }

  /** One address from every worker, all of this round. */
  ghost predicate FullBatch(p: Params, b: seq<Signal>, round: nat) {
    |b| == p.threads && OfRound(p, b, round) && NoneBlank(p, b)
  }

  function Flatten(bs: seq<seq<Signal>>): seq<Signal> {
    if bs == [] then [] else Flatten(bs[..|bs| - 1]) + bs[|bs| - 1]
  }

  ghost predicate WorkersInv(p: Params, s: State) {
    && |s.workers| == p.threads
    && forall w | 0 <= w < p.threads ::
         && s.workers[w].round <= |s.batches| <= s.workers[w].round + 1
         && s.workers[w].round <= p.workLoad
         && (s.workers[w].waiting ==> s.workers[w].round < p.workLoad)
         && (s.workers[w].round < |s.batches| ==> s.workers[w].waiting)
  }

  ghost predicate PendingInv(p: Params, s: State) {
    && |s.controller.list| == p.threads
    && (if p.threads == 0 then s.controller.counter == 0 else s.controller.counter < p.threads)
    && |s.workers| == p.threads
    && OfRound(p, Pending(s), |s.batches|)
    && NoneBlank(p, s.controller.list[..s.controller.counter])
    && (forall i | 0 <= i < |Pending(s)| :: s.workers[Pending(s)[i].worker] == Worker(|s.batches|, true))
    && forall w | 0 <= w < p.threads && s.workers[w] == Worker(|s.batches|, true) ::
         Blank(p, Signal(w, |s.batches|)) || Signal(w, |s.batches|) in Pending(s)
  }

  ghost predicate BatchesInv(p: Params, s: State) {
    && (forall k | 0 <= k < |s.batches| :: FullBatch(p, s.batches[k], k))
    && (s.phase.Receiving? ==> s.pings == Flatten(s.batches))
    && (s.phase.Pinging? ==>
          && s.batches != [] && s.controller.counter == 0
          && s.phase.next < |s.controller.list|
          && s.controller.list == s.batches[|s.batches| - 1]
          && s.pings == Flatten(s.batches[..|s.batches| - 1]) + s.controller.list[..s.phase.next])
  }

  ghost predicate Inv(p: Params, s: State) {
    WorkersInv(p, s) && PendingInv(p, s) && BatchesInv(p, s)
  }

  // ---------- Counting workers ----------

  function Below(n: nat): (r: set<nat>)
    ensures |r| == n
    ensures forall w: nat :: w in r <==> w < n
  {
    if n == 0 then {}
    else
      var s := Below(n - 1);
      assert n - 1 !in s;
      s + {n - 1}
  }

  function WorkersOf(ss: seq<Signal>): set<nat> {
    set i | 0 <= i < |ss| :: ss[i].worker
  }

  lemma {:induction false} SizeOfWorkers(ss: seq<Signal>)
    requires DistinctWorkers(ss)
    ensures |WorkersOf(ss)| == |ss|
  {
    if ss == [] {
    } else {
      var last := |ss| - 1;
      SizeOfWorkers(ss[..last]);
      assert WorkersOf(ss) == WorkersOf(ss[..last]) + {ss[last].worker};
    }
  }

  lemma SubsetIsSmaller(a: set<nat>, b: set<nat>)
    requires a <= b
    ensures |a| <= |b| && (|a| == |b| ==> a == b)
  {
    assert b == a + (b - a);
    assert |b| == |a| + |b - a|;
  }

  /** Signals of one round are at most one per worker; when there are that
      many, there is one from every worker. */
  lemma RoundIsFull(p: Params, ss: seq<Signal>, round: nat)
    requires OfRound(p, ss, round)
    ensures |ss| <= p.threads
    ensures |ss| == p.threads ==> forall w | 0 <= w < p.threads :: Signal(w, round) in ss
  {
    SizeOfWorkers(ss);
    SubsetIsSmaller(WorkersOf(ss), Below(p.threads));
    forall w | 0 <= w < p.threads && |ss| == p.threads ensures Signal(w, round) in ss {
      assert w in WorkersOf(ss);
      var i :| 0 <= i < |ss| && ss[i].worker == w;
      assert ss[i] == Signal(w, round);
    }
  }

  lemma {:induction false} FlattenRounds(p: Params, bs: seq<seq<Signal>>)
    requires forall k | 0 <= k < |bs| :: FullBatch(p, bs[k], k)
    ensures forall i | 0 <= i < |Flatten(bs)| :: Flatten(bs)[i].round < |bs|
  {
    if bs == [] {
    } else {
      FlattenRounds(p, bs[..|bs| - 1]);
    }
  }

  /** Everything pinged is of a round before the one being collected. */
  lemma PingsAreOld(p: Params, s: State)
    requires Inv(p, s)
    ensures forall i | 0 <= i < |s.pings| :: s.pings[i].round < |s.batches|
  {
    if s.phase.Receiving? {
      FlattenRounds(p, s.batches);
    } else {
      FlattenRounds(p, s.batches[..|s.batches| - 1]);
      assert FullBatch(p, s.controller.list, |s.batches| - 1);
    }
  }

  // ---------- Preservation ----------

  lemma InitInv(p: Params)
    ensures Inv(p, Init(p))
  {
  }

  lemma SendSignalInv(p: Params, s: State, w: nat)
    requires Inv(p, s) && Enabled(p, s, SendSignal(w))
    ensures Inv(p, Next(p, s, SendSignal(w)))
  {
    var t := Next(p, s, SendSignal(w));
    assert s.workers[w].round == |s.batches|;
    assert Pending(t) == Pending(s) + [Signal(w, |s.batches|)];
    assert forall i | 0 <= i < |Pending(s)| :: Pending(s)[i].worker != w;
    forall v | 0 <= v < p.threads && t.workers[v] == Worker(|t.batches|, true)
      ensures Blank(p, Signal(v, |t.batches|)) || Signal(v, |t.batches|) in Pending(t)
    {
      if v == w {
        assert Pending(t)[|Pending(s)|] == Signal(w, |t.batches|);
      }
    }
  }

  lemma ReceiveInv(p: Params, s: State)
    requires Inv(p, s) && Enabled(p, s, ReceiveSignal)
    ensures Inv(p, Next(p, s, ReceiveSignal))
  {
    if Blank(p, s.chan[0]) {
      ReceiveBlankInv(p, s);
    } else if s.controller.counter + 1 < |s.controller.list| {
      ReceiveMoreInv(p, s);
    } else {
      ReceiveLastInv(p, s);
    }
  }

  /** What remains of some signals when the one at c is taken out. */
  lemma Without(p: Params, ss: seq<Signal>, round: nat, c: nat)
    requires c < |ss| && OfRound(p, ss, round)
    ensures OfRound(p, ss[..c] + ss[c + 1..], round)
    ensures forall x :: x in ss[..c] + ss[c + 1..] <==> x in ss && x != ss[c]
  {
    var rest := ss[..c] + ss[c + 1..];
    assert forall i | 0 <= i < |rest| :: rest[i] == ss[if i < c then i else i + 1];
    forall x | x in ss && x != ss[c] ensures x in rest {
      var i :| 0 <= i < |ss| && ss[i] == x;
      assert rest[if i < c then i else i - 1] == x;
    }
  }

  lemma ReceiveBlankInv(p: Params, s: State)
    requires Inv(p, s) && Enabled(p, s, ReceiveSignal) && Blank(p, s.chan[0])
    ensures Inv(p, Next(p, s, ReceiveSignal))
  {
    var t := Next(p, s, ReceiveSignal);
    var c := s.controller.counter;
    Without(p, Pending(s), |s.batches|, c);
    assert Pending(t) == Pending(s)[..c] + Pending(s)[c + 1..];
    assert Pending(s)[c] == s.chan[0];
    forall i | 0 <= i < |Pending(t)| ensures t.workers[Pending(t)[i].worker] == Worker(|t.batches|, true) {
      assert Pending(t)[i] in Pending(s);
    }
  }

  lemma ReceiveMoreInv(p: Params, s: State)
    requires Inv(p, s) && Enabled(p, s, ReceiveSignal)
    requires !Blank(p, s.chan[0]) && s.controller.counter + 1 < |s.controller.list|
    ensures Inv(p, Next(p, s, ReceiveSignal))
  {
    var t := Next(p, s, ReceiveSignal);
    assert t.controller.list[..t.controller.counter] == s.controller.list[..s.controller.counter] + [s.chan[0]];
    assert Pending(t) == Pending(s);
  }

  /** The last signal of a round makes the batch full; nothing is behind it. */
  lemma LastCompletesBatch(p: Params, s: State)
    requires Inv(p, s) && Enabled(p, s, ReceiveSignal)
    requires !Blank(p, s.chan[0]) && s.controller.counter + 1 == |s.controller.list|
    ensures FullBatch(p, s.controller.list[..s.controller.counter] + [s.chan[0]], |s.batches|)
    ensures s.chan == [s.chan[0]]
    ensures forall w | 0 <= w < p.threads :: s.workers[w] == Worker(|s.batches|, true)
  {
    var b := s.controller.list[..s.controller.counter] + [s.chan[0]];
    assert Pending(s) == b + s.chan[1..];
    RoundIsFull(p, Pending(s), |s.batches|);
    assert s.chan[1..] == [];
    assert Pending(s) == b;
    forall w | 0 <= w < p.threads ensures s.workers[w] == Worker(|s.batches|, true) {
      var i :| 0 <= i < |b| && b[i] == Signal(w, |s.batches|);
      assert Pending(s)[i] == b[i];
    }
  }

  lemma ReceiveLastInv(p: Params, s: State)
    requires Inv(p, s) && Enabled(p, s, ReceiveSignal)
    requires !Blank(p, s.chan[0]) && s.controller.counter + 1 == |s.controller.list|
    ensures Inv(p, Next(p, s, ReceiveSignal))
  {
    LastCompletesBatch(p, s);
    var t := Next(p, s, ReceiveSignal);
    var b := t.controller.list;
    assert b == s.controller.list[..s.controller.counter] + [s.chan[0]];
    BatchFlushed(p, s, b, t);
  }

  lemma BatchFlushed(p: Params, s: State, b: seq<Signal>, t: State)
    requires WorkersInv(p, s) && BatchesInv(p, s) && s.phase.Receiving?
    requires FullBatch(p, b, |s.batches|) && b != []
    requires forall w | 0 <= w < p.threads :: s.workers[w] == Worker(|s.batches|, true)
    requires t == State(s.workers, [], Controller(b, 0), Pinging(0), s.batches + [b], s.pings)
    ensures Inv(p, t)
  {
    assert PendingInv(p, t) by {
      assert Pending(t) == [];
    }
    assert BatchesInv(p, t) by {
      assert t.batches[..|t.batches| - 1] == s.batches;
      assert b[..0] == [];
    }
  }

  lemma PingInv(p: Params, s: State)
    requires Inv(p, s) && Enabled(p, s, Ping)
    ensures Inv(p, Next(p, s, Ping))
  {
    var t := Next(p, s, Ping);
    var i := s.phase.next;
    var b := s.controller.list;
    assert b[..i] + [b[i]] == b[..i + 1];
    assert t.pings == Flatten(s.batches[..|s.batches| - 1]) + b[..i + 1];
    if i + 1 == |b| {
      assert b[..i + 1] == b;
    }
    assert Pending(t) == Pending(s);
  }

  lemma BePagedInv(p: Params, s: State, w: nat)
    requires Inv(p, s) && Enabled(p, s, BePaged(w))
    ensures Inv(p, Next(p, s, BePaged(w)))
  {
    PingsAreOld(p, s);
    var t := Next(p, s, BePaged(w));
    assert s.workers[w].round < |s.batches|;
    assert Pending(t) == Pending(s);
    assert forall i | 0 <= i < |Pending(s)| :: Pending(s)[i].worker != w;
  }

  lemma NextInv(p: Params, s: State, a: Action)
    requires Inv(p, s) && Enabled(p, s, a)
    ensures Inv(p, Next(p, s, a))
  {
    match a {
      case SendSignal(w) => SendSignalInv(p, s, w);
      case ReceiveSignal => ReceiveInv(p, s);
      case Ping => PingInv(p, s);
      case BePaged(w) => BePagedInv(p, s, w);
    }
  }

  // ---------- Runs ----------

  predicate CanRun(p: Params, s: State, acts: seq<Action>)
    decreases |acts|
  {
    acts == [] || (Enabled(p, s, acts[0]) && CanRun(p, Next(p, s, acts[0]), acts[1..]))
  }

  function Final(p: Params, s: State, acts: seq<Action>): State
    requires CanRun(p, s, acts)
    decreases |acts|
  {
    if acts == [] then s else Final(p, Next(p, s, acts[0]), acts[1..])
  }

  lemma {:induction false} RunInv(p: Params, s: State, acts: seq<Action>)
    requires Inv(p, s) && CanRun(p, s, acts)
    ensures Inv(p, Final(p, s, acts))
    decreases |acts|
  {
    if acts == [] {
    } else {
      NextInv(p, s, acts[0]);
      RunInv(p, Next(p, s, acts[0]), acts[1..]);
    }
  }

  /** The round barrier: after any run, the k-th flushed batch holds exactly
      one address of every worker, the one of its round k. */
  lemma RoundBarrier(p: Params, acts: seq<Action>, k: nat)
    requires CanRun(p, Init(p), acts)
    requires k < |Final(p, Init(p), acts).batches|
    ensures
      var b := Final(p, Init(p), acts).batches[k];
      && |b| == p.threads
      && (forall w | 0 <= w < p.threads :: Signal(w, k) in b)
      && (forall i | 0 <= i < |b| :: b[i].worker < p.threads && b[i].round == k)
      && (forall i, j | 0 <= i < j < |b| :: b[i] != b[j])
  {
    InitInv(p);
    RunInv(p, Init(p), acts);
    var b := Final(p, Init(p), acts).batches[k];
    assert FullBatch(p, b, k);
    RoundIsFull(p, b, k);
  }

  /** The signal channel never holds more than threads values, so sending
      never blocks. */
  lemma ChannelNeverFull(p: Params, acts: seq<Action>)
    requires CanRun(p, Init(p), acts)
    ensures |Final(p, Init(p), acts).chan| <= p.threads
    ensures
      var s := Final(p, Init(p), acts);
      forall w: nat | w < |s.workers| && !s.workers[w].waiting && s.workers[w].round < p.workLoad ::
        Enabled(p, s, SendSignal(w))
  {
    InitInv(p);
    RunInv(p, Init(p), acts);
    var s := Final(p, Init(p), acts);
    RoundIsFull(p, Pending(s), |s.batches|);
  }

  // ---------- Progress ----------

  ghost predicate AllAddressed(p: Params) {
    forall w, r | 0 <= w < p.threads && 0 <= r < p.workLoad :: !Blank(p, Signal(w, r))
  }

  /** What the workers still have to do: four actions a round. */
  function Owed(p: Params, ws: seq<Worker>): int {
    if ws == [] then 0
    else 4 * (p.workLoad - ws[0].round) - (if ws[0].waiting then 3 else 0) + Owed(p, ws[1..])
  }

  function Measure(p: Params, s: State): int {
    Owed(p, s.workers) + 2 * |s.chan| + s.controller.counter
    + if s.phase.Pinging? then |s.controller.list| - s.phase.next else 0
  }

  lemma {:induction false} OwedUpdate(p: Params, ws: seq<Worker>, w: nat, x: Worker)
    requires w < |ws|
    ensures Owed(p, ws[w := x])
            == Owed(p, ws) + 4 * (ws[w].round - x.round)
               + (if ws[w].waiting then 3 else 0) - (if x.waiting then 3 else 0)
  {
    if w == 0 {
      assert ws[w := x][1..] == ws[1..];
    } else {
      assert ws[w := x][1..] == ws[1..][w - 1 := x];
      OwedUpdate(p, ws[1..], w - 1, x);
    }
  }

  /** Every action uses up one unit; receiving a blank address, two. */
  lemma MeasureDecreases(p: Params, s: State, a: Action)
    requires Inv(p, s) && Enabled(p, s, a)
    ensures Measure(p, Next(p, s, a))
            == Measure(p, s) - if a.ReceiveSignal? && Blank(p, s.chan[0]) then 2 else 1
  {
    match a {
      case SendSignal(w) => OwedUpdate(p, s.workers, w, Next(p, s, a).workers[w]);
      case ReceiveSignal =>
      case Ping =>
      case BePaged(w) => OwedUpdate(p, s.workers, w, Next(p, s, a).workers[w]);
    }
  }

  lemma {:induction false} OwedIsNatural(p: Params, ws: seq<Worker>)
    requires forall w | 0 <= w < |ws| :: ws[w].round <= p.workLoad && (ws[w].waiting ==> ws[w].round < p.workLoad)
    ensures Owed(p, ws) >= 0
    ensures Owed(p, ws) == 0 <==> forall w | 0 <= w < |ws| :: ws[w] == Worker(p.workLoad, false)
  {
    if ws == [] {
    } else {
      var rest := ws[1..];
      assert forall w | 0 <= w < |rest| :: rest[w] == ws[w + 1];
      OwedIsNatural(p, rest);
      assert forall w | 1 <= w < |ws| :: ws[w] == rest[w - 1];
    }
  }

  lemma {:induction false} OwedAtStart(p: Params, n: nat)
    ensures Owed(p, seq(n, _ => Worker(0, false))) == n * (4 * p.workLoad)
  {
    var ws := seq(n, _ => Worker(0, false));
    if n == 0 {
    } else {
      assert ws[1..] == seq(n - 1, _ => Worker(0, false));
      OwedAtStart(p, n - 1);
    }
  }

  /** All items are done and nothing is in flight. */
  ghost predicate Finished(p: Params, s: State) {
    && (forall w | 0 <= w < |s.workers| :: s.workers[w] == Worker(p.workLoad, false))
    && s.chan == [] && s.controller.counter == 0 && s.phase.Receiving?
  }

  lemma MeasureIsNatural(p: Params, s: State)
    requires Inv(p, s)
    ensures Measure(p, s) >= 0
    ensures Measure(p, s) == 0 <==> Finished(p, s)
  {
    OwedIsNatural(p, s.workers);
  }

  ghost predicate Stuck(p: Params, s: State) {
    forall a :: !Enabled(p, s, a)
  }

  /** While something is left to do, some action is enabled. */
  lemma SomethingIsEnabled(p: Params, s: State) returns (a: Action)
    requires Inv(p, s) && AllAddressed(p) && !Finished(p, s)
    ensures Enabled(p, s, a)
  {
    RoundIsFull(p, Pending(s), |s.batches|);
    if s.phase.Pinging? {
      a := Ping;
    } else if s.chan != [] {
      assert Pending(s)[s.controller.counter].worker < p.threads;
      a := ReceiveSignal;
    } else if w :| 0 <= w < p.threads && !s.workers[w].waiting && s.workers[w].round < p.workLoad {
      a := SendSignal(w);
    } else if w :| 0 <= w < p.threads && s.workers[w].waiting && s.workers[w].round < |s.batches| {
      a := BePaged(w);
      WasPinged(p, s, w);
    } else {
      NobodyIsLeft(p, s);
      assert false;
      a := Ping;
    }
  }

  lemma WasPinged(p: Params, s: State, w: nat)
    requires Inv(p, s) && s.phase.Receiving?
    requires w < p.threads && s.workers[w].round + 1 == |s.batches|
    ensures Signal(w, s.workers[w].round) in s.pings
  {
    var last := |s.batches| - 1;
    RoundIsFull(p, s.batches[last], last);
    assert s.pings == Flatten(s.batches[..last]) + s.batches[last];
  }

  lemma NobodyIsLeft(p: Params, s: State)
    requires Inv(p, s) && AllAddressed(p)
    requires s.phase.Receiving? && s.chan == []
    requires forall w | 0 <= w < p.threads ::
               if s.workers[w].waiting then s.workers[w].round == |s.batches| else s.workers[w].round == p.workLoad
    ensures Finished(p, s)
  {
    if v :| 0 <= v < p.threads && s.workers[v].waiting {
      forall w | 0 <= w < p.threads ensures Signal(w, |s.batches|) in Pending(s) {
        assert s.workers[v].round < p.workLoad && s.workers[w].round <= |s.batches|;
        assert !Blank(p, Signal(w, |s.batches|));
      }
      PendingIsFull(p, s);
      assert false;
    } else if s.controller.counter > 0 {
      var w := CollectedWaits(p, s);
      assert false;
    }
  }

  lemma CollectedWaits(p: Params, s: State) returns (w: nat)
    requires Inv(p, s) && s.controller.counter > 0
    ensures w < p.threads && s.workers[w].waiting
  {
    w := Pending(s)[0].worker;
  }

  lemma PendingIsFull(p: Params, s: State)
    requires Inv(p, s)
    requires forall w | 0 <= w < p.threads :: Signal(w, |s.batches|) in Pending(s)
    ensures |Pending(s)| == p.threads
  {
    RoundIsFull(p, Pending(s), |s.batches|);
    SizeOfWorkers(Pending(s));
    forall w | w in Below(p.threads) ensures w in WorkersOf(Pending(s)) {
      var i :| 0 <= i < |Pending(s)| && Pending(s)[i] == Signal(w, |s.batches|);
      assert Pending(s)[i].worker == w;
    }
    SubsetIsSmaller(Below(p.threads), WorkersOf(Pending(s)));
  }

  lemma {:induction false} RunMeasure(p: Params, s: State, acts: seq<Action>)
    requires Inv(p, s) && CanRun(p, s, acts)
    ensures Measure(p, Final(p, s, acts)) + |acts| <= Measure(p, s)
    ensures AllAddressed(p) ==> Measure(p, Final(p, s, acts)) + |acts| == Measure(p, s)
    decreases |acts|
  {
    if acts == [] {
    } else {
      var t := Next(p, s, acts[0]);
      NextInv(p, s, acts[0]);
      MeasureDecreases(p, s, acts[0]);
      RunMeasure(p, t, acts[1..]);
      if acts[0].ReceiveSignal? {
        var c := Pending(s)[s.controller.counter];
        assert c == s.chan[0] && s.workers[c.worker] == Worker(|s.batches|, true);
        assert c == Signal(c.worker, c.round);
      }
    }
  }

  /** No run is longer than four actions per thread and round. When every
      address is non-blank, a run that cannot go on has exactly that length,
      and every worker has finished. */
  lemma RunsAreBounded(p: Params, acts: seq<Action>)
    requires CanRun(p, Init(p), acts)
    ensures |acts| <= p.threads * (4 * p.workLoad)
    ensures AllAddressed(p) ==>
              (Stuck(p, Final(p, Init(p), acts)) <==> |acts| == p.threads * (4 * p.workLoad))
    ensures AllAddressed(p) ==>
              (Stuck(p, Final(p, Init(p), acts)) <==> Finished(p, Final(p, Init(p), acts)))
  {
    InitInv(p);
    RunInv(p, Init(p), acts);
    RunMeasure(p, Init(p), acts);
    OwedAtStart(p, p.threads);
    MeasureIsNatural(p, Final(p, Init(p), acts));
    if AllAddressed(p) {
      StuckIsFinished(p, Final(p, Init(p), acts));
    }
  }

  lemma StuckIsFinished(p: Params, s: State)
    requires Inv(p, s) && AllAddressed(p)
    ensures Stuck(p, s) <==> Finished(p, s)
  {
    if Finished(p, s) {
      forall a ensures !Enabled(p, s, a) {
      }
    } else {
      var a := SomethingIsEnabled(p, s);
      assert Enabled(p, s, a);
    }
  }

  /** A blank address stops everything: the batch of its round is never
      flushed, and no worker ever finishes that round. */
  lemma BlankAddressWedges(p: Params, acts: seq<Action>, w: nat, r: nat)
    requires CanRun(p, Init(p), acts)
    requires w < p.threads && r < p.workLoad && Blank(p, Signal(w, r))
    ensures |Final(p, Init(p), acts).batches| <= r
    ensures forall v | 0 <= v < |Final(p, Init(p), acts).workers| :: Final(p, Init(p), acts).workers[v].round <= r
    ensures !Finished(p, Final(p, Init(p), acts))
  {
    InitInv(p);
    RunInv(p, Init(p), acts);
    BlankStateWedges(p, Final(p, Init(p), acts), w, r);
  }

  lemma BlankStateWedges(p: Params, s: State, w: nat, r: nat)
    requires Inv(p, s)
    requires w < p.threads && r < p.workLoad && Blank(p, Signal(w, r))
    ensures |s.batches| <= r
    ensures forall v | 0 <= v < |s.workers| :: s.workers[v].round <= r
    ensures !Finished(p, s)
  {
    if |s.batches| > r {
      FullBatchIsAddressed(p, s.batches[r], r);
      assert false;
    }
    assert s.workers[w].round <= r;
  }

  lemma FullBatchIsAddressed(p: Params, b: seq<Signal>, round: nat)
    requires FullBatch(p, b, round)
    ensures forall w | 0 <= w < p.threads :: !Blank(p, Signal(w, round))
  {
    RoundIsFull(p, b, round);
  }

  /** A run that cannot go on has finished all its work exactly when every
      address is non-blank. */
  lemma CompletesExactly(p: Params, acts: seq<Action>)
    requires CanRun(p, Init(p), acts) && Stuck(p, Final(p, Init(p), acts))
    ensures Finished(p, Final(p, Init(p), acts)) <==> AllAddressed(p)
  {
    RunsAreBounded(p, acts);
    if !AllAddressed(p) {
      var w, r :| 0 <= w < p.threads && 0 <= r < p.workLoad && Blank(p, Signal(w, r));
      BlankAddressWedges(p, acts, w, r);
    }
  }
}
