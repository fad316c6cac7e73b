/**
 How onvm_test/registration_test.go spreads its items over workers: worker x
 takes the slice of workLoad items from x * workLoad on, and for each item
 sends one value on each of two buffered latency channels. The channels are
 drained by loggers and closed when all workers are done.
 */
module WorkDistribution {
  datatype Params = Params(threads: nat, workLoad: nat) {
    function Amount(): nat {
      threads * workLoad
    }
  }

  datatype Stage = Idle | Registered | SentFirst

  /** item counts the finished items of the worker's slice. */
  datatype Worker = Worker(item: nat, stage: Stage, done: bool)

  /** A latency channel: what was ever sent, and what a logger has taken. */
  datatype Channel = Channel(sent: nat, taken: nat, closed: bool)

  /** log records every registration: by which worker, for which item of its
      slice. */
  datatype State = State(workers: seq<Worker>, reg: Channel, pdu: Channel, log: seq<(nat, nat)>)

  datatype Action =
    | Register(w: nat)
    | SendReg(w: nat)
    | SendPdu(w: nat)
    | Finish(w: nat)
    | TakeReg
    | TakePdu
    | Close

  function Init(p: Params): State {
    State(seq(p.threads, _ => Worker(0, Idle, false)), Channel(0, 0, false), Channel(0, 0, false), [])
  }

  /** Buffers hold amount + 1 values; main closes after wg.Wait. A send on a
      closed channel would panic, so it is not prevented here. */
  predicate Enabled(p: Params, s: State, a: Action) {
    match a
    case Register(w) => w < |s.workers| && s.workers[w].stage == Idle && s.workers[w].item < p.workLoad
    case SendReg(w) => w < |s.workers| && s.workers[w].stage == Registered && s.reg.sent - s.reg.taken < p.Amount() + 1
    case SendPdu(w) => w < |s.workers| && s.workers[w].stage == SentFirst && s.pdu.sent - s.pdu.taken < p.Amount() + 1
    case Finish(w) =>
      w < |s.workers| && s.workers[w].stage == Idle && s.workers[w].item == p.workLoad && !s.workers[w].done
    case TakeReg => s.reg.taken < s.reg.sent
    case TakePdu => s.pdu.taken < s.pdu.sent
    case Close => !s.reg.closed && forall w | 0 <= w < |s.workers| :: s.workers[w].done
  }

  function Next(p: Params, s: State, a: Action): State
    requires Enabled(p, s, a)
  {
    match a
    case Register(w) =>
      s.(workers := s.workers[w := s.workers[w].(stage := Registered)],
         log := s.log + [(w, s.workers[w].item)])
    case SendReg(w) =>
      s.(workers := s.workers[w := s.workers[w].(stage := SentFirst)], reg := s.reg.(sent := s.reg.sent + 1))
    case SendPdu(w) =>
      s.(workers := s.workers[w := s.workers[w].(stage := Idle, item := s.workers[w].item + 1)],
         pdu := s.pdu.(sent := s.pdu.sent + 1))
    case Finish(w) => s.(workers := s.workers[w := s.workers[w].(done := true)])
    case TakeReg => s.(reg := s.reg.(taken := s.reg.taken + 1))
    case TakePdu => s.(pdu := s.pdu.(taken := s.pdu.taken + 1))
    case Close => s.(reg := s.reg.(closed := true), pdu := s.pdu.(closed := true))
  }

  predicate CanRun(p: Params, s: State, acts: seq<Action>)
    decreases |acts|
  {
    acts == [] || (Enabled(p, s, acts[0]) && CanRun(p, Next(p, s, acts[0]), acts[1..]))
  }

  function Final(p: Params, s: State, acts: seq<Action>): State
    requires CanRun(p, s, acts)
    decreases |acts|
  {
    if acts == [] then s else Final(p, Next(p, s, acts[0]), acts[1..])
  }

  // ---------- The invariant ----------

  function RegSends(w: Worker): nat {
    w.item + if w.stage == SentFirst then 1 else 0
  }

  function Started(w: Worker): nat {
    w.item + if w.stage == Idle then 0 else 1
  }

  function TotalReg(ws: seq<Worker>): nat {
    if ws == [] then 0 else RegSends(ws[0]) + TotalReg(ws[1..])
  }

  function TotalPdu(ws: seq<Worker>): nat {
    if ws == [] then 0 else ws[0].item + TotalPdu(ws[1..])
  }

  ghost predicate WorkerInv(p: Params, w: Worker) {
    && w.item <= p.workLoad
    && (w.stage != Idle ==> w.item < p.workLoad)
    && (w.done ==> w.item == p.workLoad && w.stage == Idle)
  }

  /** The log holds exactly the items begun, each once. */
  ghost predicate LogInv(s: State) {
    && (forall i | 0 <= i < |s.log| :: s.log[i].0 < |s.workers| && s.log[i].1 < Started(s.workers[s.log[i].0]))
    && (forall i, j | 0 <= i < j < |s.log| :: s.log[i] != s.log[j])
    && forall w: nat, k: nat | w < |s.workers| && k < Started(s.workers[w]) :: (w, k) in s.log
  }

  ghost predicate Inv(p: Params, s: State) {
    && |s.workers| == p.threads
    && (forall w | 0 <= w < |s.workers| :: WorkerInv(p, s.workers[w]))
    && s.reg.sent == TotalReg(s.workers) && s.pdu.sent == TotalPdu(s.workers)
    && s.reg.taken <= s.reg.sent && s.pdu.taken <= s.pdu.sent
    && s.reg.closed == s.pdu.closed
    && (s.reg.closed ==> forall w | 0 <= w < |s.workers| :: s.workers[w].done)
    && LogInv(s)
  }

  lemma {:induction false} TotalsUpdate(ws: seq<Worker>, w: nat, x: Worker)
    requires w < |ws|
    ensures TotalReg(ws[w := x]) + RegSends(ws[w]) == TotalReg(ws) + RegSends(x)
    ensures TotalPdu(ws[w := x]) + ws[w].item == TotalPdu(ws) + x.item
  {
    if w == 0 {
      assert ws[w := x][1..] == ws[1..];
    } else {
      assert ws[w := x][1..] == ws[1..][w - 1 := x];
      TotalsUpdate(ws[1..], w - 1, x);
    }
  }

  lemma OneMoreTime(n: nat, k: nat)
    ensures (n + 1) * k == n * k + k
  {
  }

  lemma {:induction false} TotalsBound(p: Params, ws: seq<Worker>)
    requires forall w | 0 <= w < |ws| :: WorkerInv(p, ws[w])
    ensures TotalReg(ws) <= |ws| * p.workLoad && TotalPdu(ws) <= TotalReg(ws) <= TotalPdu(ws) + |ws|
    ensures (forall w | 0 <= w < |ws| :: ws[w].done) ==> TotalReg(ws) == TotalPdu(ws) == |ws| * p.workLoad
  {
    if ws == [] {
    } else {
      var rest := ws[1..];
      assert forall w | 0 <= w < |rest| :: rest[w] == ws[w + 1];
      TotalsBound(p, rest);
      OneMoreTime(|rest|, p.workLoad);
    }
  }

  /** A worker that has begun k items of its slice begins the next. */
  lemma RegisterLog(p: Params, s: State, w: nat)
    requires Inv(p, s) && Enabled(p, s, Register(w))
    ensures LogInv(Next(p, s, Register(w)))
  {
    var t := Next(p, s, Register(w));
    var entry := (w, s.workers[w].item);
    assert t.log == s.log + [entry];
    forall v: nat, j: nat | v < |t.workers| && j < Started(t.workers[v]) ensures (v, j) in t.log {
      if (v, j) == entry {
        assert t.log[|s.log|] == entry;
      } else {
        assert (v, j) in s.log;
      }
    }
  }

  /** A step of worker w other than beginning an item. */
  lemma WorkerStepInv(p: Params, s: State, a: Action, w: nat)
    requires Inv(p, s) && Enabled(p, s, a)
    requires a == SendReg(w) || a == SendPdu(w) || a == Finish(w)
    ensures Inv(p, Next(p, s, a))
  {
    var t := Next(p, s, a);
    TotalsUpdate(s.workers, w, t.workers[w]);
    SameLog(s, t);
  }

  lemma SameLog(s: State, t: State)
    requires LogInv(s) && t.log == s.log && |t.workers| == |s.workers|
    requires forall w | 0 <= w < |s.workers| :: Started(t.workers[w]) == Started(s.workers[w])
    ensures LogInv(t)
  {
  }

  lemma NextInv(p: Params, s: State, a: Action)
    requires Inv(p, s) && Enabled(p, s, a)
    ensures Inv(p, Next(p, s, a))
  {
    match a {
      case Register(w) =>
        TotalsUpdate(s.workers, w, Next(p, s, a).workers[w]);
        RegisterLog(p, s, w);
      case SendReg(w) => WorkerStepInv(p, s, a, w);
      case SendPdu(w) => WorkerStepInv(p, s, a, w);
      case Finish(w) => WorkerStepInv(p, s, a, w);
      case TakeReg => SameLog(s, Next(p, s, a));
      case TakePdu => SameLog(s, Next(p, s, a));
      case Close => SameLog(s, Next(p, s, a));
    }
  }

  lemma {:induction false} InitInv(p: Params)
    ensures Inv(p, Init(p))
  {
    InitTotals(p.threads);
  }

  lemma {:induction false} InitTotals(n: nat)
    ensures TotalReg(seq(n, _ => Worker(0, Idle, false))) == 0 == TotalPdu(seq(n, _ => Worker(0, Idle, false)))
  {
    if n == 0 {
    } else {
      assert seq(n, _ => Worker(0, Idle, false))[1..] == seq(n - 1, _ => Worker(0, Idle, false));
      InitTotals(n - 1);
    }
  }

  lemma {:induction false} RunInv(p: Params, s: State, acts: seq<Action>)
    requires Inv(p, s) && CanRun(p, s, acts)
    ensures Inv(p, Final(p, s, acts))
    decreases |acts|
  {
    if acts == [] {
    } else {
      NextInv(p, s, acts[0]);
      RunInv(p, Next(p, s, acts[0]), acts[1..]);
    }
  }

  // ---------- What every run keeps ----------

  /** The channels never hold more than amount values, one less than they have
      room for; a worker that wants to send can; and no worker wants to send
      once the channels are closed. */
  lemma SendsAreSafe(p: Params, acts: seq<Action>, w: nat)
    requires CanRun(p, Init(p), acts) && w < p.threads
    ensures
      var s := Final(p, Init(p), acts);
      && |s.workers| == p.threads
      && s.pdu.sent <= s.reg.sent <= p.Amount() && s.reg.sent <= s.pdu.sent + p.threads
      && (s.workers[w].stage == Registered ==> Enabled(p, s, SendReg(w)) && !s.reg.closed)
      && (s.workers[w].stage == SentFirst ==> Enabled(p, s, SendPdu(w)) && !s.pdu.closed)
  {
    InitInv(p);
    RunInv(p, Init(p), acts);
    TotalsBound(p, Final(p, Init(p), acts).workers);
  }

  /** The number of a worker's k-th item. */
  function Item(p: Params, w: nat, k: nat): nat {
    w * p.workLoad + k
  }

  lemma TimesIsMonotone(a: nat, b: nat, c: nat)
    ensures a <= b ==> a * c <= b * c
  {
  }

  lemma SliceOfItem(p: Params, id: nat) returns (w: nat, k: nat)
    requires id < p.Amount()
    ensures w < p.threads && k < p.workLoad && id == Item(p, w, k)
  {
    assert p.workLoad > 0;
    w, k := id / p.workLoad, id % p.workLoad;
    assert id == p.workLoad * w + k;
    TimesIsMonotone(p.threads, w, p.workLoad);
  }

  /** Slices do not overlap: an item is the k-th of one worker only. */
  lemma SlicesAreDisjoint(p: Params, v: nat, j: nat, w: nat, k: nat)
    requires j < p.workLoad && k < p.workLoad
    ensures Item(p, v, j) == Item(p, w, k) <==> v == w && j == k
  {
    TimesIsMonotone(v + 1, w, p.workLoad);
    TimesIsMonotone(w + 1, v, p.workLoad);
  }

  /** When the channels are closed, each has carried exactly amount values, and
      every item 0..amount was registered exactly once. */
  lemma EverythingIsDoneAtClose(p: Params, acts: seq<Action>, id: nat) returns (i: nat)
    requires CanRun(p, Init(p), acts) && Final(p, Init(p), acts).reg.closed && id < p.Amount()
    ensures
      var s := Final(p, Init(p), acts);
      && s.reg.sent == s.pdu.sent == p.Amount()
      && i < |s.log| && Item(p, s.log[i].0, s.log[i].1) == id
      && forall j | 0 <= j < |s.log| && Item(p, s.log[j].0, s.log[j].1) == id :: j == i
  {
    InitInv(p);
    RunInv(p, Init(p), acts);
    var s := Final(p, Init(p), acts);
    TotalsBound(p, s.workers);
    var w, k := SliceOfItem(p, id);
    assert WorkerInv(p, s.workers[w]) && s.workers[w].done;
    assert (w, k) in s.log;
    i :| 0 <= i < |s.log| && s.log[i] == (w, k);
    forall j | 0 <= j < |s.log| && Item(p, s.log[j].0, s.log[j].1) == id ensures j == i {
      assert WorkerInv(p, s.workers[s.log[j].0]);
      SlicesAreDisjoint(p, s.log[j].0, s.log[j].1, w, k);
    }
  }

  /** Until the channels are closed something can happen other than logging. */
  lemma NeverStuck(p: Params, acts: seq<Action>) returns (a: Action)
    requires CanRun(p, Init(p), acts) && !Final(p, Init(p), acts).reg.closed
    ensures Enabled(p, Final(p, Init(p), acts), a) && !a.TakeReg? && !a.TakePdu?
  {
    InitInv(p);
    RunInv(p, Init(p), acts);
    var s := Final(p, Init(p), acts);
    if w :| 0 <= w < |s.workers| && !s.workers[w].done {
      SendsAreSafe(p, acts, w);
      assert WorkerInv(p, s.workers[w]);
      a := match s.workers[w].stage
        case Idle => if s.workers[w].item < p.workLoad then Register(w) else Finish(w)
        case Registered => SendReg(w)
        case SentFirst => SendPdu(w);
    } else {
      a := Close;
    }
  }

  // ---------- Every run ends with everything done ----------

  /** How many actions a worker has taken. */
  function Taken(w: Worker): nat {
    Started(w) + RegSends(w) + w.item + if w.done then 1 else 0
  }

  function TotalTaken(ws: seq<Worker>): nat {
    if ws == [] then 0 else Taken(ws[0]) + TotalTaken(ws[1..])
  }

  function Progress(s: State): nat {
    TotalTaken(s.workers) + s.reg.taken + s.pdu.taken + if s.reg.closed then 1 else 0
  }

  lemma {:induction false} TakenUpdate(ws: seq<Worker>, w: nat, x: Worker)
    requires w < |ws|
    ensures TotalTaken(ws[w := x]) + Taken(ws[w]) == TotalTaken(ws) + Taken(x)
  {
    if w == 0 {
      assert ws[w := x][1..] == ws[1..];
    } else {
      assert ws[w := x][1..] == ws[1..][w - 1 := x];
      TakenUpdate(ws[1..], w - 1, x);
    }
  }

  lemma {:induction false} TakenBound(p: Params, ws: seq<Worker>)
    requires forall w | 0 <= w < |ws| :: WorkerInv(p, ws[w])
    ensures TotalTaken(ws) <= |ws| * (3 * p.workLoad + 1)
    ensures (forall w | 0 <= w < |ws| :: ws[w].done) ==> TotalTaken(ws) == |ws| * (3 * p.workLoad + 1)
  {
    if ws == [] {
    } else {
      var rest := ws[1..];
      assert forall w | 0 <= w < |rest| :: rest[w] == ws[w + 1];
      TakenBound(p, rest);
      OneMoreTime(|rest|, 3 * p.workLoad + 1);
    }
  }

  lemma {:induction false} TakenAtStart(n: nat)
    ensures TotalTaken(seq(n, _ => Worker(0, Idle, false))) == 0
  {
    if n == 0 {
    } else {
      assert seq(n, _ => Worker(0, Idle, false))[1..] == seq(n - 1, _ => Worker(0, Idle, false));
      TakenAtStart(n - 1);
    }
  }

  lemma NextProgress(p: Params, s: State, a: Action)
    requires Enabled(p, s, a)
    ensures Progress(Next(p, s, a)) == Progress(s) + 1
  {
    if a.Register? || a.SendReg? || a.SendPdu? || a.Finish? {
      TakenUpdate(s.workers, a.w, Next(p, s, a).workers[a.w]);
    }
  }

  lemma {:induction false} RunProgress(p: Params, s: State, acts: seq<Action>)
    requires CanRun(p, s, acts)
    ensures Progress(Final(p, s, acts)) == Progress(s) + |acts|
    decreases |acts|
  {
    if acts == [] {
    } else {
      NextProgress(p, s, acts[0]);
      RunProgress(p, Next(p, s, acts[0]), acts[1..]);
    }
  }

  ghost predicate Stuck(p: Params, s: State) {
    forall a :: !Enabled(p, s, a)
  }

  lemma StuckIsClosed(p: Params, acts: seq<Action>)
    requires CanRun(p, Init(p), acts) && Stuck(p, Final(p, Init(p), acts))
    ensures Final(p, Init(p), acts).reg.closed
  {
    if !Final(p, Init(p), acts).reg.closed {
      var a := NeverStuck(p, acts);
      assert false;
    }
  }

  /** How long a run is that does everything: three actions an item and one
      more a worker, two values an item taken by the loggers, the close. */
  function FullLength(p: Params): nat {
    p.threads * (3 * p.workLoad + 1) + 2 * p.Amount() + 1
  }

  lemma ProgressBound(p: Params, s: State)
    requires Inv(p, s)
    ensures Progress(s) <= FullLength(p)
    ensures s.reg.closed && s.reg.taken == s.reg.sent && s.pdu.taken == s.pdu.sent
            ==> Progress(s) == FullLength(p) && s.reg.taken == s.pdu.taken == p.Amount()
  {
    TakenBound(p, s.workers);
    TotalsBound(p, s.workers);
  }

  lemma StartsAtZero(p: Params)
    ensures Inv(p, Init(p)) && Progress(Init(p)) == 0
  {
    InitInv(p);
    TakenAtStart(p.threads);
  }

  /** No run is longer than that, and a run that cannot go on is that long: the
      channels are closed, and the loggers have taken all amount values. */
  lemma RunsComplete(p: Params, acts: seq<Action>)
    requires CanRun(p, Init(p), acts)
    ensures |acts| <= FullLength(p)
    ensures
      var s := Final(p, Init(p), acts);
      Stuck(p, s) ==> |acts| == FullLength(p) && s.reg.closed && s.reg.taken == s.pdu.taken == p.Amount()
  {
    var s := Final(p, Init(p), acts);
    StartsAtZero(p);
    RunInv(p, Init(p), acts);
    RunProgress(p, Init(p), acts);
    ProgressBound(p, s);
    if Stuck(p, s) {
      StuckIsClosed(p, acts);
      assert !Enabled(p, s, TakeReg) && !Enabled(p, s, TakePdu);
    }
  }
}
