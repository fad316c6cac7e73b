/**
 The counter barrier of onvm_test/handover_test.go: every worker adds one to a
 shared counter, spins until it has reached the number of threads, and takes
 its one off again when its handover is over. Each worker has one item.
 */
module HandoverBarrier {

  /** The shared counter. A mutex makes inc and dec atomic; the spinning read is
      taken to be atomic as well. */
  class Container {
    var counter: int

    constructor ()
      ensures counter == 0
    {
      counter := 0;
    }

    method Inc()
      modifies this
      ensures counter == old(counter) + 1
    {
      counter := counter + 1;
    }

    method Dec()
      modifies this
      ensures counter == old(counter) - 1
    {
      counter := counter - 1;
    }
  }

  /** Where a worker is: before inc, spinning, past the barrier (it may send
      Handover Required), after dec. */
  datatype Place = Preparing | Spinning | Released | Departed

  datatype State = State(counter: int, places: seq<Place>)

  datatype Action = Arrive(w: nat) | Pass(w: nat) | Depart(w: nat)

  function Init(threads: nat): State {
    State(0, seq(threads, _ => Preparing))
  }

  predicate Enabled(s: State, a: Action) {
    a.w < |s.places| &&
    match a
    case Arrive(w) => s.places[w] == Preparing
    case Pass(w) => s.places[w] == Spinning && s.counter >= |s.places|
    case Depart(w) => s.places[w] == Released
  }

  function Next(s: State, a: Action): State
    requires Enabled(s, a)
  {
    match a
    case Arrive(w) => State(s.counter + 1, s.places[w := Spinning])
    case Pass(w) => s.(places := s.places[w := Released])
    case Depart(w) => State(s.counter - 1, s.places[w := Departed])
  }

  predicate CanRun(s: State, acts: seq<Action>)
    decreases |acts|
  {
    acts == [] || (Enabled(s, acts[0]) && CanRun(Next(s, acts[0]), acts[1..]))
  }

  function Final(s: State, acts: seq<Action>): State
    requires CanRun(s, acts)
    decreases |acts|
  {
    if acts == [] then s else Final(Next(s, acts[0]), acts[1..])
  }

  // ---------- The workers on the shared counter ----------

  /** What the workers do with the counter, action by action. */
  class Handovers {
    const lockForHandover: Container
    const places: array<Place>

    constructor (threads: nat)
      ensures fresh(lockForHandover) && fresh(places) && Now() == Init(threads)
    {
      lockForHandover := new Container();
      places := new Place[threads](_ => Preparing);
    }

    function Now(): State
      reads lockForHandover, places
    {
      State(lockForHandover.counter, places[..])
    }

    method ReachBarrier(w: nat)
      requires Enabled(Now(), Arrive(w))
      modifies lockForHandover, places
      ensures Now() == Next(old(Now()), Arrive(w))
    {
      lockForHandover.Inc();
      places[w] := Spinning;
    }

    /** One look at the counter by a spinning worker. */
    method Look(w: nat) returns (past: bool)
      requires w < places.Length && places[w] == Spinning
      modifies places
      ensures past <==> Enabled(old(Now()), Pass(w))
      ensures Now() == if past then Next(old(Now()), Pass(w)) else old(Now())
    {
      past := lockForHandover.counter >= places.Length;
      if past {
        places[w] := Released;
      }
    }

    method Leave(w: nat)
      requires Enabled(Now(), Depart(w))
      modifies lockForHandover, places
      ensures Now() == Next(old(Now()), Depart(w))
    {
      lockForHandover.Dec();
      places[w] := Departed;
    }

    /** Any interleaving of the workers; looks that find the barrier closed are
        not counted. */
    method Interleave(acts: seq<Action>)
      requires CanRun(Now(), acts)
      modifies lockForHandover, places
      ensures Now() == Final(old(Now()), acts)
    {
      assert acts[0..] == acts;
      for n := 0 to |acts|
        invariant CanRun(Now(), acts[n..]) && Final(Now(), acts[n..]) == Final(old(Now()), acts)
      {
        assert acts[n..][0] == acts[n] && acts[n..][1..] == acts[n + 1..];
        match acts[n]
        case Arrive(w) => ReachBarrier(w);
        case Pass(w) => var _ := Look(w);
        case Depart(w) => Leave(w);
      }
      assert acts[|acts|..] == [];
    }
  }

  // ---------- The invariant ----------

  /** How many have arrived and not departed. */
  function Inside(ps: seq<Place>): nat {
    if ps == [] then 0
    else (if ps[0] == Spinning || ps[0] == Released then 1 else 0) + Inside(ps[1..])
  }

  lemma {:induction false} InsideUpdate(ps: seq<Place>, w: nat, x: Place)
    requires w < |ps|
    ensures Inside(ps[w := x]) + Inside([ps[w]]) == Inside(ps) + Inside([x])
  {
    if w == 0 {
      assert ps[w := x][1..] == ps[1..];
    } else {
      assert ps[w := x][1..] == ps[1..][w - 1 := x];
      InsideUpdate(ps[1..], w - 1, x);
    }
  }

  lemma {:induction false} InsideBound(ps: seq<Place>)
    ensures Inside(ps) <= |ps|
    ensures Inside(ps) == |ps| ==> forall w | 0 <= w < |ps| :: ps[w] == Spinning || ps[w] == Released
    ensures (forall w | 0 <= w < |ps| :: ps[w] == Spinning || ps[w] == Released) ==> Inside(ps) == |ps|
  {
    if ps == [] {
    } else {
      var rest := ps[1..];
      InsideBound(rest);
      assert forall w | 0 <= w < |rest| :: rest[w] == ps[w + 1];
      assert forall w | 1 <= w < |ps| :: ps[w] == rest[w - 1];
    }
  }

  ghost predicate AllArrived(s: State) {
    forall w | 0 <= w < |s.places| :: s.places[w] != Preparing
  }

  /** counter = arrived - departed, and nobody is past the barrier before
      everybody has arrived. */
  ghost predicate Inv(s: State) {
    && s.counter == Inside(s.places)
    && forall w | 0 <= w < |s.places| && (s.places[w] == Released || s.places[w] == Departed) :: AllArrived(s)
  }

  lemma NextInv(s: State, a: Action)
    requires Inv(s) && Enabled(s, a)
    ensures Inv(Next(s, a))
  {
    InsideUpdate(s.places, a.w, Next(s, a).places[a.w]);
    InsideBound(s.places);
  }

  lemma {:induction false} InitInv(threads: nat)
    ensures Inv(Init(threads))
  {
    if threads == 0 {
    } else {
      InitInv(threads - 1);
      assert Init(threads).places[1..] == Init(threads - 1).places;
    }
  }

  lemma {:induction false} RunInv(s: State, acts: seq<Action>)
    requires Inv(s) && CanRun(s, acts)
    ensures Inv(Final(s, acts))
    decreases |acts|
  {
    if acts == [] {
    } else {
      NextInv(s, acts[0]);
      RunInv(Next(s, acts[0]), acts[1..]);
    }
  }

  /** Safety: in every interleaving, when a worker is past the barrier every
      worker has arrived, and the counter is the number inside. */
  lemma BarrierSafety(threads: nat, acts: seq<Action>, w: nat)
    requires CanRun(Init(threads), acts) && w < |Final(Init(threads), acts).places|
    ensures
      var s := Final(Init(threads), acts);
      && s.counter == Inside(s.places)
      && (s.places[w] == Released || s.places[w] == Departed ==> AllArrived(s))
  {
    InitInv(threads);
    RunInv(Init(threads), acts);
  }

  /** A spinning worker gets past exactly while everybody has arrived and
      nobody has departed yet. */
  lemma PassExactly(s: State, w: nat)
    requires Inv(s) && w < |s.places| && s.places[w] == Spinning
    ensures Enabled(s, Pass(w)) <==>
              forall v | 0 <= v < |s.places| :: s.places[v] == Spinning || s.places[v] == Released
  {
    InsideBound(s.places);
  }

  lemma {:induction false} NobodyUndeparts(s: State, acts: seq<Action>, v: nat)
    requires CanRun(s, acts) && v < |s.places| && s.places[v] == Departed
    ensures |Final(s, acts).places| == |s.places| && Final(s, acts).places[v] == Departed
    decreases |acts|
  {
    if acts == [] {
    } else {
      NobodyUndeparts(Next(s, acts[0]), acts[1..], v);
    }
  }

  /** The barrier is not live: once one worker has departed, a worker still
      spinning spins forever. */
  lemma {:induction false} LateSpinnerIsLost(s: State, acts: seq<Action>, v: nat, w: nat)
    requires Inv(s) && CanRun(s, acts)
    requires v < |s.places| && s.places[v] == Departed
    requires w < |s.places| && s.places[w] == Spinning
    ensures |Final(s, acts).places| == |s.places| && Final(s, acts).places[w] == Spinning
    decreases |acts|
  {
    if acts == [] {
    } else {
      PassExactly(s, w);
      NextInv(s, acts[0]);
      LateSpinnerIsLost(Next(s, acts[0]), acts[1..], v, w);
    }
  }

  lemma {:induction false} Append(s: State, first: seq<Action>, second: seq<Action>)
    requires CanRun(s, first) && CanRun(Final(s, first), second)
    ensures CanRun(s, first + second) && Final(s, first + second) == Final(Final(s, first), second)
    decreases |first|
  {
    if first == [] {
      assert first + second == second;
    } else {
      Append(Next(s, first[0]), first[1..], second);
      assert (first + second)[1..] == first[1..] + second;
    }
  }

  /** Whoever is still preparing can arrive, one after the other. */
  lemma {:induction false} LetArrive(s: State, from: nat) returns (acts: seq<Action>)
    requires from <= |s.places| && forall v | 0 <= v < from :: s.places[v] != Preparing
    ensures CanRun(s, acts) && |Final(s, acts).places| == |s.places|
    ensures forall v | 0 <= v < |s.places| ::
              Final(s, acts).places[v] == if s.places[v] == Preparing then Spinning else s.places[v]
    decreases |s.places| - from
  {
    if from == |s.places| {
      acts := [];
    } else if s.places[from] == Preparing {
      var t := Next(s, Arrive(from));
      var rest := LetArrive(t, from + 1);
      acts := [Arrive(from)] + rest;
      assert acts[1..] == rest;
    } else {
      acts := LetArrive(s, from + 1);
    }
  }

  ghost predicate NobodyDeparted(s: State) {
    forall v | 0 <= v < |s.places| :: s.places[v] != Departed
  }

  ghost predicate GetsPast(s: State, acts: seq<Action>, w: nat) {
    CanRun(s, acts) && w < |Final(s, acts).places| && Final(s, acts).places[w] == Released
  }

  lemma SpinnerGetsPast(s: State, w: nat) returns (acts: seq<Action>)
    requires Inv(s) && w < |s.places| && s.places[w] == Spinning && NobodyDeparted(s)
    ensures GetsPast(s, acts, w)
  {
    var arrivals := LetArrive(s, 0);
    var t := Final(s, arrivals);
    RunInv(s, arrivals);
    PassExactly(t, w);
    acts := arrivals + [Pass(w)];
    assert [Pass(w)][1..] == [];
    Append(s, arrivals, [Pass(w)]);
  }

  lemma LostSpinnerNeverPasses(s: State, acts: seq<Action>, v: nat, w: nat)
    requires Inv(s) && w < |s.places| && s.places[w] == Spinning
    requires v < |s.places| && s.places[v] == Departed
    ensures !GetsPast(s, acts, w)
  {
    if CanRun(s, acts) {
      LateSpinnerIsLost(s, acts, v, w);
    }
  }

  /** A spinning worker can still get past, in some continuation, if and only if
      nobody has departed. */
  lemma SpinnerExactly(s: State, w: nat)
    requires Inv(s) && w < |s.places| && s.places[w] == Spinning
    ensures (exists acts :: GetsPast(s, acts, w)) <==> NobodyDeparted(s)
  {
    if NobodyDeparted(s) {
      var acts := SpinnerGetsPast(s, w);
      assert GetsPast(s, acts, w);
    } else {
      var v :| 0 <= v < |s.places| && s.places[v] == Departed;
      forall acts ensures !GetsPast(s, acts, w) {
        LostSpinnerNeverPasses(s, acts, v, w);
      }
    }
  }

  // ---------- Complete runs ----------

  ghost predicate Stuck(s: State) {
    forall a :: !Enabled(s, a)
  }

  ghost predicate AllDeparted(s: State) {
    forall w | 0 <= w < |s.places| :: s.places[w] == Departed
  }

  /** How many actions a worker has left at most. */
  function Left(p: Place): nat {
    match p
    case Preparing => 3
    case Spinning => 2
    case Released => 1
    case Departed => 0
  }

  function TotalLeft(ps: seq<Place>): nat {
    if ps == [] then 0 else Left(ps[0]) + TotalLeft(ps[1..])
  }

  lemma {:induction false} LeftUpdate(ps: seq<Place>, w: nat, x: Place)
    requires w < |ps|
    ensures TotalLeft(ps[w := x]) + Left(ps[w]) == TotalLeft(ps) + Left(x)
  {
    if w == 0 {
      assert ps[w := x][1..] == ps[1..];
    } else {
      assert ps[w := x][1..] == ps[1..][w - 1 := x];
      LeftUpdate(ps[1..], w - 1, x);
    }
  }

  /** Every run can be continued until nothing is enabled. */
  lemma {:induction false} RunOn(s: State) returns (acts: seq<Action>)
    ensures CanRun(s, acts) && Stuck(Final(s, acts))
    decreases TotalLeft(s.places)
  {
    if a :| Enabled(s, a) {
      LeftUpdate(s.places, a.w, Next(s, a).places[a.w]);
      var rest := RunOn(Next(s, a));
      acts := [a] + rest;
      assert acts[1..] == rest;
    } else {
      acts := [];
    }
  }

  /** Where nothing is enabled, all have departed or a spinner is lost. */
  lemma StuckExactly(s: State)
    requires Inv(s)
    ensures Stuck(s) <==> (forall w | 0 <= w < |s.places| ::
              s.places[w] == Departed || (s.places[w] == Spinning && !NobodyDeparted(s)))
  {
    if Stuck(s) {
      forall w | 0 <= w < |s.places|
        ensures s.places[w] == Departed || (s.places[w] == Spinning && !NobodyDeparted(s))
      {
        assert !Enabled(s, Arrive(w)) && !Enabled(s, Pass(w)) && !Enabled(s, Depart(w));
        if s.places[w] == Spinning {
          PassExactly(s, w);
          NotAllInside(s);
        }
      }
    } else {
      var a :| Enabled(s, a);
      if a.Pass? {
        PassExactly(s, a.w);
      }
    }
  }

  lemma NotAllInside(s: State)
    requires Stuck(s)
    requires exists v :: 0 <= v < |s.places| && s.places[v] != Spinning && s.places[v] != Released
    ensures !NobodyDeparted(s)
  {
    var v :| 0 <= v < |s.places| && s.places[v] != Spinning && s.places[v] != Released;
    assert !Enabled(s, Arrive(v));
  }

  ghost predicate CompleteRun(threads: nat, acts: seq<Action>) {
    CanRun(Init(threads), acts) && Stuck(Final(Init(threads), acts))
  }

  lemma {:induction false} PlacesStay(s: State, acts: seq<Action>)
    requires CanRun(s, acts)
    ensures |Final(s, acts).places| == |s.places|
    decreases |acts|
  {
    if acts == [] {
    } else {
      PlacesStay(Next(s, acts[0]), acts[1..]);
    }
  }

  /** With two threads or more a worker can be lost: everybody arrives, the
      first passes and departs before the second looks. */
  lemma LateSpinnerIsReachable(threads: nat) returns (acts: seq<Action>)
    requires threads >= 2
    ensures CanRun(Init(threads), acts)
    ensures |Final(Init(threads), acts).places| == threads
    ensures Final(Init(threads), acts).places[0] == Departed && Final(Init(threads), acts).places[1] == Spinning
  {
    var arrivals := LetArrive(Init(threads), 0);
    var t := Final(Init(threads), arrivals);
    InitInv(threads);
    RunInv(Init(threads), arrivals);
    PassExactly(t, 0);
    var more := [Pass(0), Depart(0)];
    assert more[1..] == [Depart(0)] && more[1..][1..] == [];
    assert CanRun(Next(t, Pass(0)), more[1..]);
    Append(Init(threads), arrivals, more);
    acts := arrivals + more;
  }

  lemma LostRun(threads: nat) returns (acts: seq<Action>)
    requires threads >= 2
    ensures CompleteRun(threads, acts) && !AllDeparted(Final(Init(threads), acts))
  {
    var first := LateSpinnerIsReachable(threads);
    var s := Final(Init(threads), first);
    InitInv(threads);
    RunInv(Init(threads), first);
    var second := RunOn(s);
    LateSpinnerIsLost(s, second, 0, 1);
    Append(Init(threads), first, second);
    acts := first + second;
  }

  lemma SingleThreadCompletes(threads: nat, acts: seq<Action>)
    requires threads <= 1 && CompleteRun(threads, acts)
    ensures AllDeparted(Final(Init(threads), acts))
  {
    var s := Final(Init(threads), acts);
    InitInv(threads);
    RunInv(Init(threads), acts);
    PlacesStay(Init(threads), acts);
    StuckExactly(s);
  }

  /** Liveness: every run that goes on as long as it can ends with everybody
      departed if and only if there is at most one thread. */
  lemma LiveExactly(threads: nat)
    ensures (forall acts :: CompleteRun(threads, acts) ==> AllDeparted(Final(Init(threads), acts))) <==> threads <= 1
  {
    if threads <= 1 {
      forall acts | CompleteRun(threads, acts) ensures AllDeparted(Final(Init(threads), acts)) {
        SingleThreadCompletes(threads, acts);
      }
    } else {
      var acts := LostRun(threads);
      assert CompleteRun(threads, acts);
    }
  }
}
