/** The pool of workers over two bounded channels: the main thread sends every job, closes the channel,
    joins the workers, and only then receives the results. For any jobs, any number of workers and any
    capacities. A channel operation is one step, possible or blocked as the language's channel rules say. */
module WorkerPool {
  import opened Counting
  import opened Transitions

  datatype Config = Config(jobs: seq<nat>, workers: nat, jobsCap: nat, resultsCap: nat) {
    ghost predicate Valid() {
      workers > 0 && jobsCap > 0 && resultsCap > 0
    }
  }

  datatype Channel = Channel(q: seq<nat>, closed: bool)

  /** In `Channel::recv(jobs)`; in `Channel::send(results, n * n)`; past its loop. */
  datatype Worker = Receive | Deliver(n: nat) | Stopped

  /** Sending job k; joining worker k; receiving results; past the loop. */
  datatype MainPc = Send(k: nat) | Join(k: nat) | Collect | Finished

  datatype State = State(
    jobs: Channel, results: Channel, workers: seq<Worker>, pc: MainPc, received: seq<nat>, total: nat)

  datatype Action = Main | Work(i: nat)

  /** The workers are spawned before the first job is sent, and none can move until then. */
  function Initial(c: Config): State {
    State(Channel([], false), Channel([], false), seq(c.workers, _ => Receive), Send(0), [], 0)
  }

  predicate Enabled(c: Config, s: State, a: Action) {
    match a
    case Main => (
      match s.pc
      case Send(k) => k < |c.jobs| ==> s.jobs.closed || |s.jobs.q| < c.jobsCap
      case Join(k) => k < |s.workers| ==> s.workers[k].Stopped?
      case Collect => |s.results.q| > 0 || s.results.closed
      case Finished => false)
    case Work(i) =>
      i < |s.workers| &&
      match s.workers[i]
      case Receive => |s.jobs.q| > 0 || s.jobs.closed
      case Deliver(_) => s.results.closed || |s.results.q| < c.resultsCap
      case Stopped => false
  }

  function SendTo(ch: Channel, v: nat): Channel {
    if ch.closed then ch else ch.(q := ch.q + [v])
  }

  function Step(c: Config, s: State, a: Action): State {
    match a
    case Main => (
      match s.pc
      case Send(k) =>
        if k < |c.jobs| then s.(jobs := SendTo(s.jobs, c.jobs[k]), pc := Send(k + 1))
        else s.(jobs := s.jobs.(closed := true), pc := Join(0))
      case Join(k) =>
        if k < |s.workers| then s.(pc := Join(k + 1))
        else s.(results := s.results.(closed := true), pc := Collect)
      case Collect =>
        if |s.results.q| > 0 then
          var sq := s.results.q[0];
          s.(results := s.results.(q := s.results.q[1..]), received := s.received + [sq], total := s.total + sq)
        else s.(pc := Finished)
      case Finished => s)
    case Work(i) =>
      if i >= |s.workers| then s else
      match s.workers[i]
      case Receive =>
        if |s.jobs.q| > 0 then
          s.(jobs := s.jobs.(q := s.jobs.q[1..]), workers := s.workers[i := Deliver(s.jobs.q[0])])
        else s.(workers := s.workers[i := Stopped])
      case Deliver(n) => s.(results := SendTo(s.results, n * n), workers := s.workers[i := Receive])
      case Stopped => s
  }

  ghost function Program(c: Config): System<State, Action> {
    System(Initial(c), (s, a) => Enabled(c, s, a), (s, a) => Step(c, s, a))
  }

  // ------------------------------------------------------------------ where the jobs are

  function Squares(js: seq<nat>): seq<nat> {
    seq(|js|, i requires 0 <= i < |js| => js[i] * js[i])
  }

  function Is(v: nat): nat -> bool { (x: nat) => x == v }

  function SquareIs(v: nat): nat -> bool { (n: nat) => n * n == v }

  function HoldsSquare(v: nat): Worker -> bool { (w: Worker) => w.Deliver? && w.n * w.n == v }

  predicate Delivering(w: Worker) { w.Deliver? }

  /** Taking one element out of the middle. */
  lemma Without(b: seq<nat>, k: nat)
    requires k < |b|
    ensures Total(b[..k] + b[k + 1..]) + b[k] == Total(b)
    ensures forall v: nat :: Count(b[..k] + b[k + 1..], Is(v)) + (if v == b[k] then 1 else 0) == Count(b, Is(v))
  {
    assert b == b[..k] + ([b[k]] + b[k + 1..]);
    TotalAppend(b[..k], b[k + 1..]);
    TotalAppend(b[..k], [b[k]] + b[k + 1..]);
    forall v: nat
      ensures Count(b[..k] + b[k + 1..], Is(v)) + (if v == b[k] then 1 else 0) == Count(b, Is(v))
    {
      CountAppend(b[..k], b[k + 1..], Is(v));
      CountAppend(b[..k], [b[k]] + b[k + 1..], Is(v));
    }
  }

  /** Two sequences with the same number of each value are permutations, with one total. */
  lemma {:induction false} SameCounts(a: seq<nat>, b: seq<nat>)
    requires |a| == |b| && forall v: nat :: Count(a, Is(v)) == Count(b, Is(v))
    ensures Total(a) == Total(b) && multiset(a) == multiset(b)
  {
    if a != [] {
      assert Count(a, Is(a[0])) > 0;
      CountPositive(b, Is(a[0]));
      var k :| 0 <= k < |b| && Is(a[0])(b[k]);
      Without(b, k);
      assert forall v: nat :: Count(a[1..], Is(v)) + (if v == a[0] then 1 else 0) == Count(a, Is(v));
      SameCounts(a[1..], b[..k] + b[k + 1..]);
      assert a == [a[0]] + a[1..];
      assert b == b[..k] + [b[k]] + b[k + 1..];
    }
  }

  lemma {:induction false} CountSquares(js: seq<nat>, v: nat)
    ensures Count(Squares(js), Is(v)) == Count(js, SquareIs(v))
  {
    if js != [] {
      assert Squares(js)[1..] == Squares(js[1..]);
      CountSquares(js[1..], v);
    }
  }

  // ------------------------------------------------------------------ the invariant

  function Sent(c: Config, s: State): nat {
    if s.pc.Send? && s.pc.k <= |c.jobs| then s.pc.k else |c.jobs|
  }

  /** The jobs sent whose square is v, and where those squares are now. */
  ghost predicate Balanced(c: Config, s: State, v: nat) {
    Count(c.jobs[..Sent(c, s)], SquareIs(v))
      == Count(s.jobs.q, SquareIs(v)) + Count(s.workers, HoldsSquare(v))
         + Count(s.results.q, Is(v)) + Count(s.received, Is(v))
  }

  ghost predicate Conserved(c: Config, s: State) {
    && Sent(c, s) == |s.jobs.q| + Count(s.workers, Delivering) + |s.results.q| + |s.received|
    && forall v: nat :: Balanced(c, s, v)
  }

  ghost predicate Control(c: Config, s: State) {
    && c.Valid()
    && |s.workers| == c.workers
    && (s.pc.Send? ==> s.pc.k <= |c.jobs|)
    && (s.pc.Join? ==> s.pc.k <= c.workers)
    && (s.jobs.closed <==> !s.pc.Send?)
    && (s.results.closed <==> s.pc.Collect? || s.pc.Finished?)
    && |s.jobs.q| <= c.jobsCap
    && |s.results.q| <= c.resultsCap
    && (forall i :: 0 <= i < |s.workers| && s.workers[i].Stopped? ==> s.jobs.closed && s.jobs.q == [])
    && (forall i :: 0 <= i < |s.workers| && (s.pc.Join? ==> i < s.pc.k) && !s.pc.Send? ==> s.workers[i].Stopped?)
    && (s.pc.Send? || s.pc.Join? ==> s.received == [])
    && (s.pc.Finished? ==> s.results.q == [])
    && s.total == Total(s.received)
  }

  ghost predicate Inv(c: Config, s: State) {
    Control(c, s) && Conserved(c, s)
  }

  lemma InitialInv(c: Config)
    requires c.Valid()
    ensures Inv(c, Initial(c))
  {
    CountPositive(Initial(c).workers, Delivering);
    forall v: nat ensures Balanced(c, Initial(c), v) {
      CountPositive(Initial(c).workers, HoldsSquare(v));
    }
  }

  lemma ControlKept(c: Config, s: State, a: Action)
    requires Control(c, s) && Enabled(c, s, a)
    ensures Control(c, Step(c, s, a))
  {
    if s.pc.Collect? && |s.results.q| > 0 {
      TotalAppend(s.received, [s.results.q[0]]);
    }
  }

  lemma MainBalances(c: Config, s: State, v: nat)
    requires Control(c, s) && Balanced(c, s, v) && Enabled(c, s, Main)
    ensures Balanced(c, Step(c, s, Main), v)
  {
    match s.pc
    case Send(k) =>
      if k < |c.jobs| {
        assert c.jobs[..k + 1] == c.jobs[..k] + [c.jobs[k]];
        CountAppend(c.jobs[..k], [c.jobs[k]], SquareIs(v));
        CountAppend(s.jobs.q, [c.jobs[k]], SquareIs(v));
      }
    case Join(k) =>
    case Collect =>
      if |s.results.q| > 0 { CountAppend(s.received, [s.results.q[0]], Is(v)); }
    case Finished =>
  }

  lemma WorkBalances(c: Config, s: State, i: nat, v: nat)
    requires Control(c, s) && Balanced(c, s, v) && Enabled(c, s, Work(i))
    ensures Balanced(c, Step(c, s, Work(i)), v)
  {
    CountUpdate(s.workers, i, Step(c, s, Work(i)).workers[i], HoldsSquare(v));
    if s.workers[i].Deliver? {
      var n := s.workers[i].n;
      CountAppend(s.results.q, [n * n], Is(v));
    }
  }

  lemma ConservedKept(c: Config, s: State, a: Action)
    requires Inv(c, s) && Enabled(c, s, a)
    ensures Conserved(c, Step(c, s, a))
  {
    if a.Work? { CountUpdate(s.workers, a.i, Step(c, s, a).workers[a.i], Delivering); }
    forall v: nat ensures Balanced(c, Step(c, s, a), v) {
      match a
      case Main => MainBalances(c, s, v);
      case Work(i) => WorkBalances(c, s, i, v);
    }
  }

  lemma InvIsInductive(c: Config)
    requires c.Valid()
    ensures Inductive(Program(c), s => Inv(c, s))
  {
    InitialInv(c);
    forall s, a | Inv(c, s) && Enabled(c, s, a) ensures Inv(c, Step(c, s, a)) {
      ControlKept(c, s, a);
      ConservedKept(c, s, a);
    }
  }

  // ------------------------------------------------------------------ every schedule ends

  function WorkerRank(w: Worker): nat {
    match w case Receive => 1 case Deliver(_) => 3 case Stopped => 0
  }

  function MainRank(c: Config, pc: MainPc): nat {
    match pc
    case Send(k) => c.workers + 3 + (if k <= |c.jobs| then 4 * (|c.jobs| - k) else 0)
    case Join(k) => if k <= c.workers then c.workers - k + 2 else 0
    case Collect => 1
    case Finished => 0
  }

  /** Each job has so many steps left in it, and so has each thread. */
  function Measure(c: Config, s: State): nat {
    MainRank(c, s.pc) + 3 * |s.jobs.q| + Sum(s.workers, WorkerRank) + |s.results.q|
  }

  lemma StepDecreases(c: Config, s: State, a: Action)
    requires Inv(c, s) && Enabled(c, s, a)
    ensures Measure(c, Step(c, s, a)) < Measure(c, s)
  {
    match a
    case Main =>
    case Work(i) => SumUpdate(s.workers, i, Step(c, s, a).workers[i], WorkerRank);
  }

  lemma MeasureDecreases(c: Config)
    requires c.Valid()
    ensures Decreasing(Program(c), s => Inv(c, s), s => Measure(c, s), _ => 0, 0)
  {
    forall s, a | Inv(c, s) && Enabled(c, s, a) ensures Measure(c, Step(c, s, a)) < Measure(c, s) {
      StepDecreases(c, s, a);
    }
  }

  // ------------------------------------------------------------------ what holds of every run

  /** At every moment of every run the squares of the jobs sent so far are, each exactly once, waiting,
      held by a worker, waiting as results, or received; and both channels are within capacity. */
  lemma NothingLostOrRepeated(c: Config, s: State)
    requires c.Valid() && Reachable(Program(c), s)
    ensures Conserved(c, s)
    ensures |s.jobs.q| <= c.jobsCap && |s.results.q| <= c.resultsCap
  {
    InvIsInductive(c);
    InvariantHolds(Program(c), s => Inv(c, s), s);
  }

  /** A worker that holds a job keeps the results short of the number of jobs. */
  lemma RoomForHeldResult(c: Config, s: State, i: nat)
    requires Inv(c, s) && i < |s.workers| && s.workers[i].Deliver?
    ensures |s.results.q| < |c.jobs|
  {
    CountPositive(s.workers, Delivering);
  }

  lemma NeverStuck(c: Config, s: State)
    requires Inv(c, s) && Stuck(Program(c), s) && |c.jobs| <= c.resultsCap
    ensures s.pc.Finished?
  {
    assert !Program(c).enabled(s, Main);
    var k := if s.pc.Join? && s.pc.k < c.workers then s.pc.k else 0;
    assert !Program(c).enabled(s, Work(k));
    if s.workers[k].Deliver? { RoomForHeldResult(c, s, k); }
  }

  /** With room for every result, whatever order the workers run in, every schedule is bounded, can be
      carried on to the end, and then the results received are exactly the squares of the jobs and the
      total is their sum. */
  lemma PoolFinishes(c: Config, acts: seq<Action>) returns (more: seq<Action>)
    requires c.Valid() && |c.jobs| <= c.resultsCap
    requires After(Program(c), acts).Some?
    ensures |acts| <= Measure(c, Initial(c))
    ensures After(Program(c), acts + more).Some?
    ensures var s := After(Program(c), acts + more).value;
            && s.pc.Finished?
            && multiset(s.received) == multiset(Squares(c.jobs))
            && s.total == Total(Squares(c.jobs))
  {
    InvIsInductive(c);
    MeasureDecreases(c);
    RunsAreBounded(Program(c), s => Inv(c, s), s => Measure(c, s), _ => 0, 0, acts);
    more := RunsToAStop(Program(c), s => Inv(c, s), s => Measure(c, s), _ => 0, 0, acts);
    var s := After(Program(c), acts + more).value;
    InvariantAfter(Program(c), s => Inv(c, s), acts + more);
    NeverStuck(c, s);
    FinishedMeansAllReceived(c, s);
  }

  lemma FinishedMeansAllReceived(c: Config, s: State)
    requires Inv(c, s) && s.pc.Finished?
    ensures multiset(s.received) == multiset(Squares(c.jobs))
    ensures s.total == Total(Squares(c.jobs))
  {
    assert s.workers[0].Stopped?;
    assert c.jobs[..|c.jobs|] == c.jobs;
    CountPositive(s.workers, Delivering);
    forall v: nat ensures Count(s.received, Is(v)) == Count(Squares(c.jobs), Is(v)) {
      assert Balanced(c, s, v);
      CountPositive(s.workers, HoldsSquare(v));
      CountSquares(c.jobs, v);
    }
    SameCounts(s.received, Squares(c.jobs));
  }

  // ------------------------------------------------------------------ too few places for the results

  ghost predicate StillJoining(c: Config, s: State) {
    Inv(c, s) && (s.pc.Send? || s.pc.Join?)
  }

  /** Getting past the joins would need every result waiting at once. */
  lemma AllResultsWaiting(c: Config, s: State)
    requires Inv(c, s) && s.pc == Join(c.workers)
    ensures |s.results.q| == |c.jobs|
  {
    assert s.workers[0].Stopped?;
    CountPositive(s.workers, Delivering);
  }

  lemma NeverPastTheJoins(c: Config)
    requires c.Valid() && c.resultsCap < |c.jobs|
    ensures Inductive(Program(c), s => StillJoining(c, s))
  {
    InitialInv(c);
    forall s, a | StillJoining(c, s) && Enabled(c, s, a) ensures StillJoining(c, Step(c, s, a)) {
      ControlKept(c, s, a);
      ConservedKept(c, s, a);
      if s.pc == Join(c.workers) { AllResultsWaiting(c, s); }
    }
  }

  /** Stuck before the results are received, `main` is still sending exactly when the jobs are more than the places for
      them: both channels full and a job with every worker. */
  lemma WhereItIsStuck(c: Config, s: State)
    requires StillJoining(c, s) && Stuck(Program(c), s)
    ensures s.pc.Send? <==> |c.jobs| > c.jobsCap + c.workers + c.resultsCap
  {
    assert !Program(c).enabled(s, Main);
    if s.pc.Send? {
      forall i | 0 <= i < |s.workers| ensures Delivering(s.workers[i]) {
        assert !Program(c).enabled(s, Work(i));
      }
      assert !Program(c).enabled(s, Work(0));
    }
    CountFull(s.workers, Delivering);
  }

  /** With fewer places for results than jobs, every schedule ends in deadlock before a result is received: the main
      thread joins first, so the workers' results can never be taken. It is stuck joining, or, with more jobs than there
      are places for in all, still sending. */
  lemma EveryScheduleDeadlocks(c: Config, acts: seq<Action>) returns (more: seq<Action>)
    requires c.Valid() && c.resultsCap < |c.jobs|
    requires After(Program(c), acts).Some?
    ensures |acts| <= Measure(c, Initial(c))
    ensures After(Program(c), acts + more).Some?
    ensures var s := After(Program(c), acts + more).value;
            && Stuck(Program(c), s) && s.received == []
            && if |c.jobs| > c.jobsCap + c.workers + c.resultsCap then s.pc.Send? else s.pc.Join?
  {
    InvIsInductive(c);
    MeasureDecreases(c);
    RunsAreBounded(Program(c), s => Inv(c, s), s => Measure(c, s), _ => 0, 0, acts);
    more := RunsToAStop(Program(c), s => Inv(c, s), s => Measure(c, s), _ => 0, 0, acts);
    NeverPastTheJoins(c);
    InvariantAfter(Program(c), s => StillJoining(c, s), acts + more);
    WhereItIsStuck(c, After(Program(c), acts + more).value);
  }

  /** The pool is free of deadlock exactly when the results channel has room for every job's result. */
  lemma DeadlockFreeIff(c: Config)
    requires c.Valid()
    ensures (forall s :: Reachable(Program(c), s) && Stuck(Program(c), s) ==> s.pc.Finished?)
            <==> |c.jobs| <= c.resultsCap
  {
    InvIsInductive(c);
    if |c.jobs| <= c.resultsCap {
      forall s | Reachable(Program(c), s) && Stuck(Program(c), s) ensures s.pc.Finished? {
        InvariantHolds(Program(c), s => Inv(c, s), s);
        NeverStuck(c, s);
      }
    } else {
      var more := EveryScheduleDeadlocks(c, []);
      assert Reachable(Program(c), After(Program(c), [] + more).value);
    }
  }
}
