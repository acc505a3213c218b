/** The countdown latch: workers add their squares and count down, the last one out notifies, and the main
    thread sleeps on the count in a loop. `Atomic::wait` and `Atomic::notify_all` are stepped through as
    `std::sync` writes them, over the atomic's wake count. For any number of workers. */
module Latch {
  import opened Counting
  import opened Transitions

  /** The numbers the workers are given (1 to 4 in the program). */
  datatype Config = Config(ns: seq<nat>)

  datatype Worker = Add | CountDown | Notify | Gone

  /** The main thread: loading the count; inside `Atomic::wait(&left, n)` reading the wake count, checking
      the count, asleep; and joining worker k once past the loop. */
  datatype MainPc = Look | ReadWake(n: nat) | Check(n: nat, seen: nat) | Asleep(n: nat, seen: nat) | Join(k: nat)

  datatype State = State(left: int, total: nat, wake: nat, workers: seq<Worker>, pc: MainPc)

  datatype Action = Main | Work(i: nat)

  function Initial(c: Config): State {
    State(|c.ns|, 0, 0, seq(|c.ns|, _ => Add), Look)
  }

  predicate Enabled(c: Config, s: State, a: Action) {
    match a
    case Main => (
      match s.pc
      case Asleep(_, seen) => seen != s.wake
      case Join(k) => k < |s.workers| && s.workers[k].Gone?
      case _ => true)
    case Work(i) => i < |s.workers| && i < |c.ns| && !s.workers[i].Gone?
  }

  function Step(c: Config, s: State, a: Action): State {
    match a
    case Main => (
      match s.pc
      case Look => s.(pc := if s.left <= 0 then Join(0) else ReadWake(s.left))
      case ReadWake(n) => s.(pc := Check(n, s.wake))
      case Check(n, seen) => s.(pc := if s.left != n then Look else Asleep(n, seen))
      case Asleep(n, _) => s.(pc := ReadWake(n))
      case Join(k) => s.(pc := Join(k + 1)))
    case Work(i) =>
      if i >= |s.workers| || i >= |c.ns| then s else
      match s.workers[i]
      case Add => s.(total := s.total + c.ns[i] * c.ns[i], workers := s.workers[i := CountDown])
      case CountDown => s.(left := s.left - 1, workers := s.workers[i := if s.left == 1 then Notify else Gone])
      case Notify => s.(wake := s.wake + 1, workers := s.workers[i := Gone])
      case Gone => s
  }

  ghost function Program(c: Config): System<State, Action> {
    System(Initial(c), (s, a) => Enabled(c, s, a), (s, a) => Step(c, s, a))
  }

  predicate Counted(w: Worker) { w.Notify? || w.Gone? }

  predicate Notifying(w: Worker) { w.Notify? }

  /** The squares of the numbers whose worker has added. */
  function Added(ns: seq<nat>, ws: seq<Worker>): nat
    requires |ns| == |ws|
  {
    if ns == [] then 0 else (if ws[0].Add? then 0 else ns[0] * ns[0]) + Added(ns[1..], ws[1..])
  }

  function SumOfSquares(ns: seq<nat>): nat {
    if ns == [] then 0 else ns[0] * ns[0] + SumOfSquares(ns[1..])
  }

  lemma {:induction false} AddedUpdate(ns: seq<nat>, ws: seq<Worker>, i: nat, w: Worker)
    requires |ns| == |ws| && i < |ws|
    ensures Added(ns, ws[i := w]) + (if ws[i].Add? then 0 else ns[i] * ns[i])
            == Added(ns, ws) + (if w.Add? then 0 else ns[i] * ns[i])
  {
    if i == 0 {
      assert ws[0 := w][1..] == ws[1..];
    } else {
      assert ws[i := w][1..] == ws[1..][i - 1 := w];
      AddedUpdate(ns[1..], ws[1..], i - 1, w);
    }
  }

  lemma {:induction false} AllAdded(ns: seq<nat>, ws: seq<Worker>)
    requires |ns| == |ws| && forall i :: 0 <= i < |ws| ==> !ws[i].Add?
    ensures Added(ns, ws) == SumOfSquares(ns)
  {
    if ns != [] { AllAdded(ns[1..], ws[1..]); }
  }

  lemma {:induction false} NoneAdded(ns: seq<nat>, ws: seq<Worker>)
    requires |ns| == |ws| && forall i :: 0 <= i < |ws| ==> ws[i].Add?
    ensures Added(ns, ws) == 0
  {
    if ns != [] { NoneAdded(ns[1..], ws[1..]); }
  }

  /** The count is the workers still to count down; the one that took it to zero notifies, once; and the
      main thread, asleep on a wake count that has not moved, has that notification still to come. */
  ghost predicate Inv(c: Config, s: State) {
    && |s.workers| == |c.ns|
    && s.left == |c.ns| - Count(s.workers, Counted)
    && s.total == Added(c.ns, s.workers)
    && (s.left > 0 || c.ns == [] ==> s.wake == 0 && Count(s.workers, Notifying) == 0)
    && (s.left == 0 && c.ns != [] ==> s.wake + Count(s.workers, Notifying) == 1)
    && MainInv(c, s)
  }

  ghost predicate MainInv(c: Config, s: State) {
    match s.pc
    case Look => true
    case ReadWake(n) => 0 < n <= |c.ns| && s.left <= n
    case Check(n, seen) => 0 < n <= |c.ns| && s.left <= n && seen <= s.wake
    case Asleep(n, seen) => 0 < n <= |c.ns| && s.left <= n && seen == 0
    case Join(k) => s.left == 0 && k <= |c.ns| == |s.workers| && forall i :: 0 <= i < k ==> s.workers[i].Gone?
  }

  lemma MainKeepsInv(c: Config, s: State)
    requires Inv(c, s) && Enabled(c, s, Main)
    ensures Inv(c, Step(c, s, Main))
  {
    CountFull(s.workers, Counted);
  }

  lemma WorkKeepsInv(c: Config, s: State, i: nat)
    requires Inv(c, s) && Enabled(c, s, Work(i))
    ensures Inv(c, Step(c, s, Work(i)))
  {
    var w' := Step(c, s, Work(i)).workers[i];
    CountFull(s.workers, Counted);
    CountUpdate(s.workers, i, w', Counted);
    CountUpdate(s.workers, i, w', Notifying);
    AddedUpdate(c.ns, s.workers, i, w');
  }

  lemma InvIsInductive(c: Config)
    ensures Inductive(Program(c), s => Inv(c, s))
  {
    CountPositive(Initial(c).workers, Counted);
    CountPositive(Initial(c).workers, Notifying);
    NoneAdded(c.ns, Initial(c).workers);
    forall s, a | Inv(c, s) && Enabled(c, s, a) ensures Inv(c, Step(c, s, a)) {
      match a
      case Main => MainKeepsInv(c, s);
      case Work(i) => WorkKeepsInv(c, s, i);
    }
  }

  /** Progress: a state in which nothing can move has every worker gone and joined. In particular the main
      thread is never left asleep, although only the last worker notifies. */
  lemma NeverStuck(c: Config, s: State)
    requires Inv(c, s) && Stuck(Program(c), s)
    ensures s.pc == Join(|c.ns|)
  {
    assert !Program(c).enabled(s, Main);
    forall i | 0 <= i < |s.workers| ensures s.workers[i].Gone? {
      assert !Program(c).enabled(s, Work(i));
    }
    CountFull(s.workers, Counted);
    CountPositive(s.workers, Notifying);
  }

  // ------------------------------------------------------------------ every schedule ends

  function WorkerLeft(w: Worker): nat {
    match w case Add => 3 case CountDown => 2 case Notify => 1 case Gone => 0
  }

  /** Work to be done: the workers' steps, the joins, and a return to the loop's head for each change of
      the count the main thread may still meet. */
  function Major(c: Config, s: State): nat {
    Sum(s.workers, WorkerLeft) +
    match s.pc
    case Look => 2 + |c.ns|
    case ReadWake(_) => 2 + |c.ns|
    case Check(_, _) => 2 + |c.ns|
    case Asleep(_, _) => 2 + |c.ns|
    case Join(k) => if k <= |c.ns| then |c.ns| - k else 0
  }

  /** What the main thread can do before it must wait for a worker. */
  function Minor(s: State): nat {
    match s.pc
    case Look => 4
    case ReadWake(n) => if s.left != n then 6 else 3
    case Check(n, seen) => if s.left != n then 5 else if seen != s.wake then 5 else 1
    case Asleep(n, seen) => if s.left != n then 7 else if seen != s.wake then 4 else 0
    case Join(_) => 0
  }

  ghost predicate Lowers(c: Config, s: State, s': State) {
    Major(c, s') < Major(c, s) || (Major(c, s') == Major(c, s) && Minor(s') < Minor(s))
  }

  lemma MainDecreases(c: Config, s: State)
    requires Inv(c, s) && Enabled(c, s, Main)
    ensures Lowers(c, s, Step(c, s, Main))
  {
  }

  lemma WorkDecreases(c: Config, s: State, i: nat)
    requires Inv(c, s) && Enabled(c, s, Work(i))
    ensures Lowers(c, s, Step(c, s, Work(i)))
  {
    SumUpdate(s.workers, i, Step(c, s, Work(i)).workers[i], WorkerLeft);
  }

  lemma MeasureDecreases(c: Config)
    ensures Decreasing(Program(c), s => Inv(c, s), s => Major(c, s), s => Minor(s), 7)
  {
    forall s, a | Inv(c, s) && Enabled(c, s, a)
      ensures Lowers(c, s, Step(c, s, a))
    {
      match a
      case Main => MainDecreases(c, s);
      case Work(i) => WorkDecreases(c, s, i);
    }
  }

  // ------------------------------------------------------------------ what holds of every run

  /** The main thread leaves its loop only when every worker has added its square: from then on the total
      is the full sum. */
  lemma PastTheLatch(c: Config, s: State)
    requires Reachable(Program(c), s) && s.pc.Join?
    ensures s.total == SumOfSquares(c.ns) && s.left == 0
    ensures |s.workers| == |c.ns| && forall i :: 0 <= i < |s.workers| ==> Counted(s.workers[i])
  {
    InvIsInductive(c);
    InvariantHolds(Program(c), s => Inv(c, s), s);
    CountFull(s.workers, Counted);
    AllAdded(c.ns, s.workers);
  }

  /** No lost wake-up: with every worker gone, the main thread is not asleep on the wake count it read. */
  lemma NoLostWakeUp(c: Config, s: State)
    requires Reachable(Program(c), s)
    requires forall i :: 0 <= i < |s.workers| ==> s.workers[i].Gone?
    ensures !(s.pc.Asleep? && s.pc.seen == s.wake)
  {
    InvIsInductive(c);
    InvariantHolds(Program(c), s => Inv(c, s), s);
    CountFull(s.workers, Counted);
    CountPositive(s.workers, Notifying);
  }

  /** Every schedule is bounded and can be carried on to the end, with every worker joined and the total
      the sum of the squares. */
  lemma EveryScheduleFinishes(c: Config, acts: seq<Action>) returns (more: seq<Action>)
    requires After(Program(c), acts).Some?
    ensures |acts| <= Budget(s => Major(c, s), s => Minor(s), 7, Initial(c))
    ensures After(Program(c), acts + more).Some?
    ensures var s := After(Program(c), acts + more).value;
            s.pc == Join(|c.ns|) && s.total == SumOfSquares(c.ns)
  {
    InvIsInductive(c);
    MeasureDecreases(c);
    RunsAreBounded(Program(c), s => Inv(c, s), s => Major(c, s), s => Minor(s), 7, acts);
    more := RunsToAStop(Program(c), s => Inv(c, s), s => Major(c, s), s => Minor(s), 7, acts);
    var s := After(Program(c), acts + more).value;
    InvariantAfter(Program(c), s => Inv(c, s), acts + more);
    NeverStuck(c, s);
    PastTheLatch(c, s);
  }
}
