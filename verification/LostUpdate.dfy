/** The lost-update counter: each thread reads the total under one lock and writes it, plus one, under a
    second. For any number of threads, exactly which totals the schedules can end with. */
module LostUpdate {
  import opened Wrappers
  import opened Counting
  import opened Transitions

  /** Taking the first lock, reading, letting go; taking the second lock, writing, letting go. */
  datatype Thread =
    | LockToRead | Read | UnlockAfterRead(seen: nat)
    | LockToWrite(seen: nat) | Write(seen: nat) | UnlockAfterWrite | Gone

  datatype State = State(total: nat, holder: Option<nat>, threads: seq<Thread>)

  function Initial(n: nat): State {
    State(0, None, seq(n, _ => LockToRead))
  }

  /** A thread waits only for the mutex. */
  predicate Enabled(s: State, i: nat) {
    i < |s.threads| && !s.threads[i].Gone? &&
    (s.threads[i].LockToRead? || s.threads[i].LockToWrite? ==> s.holder.None?)
  }

  function Step(s: State, i: nat): State {
    if i >= |s.threads| then s else
    match s.threads[i]
    case LockToRead => s.(holder := Some(i), threads := s.threads[i := Read])
    case Read => s.(threads := s.threads[i := UnlockAfterRead(s.total)])
    case UnlockAfterRead(seen) => s.(holder := None, threads := s.threads[i := LockToWrite(seen)])
    case LockToWrite(seen) => s.(holder := Some(i), threads := s.threads[i := Write(seen)])
    case Write(seen) => s.(total := seen + 1, threads := s.threads[i := UnlockAfterWrite])
    case UnlockAfterWrite => s.(holder := None, threads := s.threads[i := Gone])
    case Gone => s
  }

  ghost function Program(n: nat): System<State, nat> {
    System(Initial(n), (s, i) => Enabled(s, i), (s, i) => Step(s, i))
  }

  // ------------------------------------------------------------------ the bounds

  predicate Holds(t: Thread) { t.Read? || t.UnlockAfterRead? || t.Write? || t.UnlockAfterWrite? }

  predicate Written(t: Thread) { t.UnlockAfterWrite? || t.Gone? }

  ghost predicate SeenWithin(t: Thread, most: nat) {
    t.UnlockAfterRead? || t.LockToWrite? || t.Write? ==> t.seen <= most
  }

  /** The mutex has one holder; and what a thread has seen never exceeds the writes made since. */
  ghost predicate Inv(n: nat, s: State) {
    && |s.threads| == n
    && (forall i :: 0 <= i < n ==> (Holds(s.threads[i]) <==> s.holder == Some(i)))
    && (s.holder.Some? ==> s.holder.value < n)
    && s.total <= Count(s.threads, Written)
    && (Count(s.threads, Written) > 0 ==> s.total >= 1)
    && forall i :: 0 <= i < n ==> SeenWithin(s.threads[i], Count(s.threads, Written))
  }

  lemma StepKeepsInv(n: nat, s: State, i: nat)
    requires Inv(n, s) && Enabled(s, i)
    ensures Inv(n, Step(s, i))
  {
    CountUpdate(s.threads, i, Step(s, i).threads[i], Written);
  }

  lemma InvIsInductive(n: nat)
    ensures Inductive(Program(n), s => Inv(n, s))
  {
    CountPositive(Initial(n).threads, Written);
    forall s, i: nat | Inv(n, s) && Enabled(s, i) ensures Inv(n, Step(s, i)) {
      StepKeepsInv(n, s, i);
    }
  }

  function StepsLeft(t: Thread): nat {
    match t
    case LockToRead => 6
    case Read => 5
    case UnlockAfterRead(_) => 4
    case LockToWrite(_) => 3
    case Write(_) => 2
    case UnlockAfterWrite => 1
    case Gone => 0
  }

  ghost function Measure(s: State): nat { Sum(s.threads, StepsLeft) }

  lemma MeasureDecreases(n: nat)
    ensures Decreasing(Program(n), s => Inv(n, s), s => Measure(s), _ => 0, 0)
  {
    forall s, i: nat | Inv(n, s) && Enabled(s, i) ensures Measure(Step(s, i)) < Measure(s) {
      SumUpdate(s.threads, i, Step(s, i).threads[i], StepsLeft);
    }
  }

  /** Nothing can move only when every thread has gone: the mutex is never left locked. */
  lemma StuckMeansAllGone(n: nat, s: State)
    requires Inv(n, s) && Stuck(Program(n), s)
    ensures forall i :: 0 <= i < |s.threads| ==> s.threads[i].Gone?
  {
    var h := if s.holder.Some? then s.holder.value else 0;
    assert !Program(n).enabled(s, h);
    forall i | 0 <= i < |s.threads| ensures s.threads[i].Gone? {
      assert !Program(n).enabled(s, i);
    }
  }

  /** However the threads are scheduled, the total printed at the end is between 1 and the number of
      threads. */
  lemma TotalIsBounded(n: nat, s: State)
    requires n >= 1 && Reachable(Program(n), s) && Stuck(Program(n), s)
    ensures 1 <= s.total <= n
  {
    InvIsInductive(n);
    InvariantHolds(Program(n), s => Inv(n, s), s);
    StuckMeansAllGone(n, s);
    CountFull(s.threads, Written);
  }

  // ------------------------------------------------------------------ every total is reached

  /** Threads below `gone` have gone, those below `read` have read 0, the rest have not started. */
  function Staged(n: nat, gone: nat, read: nat, total: nat): State {
    State(total, None, seq(n, i => if i < gone then Gone else if i < read then LockToWrite(0) else LockToRead))
  }

  /** A thread takes the first lock, reads, and lets go, with nobody in between. */
  lemma ReadTurn(n: nat, acts: seq<nat>, s: State, i: nat)
    requires After(Program(n), acts) == Some(s) && i < |s.threads| && s.holder.None? && s.threads[i].LockToRead?
    ensures After(Program(n), acts + [i, i, i]) == Some(State(s.total, None, s.threads[i := LockToWrite(s.total)]))
  {
    var s1 := State(s.total, Some(i), s.threads[i := Read]);
    var s2 := State(s.total, Some(i), s.threads[i := UnlockAfterRead(s.total)]);
    assert s1.threads[i := UnlockAfterRead(s.total)] == s2.threads;
    assert s2.threads[i := LockToWrite(s.total)] == s.threads[i := LockToWrite(s.total)];
    ThreeSteps(n, acts, s, s1, s2, i);
  }

  /** And the second, writing what it has seen plus one. */
  lemma WriteTurn(n: nat, acts: seq<nat>, s: State, i: nat)
    requires After(Program(n), acts) == Some(s) && i < |s.threads| && s.holder.None? && s.threads[i].LockToWrite?
    ensures After(Program(n), acts + [i, i, i]) == Some(State(s.threads[i].seen + 1, None, s.threads[i := Gone]))
  {
    var seen := s.threads[i].seen;
    var s1 := State(s.total, Some(i), s.threads[i := Write(seen)]);
    var s2 := State(seen + 1, Some(i), s.threads[i := UnlockAfterWrite]);
    assert s1.threads[i := UnlockAfterWrite] == s2.threads;
    assert s2.threads[i := Gone] == s.threads[i := Gone];
    ThreeSteps(n, acts, s, s1, s2, i);
  }

  lemma ThreeSteps(n: nat, acts: seq<nat>, s: State, s1: State, s2: State, i: nat)
    requires After(Program(n), acts) == Some(s)
    requires Enabled(s, i) && s1 == Step(s, i) && Enabled(s1, i) && s2 == Step(s1, i) && Enabled(s2, i)
    ensures After(Program(n), acts + [i, i, i]) == Some(Step(s2, i))
  {
    AfterStep(Program(n), acts, s, i);
    AfterStep(Program(n), acts + [i], s1, i);
    AfterStep(Program(n), acts + [i] + [i], s2, i);
    assert acts + [i] + [i] + [i] == acts + [i, i, i];
  }

  /** The first `read` threads all read before anyone writes. */
  lemma {:induction false} AllRead(n: nat, read: nat) returns (acts: seq<nat>)
    requires read <= n
    ensures After(Program(n), acts) == Some(Staged(n, 0, read, 0))
  {
    if read == 0 {
      acts := [];
      assert Staged(n, 0, 0, 0) == Initial(n);
    } else {
      var before := AllRead(n, read - 1);
      ReadTurn(n, before, Staged(n, 0, read - 1, 0), read - 1);
      acts := before + [read - 1, read - 1, read - 1];
      assert Staged(n, 0, read - 1, 0).threads[read - 1 := LockToWrite(0)] == Staged(n, 0, read, 0).threads;
    }
  }

  /** Then they write one after another, each overwriting the last. */
  lemma {:induction false} AllWriteOver(n: nat, read: nat, gone: nat) returns (acts: seq<nat>)
    requires 1 <= gone <= read <= n
    ensures After(Program(n), acts) == Some(Staged(n, gone, read, 1))
  {
    var before: seq<nat>;
    if gone == 1 {
      before := AllRead(n, read);
      WriteTurn(n, before, Staged(n, 0, read, 0), 0);
      assert Staged(n, 0, read, 0).threads[0 := Gone] == Staged(n, 1, read, 1).threads;
    } else {
      before := AllWriteOver(n, read, gone - 1);
      WriteTurn(n, before, Staged(n, gone - 1, read, 1), gone - 1);
      assert Staged(n, gone - 1, read, 1).threads[gone - 1 := Gone] == Staged(n, gone, read, 1).threads;
    }
    acts := before + [gone - 1, gone - 1, gone - 1];
  }

  /** The rest run one at a time, each adding one. */
  lemma {:induction false} RestInTurn(n: nat, read: nat, gone: nat) returns (acts: seq<nat>)
    requires 1 <= read <= gone <= n
    ensures After(Program(n), acts) == Some(Staged(n, gone, gone, 1 + gone - read))
    decreases gone
  {
    if gone == read {
      acts := AllWriteOver(n, read, read);
    } else {
      var before := RestInTurn(n, read, gone - 1);
      var s, i := Staged(n, gone - 1, gone - 1, gone - read), gone - 1;
      ReadTurn(n, before, s, i);
      WriteTurn(n, before + [i, i, i], State(s.total, None, s.threads[i := LockToWrite(s.total)]), i);
      acts := before + [i, i, i] + [i, i, i];
      assert s.threads[i := LockToWrite(s.total)][i := Gone] == Staged(n, gone, gone, 1 + gone - read).threads;
    }
  }

  ghost predicate CanEndWith(n: nat, total: nat) {
    exists s :: Reachable(Program(n), s) && Stuck(Program(n), s) && s.total == total
  }

  /** The totals the schedules can end with are exactly 1 to n: for two threads, 1 and 2. */
  lemma TotalsAreExactly(n: nat, total: nat)
    requires n >= 1
    ensures CanEndWith(n, total) <==> 1 <= total <= n
  {
    if 1 <= total <= n {
      var acts := RestInTurn(n, n - total + 1, n);
      var s := Staged(n, n, n, total);
      assert Reachable(Program(n), s);
      assert Stuck(Program(n), s);
    }
    forall s | Reachable(Program(n), s) && Stuck(Program(n), s) ensures 1 <= s.total <= n {
      TotalIsBounded(n, s);
    }
  }

  /** Every schedule is at most six steps a thread and can be carried on to an end. */
  lemma EveryScheduleFinishes(n: nat, acts: seq<nat>) returns (more: seq<nat>)
    requires After(Program(n), acts).Some?
    ensures |acts| <= 6 * n
    ensures After(Program(n), acts + more).Some?
    ensures var s := After(Program(n), acts + more).value;
            forall i :: 0 <= i < |s.threads| ==> s.threads[i].Gone?
  {
    InvIsInductive(n);
    MeasureDecreases(n);
    RunsAreBounded(Program(n), s => Inv(n, s), s => Measure(s), _ => 0, 0, acts);
    SumBound(Initial(n).threads, StepsLeft, 6);
    more := RunsToAStop(Program(n), s => Inv(n, s), s => Measure(s), _ => 0, 0, acts);
    InvariantAfter(Program(n), s => Inv(n, s), acts + more);
    StuckMeansAllGone(n, After(Program(n), acts + more).value);
  }
}
