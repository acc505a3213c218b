/** The lock-free maximum: threads that each offer one value to a shared atomic with a compare-exchange
    loop (`note_max`, and `Atomic::fetch_max` in `std`). For any values under any schedule. */
module CasMaximum {
  import opened Counting
  import opened Transitions

  /** The value `best` starts with, and what each thread offers. */
  datatype Config = Config(start: nat, xs: seq<nat>)

  /** Before the first load; before an exchange from `seen`; past the loop. */
  datatype Pc = Load | Try(seen: nat) | Done

  /** `fails` counts the thread's failed exchanges, `won` says whether one succeeded, and `stamp` is how many
      exchanges had succeeded, on any thread, when it last looked at `best`. */
  datatype Thread = Thread(pc: Pc, fails: nat, won: bool, stamp: nat)

  datatype State = State(best: nat, wins: nat, threads: seq<Thread>)

  function Initial(c: Config): State {
    State(c.start, 0, seq(|c.xs|, _ => Thread(Load, 0, false, 0)))
  }

  predicate Enabled(c: Config, s: State, i: nat) {
    i < |s.threads| && i < |c.xs| && !s.threads[i].pc.Done?
  }

  /** The loop's test, after `seen` has been given the value found. */
  function Again(x: nat, found: nat): Pc {
    if x > found then Try(found) else Done
  }

  function Step(c: Config, s: State, i: nat): State {
    if i >= |s.threads| || i >= |c.xs| then s else
    var t, x := s.threads[i], c.xs[i];
    match t.pc
    case Load => s.(threads := s.threads[i := t.(pc := Again(x, s.best), stamp := s.wins)])
    case Try(seen) =>
      if s.best == seen then
        State(x, s.wins + 1, s.threads[i := t.(pc := Again(x, x), won := true)])
      else
        s.(threads := s.threads[i := t.(pc := Again(x, s.best), fails := t.fails + 1, stamp := s.wins)])
    case Done => s
  }

  ghost function Program(c: Config): System<State, nat> {
    System(Initial(c), (s, i) => Enabled(c, s, i), (s, i) => Step(c, s, i))
  }

  predicate Won(t: Thread) { t.won }

  function Largest(start: nat, xs: seq<nat>): nat {
    if xs == [] then start else if xs[0] > Largest(start, xs[1..]) then xs[0] else Largest(start, xs[1..])
  }

  /** The largest of the values is one of them and bounds them all. */
  lemma {:induction false} LargestIsMaximum(start: nat, xs: seq<nat>, m: nat)
    requires m == start || m in xs
    requires start <= m && forall i :: 0 <= i < |xs| ==> xs[i] <= m
    ensures Largest(start, xs) == m
  {
    LargestBounds(start, xs);
  }

  lemma {:induction false} LargestBounds(start: nat, xs: seq<nat>)
    ensures start <= Largest(start, xs)
    ensures forall i :: 0 <= i < |xs| ==> xs[i] <= Largest(start, xs)
    ensures Largest(start, xs) == start || Largest(start, xs) in xs
  {
    if xs != [] {
      LargestBounds(start, xs[1..]);
      assert forall i :: 0 < i < |xs| ==> xs[i] == xs[1..][i - 1];
    }
  }

  ghost predicate ThreadInv(c: Config, s: State, x: nat, t: Thread) {
    && t.fails < |c.xs|
    && t.fails + (if t.won then 1 else 0) <= s.wins
    && (t.pc.Load? ==> t.fails == 0 && !t.won)
    && (t.pc.Done? ==> x <= s.best)
    && (t.pc.Try? ==>
          && t.pc.seen < x && t.pc.seen <= s.best
          && !t.won && t.fails <= t.stamp <= s.wins
          && (t.stamp == s.wins ==> t.pc.seen == s.best))
  }

  ghost predicate Inv(c: Config, s: State) {
    && |s.threads| == |c.xs|
    && c.start <= s.best
    && (s.best == c.start || s.best in c.xs)
    && s.wins == Count(s.threads, Won)
    && forall i :: 0 <= i < |s.threads| ==> ThreadInv(c, s, c.xs[i], s.threads[i])
  }

  /** `best` never falls. An exchange that fails has been overtaken: another thread has raised `best`
      strictly above what this one saw. */
  lemma StepRaises(c: Config, s: State, i: nat)
    requires Inv(c, s) && Enabled(c, s, i)
    ensures s.best <= Step(c, s, i).best
    ensures s.wins < Step(c, s, i).wins <==> s.best < Step(c, s, i).best
    ensures s.threads[i].fails < Step(c, s, i).threads[i].fails
            ==> s.threads[i].pc.Try? && s.threads[i].pc.seen < s.best && s.threads[i].stamp < s.wins
  {
    assert ThreadInv(c, s, c.xs[i], s.threads[i]);
  }

  lemma StepKeepsInv(c: Config, s: State, i: nat)
    requires Inv(c, s) && Enabled(c, s, i)
    ensures Inv(c, Step(c, s, i))
  {
    var s' := Step(c, s, i);
    var t, x := s.threads[i], c.xs[i];
    assert ThreadInv(c, s, x, t);
    CountUpdate(s.threads, i, s'.threads[i], Won);
    CountFull(s.threads, Won);
    forall j | 0 <= j < |s.threads| ensures ThreadInv(c, s', c.xs[j], s'.threads[j]) {
      assert ThreadInv(c, s, c.xs[j], s.threads[j]);
    }
  }

  lemma InvIsInductive(c: Config)
    ensures Inductive(Program(c), s => Inv(c, s))
  {
    CountPositive(Initial(c).threads, Won);
    forall s, i: nat | Inv(c, s) && Enabled(c, s, i) ensures Inv(c, Step(c, s, i)) {
      StepKeepsInv(c, s, i);
    }
  }

  /** A load and then one exchange for each time it may still be overtaken. */
  function Left(n: nat, t: Thread): nat {
    match t.pc
    case Load => n + 1
    case Try(_) => if t.fails < n then n - t.fails else 0
    case Done => 0
  }

  ghost function Measure(c: Config, s: State): nat {
    Sum(s.threads, (t: Thread) => Left(|c.xs|, t))
  }

  lemma MeasureDecreases(c: Config)
    ensures Decreasing(Program(c), s => Inv(c, s), s => Measure(c, s), _ => 0, 0)
  {
    forall s, i: nat | Inv(c, s) && Enabled(c, s, i) ensures Measure(c, Step(c, s, i)) < Measure(c, s) {
      StepKeepsInv(c, s, i);
      var s' := Step(c, s, i);
      assert ThreadInv(c, s, c.xs[i], s.threads[i]) && ThreadInv(c, s', c.xs[i], s'.threads[i]);
      SumUpdate(s.threads, i, s'.threads[i], (t: Thread) => Left(|c.xs|, t));
    }
  }

  /** No thread's exchange fails as often as there are threads: each failure is paid for by a different
      success of another thread, and a thread succeeds at most once. */
  lemma FailuresArePaidFor(c: Config, s: State)
    requires Reachable(Program(c), s)
    ensures |s.threads| == |c.xs|
    ensures s.wins == Count(s.threads, Won) <= |c.xs|
    ensures forall i :: 0 <= i < |s.threads| ==>
              && s.threads[i].fails + (if s.threads[i].won then 1 else 0) <= s.wins
              && s.threads[i].fails < |c.xs|
    ensures c.start <= s.best <= Largest(c.start, c.xs)
  {
    InvIsInductive(c);
    InvariantHolds(Program(c), s => Inv(c, s), s);
    LargestBounds(c.start, c.xs);
    forall i | 0 <= i < |s.threads| ensures ThreadInv(c, s, c.xs[i], s.threads[i]) {}
  }

  /** Every schedule ends, within (threads) x (threads + 1) steps, and when every thread is done `best` is
      the maximum of its first value and every value offered. */
  lemma EveryScheduleFindsTheMaximum(c: Config, acts: seq<nat>) returns (more: seq<nat>)
    requires After(Program(c), acts).Some?
    ensures |acts| <= |c.xs| * (|c.xs| + 1)
    ensures After(Program(c), acts + more).Some?
    ensures var s := After(Program(c), acts + more).value;
            && (forall i :: 0 <= i < |s.threads| ==> s.threads[i].pc.Done?)
            && s.best == Largest(c.start, c.xs)
  {
    InvIsInductive(c);
    MeasureDecreases(c);
    RunsAreBounded(Program(c), s => Inv(c, s), s => Measure(c, s), _ => 0, 0, acts);
    SumBound(Initial(c).threads, (t: Thread) => Left(|c.xs|, t), |c.xs| + 1);
    more := RunsToAStop(Program(c), s => Inv(c, s), s => Measure(c, s), _ => 0, 0, acts);
    InvariantAfter(Program(c), s => Inv(c, s), acts + more);
    AllDoneMeansMaximum(c, After(Program(c), acts + more).value);
  }

  lemma AllDoneMeansMaximum(c: Config, s: State)
    requires Inv(c, s) && Stuck(Program(c), s)
    ensures forall i :: 0 <= i < |s.threads| ==> s.threads[i].pc.Done?
    ensures s.best == Largest(c.start, c.xs)
  {
    forall i | 0 <= i < |s.threads| ensures s.threads[i].pc.Done? && c.xs[i] <= s.best {
      assert !Program(c).enabled(s, i);
      assert ThreadInv(c, s, c.xs[i], s.threads[i]);
    }
    LargestIsMaximum(c.start, c.xs, s.best);
  }
}
