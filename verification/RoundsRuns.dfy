/** What holds of every run of the program of rounds, and when it can deadlock. */
module RoundsRuns {
  import opened Counting
  import opened Rounds
  import opened RoundsLeftOver
  import opened Transitions
  import opened Wrappers

  // ------------------------------------------------------------------ what holds of every run

  /** At every moment of every run, whatever number of parties the barrier is made for: nobody is in the bounded section
      before the setup is over, and it runs only once; `inside` is the number of threads in the section and never more
      than the permits; no recorded peak exceeds them. */
  lemma BoundedAtEveryMoment(c: Config, s: State)
    requires Reachable(Program(c), s)
    ensures forall i :: 0 <= i < |s.threads| && Holder(s.threads[i]) ==> s.sh.once == 2 && s.sh.resets == 1
    ensures s.sh.resets <= 1
    ensures s.sh.once == 2 ==> s.sh.inside == Count(s.threads, Inside) <= c.permits
    ensures forall i :: 0 <= i < |s.threads| ==> s.threads[i].peak <= c.permits
  {
    SafeIsInductive(c);
    InvariantHolds(Program(c), s => Safe(c, s), s);
    if s.sh.once == 2 { SetupRanOnce(s); }
    CountMonotone(s.threads, Inside, Holder);
    forall i | 0 <= i < |s.threads| ensures ThreadShape(c, s.threads[i]) {}
  }

  /** With no thread left over, besides, at most one thread has a line to print, and the lines printed are rounds 0, 1,
      2, ... in order, none twice. */
  lemma SafeAtEveryMoment(c: Config, s: State)
    requires c.NoneLeftOver() && Reachable(Program(c), s)
    ensures forall i :: 0 <= i < |s.threads| && Holder(s.threads[i]) ==> s.sh.once == 2 && s.sh.resets == 1
    ensures s.sh.resets <= 1
    ensures s.sh.once == 2 ==> s.sh.inside == Count(s.threads, Inside) <= c.permits
    ensures forall i :: 0 <= i < |s.threads| ==> s.threads[i].peak <= c.permits
    ensures Count(s.threads, Reporter) <= 1
    ensures s.sh.out == seq(|s.sh.out|, k => k) && |s.sh.out| <= c.rounds
    ensures forall i :: 0 <= i < |s.threads| ==> s.threads[i].round <= |s.sh.out| + 1
  {
    InvIsInductive(c);
    InvariantHolds(Program(c), s => Inv(c, s), s);
    BoundedAtEveryMoment(c, s);
    RoundsPrinted(c, s);
  }

  /** The barrier never gets past the last round. */
  lemma RoundsPrinted(c: Config, s: State)
    requires Inv(c, s)
    ensures |s.sh.out| <= c.rounds
    ensures forall i :: 0 <= i < |s.threads| ==> s.threads[i].round <= s.sh.gen
    ensures s.sh.gen <= |s.sh.out| + 1
  {
    var t := s.threads[0];
    assert ThreadShape(c, t) && BarrierThread(s.sh.gen, t);
    forall i | 0 <= i < |s.threads| ensures s.threads[i].round <= s.sh.gen {
      assert BarrierThread(s.sh.gen, s.threads[i]);
    }
  }

  // ------------------------------------------------------------------ what the threads and the program answer

  /** How many threads are in the bounded section when the schedule has run. */
  ghost function InsideAfter(c: Config, acts: seq<Action>): nat {
    match After(Program(c), acts)
    case None => 0
    case Some(s) => Count(s.threads, Inside)
  }

  /** Step k of the schedule takes thread i into the bounded section. */
  ghost predicate Enters(c: Config, acts: seq<Action>, i: nat, k: nat) {
    && k < |acts| && acts[k] == Run(i)
    && After(Program(c), acts[..k]).Some?
    && var s := After(Program(c), acts[..k]).value; i < |s.threads| && s.threads[i].pc.Enter?
  }

  /** What thread i has seen so far: the most there were inside just after a step that took it in, itself included. */
  ghost predicate HasSeen(c: Config, acts: seq<Action>, i: nat, peak: int) {
    && (forall k: nat :: Enters(c, acts, i, k) ==> InsideAfter(c, acts[..k + 1]) <= peak)
    && (peak == 0 || exists k: nat :: Enters(c, acts, i, k) && InsideAfter(c, acts[..k + 1]) == peak)
  }

  lemma PrefixOfFront<T>(acts: seq<T>, k: nat)
    requires k < |acts|
    ensures acts[..|acts| - 1][..k] == acts[..k]
  {
  }

  lemma EntersBefore(c: Config, acts: seq<Action>, i: nat, k: nat)
    requires 0 <= k < |acts| - 1
    ensures Enters(c, acts, i, k) <==> Enters(c, acts[..|acts| - 1], i, k)
    ensures acts[..|acts| - 1][..k + 1] == acts[..k + 1]
  {
    PrefixOfFront(acts, k);
    PrefixOfFront(acts, k + 1);
  }

  /** Entering makes one more inside, and `inside` says how many. */
  lemma CountsItself(c: Config, s: State, i: nat)
    requires Safe(c, s) && i < |s.threads|
    ensures var m := ThreadMove(c, s.sh, s.threads[i]);
            if s.threads[i].pc.Enter?
            then Count(ThreadStep(c, s, i).threads, Inside) == s.sh.inside + 1
                 && m.t.peak == if s.threads[i].peak < s.sh.inside + 1 then s.sh.inside + 1 else s.threads[i].peak
            else Count(ThreadStep(c, s, i).threads, Inside) <= Count(s.threads, Inside)
                 && m.t.peak == s.threads[i].peak
  {
    CountStep(c, s, i, Inside);
    if s.threads[i].pc.Enter? { SetupRanOnce(s); }
  }

  lemma PeakStep(c: Config, s: State, a: Action, i: nat)
    requires Safe(c, s) && Enabled(c, s, a) && i < c.threads
    ensures var s' := Step(c, s, a);
            && |s'.threads| == c.threads && s.threads[i].peak <= s'.threads[i].peak
            && (if a == Run(i) && s.threads[i].pc.Enter?
                then Count(s'.threads, Inside) <= s'.threads[i].peak
                     && (s'.threads[i].peak == Count(s'.threads, Inside) || s'.threads[i].peak == s.threads[i].peak)
                else s'.threads[i].peak == s.threads[i].peak)
  {
    if a.Run? { CountsItself(c, s, a.i); }
  }

  lemma HasSeenOneMore(c: Config, acts: seq<Action>, i: nat, before: int, now: int)
    requires acts != [] && HasSeen(c, acts[..|acts| - 1], i, before) && before <= now
    requires if Enters(c, acts, i, |acts| - 1)
             then InsideAfter(c, acts) <= now && (now == InsideAfter(c, acts) || now == before)
             else now == before
    ensures HasSeen(c, acts, i, now)
  {
    var last: nat, front := |acts| - 1, acts[..|acts| - 1];
    assert acts[..last + 1] == acts;
    forall k: nat | Enters(c, acts, i, k) ensures InsideAfter(c, acts[..k + 1]) <= now {
      if k < last { EntersBefore(c, acts, i, k); }
    }
    if now == before && before != 0 {
      var k: nat :| Enters(c, front, i, k) && InsideAfter(c, front[..k + 1]) == before;
      EntersBefore(c, acts, i, k);
    }
  }

  lemma SeenStep(c: Config, acts: seq<Action>, i: nat, s: State)
    requires acts != [] && After(Program(c), acts[..|acts| - 1]) == Some(s) && Safe(c, s)
    requires After(Program(c), acts).Some? && i < c.threads && HasSeen(c, acts[..|acts| - 1], i, s.threads[i].peak)
    ensures Safe(c, After(Program(c), acts).value)
    ensures HasSeen(c, acts, i, After(Program(c), acts).value.threads[i].peak)
  {
    var a := acts[|acts| - 1];
    StepKeepsSafe(c, s, a);
    PeakStep(c, s, a, i);
    HasSeenOneMore(c, acts, i, s.threads[i].peak, Step(c, s, a).threads[i].peak);
  }

  /** Every thread answers the most it has seen inside as it entered. */
  lemma {:induction false} ThreadsHaveSeen(c: Config, acts: seq<Action>)
    requires After(Program(c), acts).Some?
    ensures Safe(c, After(Program(c), acts).value)
    ensures forall i :: 0 <= i < c.threads ==> HasSeen(c, acts, i, After(Program(c), acts).value.threads[i].peak)
  {
    if acts == [] {
      InitialSafe(c);
    } else {
      ThreadsHaveSeen(c, acts[..|acts| - 1]);
      SafeIsInductive(c);
      InvariantAfter(Program(c), s => Safe(c, s), acts);
      forall i | 0 <= i < c.threads
        ensures HasSeen(c, acts, i, After(Program(c), acts).value.threads[i].peak)
      {
        SeenStep(c, acts, i, After(Program(c), acts[..|acts| - 1]).value);
      }
    }
  }

  /** A last step that takes no thread in leaves no more inside. */
  lemma LastStepInside(c: Config, acts: seq<Action>, s: State)
    requires acts != [] && After(Program(c), acts[..|acts| - 1]) == Some(s) && Safe(c, s)
    requires After(Program(c), acts).Some?
    ensures var a := acts[|acts| - 1];
            InsideAfter(c, acts) <= InsideAfter(c, acts[..|acts| - 1])
            || (a.Run? && a.i < c.threads && Enters(c, acts, a.i, |acts| - 1))
  {
    var a := acts[|acts| - 1];
    if a.Run? { CountsItself(c, s, a.i); }
  }

  lemma OneStepInside(c: Config, acts: seq<Action>, k: nat)
    requires After(Program(c), acts).Some? && 0 < k <= |acts|
    ensures InsideAfter(c, acts[..k]) <= InsideAfter(c, acts[..k - 1])
         || (acts[k - 1].Run? && acts[k - 1].i < c.threads && Enters(c, acts, acts[k - 1].i, k - 1))
  {
    PrefixRuns(c, acts, k);
    PrefixRuns(c, acts, k - 1);
    ThreadsHaveSeen(c, acts[..k - 1]);
    assert acts[..k][..k - 1] == acts[..k - 1];
    LastStepInside(c, acts[..k], After(Program(c), acts[..k - 1]).value);
  }

  /** After the first k steps there were no more inside than after some step that took a thread in. */
  lemma {:induction false} SomebodyEntered(c: Config, acts: seq<Action>, k: nat) returns (i: nat, m: nat)
    requires After(Program(c), acts).Some? && k <= |acts| && InsideAfter(c, acts[..k]) > 0
    ensures i < c.threads && Enters(c, acts, i, m) && InsideAfter(c, acts[..k]) <= InsideAfter(c, acts[..m + 1])
  {
    if k == 0 {
      InitialCount(c, Inside);
    } else {
      OneStepInside(c, acts, k);
      if InsideAfter(c, acts[..k]) <= InsideAfter(c, acts[..k - 1]) {
        i, m := SomebodyEntered(c, acts, k - 1);
      } else {
        i, m := acts[k - 1].i, k - 1;
      }
    }
  }

  lemma {:induction false} PrefixRuns(c: Config, acts: seq<Action>, k: nat)
    requires After(Program(c), acts).Some? && k <= |acts|
    ensures After(Program(c), acts[..k]).Some?
  {
    if k == |acts| {
      assert acts[..k] == acts;
    } else {
      PrefixOfFront(acts, k);
      PrefixRuns(c, acts[..|acts| - 1], k);
    }
  }

  /** The main thread keeps the largest answer of the threads it has joined. */
  ghost predicate KeepsTheLargest(c: Config, s: State) {
    && Safe(c, s)
    && (forall j :: 0 <= j < s.joined ==> s.threads[j].peak <= s.peak)
    && (s.peak == 0 || exists j :: 0 <= j < s.joined && s.threads[j].peak == s.peak)
  }

  lemma LargestIsKept(c: Config)
    ensures Inductive(Program(c), s => KeepsTheLargest(c, s))
  {
    InitialSafe(c);
    forall s, a | KeepsTheLargest(c, s) && Enabled(c, s, a) ensures KeepsTheLargest(c, Step(c, s, a)) {
      StepKeepsSafe(c, s, a);
      if s.peak > 0 {
        var j :| 0 <= j < s.joined && s.threads[j].peak == s.peak;
        assert Step(c, s, a).threads[j].peak == s.peak;
      }
      if a.Main? && s.spawned == |s.threads| {
        assert Step(c, s, a).threads[s.joined].peak == s.threads[s.joined].peak;
      }
    }
  }

  /** No prefix of the schedule leaves more threads inside than the peak, and one leaves as many. */
  ghost predicate MostInside(c: Config, acts: seq<Action>, peak: int) {
    && (forall k :: 0 <= k <= |acts| ==> InsideAfter(c, acts[..k]) <= peak)
    && exists k :: 0 <= k <= |acts| && InsideAfter(c, acts[..k]) == peak
  }

  /** What the program answers is the most there ever were inside at once. */
  lemma PeakIsTheMost(c: Config, acts: seq<Action>)
    requires After(Program(c), acts).Some? && Done(After(Program(c), acts).value)
    ensures MostInside(c, acts, After(Program(c), acts).value.peak)
  {
    var s := After(Program(c), acts).value;
    ThreadsHaveSeen(c, acts);
    LargestIsKept(c);
    InvariantAfter(Program(c), s => KeepsTheLargest(c, s), acts);
    forall k | 0 <= k <= |acts| ensures InsideAfter(c, acts[..k]) <= s.peak {
      if InsideAfter(c, acts[..k]) > 0 {
        var i, m := SomebodyEntered(c, acts, k);
        assert HasSeen(c, acts, i, s.threads[i].peak);
      }
    }
    if s.peak == 0 {
      assert acts[..0] == [];
      InitialCount(c, Inside);
      assert InsideAfter(c, acts[..0]) == 0;
    } else {
      var j :| 0 <= j < s.joined && s.threads[j].peak == s.peak;
      assert HasSeen(c, acts, j, s.peak);
      var k: nat :| Enters(c, acts, j, k) && InsideAfter(c, acts[..k + 1]) == s.peak;
    }
  }

  // ------------------------------------------------------------------ a barrier for one thread at a time

  predicate AtReset(t: Thread) { t.pc.BarrierReset? }

  /** Knows no round later than the barrier's. */
  predicate NotAhead(gen: nat, t: Thread) {
    match t.pc
    case BarrierArrive(g) => g <= gen
    case BarrierCheck(g) => g <= gen
    case BarrierWait(g, _) => g <= gen
    case _ => true
  }

  predicate WaitsFor(gen: nat, t: Thread) {
    Waiting(t) && t.pc.g == gen
  }

  /** Arrivals are on record exactly while one thread, the first of them, is about to wipe them out. */
  ghost predicate WipedOut(s: State) {
    Count(s.threads, AtReset) == if s.sh.arrived > 0 then 1 else 0
  }

  /** Whoever waits for the round to end has a thread about to end it. */
  ghost predicate WillEnd(s: State, t: Thread) {
    NotAhead(s.sh.gen, t) && (WaitsFor(s.sh.gen, t) ==> Count(s.threads, Leader) > 0)
  }

  ghost predicate ForOne(c: Config, s: State) {
    Safe(c, s) && WakeInv(s) && WipedOut(s) && forall i :: 0 <= i < |s.threads| ==> WillEnd(s, s.threads[i])
  }

  lemma WipedOutStep(c: Config, s: State, i: nat)
    requires c.parties == 1 && WipedOut(s) && Enabled(c, s, Run(i))
    ensures WipedOut(ThreadStep(c, s, i))
    ensures s.threads[i].pc.BarrierArrive? ==>
              Leader(ThreadMove(c, s.sh, s.threads[i]).t) || Count(s.threads, Leader) > 0
  {
    CountStep(c, s, i, AtReset);
    CountMonotone(s.threads, AtReset, Leader);
  }

  lemma WillEndMove(c: Config, sh: Shared, t: Thread)
    requires c.parties == 1 && NotAhead(sh.gen, t)
    ensures var m := ThreadMove(c, sh, t);
            && NotAhead(m.sh.gen, m.t)
            && m.sh.gen == sh.gen + (if t.pc.BarrierBump? then 1 else 0)
            && (WaitsFor(m.sh.gen, m.t) ==> WaitsFor(sh.gen, t) || t.pc.BarrierArrive?)
            && (Leader(t) && !t.pc.BarrierBump? ==> Leader(m.t))
  {
  }

  lemma WillEndStep(c: Config, s: State, i: nat, j: nat)
    requires c.parties == 1 && ForOne(c, s) && Enabled(c, s, Run(i)) && j < |s.threads|
    ensures WillEnd(ThreadStep(c, s, i), ThreadStep(c, s, i).threads[j])
  {
    assert WillEnd(s, s.threads[i]) && WillEnd(s, s.threads[j]);
    WillEndMove(c, s.sh, s.threads[i]);
    WipedOutStep(c, s, i);
    CountStep(c, s, i, Leader);
  }

  lemma ForOneStep(c: Config, s: State, i: nat)
    requires c.parties == 1 && ForOne(c, s) && Enabled(c, s, Run(i))
    ensures ForOne(c, ThreadStep(c, s, i))
  {
    StepKeepsSafe(c, s, Run(i));
    WakeStep(c, s, i);
    WipedOutStep(c, s, i);
    var s' := ThreadStep(c, s, i);
    forall j | 0 <= j < |s'.threads| ensures WillEnd(s', s'.threads[j]) {
      WillEndStep(c, s, i, j);
    }
  }

  lemma ForOneIsInductive(c: Config)
    requires c.parties == 1
    ensures Inductive(Program(c), s => ForOne(c, s))
  {
    InitialSafe(c);
    InitialCount(c, AtReset);
    forall s, a | ForOne(c, s) && Enabled(c, s, a) ensures ForOne(c, Step(c, s, a)) {
      if a.Run? { ForOneStep(c, s, a.i); } else { StepKeepsSafe(c, s, a); }
    }
  }

  lemma NeverStuckForOne(c: Config, s: State)
    requires ForOne(c, s) && c.LetsThreadsIn() && Stuck(Program(c), s)
    ensures Done(s)
  {
    assert !Program(c).enabled(s, Main);
    if !Done(s) {
      SleepersAreAtTheBarrier(c, s, s.joined);
      NobodyActive(c, s, Leader);
    }
  }

  // ------------------------------------------------------------------ no rounds at all

  ghost predicate SafeAndAwake(c: Config, s: State) {
    Safe(c, s) && WakeInv(s)
  }

  lemma AwakeIsInductive(c: Config)
    ensures Inductive(Program(c), s => SafeAndAwake(c, s))
  {
    InitialSafe(c);
    forall s, a | SafeAndAwake(c, s) && Enabled(c, s, a) ensures SafeAndAwake(c, Step(c, s, a)) {
      StepKeepsSafe(c, s, a);
      if a.Run? { WakeStep(c, s, a.i); }
    }
  }

  lemma NeverStuckWithoutRounds(c: Config, s: State)
    requires SafeAndAwake(c, s) && c.rounds == 0 && Stuck(Program(c), s)
    ensures Done(s)
  {
    assert !Program(c).enabled(s, Main);
    if !Done(s) {
      assert ThreadShape(c, s.threads[s.joined]);
      SleepersAreAtTheBarrier(c, s, s.joined);
    }
  }

  // ------------------------------------------------------------------ every schedule ends

  /** A state in which nothing can move is the end of the program: every thread joined, all permits back, nobody inside,
      the setup run once, and the answer the most there ever were inside at once, within the permits; with no thread
      left over, every round's line was printed once and in order. */
  lemma StuckMeansFinished(c: Config, s: State)
    requires c.Valid() && c.CanFinish() && Reachable(Program(c), s) && Stuck(Program(c), s)
    ensures Done(s) && s.joined == c.threads
    ensures s.peak <= c.permits && s.sh.permits == c.permits && s.sh.inside == 0 && s.sh.resets == 1
    ensures forall acts :: After(Program(c), acts) == Some(s) ==> MostInside(c, acts, s.peak)
    ensures c.NoneLeftOver() ==> s.sh.out == seq(c.rounds, k => k)
  {
    StuckMeansDone(c, s);
    SafeIsInductive(c);
    InvariantHolds(Program(c), s => Safe(c, s), s);
    CountPositive(s.threads, Holder);
    CountPositive(s.threads, Inside);
    assert s.threads[0].pc.Finished?;
    SetupRanOnce(s);
    if c.NoneLeftOver() { AllPrinted(c, s); }
    forall acts | After(Program(c), acts) == Some(s) ensures MostInside(c, acts, s.peak) { PeakIsTheMost(c, acts); }
  }

  lemma StuckMeansDone(c: Config, s: State)
    requires c.Valid() && c.CanFinish() && Reachable(Program(c), s) && Stuck(Program(c), s)
    ensures Done(s)
  {
    if c.rounds == 0 {
      AwakeIsInductive(c);
      InvariantHolds(Program(c), s => SafeAndAwake(c, s), s);
      NeverStuckWithoutRounds(c, s);
    } else if c.parties == 1 {
      ForOneIsInductive(c);
      InvariantHolds(Program(c), s => ForOne(c, s), s);
      NeverStuckForOne(c, s);
    } else {
      InvIsInductive(c);
      InvariantHolds(Program(c), s => Inv(c, s), s);
      NeverStuck(c, s);
    }
  }

  lemma AllPrinted(c: Config, s: State)
    requires c.NoneLeftOver() && Reachable(Program(c), s) && Done(s)
    ensures s.sh.out == seq(c.rounds, k => k)
  {
    InvIsInductive(c);
    InvariantHolds(Program(c), s => Inv(c, s), s);
    var t := s.threads[0];
    assert ThreadShape(c, t) && BarrierThread(s.sh.gen, t);
    CountPositive(s.threads, Reporter);
  }

  /** Whatever number of parties the barrier is made for, no schedule goes on for ever, and every one can be carried on
      to a state in which nothing can move. */
  lemma EveryScheduleEnds(c: Config, acts: seq<Action>) returns (more: seq<Action>)
    requires After(Program(c), acts).Some?
    ensures |acts| <= Budget(s => Major(c, s), s => Minor(s), c.threads * 4, Initial(c))
    ensures After(Program(c), acts + more).Some?
    ensures var s := After(Program(c), acts + more).value; Reachable(Program(c), s) && Stuck(Program(c), s)
  {
    SafeIsInductive(c);
    MeasureDecreases(c);
    RunsAreBounded(Program(c), s => Safe(c, s), s => Major(c, s), s => Minor(s), c.threads * 4, acts);
    more := RunsToAStop(Program(c), s => Safe(c, s), s => Major(c, s), s => Minor(s), c.threads * 4, acts);
  }

  /** Every schedule, whatever order the threads are run in, has at most `Budget` steps and can be
      carried on to the program's end: no deadlock, no lost wake-up, no endless retrying. */
  lemma EveryScheduleFinishes(c: Config, acts: seq<Action>) returns (more: seq<Action>)
    requires c.Valid() && c.CanFinish() && After(Program(c), acts).Some?
    ensures |acts| <= Budget(s => Major(c, s), s => Minor(s), c.threads * 4, Initial(c))
    ensures After(Program(c), acts + more).Some?
    ensures var s := After(Program(c), acts + more).value;
            Done(s) && s.peak <= c.permits && MostInside(c, acts + more, s.peak)
            && (c.NoneLeftOver() ==> s.sh.out == seq(c.rounds, k => k))
  {
    more := EveryScheduleEnds(c, acts);
    StuckMeansFinished(c, After(Program(c), acts + more).value);
  }

  // ------------------------------------------------------------------ no permits at all

  /** Nobody has been let in. */
  ghost predicate AllOutside(c: Config, s: State) {
    Safe(c, s) && forall i :: 0 <= i < |s.threads| ==> !Past(s.threads[i])
  }

  predicate Past(t: Thread) {
    !InOnce(t) && !t.pc.OnceNotify? && !t.pc.AcquireLoad? && !t.pc.AcquireTry? && !t.pc.AcquireWait?
  }

  lemma StaysOutside(c: Config, s: State, i: nat)
    requires AllOutside(c, s) && !c.LetsThreadsIn() && Enabled(c, s, Run(i))
    ensures !Past(ThreadMove(c, s.sh, s.threads[i]).t)
  {
    var t := s.threads[i];
    assert ThreadShape(c, t) && s.sh.permits == 0;
  }

  lemma NobodyIsLetIn(c: Config)
    requires !c.LetsThreadsIn()
    ensures Inductive(Program(c), s => AllOutside(c, s))
  {
    InitialSafe(c);
    forall s, a | AllOutside(c, s) && Enabled(c, s, a) ensures AllOutside(c, Step(c, s, a)) {
      StepKeepsSafe(c, s, a);
      if a.Run? { StaysOutside(c, s, a.i); }
    }
  }

  // ------------------------------------------------------------------ a barrier for more threads than there are

  /** No round has ended. */
  ghost predicate InFirstRound(c: Config, s: State) {
    Inv(c, s) && s.sh.gen == 0
  }

  /** Nobody can be the last to arrive. */
  lemma NobodyReleases(c: Config, s: State, i: nat)
    requires InFirstRound(c, s) && c.parties > c.threads && Enabled(c, s, Run(i))
    ensures ThreadStep(c, s, i).sh.gen == 0
  {
    CountPositive(s.threads, Leader);
  }

  lemma NeverReleased(c: Config)
    requires c.NoneLeftOver() && c.parties > c.threads
    ensures Inductive(Program(c), s => InFirstRound(c, s))
  {
    InitialInv(c);
    forall s, a | InFirstRound(c, s) && Enabled(c, s, a) ensures InFirstRound(c, Step(c, s, a)) {
      StepKeepsInv(c, s, a);
      if a.Run? { NobodyReleases(c, s, a.i); }
    }
  }

  lemma UnfinishedInFirstRound(c: Config, s: State, i: nat)
    requires InFirstRound(c, s) && c.rounds > 0 && i < |s.threads|
    ensures !s.threads[i].pc.Finished?
  {
    assert ThreadShape(c, s.threads[i]) && BarrierThread(s.sh.gen, s.threads[i]);
  }

  /** Made for more threads than there are, the barrier holds them all: every schedule ends, and ends with every thread
      asleep at the first round's meeting point and nothing printed. */
  lemma AllWaitForEver(c: Config, acts: seq<Action>) returns (more: seq<Action>)
    requires c.NoneLeftOver() && c.parties > c.threads && c.permits > 0 && c.rounds > 0
    requires After(Program(c), acts).Some?
    ensures |acts| <= Budget(s => Major(c, s), s => Minor(s), c.threads * 4, Initial(c))
    ensures After(Program(c), acts + more).Some?
    ensures var s := After(Program(c), acts + more).value;
            && Stuck(Program(c), s) && s.joined == 0 && s.sh.out == []
            && forall i :: 0 <= i < |s.threads| ==> s.threads[i].pc.BarrierWait? && Sleeping(s.sh, s.threads[i])
  {
    more := EveryScheduleEnds(c, acts);
    NeverReleased(c);
    InvariantAfter(Program(c), s => InFirstRound(c, s), acts + more);
    AllAsleep(c, After(Program(c), acts + more).value);
  }

  lemma AllAsleep(c: Config, s: State)
    requires InFirstRound(c, s) && c.parties > c.threads && c.permits > 0 && c.rounds > 0 && Stuck(Program(c), s)
    ensures s.joined == 0 && s.sh.out == []
    ensures forall i :: 0 <= i < |s.threads| ==> s.threads[i].pc.BarrierWait? && Sleeping(s.sh, s.threads[i])
  {
    assert !Program(c).enabled(s, Main);
    UnfinishedInFirstRound(c, s, 0);
    CountPositive(s.threads, Leader);
    forall i | 0 <= i < |s.threads| ensures s.threads[i].pc.BarrierWait? && Sleeping(s.sh, s.threads[i]) {
      assert !Program(c).enabled(s, Run(i));
      UnfinishedInFirstRound(c, s, i);
      SleepersHaveArrived(c, s, i);
    }
  }

  // ------------------------------------------------------------------ when it can deadlock

  lemma DeadlocksWithoutPermits(c: Config, s: State)
    requires c.Valid() && !c.LetsThreadsIn() && Reachable(Program(c), s)
    ensures !Done(s)
  {
    NobodyIsLetIn(c);
    InvariantHolds(Program(c), s => AllOutside(c, s), s);
    assert !Past(s.threads[0]);
  }

  lemma DeadlocksWithTooFew(c: Config, s: State)
    requires c.NoneLeftOver() && c.parties > c.threads && c.rounds > 0 && Reachable(Program(c), s)
    ensures !Done(s)
  {
    NeverReleased(c);
    InvariantHolds(Program(c), s => InFirstRound(c, s), s);
    UnfinishedInFirstRound(c, s, 0);
  }

  /** For any number of threads, parties, permits and rounds the program can deadlock exactly when there are rounds to
      run, and no permits to run them with, or a barrier for more than one thread but not for exactly as many as there
      are: for more, they all wait for ever, and for fewer, one of them can be left behind. */
  lemma DeadlockFreeIff(c: Config)
    requires c.Valid()
    ensures (forall s :: Reachable(Program(c), s) && Stuck(Program(c), s) ==> Done(s)) <==> c.CanFinish()
  {
    if c.CanFinish() {
      forall s | Reachable(Program(c), s) && Stuck(Program(c), s) ensures Done(s) { StuckMeansDone(c, s); }
    } else if c.permits > 0 && c.parties < c.threads {
      var s := AThreadCanBeLeftBehind(c);
    } else {
      assert After(Program(c), []).Some?;
      var more := EveryScheduleEnds(c, []);
      var s := After(Program(c), [] + more).value;
      if c.permits == 0 { DeadlocksWithoutPermits(c, s); } else { DeadlocksWithTooFew(c, s); }
    }
  }
}
