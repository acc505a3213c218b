/** The program "Rounds, a bound and a one-time setup": threads that meet at a `Barrier`, pass through a
    `Semaphore` and share a `Once`, for any number of threads, permits and rounds.

    The three primitives are not taken on trust. Each thread steps through their own bodies in
    `std::sync`, one atomic operation at a time: the compare-exchange loop of `Semaphore::acquire`, the
    reset-then-advance of `Barrier::wait`, the claim of `Once::call`, and under all three the wake count
    that `Atomic::wait` reads, checks and sleeps on. */
module Rounds {
  import opened Counting
  import opened Transitions

  /** `parties` is how many threads the barrier is for, and `stale` what `inside` holds before the setup runs (4 and 99
      in the program). */
  datatype Config = Config(threads: nat, parties: nat, permits: nat, rounds: nat, stale: nat) {
    /** A barrier is for at least one thread. */
    ghost predicate Valid() {
      threads > 0 && parties > 0
    }

    /** No thread is left over when the barrier's parties have met. */
    ghost predicate NoneLeftOver() {
      Valid() && threads <= parties
    }

    /** Somebody can be let in, or nobody asks to be. */
    ghost predicate LetsThreadsIn() {
      permits > 0 || rounds == 0
    }

    /** And at the barrier nobody is kept for ever: it waits for exactly the threads there are, or for one at a time, or
        nobody comes to it. */
    ghost predicate CanFinish() {
      LetsThreadsIn() && (parties == threads || parties == 1 || rounds == 0)
    }
  }

  /** Where a thread stands inside `Atomic::wait`. */
  datatype Stage = ReadWake | Check(seen: nat) | Asleep(seen: nat)

  datatype Pc =
    | OnceTry | OnceWait(stage: Stage) | OnceRun | OnceStore | OnceNotify
    | AcquireLoad | AcquireTry(n: nat) | AcquireWait(stage: Stage)
    | Enter | Leave | Release | ReleaseNotify
    | BarrierLoad | BarrierArrive(g: nat) | BarrierReset | BarrierBump | BarrierNotify
    | BarrierCheck(g: nat) | BarrierWait(g: nat, stage: Stage)
    | Report | Finished

  datatype Thread = Thread(pc: Pc, round: nat, peak: int)

  /** The shared atomics with their wake counts, and the lines printed so far. `resets` counts the runs of
      the setup. */
  datatype Shared = Shared(
    once: nat, onceWake: nat, resets: nat,
    permits: nat, permitsWake: nat,
    arrived: nat, gen: nat, genWake: nat,
    inside: int, out: seq<nat>)

  /** The main thread has spawned the first `spawned` threads, joined the first `joined`, and keeps the
      largest of their answers. */
  datatype State = State(sh: Shared, threads: seq<Thread>, spawned: nat, joined: nat, peak: int)

  datatype Action = Main | Run(i: nat)

  datatype Move = Move(sh: Shared, t: Thread)

  function Max(a: int, b: int): int { if a < b then b else a }

  const NEW_THREAD := Thread(OnceTry, 0, 0)

  function Initial(c: Config): State {
    State(Shared(0, 0, 0, c.permits, 0, 0, 0, 0, c.stale, []), seq(c.threads, _ => NEW_THREAD), 0, 0, 0)
  }

  /** The head of the `for` loop over rounds. */
  function AtRound(c: Config, t: Thread, round: nat): Thread {
    t.(round := round, pc := if round < c.rounds then AcquireLoad else Finished)
  }

  /** One step of a thread: one atomic operation, or one line printed. */
  function ThreadMove(c: Config, sh: Shared, t: Thread): Move {
    match t.pc
    // Once::call
    case OnceTry =>
      if sh.once == 0 then Move(sh.(once := 1), t.(pc := OnceRun))
      else if sh.once == 2 then Move(sh, AtRound(c, t, t.round))
      else Move(sh, t.(pc := OnceWait(ReadWake)))
    case OnceRun => Move(sh.(inside := 0, resets := sh.resets + 1), t.(pc := OnceStore))
    case OnceStore => Move(sh.(once := 2), t.(pc := OnceNotify))
    case OnceNotify => Move(sh.(onceWake := sh.onceWake + 1), AtRound(c, t, t.round))
    case OnceWait(ReadWake) => Move(sh, t.(pc := OnceWait(Check(sh.onceWake))))
    case OnceWait(Check(seen)) => Move(sh, t.(pc := if sh.once != 1 then OnceTry else OnceWait(Asleep(seen))))
    case OnceWait(Asleep(_)) => Move(sh, t.(pc := OnceWait(ReadWake)))
    // Semaphore::acquire
    case AcquireLoad => Move(sh, t.(pc := AcquireTry(sh.permits)))
    case AcquireTry(n) =>
      if n == 0 then Move(sh, t.(pc := AcquireWait(ReadWake)))
      else if sh.permits == n then Move(sh.(permits := n - 1), t.(pc := Enter))
      else Move(sh, t.(pc := AcquireTry(sh.permits)))
    case AcquireWait(ReadWake) => Move(sh, t.(pc := AcquireWait(Check(sh.permitsWake))))
    case AcquireWait(Check(seen)) =>
      Move(sh, t.(pc := if sh.permits != 0 then AcquireLoad else AcquireWait(Asleep(seen))))
    case AcquireWait(Asleep(_)) => Move(sh, t.(pc := AcquireWait(ReadWake)))
    // the section between acquire and release
    case Enter => Move(sh.(inside := sh.inside + 1), t.(pc := Leave, peak := Max(t.peak, sh.inside + 1)))
    case Leave => Move(sh.(inside := sh.inside - 1), t.(pc := Release))
    // Semaphore::release
    case Release => Move(sh.(permits := sh.permits + 1), t.(pc := ReleaseNotify))
    case ReleaseNotify => Move(sh.(permitsWake := sh.permitsWake + 1), t.(pc := BarrierLoad))
    // Barrier::wait
    case BarrierLoad => Move(sh, t.(pc := BarrierArrive(sh.gen)))
    case BarrierArrive(g) =>
      Move(sh.(arrived := sh.arrived + 1),
           t.(pc := if sh.arrived + 1 == c.parties then BarrierReset else BarrierCheck(g)))
    case BarrierReset => Move(sh.(arrived := 0), t.(pc := BarrierBump))
    case BarrierBump => Move(sh.(gen := sh.gen + 1), t.(pc := BarrierNotify))
    case BarrierNotify => Move(sh.(genWake := sh.genWake + 1), t.(pc := Report))
    case BarrierCheck(g) =>
      Move(sh, if sh.gen == g then t.(pc := BarrierWait(g, ReadWake)) else AtRound(c, t, t.round + 1))
    case BarrierWait(g, ReadWake) => Move(sh, t.(pc := BarrierWait(g, Check(sh.genWake))))
    case BarrierWait(g, Check(seen)) =>
      Move(sh, t.(pc := if sh.gen != g then BarrierCheck(g) else BarrierWait(g, Asleep(seen))))
    case BarrierWait(g, Asleep(_)) => Move(sh, t.(pc := BarrierWait(g, ReadWake)))
    // the line the last to arrive prints
    case Report => Move(sh.(out := sh.out + [t.round]), AtRound(c, t, t.round + 1))
    case Finished => Move(sh, t)
  }

  function ThreadStep(c: Config, s: State, i: nat): State
    requires i < |s.threads|
  {
    var m := ThreadMove(c, s.sh, s.threads[i]);
    s.(sh := m.sh, threads := s.threads[i := m.t])
  }

  /** The main thread's loops: spawn every thread, then join them in order. */
  function MainStep(s: State): State {
    if s.spawned < |s.threads| then s.(spawned := s.spawned + 1)
    else if s.joined < |s.threads| then s.(joined := s.joined + 1, peak := Max(s.peak, s.threads[s.joined].peak))
    else s
  }

  function Step(c: Config, s: State, a: Action): State {
    match a
    case Main => MainStep(s)
    case Run(i) => if i < |s.threads| then ThreadStep(c, s, i) else s
  }

  /** A thread sleeps on a wake count that has not moved since it read it. */
  predicate Sleeping(sh: Shared, t: Thread) {
    match t.pc
    case OnceWait(Asleep(seen)) => seen == sh.onceWake
    case AcquireWait(Asleep(seen)) => seen == sh.permitsWake
    case BarrierWait(_, Asleep(seen)) => seen == sh.genWake
    case _ => false
  }

  predicate Enabled(c: Config, s: State, a: Action) {
    match a
    case Main =>
      s.spawned < |s.threads| || (s.joined < |s.threads| && s.threads[s.joined].pc.Finished?)
    case Run(i) =>
      i < s.spawned && i < |s.threads| && !s.threads[i].pc.Finished? && !Sleeping(s.sh, s.threads[i])
  }

  ghost function Program(c: Config): System<State, Action> {
    System(Initial(c), (s, a) => Enabled(c, s, a), (s, a) => Step(c, s, a))
  }

  ghost predicate Done(s: State) {
    s.joined == |s.threads|
  }

  // ------------------------------------------------------------------ where threads stand

  predicate InOnce(t: Thread) { t.pc.OnceTry? || t.pc.OnceWait? || t.pc.OnceRun? || t.pc.OnceStore? }

  predicate Runner(t: Thread) { t.pc.OnceRun? || t.pc.OnceStore? }

  predicate Resetting(t: Thread) { t.pc.OnceRun? }

  predicate Holder(t: Thread) { t.pc.Enter? || t.pc.Leave? || t.pc.Release? }

  predicate Inside(t: Thread) { t.pc.Leave? }

  predicate Waiting(t: Thread) { t.pc.BarrierCheck? || t.pc.BarrierWait? }

  predicate Leader(t: Thread) { t.pc.BarrierReset? || t.pc.BarrierBump? }

  predicate Bumping(t: Thread) { t.pc.BarrierBump? }

  predicate Reporter(t: Thread) { t.pc.BarrierNotify? || t.pc.Report? }

  predicate OnceNotifier(t: Thread) { t.pc.OnceNotify? }

  predicate PermitNotifier(t: Thread) { t.pc.ReleaseNotify? }

  predicate GenNotifier(t: Thread) { t.pc.BarrierNotify? }

  /** Has arrived at the meeting point of the round the barrier is in. */
  predicate Arrived(t: Thread, gen: nat) { (Waiting(t) && t.round == gen) || Leader(t) }

  // ------------------------------------------------------------------ the invariant

  ghost predicate ThreadShape(c: Config, t: Thread) {
    && t.round <= c.rounds
    && (t.pc.Finished? <==> t.round == c.rounds && !InOnce(t) && !t.pc.OnceNotify?)
    && (InOnce(t) || t.pc.OnceNotify? ==> t.round == 0)
    && 0 <= t.peak <= c.permits
  }

  ghost predicate Shape(c: Config, s: State) {
    && |s.threads| == c.threads
    && s.spawned <= c.threads && s.joined <= c.threads
    && (forall i :: 0 <= i < |s.threads| ==> ThreadShape(c, s.threads[i]))
    && (forall i :: 0 <= i < s.joined ==> s.threads[i].pc.Finished?)
    && (forall i :: s.spawned <= i < |s.threads| ==> s.threads[i] == NEW_THREAD)
    && (s.joined > 0 ==> s.spawned == c.threads)
    && 0 <= s.peak <= c.permits
  }

  /** The setup: claimed by one thread, run to its end before anyone is past it. */
  ghost predicate OnceInv(s: State) {
    && s.sh.once <= 2
    && Count(s.threads, Runner) == (if s.sh.once == 1 then 1 else 0)
    && (forall i :: 0 <= i < |s.threads| && !InOnce(s.threads[i]) ==> s.sh.once == 2)
    && s.sh.resets + Count(s.threads, Resetting) == (if s.sh.once == 0 then 0 else 1)
  }

  /** Permits are taken and given back, never made or lost. */
  ghost predicate PermitInv(c: Config, s: State) {
    s.sh.permits + Count(s.threads, Holder) == c.permits
  }

  /** Once the setup has run, `inside` counts the threads inside. */
  ghost predicate InsideInv(s: State) {
    s.sh.resets == 1 ==> s.sh.inside == Count(s.threads, Inside)
  }

  ghost predicate BarrierThread(gen: nat, t: Thread) {
    match t.pc
    case BarrierArrive(g) => g == gen && t.round == gen
    case BarrierCheck(g) => g == t.round && (t.round == gen || t.round + 1 == gen)
    case BarrierWait(g, _) => g == t.round && (t.round == gen || t.round + 1 == gen)
    case BarrierNotify => t.round + 1 == gen
    case Report => t.round + 1 == gen
    case _ => t.round == gen
  }

  ghost function Arrivals(s: State): nat {
    Count(s.threads, (t: Thread) => Arrived(t, s.sh.gen))
  }

  /** No thread is more than one release away from the barrier's round; the arrivals counted are the
      threads waiting in it; and at most one thread, the last to arrive, is releasing the others. */
  ghost predicate BarrierInv(c: Config, s: State) {
    && (forall i :: 0 <= i < |s.threads| ==> BarrierThread(s.sh.gen, s.threads[i]))
    && Count(s.threads, Leader) == (if Arrivals(s) == c.parties then 1 else 0)
    && s.sh.arrived == (if Count(s.threads, Bumping) > 0 then 0 else Arrivals(s))
  }

  /** The lines printed are the completed rounds in order, the last one possibly still to come. */
  ghost predicate OutInv(s: State) {
    && Count(s.threads, Reporter) <= 1
    && Count(s.threads, Reporter) <= s.sh.gen
    && s.sh.out == seq(s.sh.gen - Count(s.threads, Reporter), k => k)
  }

  /** No wake-up is lost: a thread asleep on a value that has changed, with the wake count still the one
      it read, has its notification on the way. */
  ghost predicate WakeThread(sh: Shared, threads: seq<Thread>, t: Thread) {
    match t.pc
    case OnceWait(Check(seen)) => seen <= sh.onceWake
    case OnceWait(Asleep(seen)) =>
      seen <= sh.onceWake && (seen == sh.onceWake && sh.once != 1 ==> Count(threads, OnceNotifier) > 0)
    case AcquireWait(Check(seen)) => seen <= sh.permitsWake
    case AcquireWait(Asleep(seen)) =>
      seen <= sh.permitsWake && (seen == sh.permitsWake && sh.permits != 0 ==> Count(threads, PermitNotifier) > 0)
    case BarrierWait(_, Check(seen)) => seen <= sh.genWake
    case BarrierWait(g, Asleep(seen)) =>
      seen <= sh.genWake && (seen == sh.genWake && sh.gen != g ==> Count(threads, GenNotifier) > 0)
    case _ => true
  }

  ghost predicate WakeInv(s: State) {
    forall i :: 0 <= i < |s.threads| ==> WakeThread(s.sh, s.threads, s.threads[i])
  }

  /** What holds whatever number of parties the barrier has. */
  ghost predicate Safe(c: Config, s: State) {
    && Shape(c, s)
    && OnceInv(s)
    && PermitInv(c, s)
    && InsideInv(s)
  }

  ghost predicate Inv(c: Config, s: State) {
    && c.NoneLeftOver()
    && Safe(c, s)
    && BarrierInv(c, s)
    && OutInv(s)
    && WakeInv(s)
  }

  // ------------------------------------------------------------------ each part is kept by every step

  lemma InitialCount(c: Config, p: Thread -> bool)
    requires !p(NEW_THREAD)
    ensures Count(Initial(c).threads, p) == 0
  {
    CountPositive(Initial(c).threads, p);
  }

  lemma InitialSafe(c: Config)
    ensures Safe(c, Initial(c))
  {
    InitialCount(c, Runner);
    InitialCount(c, Resetting);
    InitialCount(c, Holder);
    InitialCount(c, Inside);
  }

  lemma SafeIsInductive(c: Config)
    ensures Inductive(Program(c), s => Safe(c, s))
  {
    InitialSafe(c);
    forall s, a | Safe(c, s) && Enabled(c, s, a) ensures Safe(c, Step(c, s, a)) {
      StepKeepsSafe(c, s, a);
    }
  }

  lemma InitialInv(c: Config)
    requires c.NoneLeftOver()
    ensures Inv(c, Initial(c))
  {
    InitialSafe(c);
    InitialCount(c, Leader);
    InitialCount(c, Bumping);
    InitialCount(c, Reporter);
    InitialCount(c, (t: Thread) => Arrived(t, 0));
  }

  /** What one thread's step does to the number of threads satisfying p. */
  lemma CountStep(c: Config, s: State, i: nat, p: Thread -> bool)
    requires i < |s.threads|
    ensures var t, t' := s.threads[i], ThreadMove(c, s.sh, s.threads[i]).t;
            Count(ThreadStep(c, s, i).threads, p) == Count(s.threads, p)
              + (if p(t') then 1 else 0) - (if p(t) then 1 else 0)
    ensures p(s.threads[i]) ==> Count(s.threads, p) > 0
  {
    CountUpdate(s.threads, i, ThreadMove(c, s.sh, s.threads[i]).t, p);
    CountPositive(s.threads, p);
  }

  lemma OnceStep(c: Config, s: State, i: nat)
    requires Shape(c, s) && OnceInv(s) && Enabled(c, s, Run(i))
    ensures OnceInv(ThreadStep(c, s, i))
  {
    CountStep(c, s, i, Runner);
    CountStep(c, s, i, Resetting);
  }

  lemma PermitStep(c: Config, s: State, i: nat)
    requires PermitInv(c, s) && Enabled(c, s, Run(i))
    ensures PermitInv(c, ThreadStep(c, s, i))
  {
    CountStep(c, s, i, Holder);
  }

  lemma SetupRanOnce(s: State)
    requires OnceInv(s) && s.sh.once == 2
    ensures s.sh.resets == 1
  {
    CountMonotone(s.threads, Resetting, Runner);
  }

  lemma InsideStep(c: Config, s: State, i: nat)
    requires OnceInv(s) && InsideInv(s) && Enabled(c, s, Run(i))
    ensures InsideInv(ThreadStep(c, s, i))
  {
    CountStep(c, s, i, Inside);
    CountStep(c, s, i, Resetting);
    CountStep(c, s, i, Runner);
    CountPositive(s.threads, Inside);
  }

  /** Entering needs a permit in hand, so the count inside after entering is within the permits. */
  lemma EnterWithinPermits(c: Config, s: State, i: nat)
    requires OnceInv(s) && PermitInv(c, s) && InsideInv(s) && i < |s.threads| && s.threads[i].pc.Enter?
    ensures 0 <= s.sh.inside < c.permits
  {
    SetupRanOnce(s);
    CountStep(c, s, i, Inside);
    CountStep(c, s, i, Holder);
    CountMonotone(ThreadStep(c, s, i).threads, Inside, Holder);
  }

  lemma ShapeStep(c: Config, s: State, i: nat)
    requires Safe(c, s) && Enabled(c, s, Run(i))
    ensures Shape(c, ThreadStep(c, s, i))
  {
    if s.threads[i].pc.Enter? {
      EnterWithinPermits(c, s, i);
    }
    var t' := ThreadMove(c, s.sh, s.threads[i]).t;
    assert ThreadShape(c, t');
  }

  /** A thread that has not arrived keeps the count of arrivals short, so nobody is releasing. */
  lemma NotAllArrived(c: Config, s: State, i: nat)
    requires c.NoneLeftOver() && Shape(c, s) && BarrierInv(c, s) && i < |s.threads| && !Arrived(s.threads[i], s.sh.gen)
    ensures Arrivals(s) < c.threads && Count(s.threads, Leader) == 0 && Count(s.threads, Bumping) == 0
    ensures s.sh.arrived == Arrivals(s)
  {
    CountFull(s.threads, (t: Thread) => Arrived(t, s.sh.gen));
    CountMonotone(s.threads, Bumping, Leader);
  }

  /** While the last to arrive is releasing the others, they all wait in its round. */
  lemma AllWaitForTheLeader(c: Config, s: State, i: nat, j: nat)
    requires c.NoneLeftOver() && Shape(c, s) && BarrierInv(c, s) && i < |s.threads| && Leader(s.threads[i])
    requires j < |s.threads| && j != i
    ensures Waiting(s.threads[j]) && s.threads[j].round == s.sh.gen
  {
    CountPositive(s.threads, Leader);
    CountFull(s.threads, (t: Thread) => Arrived(t, s.sh.gen));
    if Leader(s.threads[j]) {
      if i < j { CountTwo(s.threads, i, j, Leader); } else { CountTwo(s.threads, j, i, Leader); }
    }
  }

  lemma BarrierBumpStep(c: Config, s: State, i: nat)
    requires Inv(c, s) && Enabled(c, s, Run(i)) && s.threads[i].pc.BarrierBump?
    ensures BarrierInv(c, ThreadStep(c, s, i))
    ensures OutInv(ThreadStep(c, s, i))
  {
    var s' := ThreadStep(c, s, i);
    forall j | 0 <= j < |s.threads|
      ensures BarrierThread(s'.sh.gen, s'.threads[j]) && !Arrived(s'.threads[j], s'.sh.gen)
      ensures !Reporter(s.threads[j])
    {
      if j != i { AllWaitForTheLeader(c, s, i, j); }
    }
    CountStep(c, s, i, Leader);
    CountStep(c, s, i, Bumping);
    CountStep(c, s, i, Reporter);
    CountPositive(s.threads, Reporter);
    CountPositive(s'.threads, (t: Thread) => Arrived(t, s'.sh.gen));
    CountMonotone(s'.threads, Bumping, Leader);
  }

  lemma BarrierThreadStep(c: Config, sh: Shared, t: Thread)
    requires BarrierThread(sh.gen, t) && ThreadShape(c, t) && !t.pc.BarrierBump?
    ensures ThreadMove(c, sh, t).sh.gen == sh.gen
    ensures BarrierThread(sh.gen, ThreadMove(c, sh, t).t)
    ensures Arrived(t, sh.gen) && !t.pc.BarrierReset? ==> ThreadMove(c, sh, t).sh.arrived == sh.arrived
    ensures !Arrived(t, sh.gen) && !t.pc.BarrierArrive? ==>
              !Arrived(ThreadMove(c, sh, t).t, sh.gen) && ThreadMove(c, sh, t).sh.arrived == sh.arrived
    ensures Arrived(t, sh.gen) ==> Arrived(ThreadMove(c, sh, t).t, sh.gen)
    ensures Leader(ThreadMove(c, sh, t).t) <==> Leader(t) || (t.pc.BarrierArrive? && sh.arrived + 1 == c.parties)
    ensures Bumping(ThreadMove(c, sh, t).t) <==> t.pc.BarrierReset?
  {
  }

  lemma BarrierStep(c: Config, s: State, i: nat)
    requires Inv(c, s) && Enabled(c, s, Run(i)) && !s.threads[i].pc.BarrierBump?
    ensures BarrierInv(c, ThreadStep(c, s, i))
  {
    var t := s.threads[i];
    BarrierThreadStep(c, s.sh, t);
    CountStep(c, s, i, (t: Thread) => Arrived(t, s.sh.gen));
    CountStep(c, s, i, Leader);
    CountStep(c, s, i, Bumping);
    if !Arrived(t, s.sh.gen) {
      NotAllArrived(c, s, i);
    }
  }

  lemma OutStep(c: Config, s: State, i: nat)
    requires BarrierInv(c, s) && OutInv(s) && Enabled(c, s, Run(i)) && !s.threads[i].pc.BarrierBump?
    ensures OutInv(ThreadStep(c, s, i))
  {
    CountStep(c, s, i, Reporter);
    assert BarrierThread(s.sh.gen, s.threads[i]);
  }

  /** A change of a value some thread may sleep on is followed by its notification. */
  lemma OnceNotifierStep(c: Config, s: State, i: nat)
    requires Enabled(c, s, Run(i))
    ensures var s' := ThreadStep(c, s, i);
            && s.sh.onceWake <= s'.sh.onceWake
            && (s'.sh.onceWake == s.sh.onceWake && s'.sh.once != 1
                && (s.sh.once == 1 || Count(s.threads, OnceNotifier) > 0)
                ==> Count(s'.threads, OnceNotifier) > 0)
  {
    CountStep(c, s, i, OnceNotifier);
  }

  lemma PermitNotifierStep(c: Config, s: State, i: nat)
    requires Enabled(c, s, Run(i))
    ensures var s' := ThreadStep(c, s, i);
            && s.sh.permitsWake <= s'.sh.permitsWake
            && (s'.sh.permitsWake == s.sh.permitsWake && s'.sh.permits != 0
                && (s.sh.permits == 0 || Count(s.threads, PermitNotifier) > 0)
                ==> Count(s'.threads, PermitNotifier) > 0)
  {
    CountStep(c, s, i, PermitNotifier);
  }

  lemma GenNotifierStep(c: Config, s: State, i: nat)
    requires Enabled(c, s, Run(i))
    ensures var s' := ThreadStep(c, s, i);
            && s.sh.genWake <= s'.sh.genWake
            && (s'.sh.genWake == s.sh.genWake && (s'.sh.gen != s.sh.gen || Count(s.threads, GenNotifier) > 0)
                ==> Count(s'.threads, GenNotifier) > 0)
  {
    CountStep(c, s, i, GenNotifier);
  }

  lemma WakeOther(c: Config, s: State, i: nat, j: nat)
    requires WakeInv(s) && Enabled(c, s, Run(i)) && j < |s.threads| && j != i
    ensures WakeThread(ThreadStep(c, s, i).sh, ThreadStep(c, s, i).threads, s.threads[j])
  {
    OnceNotifierStep(c, s, i);
    PermitNotifierStep(c, s, i);
    GenNotifierStep(c, s, i);
    assert WakeThread(s.sh, s.threads, s.threads[j]);
  }

  lemma WakeOwn(c: Config, s: State, i: nat)
    requires WakeInv(s) && Enabled(c, s, Run(i))
    ensures WakeThread(ThreadStep(c, s, i).sh, ThreadStep(c, s, i).threads, ThreadMove(c, s.sh, s.threads[i]).t)
  {
    assert WakeThread(s.sh, s.threads, s.threads[i]);
  }

  lemma WakeStep(c: Config, s: State, i: nat)
    requires WakeInv(s) && Enabled(c, s, Run(i))
    ensures WakeInv(ThreadStep(c, s, i))
  {
    var s' := ThreadStep(c, s, i);
    forall j | 0 <= j < |s'.threads| ensures WakeThread(s'.sh, s'.threads, s'.threads[j]) {
      if j == i { WakeOwn(c, s, i); } else { WakeOther(c, s, i, j); }
    }
  }

  lemma StepKeepsSafe(c: Config, s: State, a: Action)
    requires Safe(c, s) && Enabled(c, s, a)
    ensures Safe(c, Step(c, s, a))
  {
    match a
    case Main =>
    case Run(i) =>
      ShapeStep(c, s, i);
      OnceStep(c, s, i);
      PermitStep(c, s, i);
      InsideStep(c, s, i);
  }

  lemma StepKeepsInv(c: Config, s: State, a: Action)
    requires Inv(c, s) && Enabled(c, s, a)
    ensures Inv(c, Step(c, s, a))
  {
    StepKeepsSafe(c, s, a);
    match a
    case Main =>
    case Run(i) =>
      WakeStep(c, s, i);
      if s.threads[i].pc.BarrierBump? {
        BarrierBumpStep(c, s, i);
      } else {
        BarrierStep(c, s, i);
        OutStep(c, s, i);
      }
  }

  lemma InvIsInductive(c: Config)
    requires c.NoneLeftOver()
    ensures Inductive(Program(c), s => Inv(c, s))
  {
    InitialInv(c);
    forall s, a | Inv(c, s) && Enabled(c, s, a) ensures Inv(c, Step(c, s, a)) {
      StepKeepsInv(c, s, a);
    }
  }

  // ------------------------------------------------------------------ no state is stuck

  /** With every thread finished or asleep, nobody is on the way to wake anybody. */
  lemma NobodyActive(c: Config, s: State, p: Thread -> bool)
    requires Shape(c, s) && s.spawned == c.threads && Stuck(Program(c), s)
    requires forall t: Thread :: p(t) ==> !t.pc.Finished? && !Sleeping(s.sh, t)
    ensures Count(s.threads, p) == 0
  {
    forall i | 0 <= i < |s.threads| ensures !p(s.threads[i]) {
      assert !Program(c).enabled(s, Run(i));
    }
    CountPositive(s.threads, p);
  }

  /** In a stuck state every thread still asleep waits for the barrier's current round to end. */
  lemma SleepersAreAtTheBarrier(c: Config, s: State, i: nat)
    requires Safe(c, s) && WakeInv(s) && c.LetsThreadsIn() && s.spawned == c.threads && Stuck(Program(c), s)
    requires i < |s.threads| && !s.threads[i].pc.Finished?
    ensures s.threads[i].pc.BarrierWait? && s.threads[i].pc.g == s.sh.gen && Sleeping(s.sh, s.threads[i])
  {
    assert !Program(c).enabled(s, Run(i));
    assert WakeThread(s.sh, s.threads, s.threads[i]);
    NobodyActive(c, s, OnceNotifier);
    NobodyActive(c, s, PermitNotifier);
    NobodyActive(c, s, GenNotifier);
    NobodyActive(c, s, Runner);
    NobodyActive(c, s, Holder);
  }

  lemma SleepersHaveArrived(c: Config, s: State, i: nat)
    requires Inv(c, s) && c.LetsThreadsIn() && s.spawned == c.threads && Stuck(Program(c), s)
    requires i < |s.threads| && !s.threads[i].pc.Finished?
    ensures Arrived(s.threads[i], s.sh.gen)
  {
    SleepersAreAtTheBarrier(c, s, i);
    assert BarrierThread(s.sh.gen, s.threads[i]);
  }

  /** Progress: until the main thread has joined everyone, some thread can take a step. */
  lemma NeverStuck(c: Config, s: State)
    requires Inv(c, s) && c.CanFinish() && Stuck(Program(c), s)
    ensures Done(s)
  {
    assert !Program(c).enabled(s, Main);
    if !Done(s) {
      var k := s.joined;
      SleepersHaveArrived(c, s, k);
      assert BarrierThread(s.sh.gen, s.threads[k]);
      forall i | 0 <= i < |s.threads| ensures Arrived(s.threads[i], s.sh.gen) {
        assert BarrierThread(s.sh.gen, s.threads[i]);
        if !s.threads[i].pc.Finished? { SleepersHaveArrived(c, s, i); }
      }
      CountFull(s.threads, (t: Thread) => Arrived(t, s.sh.gen));
      NobodyActive(c, s, Leader);
    }
  }

  // ------------------------------------------------------------------ every schedule ends

  /** Steps that change something shared for good: how many a thread still has before it. */
  function Work(c: Config, t: Thread): nat
    requires t.round <= c.rounds
  {
    var left := 12 * (c.rounds - t.round);
    match t.pc
    case OnceTry => left + 5
    case OnceWait(_) => left + 5
    case OnceRun => left + 4
    case OnceStore => left + 3
    case OnceNotify => left + 2
    case AcquireLoad => left
    case AcquireTry(_) => left
    case AcquireWait(_) => left
    case Enter => Pred(left, 1)
    case Leave => Pred(left, 2)
    case Release => Pred(left, 3)
    case ReleaseNotify => Pred(left, 4)
    case BarrierLoad => Pred(left, 5)
    case BarrierArrive(_) => Pred(left, 6)
    case BarrierCheck(_) => Pred(left, 7)
    case BarrierWait(_, _) => Pred(left, 7)
    case BarrierReset => Pred(left, 7)
    case BarrierBump => Pred(left, 8)
    case BarrierNotify => Pred(left, 9)
    case Report => Pred(left, 10)
    case Finished => 0
  }

  function Pred(n: nat, k: nat): nat { if n < k then 0 else n - k }

  /** The retries and wake-ups a thread has before it, as long as nothing shared changes meanwhile. */
  function WaitRank(changed: bool, stage: Stage, wake: nat): nat {
    match stage
    case ReadWake => if changed then 3 else 2
    case Check(seen) => if changed then 2 else if seen != wake then 4 else 1
    case Asleep(seen) => if changed then 4 else if seen != wake then 3 else 0
  }

  function Rank(sh: Shared, t: Thread): nat {
    match t.pc
    case OnceTry => if sh.once == 1 then 3 else 0
    case OnceWait(stage) => WaitRank(sh.once != 1, stage, sh.onceWake)
    case AcquireLoad => if sh.permits == 0 then 4 else 1
    case AcquireTry(n) =>
      if sh.permits == 0 then (if n == 0 then 3 else 4)
      else if n == 0 then 4 else if n == sh.permits then 0 else 1
    case AcquireWait(stage) => WaitRank(sh.permits != 0, stage, sh.permitsWake)
    case BarrierCheck(g) => if sh.gen == g then 3 else 0
    case BarrierWait(g, stage) => WaitRank(sh.gen != g, stage, sh.genWake)
    case _ => 0
  }

  ghost function Major(c: Config, s: State): nat {
    if Shape(c, s) then
      Sum(s.threads, (t: Thread) => if t.round <= c.rounds then Work(c, t) else 0)
        + (c.threads - s.spawned) + (c.threads - s.joined)
    else 0
  }

  ghost function Minor(s: State): nat {
    Sum(s.threads, (t: Thread) => Rank(s.sh, t))
  }

  predicate InWait(t: Thread) { t.pc.OnceWait? || t.pc.AcquireWait? || t.pc.BarrierWait? }

  ghost predicate Decreases(c: Config, sh: Shared, t: Thread) {
    var m := ThreadMove(c, sh, t);
    && t.round <= c.rounds && m.t.round <= c.rounds
    && (Work(c, m.t) < Work(c, t) || (Work(c, m.t) == Work(c, t) && m.sh == sh && Rank(sh, m.t) < Rank(sh, t)))
  }

  lemma WaitDecreases(c: Config, sh: Shared, t: Thread)
    requires ThreadShape(c, t) && sh.once <= 2 && InWait(t) && !Sleeping(sh, t)
    ensures Decreases(c, sh, t)
  {
  }

  /** One step of a thread does some of its work, or leaves everything shared alone and uses up one of
      its retries. */
  lemma MoveDecreases(c: Config, sh: Shared, t: Thread)
    requires ThreadShape(c, t) && sh.once <= 2 && !t.pc.Finished? && !Sleeping(sh, t)
    ensures Decreases(c, sh, t)
  {
    if InWait(t) { WaitDecreases(c, sh, t); }
  }

  lemma StepDecreases(c: Config, s: State, a: Action)
    requires Safe(c, s) && Enabled(c, s, a)
    ensures var s' := Step(c, s, a);
            Major(c, s') < Major(c, s) || (Major(c, s') == Major(c, s) && Minor(s') < Minor(s))
  {
    match a
    case Main =>
    case Run(i) =>
      ShapeStep(c, s, i);
      MoveDecreases(c, s.sh, s.threads[i]);
      var m := ThreadMove(c, s.sh, s.threads[i]);
      SumUpdate(s.threads, i, m.t, (t: Thread) => if t.round <= c.rounds then Work(c, t) else 0);
      SumUpdate(s.threads, i, m.t, (t: Thread) => Rank(s.sh, t));
  }

  lemma MeasureDecreases(c: Config)
    ensures Decreasing(Program(c), s => Safe(c, s), s => Major(c, s), s => Minor(s), c.threads * 4)
  {
    forall s | Safe(c, s) ensures Minor(s) <= c.threads * 4 {
      SumBound(s.threads, (t: Thread) => Rank(s.sh, t), 4);
    }
    forall s, a | Safe(c, s) && Enabled(c, s, a)
      ensures var s' := Step(c, s, a);
              Major(c, s') < Major(c, s) || (Major(c, s') == Major(c, s) && Minor(s') < Minor(s))
    {
      StepDecreases(c, s, a);
    }
  }
}
