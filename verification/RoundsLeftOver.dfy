/** A barrier for fewer threads than there are. Between the last of its parties to arrive and the release of the others
    there is a moment in which one more arrival is counted and wiped out again; and so all rounds can go by without one
    of the threads, which then waits for ever. */
module RoundsLeftOver {
  import opened Counting
  import opened Rounds
  import opened Transitions
  import opened Wrappers

  // ------------------------------------------------------------------ one thread running alone

  /** s with one thread elsewhere, and what it has done to what is shared. */
  function With(s: State, i: nat, m: Move): State
    requires i < |s.threads|
  {
    s.(sh := m.sh, threads := s.threads[i := m.t])
  }

  ghost predicate Runs(sh: Shared, t: Thread) {
    !t.pc.Finished? && !Sleeping(sh, t)
  }

  lemma Goes(c: Config, s: State, i: nat, m: Move)
    requires i < s.spawned && i < |s.threads| && Reachable(Program(c), With(s, i, m)) && Runs(m.sh, m.t)
    ensures Reachable(Program(c), With(s, i, ThreadMove(c, m.sh, m.t)))
  {
    var n := ThreadMove(c, m.sh, m.t);
    var acts :| After(Program(c), acts) == Some(With(s, i, m));
    AfterStep(Program(c), acts, With(s, i, m), Run(i));
    assert s.threads[i := m.t][i := n.t] == s.threads[i := n.t];
  }

  lemma TakesAPermit(c: Config, s: State, i: nat, sh: Shared, t: Thread)
    requires i < s.spawned && i < |s.threads| && Reachable(Program(c), With(s, i, Move(sh, t)))
    requires t.pc.AcquireLoad? && sh.permits > 0
    ensures Reachable(Program(c), With(s, i, Move(sh.(permits := sh.permits - 1), t.(pc := Enter))))
  {
    Goes(c, s, i, Move(sh, t));
    Goes(c, s, i, Move(sh, t.(pc := AcquireTry(sh.permits))));
  }

  lemma GoesThroughTheSection(c: Config, s: State, i: nat, sh: Shared, t: Thread)
    requires i < s.spawned && i < |s.threads| && Reachable(Program(c), With(s, i, Move(sh, t))) && t.pc.Enter?
    ensures Reachable(Program(c), With(s, i, Move(sh, Thread(Release, t.round, Max(t.peak, sh.inside + 1)))))
  {
    Goes(c, s, i, Move(sh, t));
    Goes(c, s, i, Move(sh.(inside := sh.inside + 1), Thread(Leave, t.round, Max(t.peak, sh.inside + 1))));
  }

  lemma GivesThePermitBack(c: Config, s: State, i: nat, sh: Shared, t: Thread)
    requires i < s.spawned && i < |s.threads| && Reachable(Program(c), With(s, i, Move(sh, t))) && t.pc.Release?
    ensures var given := sh.(permits := sh.permits + 1, permitsWake := sh.permitsWake + 1);
            Reachable(Program(c), With(s, i, Move(given, t.(pc := BarrierLoad))))
  {
    Goes(c, s, i, Move(sh, t));
    Goes(c, s, i, Move(sh.(permits := sh.permits + 1), t.(pc := ReleaseNotify)));
  }

  lemma Arrives(c: Config, s: State, i: nat, sh: Shared, t: Thread)
    requires i < s.spawned && i < |s.threads| && Reachable(Program(c), With(s, i, Move(sh, t))) && t.pc.BarrierLoad?
    ensures var pc := if sh.arrived + 1 == c.parties then BarrierReset else BarrierCheck(sh.gen);
            Reachable(Program(c), With(s, i, Move(sh.(arrived := sh.arrived + 1), t.(pc := pc))))
  {
    Goes(c, s, i, Move(sh, t));
    Goes(c, s, i, Move(sh, t.(pc := BarrierArrive(sh.gen))));
  }

  /** Alone, with a permit free, a thread at the head of the loop gets to the barrier and arrives. */
  lemma GetsToTheBarrier(c: Config, s: State, i: nat, sh: Shared, t: Thread) returns (m: Move)
    requires i < s.spawned && i < |s.threads| && Reachable(Program(c), With(s, i, Move(sh, t)))
    requires t.pc.AcquireLoad? && sh.permits > 0
    ensures Reachable(Program(c), With(s, i, m)) && m.t.round == t.round
    ensures m.t.pc == if sh.arrived + 1 == c.parties then BarrierReset else BarrierCheck(sh.gen)
    ensures m.sh == sh.(permitsWake := sh.permitsWake + 1, arrived := sh.arrived + 1)
  {
    TakesAPermit(c, s, i, sh, t);
    var held, entering := sh.(permits := sh.permits - 1), t.(pc := Enter);
    GoesThroughTheSection(c, s, i, held, entering);
    var leaving := Thread(Release, t.round, Max(t.peak, held.inside + 1));
    GivesThePermitBack(c, s, i, held, leaving);
    var given := held.(permits := held.permits + 1, permitsWake := held.permitsWake + 1);
    Arrives(c, s, i, given, leaving.(pc := BarrierLoad));
    var pc := if given.arrived + 1 == c.parties then BarrierReset else BarrierCheck(given.gen);
    m := Move(given.(arrived := given.arrived + 1), leaving.(pc := pc));
  }

  // ------------------------------------------------------------------ one thread after the other

  lemma {:induction false} AllSpawned(c: Config, k: nat)
    requires k <= c.threads
    ensures Reachable(Program(c), Initial(c).(spawned := k))
  {
    if k == 0 {
      assert After(Program(c), []) == Some(Initial(c));
    } else {
      AllSpawned(c, k - 1);
      var s := Initial(c).(spawned := k - 1);
      var acts :| After(Program(c), acts) == Some(s);
      assert Enabled(c, s, Main) && Step(c, s, Main) == Initial(c).(spawned := k);
      AfterStep(Program(c), acts, s, Main);
    }
  }

  /** From its start, the first thread running the setup and any other finding it done, to the head of the loop. */
  lemma ComesToTheLoop(c: Config, s: State, i: nat) returns (m: Move)
    requires i < s.spawned && i < |s.threads| && Reachable(Program(c), s) && s.threads[i] == NEW_THREAD
    requires s.sh.once == 0 || s.sh.once == 2
    requires c.rounds > 0
    ensures Reachable(Program(c), With(s, i, m)) && m.t == Thread(AcquireLoad, 0, 0)
    ensures m.sh.once == 2 && m.sh.permits == s.sh.permits && m.sh.gen == s.sh.gen && m.sh.arrived == s.sh.arrived
  {
    var start := Move(s.sh, s.threads[i]);
    assert With(s, i, start) == s;
    Goes(c, s, i, start);
    if s.sh.once == 2 {
      m := Move(s.sh, Thread(AcquireLoad, 0, 0));
    } else {
      var claimed := Move(s.sh.(once := 1), Thread(OnceRun, 0, 0));
      Goes(c, s, i, claimed);
      var reset := Move(claimed.sh.(inside := 0, resets := s.sh.resets + 1), Thread(OnceStore, 0, 0));
      Goes(c, s, i, reset);
      var stored := Move(reset.sh.(once := 2), Thread(OnceNotify, 0, 0));
      Goes(c, s, i, stored);
      m := Move(stored.sh.(onceWake := s.sh.onceWake + 1), Thread(AcquireLoad, 0, 0));
    }
  }

  /** All threads are there, those below `first` have not run yet, and every permit is free. */
  ghost predicate Scene(c: Config, s: State, first: nat) {
    && |s.threads| == c.threads == s.spawned && s.joined == 0 && s.sh.permits == c.permits
    && forall i :: 0 <= i < first <= |s.threads| ==> s.threads[i] == NEW_THREAD
  }

  lemma {:induction false} ComeToTheLoop(c: Config, first: nat, k: nat) returns (s: State)
    requires first <= k <= c.threads && c.rounds > 0
    ensures Reachable(Program(c), s) && Scene(c, s, first) && s.sh.gen == 0 && s.sh.arrived == 0
    ensures s.sh.once == if first < k then 2 else 0
    ensures forall i :: 0 <= i < c.threads ==>
              s.threads[i] == if first <= i < k then Thread(AcquireLoad, 0, 0) else NEW_THREAD
  {
    if k == first {
      AllSpawned(c, c.threads);
      s := Initial(c).(spawned := c.threads);
    } else {
      s := ComeToTheLoop(c, first, k - 1);
      var m := ComesToTheLoop(c, s, k - 1);
      s := With(s, k - 1, m);
    }
  }

  function LoopHead(c: Config, round: nat): Pc {
    if round < c.rounds then AcquireLoad else Finished
  }

  /** Number n of the threads that run, when k of them have arrived at the meeting point of the round. */
  predicate InRoundAt(c: Config, t: Thread, n: int, round: nat, k: nat) {
    && t.round == round
    && t.pc == if n >= k then LoopHead(c, round) else if n + 1 == c.parties then BarrierReset else BarrierCheck(round)
  }

  /** k of the threads from `first` on have arrived at the meeting point of the round, in turn. */
  ghost predicate InRound(c: Config, s: State, first: nat, round: nat, k: nat) {
    && Scene(c, s, first) && s.sh.once == 2 && s.sh.gen == round && s.sh.arrived == k
    && forall i :: first <= i < |s.threads| ==> InRoundAt(c, s.threads[i], i - first, round, k)
  }

  lemma OneMoreArrives(c: Config, s: State, first: nat, round: nat, k: nat) returns (s': State)
    requires Reachable(Program(c), s) && InRound(c, s, first, round, k)
    requires first + k < c.threads && round < c.rounds && c.permits > 0
    ensures Reachable(Program(c), s') && InRound(c, s', first, round, k + 1)
  {
    var i := first + k;
    assert InRoundAt(c, s.threads[i], i - first, round, k);
    assert With(s, i, Move(s.sh, s.threads[i])) == s;
    var m := GetsToTheBarrier(c, s, i, s.sh, s.threads[i]);
    s' := With(s, i, m);
    forall j | first <= j < |s'.threads| ensures InRoundAt(c, s'.threads[j], j - first, round, k + 1) {
      assert InRoundAt(c, s.threads[j], j - first, round, k);
    }
  }

  lemma {:induction false} ManyArrive(c: Config, s: State, first: nat, round: nat, k: nat) returns (s': State)
    requires Reachable(Program(c), s) && InRound(c, s, first, round, 0)
    requires first + k <= c.threads && round < c.rounds && c.permits > 0
    ensures Reachable(Program(c), s') && InRound(c, s', first, round, k)
  {
    if k == 0 {
      s' := s;
    } else {
      s' := ManyArrive(c, s, first, round, k - 1);
      s' := OneMoreArrives(c, s', first, round, k - 1);
    }
  }

  // ------------------------------------------------------------------ the arrival that is forgotten

  /** More threads than the barrier's parties wait for one release, which is on its way, and no arrival is left on
      record. */
  ghost predicate Forgotten(c: Config, s: State) {
    && Count(s.threads, Bumping) == 1 && s.sh.arrived == 0
    && Arrivals(s) == c.parties + 1
  }

  lemma {:induction false} CountOfFirst<T>(ts: seq<T>, p: T -> bool, n: nat)
    requires n <= |ts| && forall i :: 0 <= i < |ts| ==> (p(ts[i]) <==> i < n)
    ensures Count(ts, p) == n
  {
    if ts != [] {
      assert forall i :: 0 <= i < |ts| - 1 ==> ts[1..][i] == ts[i + 1];
      CountOfFirst(ts[1..], p, if n == 0 then 0 else n - 1);
    }
  }

  lemma {:induction false} CountOfOne<T>(ts: seq<T>, p: T -> bool, k: nat)
    requires k < |ts| && forall i :: 0 <= i < |ts| ==> (p(ts[i]) <==> i == k)
    ensures Count(ts, p) == 1
  {
    assert forall i :: 0 <= i < |ts| - 1 ==> ts[1..][i] == ts[i + 1];
    if k == 0 {
      CountOfFirst(ts[1..], p, 0);
    } else {
      CountOfOne(ts[1..], p, k - 1);
    }
  }

  /** With more threads than parties, an arrival can be forgotten: one that falls between the last arrival and the
      moment in which the count of arrivals is set back. */
  lemma AnArrivalCanBeForgotten(c: Config) returns (s: State)
    requires c.Valid() && c.parties < c.threads && c.permits > 0 && c.rounds > 0
    ensures Reachable(Program(c), s) && Forgotten(c, s)
  {
    var n := c.parties;
    var gathered := ComeToTheLoop(c, 0, c.threads);
    gathered := ManyArrive(c, gathered, 0, 0, n + 1);
    forall i | 0 <= i < c.threads ensures InRoundAt(c, gathered.threads[i], i, 0, n + 1) {
      assert InRoundAt(c, gathered.threads[i], i - 0, 0, n + 1);
    }
    var last := Move(gathered.sh, gathered.threads[n - 1]);
    assert With(gathered, n - 1, last) == gathered;
    Goes(c, gathered, n - 1, last);
    s := With(gathered, n - 1, ThreadMove(c, last.sh, last.t));
    CountOfFirst(s.threads, (t: Thread) => Arrived(t, s.sh.gen), n + 1);
    CountOfOne(s.threads, Bumping, n - 1);
  }

  // ------------------------------------------------------------------ the thread that is left behind

  predicate PassingAt(c: Config, t: Thread, n: int, round: nat, k: nat) {
    if n < k || n + 1 == c.parties then t.round == round + 1 && t.pc == LoopHead(c, round + 1)
    else t.round == round && t.pc == BarrierCheck(round)
  }

  /** The round is over for the last to arrive and for the first k of the others. */
  ghost predicate Passing(c: Config, s: State, first: nat, round: nat, k: nat) {
    && Scene(c, s, first) && s.sh.once == 2 && s.sh.gen == round + 1 && s.sh.arrived == 0
    && forall i :: first <= i < |s.threads| ==> PassingAt(c, s.threads[i], i - first, round, k)
  }

  /** The last of the parties to arrive releases everybody who has arrived, and prints the round's line. */
  lemma LetsGo(c: Config, s: State, i: nat) returns (m: Move)
    requires i < s.spawned && i < |s.threads| && Reachable(Program(c), s) && s.threads[i].pc.BarrierReset?
    ensures Reachable(Program(c), With(s, i, m)) && m.t == AtRound(c, s.threads[i], s.threads[i].round + 1)
    ensures m.sh == s.sh.(arrived := 0, gen := s.sh.gen + 1, genWake := s.sh.genWake + 1,
                          out := s.sh.out + [s.threads[i].round])
  {
    m := Move(s.sh, s.threads[i]);
    assert With(s, i, m) == s;
    Goes(c, s, i, m);
    m := Move(m.sh.(arrived := 0), m.t.(pc := BarrierBump));
    Goes(c, s, i, m);
    m := Move(m.sh.(gen := m.sh.gen + 1), m.t.(pc := BarrierNotify));
    Goes(c, s, i, m);
    m := Move(m.sh.(genWake := m.sh.genWake + 1), m.t.(pc := Report));
    Goes(c, s, i, m);
    m := ThreadMove(c, m.sh, m.t);
  }

  lemma TheRoundIsOver(c: Config, s: State, first: nat, round: nat) returns (s': State)
    requires Reachable(Program(c), s) && c.parties > 0 && first + c.parties <= c.threads
    requires InRound(c, s, first, round, c.threads - first)
    ensures Reachable(Program(c), s') && Passing(c, s', first, round, 0)
  {
    var i := first + c.parties - 1;
    assert InRoundAt(c, s.threads[i], i - first, round, c.threads - first);
    var m := LetsGo(c, s, i);
    s' := With(s, i, m);
    forall j | first <= j < |s'.threads| ensures PassingAt(c, s'.threads[j], j - first, round, 0) {
      assert InRoundAt(c, s.threads[j], j - first, round, c.threads - first);
    }
  }

  lemma OneMorePasses(c: Config, s: State, first: nat, round: nat, k: nat) returns (s': State)
    requires Reachable(Program(c), s) && Passing(c, s, first, round, k) && first + k < c.threads
    ensures Reachable(Program(c), s') && Passing(c, s', first, round, k + 1)
  {
    var i := first + k;
    assert PassingAt(c, s.threads[i], i - first, round, k);
    s' := s;
    if k + 1 != c.parties {
      var m := Move(s.sh, s.threads[i]);
      assert With(s, i, m) == s;
      Goes(c, s, i, m);
      s' := With(s, i, ThreadMove(c, m.sh, m.t));
    }
    forall j | first <= j < |s'.threads| ensures PassingAt(c, s'.threads[j], j - first, round, k + 1) {
      assert PassingAt(c, s.threads[j], j - first, round, k);
    }
  }

  lemma {:induction false} ManyPass(c: Config, s: State, first: nat, round: nat, k: nat) returns (s': State)
    requires Reachable(Program(c), s) && Passing(c, s, first, round, 0) && first + k <= c.threads
    ensures Reachable(Program(c), s') && Passing(c, s', first, round, k)
  {
    if k == 0 {
      s' := s;
    } else {
      s' := ManyPass(c, s, first, round, k - 1);
      s' := OneMorePasses(c, s', first, round, k - 1);
    }
  }

  /** All rounds can go by without the threads below `first`, when the barrier does not need them. */
  lemma {:induction false} RoundsGoBy(c: Config, first: nat, round: nat) returns (s: State)
    requires c.Valid() && first + c.parties <= c.threads && c.permits > 0 && c.rounds > 0 && round <= c.rounds
    ensures Reachable(Program(c), s) && InRound(c, s, first, round, 0)
  {
    if round == 0 {
      s := ComeToTheLoop(c, first, c.threads);
    } else {
      s := RoundsGoBy(c, first, round - 1);
      s := ManyArrive(c, s, first, round - 1, c.threads - first);
      s := TheRoundIsOver(c, s, first, round - 1);
      s := ManyPass(c, s, first, round - 1, c.threads - first);
      forall j | first <= j < |s.threads| ensures InRoundAt(c, s.threads[j], j - first, round, 0) {
        assert PassingAt(c, s.threads[j], j - first, round - 1, c.threads - first);
      }
    }
  }

  /** A thread that waits for a release that does not come falls asleep. */
  lemma FallsAsleep(c: Config, s: State, i: nat, sh: Shared, t: Thread)
    requires i < s.spawned && i < |s.threads| && Reachable(Program(c), With(s, i, Move(sh, t)))
    requires t.pc == BarrierCheck(sh.gen)
    ensures Reachable(Program(c), With(s, i, Move(sh, t.(pc := BarrierWait(sh.gen, Asleep(sh.genWake))))))
  {
    Goes(c, s, i, Move(sh, t));
    Goes(c, s, i, Move(sh, t.(pc := BarrierWait(sh.gen, ReadWake))));
    Goes(c, s, i, Move(sh, t.(pc := BarrierWait(sh.gen, Check(sh.genWake)))));
  }

  /** Coming to the barrier with no arrival on record, when it waits for more than one. */
  lemma ComesAlone(c: Config, s: State, i: nat) returns (m: Move)
    requires i < s.spawned && i < |s.threads| && Reachable(Program(c), s) && s.threads[i] == NEW_THREAD
    requires s.sh.once == 2 && s.sh.permits > 0 && s.sh.arrived == 0 && c.parties > 1 && c.rounds > 0
    ensures Reachable(Program(c), With(s, i, m)) && m.t.pc == BarrierWait(m.sh.gen, Asleep(m.sh.genWake))
  {
    m := ComesToTheLoop(c, s, i);
    m := GetsToTheBarrier(c, s, i, m.sh, m.t);
    FallsAsleep(c, s, i, m.sh, m.t);
    m := Move(m.sh, m.t.(pc := BarrierWait(m.sh.gen, Asleep(m.sh.genWake))));
  }

  /** All others have ended, and the first thread, the first of a round nobody else will come to, sleeps. */
  ghost predicate LeftBehind(s: State) {
    && |s.threads| > 0 && s.joined == 0
    && s.threads[0].pc.BarrierWait? && Sleeping(s.sh, s.threads[0])
    && forall i :: 0 < i < |s.threads| ==> s.threads[i].pc.Finished?
  }

  /** With more threads than parties, and more than one party, a thread can be left behind: a deadlock. */
  lemma AThreadCanBeLeftBehind(c: Config) returns (s: State)
    requires 1 < c.parties < c.threads && c.permits > 0 && c.rounds > 0
    ensures Reachable(Program(c), s) && LeftBehind(s) && Stuck(Program(c), s)
  {
    var gone := RoundsGoBy(c, 1, c.rounds);
    var m := ComesAlone(c, gone, 0);
    s := With(gone, 0, m);
    forall i | 0 < i < |s.threads| ensures s.threads[i].pc.Finished? {
      assert InRoundAt(c, gone.threads[i], i - 1, c.rounds, 0);
    }
  }
}
