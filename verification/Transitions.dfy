/** Threads that interleave one whole step at a time: a start state, which step is possible where, and
    what it does. A schedule is the list of steps taken; a run is a schedule every step of which was
    possible. */
module Transitions {
  import opened Wrappers

  datatype System<!S(!new), !A(!new)> = System(init: S, enabled: (S, A) -> bool, step: (S, A) -> S)

  /** The state a schedule leads to, or None when some step of it was not possible. */
  ghost function After<S(!new), A(!new)>(sys: System<S, A>, acts: seq<A>): Option<S> {
    if acts == [] then Some(sys.init) else
    match After(sys, acts[..|acts| - 1])
    case None => None
    case Some(s) =>
      var a := acts[|acts| - 1];
      if sys.enabled(s, a) then Some(sys.step(s, a)) else None
  }

  ghost predicate Reachable<S(!new), A(!new)>(sys: System<S, A>, s: S) {
    exists acts: seq<A> :: After(sys, acts) == Some(s)
  }

  /** No thread can take a step. */
  ghost predicate Stuck<S(!new), A(!new)>(sys: System<S, A>, s: S) {
    forall a: A :: !sys.enabled(s, a)
  }

  ghost predicate Inductive<S(!new), A(!new)>(sys: System<S, A>, inv: S -> bool) {
    && inv(sys.init)
    && forall s: S, a: A {:trigger sys.enabled(s, a)} :: inv(s) && sys.enabled(s, a) ==> inv(sys.step(s, a))
  }

  /** Every step lowers `major`, or keeps it and lowers `minor`, which never exceeds `most`. */
  ghost predicate Decreasing<S(!new), A(!new)>(
    sys: System<S, A>, inv: S -> bool, major: S -> nat, minor: S -> nat, most: nat)
  {
    && (forall s: S {:trigger inv(s)} :: inv(s) ==> minor(s) <= most)
    && forall s: S, a: A {:trigger sys.enabled(s, a)} :: inv(s) && sys.enabled(s, a) ==>
         var t := sys.step(s, a);
         major(t) < major(s) || (major(t) == major(s) && minor(t) < minor(s))
  }

  lemma {:induction false} AfterStep<S(!new), A(!new)>(sys: System<S, A>, acts: seq<A>, s: S, a: A)
    requires After(sys, acts) == Some(s) && sys.enabled(s, a)
    ensures After(sys, acts + [a]) == Some(sys.step(s, a))
    ensures Reachable(sys, sys.step(s, a))
  {
    assert (acts + [a])[..|acts + [a]| - 1] == acts;
  }

  lemma {:induction false} InvariantAfter<S(!new), A(!new)>(sys: System<S, A>, inv: S -> bool, acts: seq<A>)
    requires Inductive(sys, inv)
    ensures After(sys, acts).Some? ==> inv(After(sys, acts).value)
  {
    if acts != [] {
      InvariantAfter(sys, inv, acts[..|acts| - 1]);
    }
  }

  /** An inductive invariant holds of every reachable state. */
  lemma InvariantHolds<S(!new), A(!new)>(sys: System<S, A>, inv: S -> bool, s: S)
    requires Inductive(sys, inv) && Reachable(sys, s)
    ensures inv(s)
  {
    var acts :| After(sys, acts) == Some(s);
    InvariantAfter(sys, inv, acts);
  }

  lemma MeasureDrops(major: nat, minor: nat, major': nat, minor': nat, most: nat)
    requires minor' <= most
    requires major' < major || (major' == major && minor' < minor)
    ensures major' * (most + 1) + minor' + 1 <= major * (most + 1) + minor
  {
    if major' < major {
      var d := major - major';
      assert major * (most + 1) == major' * (most + 1) + d * (most + 1);
      assert d * (most + 1) >= most + 1;
    }
  }

  /** What the measure still allows after a run, with the steps already taken. */
  ghost function Budget<S(!new)>(major: S -> nat, minor: S -> nat, most: nat, s: S): nat {
    major(s) * (most + 1) + minor(s)
  }

  lemma {:induction false} RunLength<S(!new), A(!new)>(
    sys: System<S, A>, inv: S -> bool, major: S -> nat, minor: S -> nat, most: nat, acts: seq<A>)
    requires Inductive(sys, inv) && Decreasing(sys, inv, major, minor, most)
    requires After(sys, acts).Some?
    ensures |acts| + Budget(major, minor, most, After(sys, acts).value) <= Budget(major, minor, most, sys.init)
  {
    if acts != [] {
      var before := acts[..|acts| - 1];
      RunLength(sys, inv, major, minor, most, before);
      InvariantAfter(sys, inv, before);
      var s, a := After(sys, before).value, acts[|acts| - 1];
      assert inv(s) && sys.enabled(s, a);
      var t := sys.step(s, a);
      assert inv(t);
      MeasureDrops(major(s), minor(s), major(t), minor(t), most);
    }
  }

  /** No run is longer than the measure of the start state allows: every schedule ends. */
  lemma RunsAreBounded<S(!new), A(!new)>(
    sys: System<S, A>, inv: S -> bool, major: S -> nat, minor: S -> nat, most: nat, acts: seq<A>)
    requires Inductive(sys, inv) && Decreasing(sys, inv, major, minor, most)
    requires After(sys, acts).Some?
    ensures |acts| <= Budget(major, minor, most, sys.init)
  {
    RunLength(sys, inv, major, minor, most, acts);
  }

  /** Every run can be carried on to a state in which nothing can move. */
  lemma {:induction false} RunsToAStop<S(!new), A(!new)>(
    sys: System<S, A>, inv: S -> bool, major: S -> nat, minor: S -> nat, most: nat, acts: seq<A>)
    returns (more: seq<A>)
    requires Inductive(sys, inv) && Decreasing(sys, inv, major, minor, most)
    requires After(sys, acts).Some?
    ensures After(sys, acts + more).Some? && Stuck(sys, After(sys, acts + more).value)
    decreases major(After(sys, acts).value), minor(After(sys, acts).value)
  {
    var s := After(sys, acts).value;
    InvariantAfter(sys, inv, acts);
    if Stuck(sys, s) {
      more := [];
      assert acts + [] == acts;
    } else {
      var a :| sys.enabled(s, a);
      AfterStep(sys, acts, s, a);
      var rest := RunsToAStop(sys, inv, major, minor, most, acts + [a]);
      more := [a] + rest;
      assert acts + more == acts + [a] + rest;
    }
  }
}
