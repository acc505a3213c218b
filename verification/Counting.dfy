/** Sequences without repetition; how many elements of a sequence satisfy a predicate, and what they add up to: the
    arithmetic behind every argument of the form "this many threads are here, so one of them is there". */
module Counting {

  ghost predicate Distinct<T>(ts: seq<T>) {
    forall i, j :: 0 <= i < j < |ts| ==> ts[i] != ts[j]
  }

  function Count<T>(ts: seq<T>, p: T -> bool): (n: nat)
    ensures n <= |ts|
  {
    if ts == [] then 0 else (if p(ts[0]) then 1 else 0) + Count(ts[1..], p)
  }

  lemma {:induction false} SubsetOfRange(s: set<nat>, n: nat)
    requires forall v :: v in s ==> v < n
    ensures |s| <= n
  {
    if n == 0 {
      assert s == {};
    } else {
      SubsetOfRange(s - {n - 1}, n - 1);
    }
  }

  /** Replacing one element moves the count by that element alone. */
  lemma {:induction false} CountUpdate<T>(ts: seq<T>, i: nat, t: T, p: T -> bool)
    requires i < |ts|
    ensures Count(ts[i := t], p) + (if p(ts[i]) then 1 else 0) == Count(ts, p) + (if p(t) then 1 else 0)
  {
    if i == 0 {
      assert ts[0 := t][1..] == ts[1..];
    } else {
      assert ts[i := t][1..] == ts[1..][i - 1 := t];
      CountUpdate(ts[1..], i - 1, t, p);
    }
  }

  lemma {:induction false} CountAppend<T>(a: seq<T>, b: seq<T>, p: T -> bool)
    ensures Count(a + b, p) == Count(a, p) + Count(b, p)
  {
    if a == [] {
      assert a + b == b;
    } else {
      assert (a + b)[1..] == a[1..] + b;
      CountAppend(a[1..], b, p);
    }
  }

  /** A count of everything leaves no exception. */
  lemma {:induction false} CountFull<T>(ts: seq<T>, p: T -> bool)
    ensures Count(ts, p) == |ts| <==> forall i :: 0 <= i < |ts| ==> p(ts[i])
  {
    if ts != [] {
      CountFull(ts[1..], p);
      assert forall i :: 0 < i < |ts| ==> ts[i] == ts[1..][i - 1];
    }
  }

  /** A positive count has a witness, and a witness makes the count positive. */
  lemma {:induction false} CountPositive<T>(ts: seq<T>, p: T -> bool)
    ensures Count(ts, p) > 0 <==> exists i :: 0 <= i < |ts| && p(ts[i])
  {
    if ts != [] {
      CountPositive(ts[1..], p);
      assert forall i :: 0 < i < |ts| ==> ts[i] == ts[1..][i - 1];
    }
  }

  /** Two different witnesses make the count at least two. */
  lemma {:induction false} CountTwo<T>(ts: seq<T>, i: nat, j: nat, p: T -> bool)
    requires i < j < |ts| && p(ts[i]) && p(ts[j])
    ensures Count(ts, p) >= 2
  {
    if i == 0 {
      CountPositive(ts[1..], p);
      assert ts[1..][j - 1] == ts[j];
    } else {
      CountTwo(ts[1..], i - 1, j - 1, p);
    }
  }

  /** A predicate that implies another is counted no more often. */
  lemma {:induction false} CountMonotone<T>(ts: seq<T>, p: T -> bool, q: T -> bool)
    requires forall i :: 0 <= i < |ts| && p(ts[i]) ==> q(ts[i])
    ensures Count(ts, p) <= Count(ts, q)
  {
    if ts != [] {
      CountMonotone(ts[1..], p, q);
    }
  }

  /** The sum of a weight over a sequence. */
  function Sum<T>(ts: seq<T>, w: T -> nat): nat {
    if ts == [] then 0 else w(ts[0]) + Sum(ts[1..], w)
  }

  lemma {:induction false} SumUpdate<T>(ts: seq<T>, i: nat, t: T, w: T -> nat)
    requires i < |ts|
    ensures Sum(ts[i := t], w) + w(ts[i]) == Sum(ts, w) + w(t)
  {
    if i == 0 {
      assert ts[0 := t][1..] == ts[1..];
    } else {
      assert ts[i := t][1..] == ts[1..][i - 1 := t];
      SumUpdate(ts[1..], i - 1, t, w);
    }
  }

  lemma {:induction false} SumBound<T>(ts: seq<T>, w: T -> nat, most: nat)
    requires forall i :: 0 <= i < |ts| ==> w(ts[i]) <= most
    ensures Sum(ts, w) <= |ts| * most
  {
    if ts != [] {
      SumBound(ts[1..], w, most);
      assert |ts| * most == most + |ts[1..]| * most;
    }
  }

  function Total(ns: seq<int>): int {
    if ns == [] then 0 else ns[0] + Total(ns[1..])
  }

  lemma {:induction false} TotalAppend(a: seq<int>, b: seq<int>)
    ensures Total(a + b) == Total(a) + Total(b)
  {
    if a == [] {
      assert a + b == b;
    } else {
      assert (a + b)[1..] == a[1..] + b;
      TotalAppend(a[1..], b);
    }
  }
}
