/** "Shortest routes with a PriorityQueue": Dijkstra's search, by settling places outward from 0,
    over any map, with the `u32` additions that stop the program when they overflow. */
module Dijkstra {
  import opened Wrappers
  import opened Graphs
  import opened PriorityQueues

  datatype Visit = Visit(dist: nat, node: nat)

  type Held = multiset<Entry<Visit>>

  /** The key order of the struct: by distance, then by place. */
  predicate VisitBefore(a: Visit, b: Visit) {
    a.dist < b.dist || (a.dist == b.dist && a.node < b.node)
  }

  ghost predicate Queued(held: Held, x: Visit) {
    exists e :: e in held && e.item == x
  }

  /** Along road i of u, itself at distance d. */
  function VisitBy(roads: Map, u: nat, d: nat, i: nat): Visit
    requires u < |roads| && i < |roads[u]|
  {
    Visit(d + roads[u][i].km, roads[u][i].to)
  }

  /** A road onward from a settled place is accounted for: where it leads is settled no later, or a visit
      that long waits in the queue. */
  ghost predicate Covered(roads: Map, best: seq<nat>, held: Held, u: nat, i: nat)
    requires u < |roads| == |best| && i < |roads[u]|
  {
    var x := VisitBy(roads, u, best[u], i);
    x.dist <= UNREACHED && x.node < |best| && (best[x.node] <= x.dist || Queued(held, x))
  }

  /** The first n roads of u are covered, if u is settled. */
  ghost predicate CoveredFrom(roads: Map, best: seq<nat>, held: Held, u: nat, n: nat)
    requires u < |roads| == |best|
  {
    n <= |roads[u]| && (best[u] < UNREACHED ==> forall i :: 0 <= i < n ==> Covered(roads, best, held, u, i))
  }

  /** Every road of a settled place is covered; of the place `cur` only the first k so far. */
  ghost predicate RoadsCovered(roads: Map, best: seq<nat>, held: Held, cur: nat, k: nat)
    requires |best| == |roads|
  {
    forall u :: 0 <= u < |roads| ==> CoveredFrom(roads, best, held, u, if u == cur then k else |roads[u]|)
  }

  /** What waits is a walk, no shorter than the last visit taken. */
  ghost predicate Waiting(roads: Map, x: Visit, last: nat) {
    x.node < |roads| && last <= x.dist <= UNREACHED && HasWalk(roads, x.node, x.dist)
  }

  ghost predicate AllWaiting(roads: Map, held: Held, last: nat) {
    forall e :: e in held ==> Waiting(roads, e.item, last)
  }

  /** What is settled is exact, and no further than the last visit taken. */
  ghost predicate SettledAt(roads: Map, best: seq<nat>, v: nat, last: nat)
    requires v < |best|
  {
    best[v] <= UNREACHED && (best[v] < UNREACHED ==> best[v] <= last && IsShortest(roads, v, best[v]))
  }

  ghost predicate AllSettled(roads: Map, best: seq<nat>, last: nat) {
    forall v :: 0 <= v < |best| ==> SettledAt(roads, best, v, last)
  }

  /** Between turns, with `cur` beyond the places, or while the roads of `cur` are followed; `last` is the distance
      of the last visit taken. */
  ghost predicate Inv(roads: Map, best: seq<nat>, held: Held, cur: nat, k: nat, last: nat) {
    && WellFormed(roads)
    && |best| == |roads|
    && AllSettled(roads, best, last)
    && AllWaiting(roads, held, last)
    && (best[0] == 0 || Queued(held, Visit(0, 0)))
    && RoadsCovered(roads, best, held, cur, k)
  }

  /** The heart of it: a walk is no shorter than what is settled at its end, or than some visit waiting. */
  lemma {:induction false} WalkIsAccountedFor(roads: Map, best: seq<nat>, held: Held, last: nat, w: Walk)
    requires Inv(roads, best, held, |roads|, 0, last) && IsWalk(roads, w)
    ensures End(w) < |best|
    ensures best[End(w)] <= Len(w) || exists e :: e in held && e.item.dist <= Len(w)
  {
    match w
    case Start =>
    case Extend(p, r) =>
      WalkIsAccountedFor(roads, best, held, last, p);
      var u := End(p);
      var i :| 0 <= i < |roads[u]| && roads[u][i] == r;
      if best[u] <= Len(p) && best[u] < UNREACHED {
        assert CoveredFrom(roads, best, held, u, |roads[u]|);
        assert Covered(roads, best, held, u, i);
      } else if best[u] <= Len(p) {
        assert SettledAt(roads, best, r.to, last);
      }
  }

  lemma FirstIsNearest(held: Held, first: Entry<Visit>, e: Entry<Visit>)
    requires ComesOutFirst(VisitBefore, held, first) && e in held
    ensures first.item.dist <= e.item.dist
  {
    assert Leq(VisitBefore, first, e);
  }

  /** The first visit to come out is at a shortest distance, unless its place was reached sooner. */
  lemma FirstVisitIsShortest(roads: Map, best: seq<nat>, held: Held, last: nat, first: Entry<Visit>)
    requires Inv(roads, best, held, |roads|, 0, last) && ComesOutFirst(VisitBefore, held, first)
    requires first.item.node < |best| && first.item.dist < best[first.item.node]
    ensures best[first.item.node] == UNREACHED
    ensures IsShortest(roads, first.item.node, first.item.dist)
  {
    assert Waiting(roads, first.item, last) && SettledAt(roads, best, first.item.node, last);
    forall w | IsWalk(roads, w) && End(w) == first.item.node ensures first.item.dist <= Len(w) {
      WalkIsAccountedFor(roads, best, held, last, w);
      if e :| e in held && e.item.dist <= Len(w) { FirstIsNearest(held, first, e); }
    }
  }

  /** Taking a visit out of the queue leaves the others waiting. */
  lemma OthersStayQueued(held: Held, first: Entry<Visit>, x: Visit)
    requires Queued(held, x) && x != first.item
    ensures Queued(held - multiset{first}, x)
  {
    var e :| e in held && e.item == x;
    assert e in held - multiset{first};
  }

  /** What is left waiting is no nearer than the visit taken. */
  lemma RestWaits(roads: Map, held: Held, last: nat, first: Entry<Visit>)
    requires AllWaiting(roads, held, last) && ComesOutFirst(VisitBefore, held, first)
    ensures AllWaiting(roads, held - multiset{first}, first.item.dist) && last <= first.item.dist
  {
    assert Waiting(roads, first.item, last);
    forall e | e in held - multiset{first} ensures Waiting(roads, e.item, first.item.dist) {
      assert e in held && Waiting(roads, e.item, last);
      FirstIsNearest(held, first, e);
    }
  }

  /** A road stays covered without the first visit once its place is reached no later. */
  lemma TakingCovers(roads: Map, best: seq<nat>, best': seq<nat>, held: Held, first: Entry<Visit>, u: nat, i: nat)
    requires u < |roads| == |best| == |best'| && i < |roads[u]| && Covered(roads, best, held, u, i)
    requires first.item.node < |best|
    requires first.item.node != u || best' == best
    requires best' == if first.item.dist < best[first.item.node] then best[first.item.node := first.item.dist] else best
    ensures Covered(roads, best', held - multiset{first}, u, i)
  {
    var x := VisitBy(roads, u, best[u], i);
    if Queued(held, x) && x != first.item { OthersStayQueued(held, first, x); }
  }

  /** A visit to a place reached sooner can be dropped. */
  lemma DropVisit(roads: Map, best: seq<nat>, held: Held, last: nat, first: Entry<Visit>)
    requires Inv(roads, best, held, |roads|, 0, last) && ComesOutFirst(VisitBefore, held, first)
    requires first.item.node < |best| && best[first.item.node] <= first.item.dist
    ensures Inv(roads, best, held - multiset{first}, |roads|, 0, first.item.dist)
  {
    RestWaits(roads, held, last, first);
    forall v | 0 <= v < |best| ensures SettledAt(roads, best, v, first.item.dist) {
      assert SettledAt(roads, best, v, last);
    }
    forall u | 0 <= u < |roads| ensures CoveredFrom(roads, best, held - multiset{first}, u, |roads[u]|) {
      assert CoveredFrom(roads, best, held, u, |roads[u]|);
      forall i | 0 <= i < |roads[u]| && best[u] < UNREACHED
        ensures Covered(roads, best, held - multiset{first}, u, i)
      {
        TakingCovers(roads, best, best, held, first, u, i);
      }
    }
    if Queued(held, Visit(0, 0)) && Visit(0, 0) != first.item { OthersStayQueued(held, first, Visit(0, 0)); }
  }

  /** Settling the place of the first visit, with none of its roads followed yet. */
  lemma SettleVisit(roads: Map, best: seq<nat>, held: Held, last: nat, first: Entry<Visit>)
    requires Inv(roads, best, held, |roads|, 0, last) && ComesOutFirst(VisitBefore, held, first)
    requires first.item.node < |best| && first.item.dist < best[first.item.node]
    ensures best[first.item.node] == UNREACHED
    ensures var v, d := first.item.node, first.item.dist;
            Inv(roads, best[v := d], held - multiset{first}, v, 0, d)
  {
    var v, d := first.item.node, first.item.dist;
    var best' := best[v := d];
    FirstVisitIsShortest(roads, best, held, last, first);
    RestWaits(roads, held, last, first);
    forall u | 0 <= u < |best'| ensures SettledAt(roads, best', u, d) {
      assert SettledAt(roads, best, u, last);
    }
    forall u | 0 <= u < |roads|
      ensures CoveredFrom(roads, best', held - multiset{first}, u, if u == v then 0 else |roads[u]|)
    {
      assert CoveredFrom(roads, best, held, u, |roads[u]|);
      forall i | 0 <= i < |roads[u]| && u != v && best[u] < UNREACHED
        ensures Covered(roads, best', held - multiset{first}, u, i)
      {
        TakingCovers(roads, best, best', held, first, u, i);
      }
    }
    if Queued(held, Visit(0, 0)) && Visit(0, 0) != first.item { OthersStayQueued(held, first, Visit(0, 0)); }
  }

  // ------------------------------------------------------------------ following the roads of a place

  /** What is held when a visit for each of the first k roads of u has been added. */
  ghost function AddVisits(held: Held, next: nat, roads: Map, u: nat, d: nat, k: nat): Held
    requires u < |roads| && k <= |roads[u]|
  {
    if k == 0 then held
    else AddVisits(held, next, roads, u, d, k - 1) + multiset{Entry(VisitBy(roads, u, d, k - 1), next + k - 1)}
  }

  lemma AddVisitsNext(held: Held, next: nat, roads: Map, u: nat, d: nat, k: nat, e: Entry<Visit>)
    requires u < |roads| && k < |roads[u]| && e == Entry(VisitBy(roads, u, d, k), next + k)
    ensures AddVisits(held, next, roads, u, d, k + 1) == AddVisits(held, next, roads, u, d, k) + multiset{e}
  {
  }

  /** None of the first k sums is past the sentinel. */
  ghost predicate SumsFit(roads: Map, u: nat, d: nat, k: nat)
    requires u < |roads|
  {
    k <= |roads[u]| && forall i :: 0 <= i < k ==> d + roads[u][i].km <= UNREACHED
  }

  lemma QueuedStill(held: Held, x: Visit, e: Entry<Visit>)
    requires Queued(held, x)
    ensures Queued(held + multiset{e}, x)
  {
    var f :| f in held && f.item == x;
    assert f in held + multiset{e};
  }

  lemma CoveredStill(roads: Map, best: seq<nat>, held: Held, u: nat, i: nat, e: Entry<Visit>)
    requires u < |roads| == |best| && i < |roads[u]| && Covered(roads, best, held, u, i)
    ensures Covered(roads, best, held + multiset{e}, u, i)
  {
    var x := VisitBy(roads, u, best[u], i);
    if Queued(held, x) { QueuedStill(held, x, e); }
  }

  lemma PushCovers(roads: Map, best: seq<nat>, held: Held, u: nat, k: nat, e: Entry<Visit>)
    requires WellFormed(roads) && u < |roads| == |best| && k < |roads[u]| && RoadsCovered(roads, best, held, u, k)
    requires best[u] + roads[u][k].km <= UNREACHED && e.item == VisitBy(roads, u, best[u], k)
    ensures RoadsCovered(roads, best, held + multiset{e}, u, k + 1)
  {
    assert e in held + multiset{e};
    forall v | 0 <= v < |roads|
      ensures CoveredFrom(roads, best, held + multiset{e}, v, if v == u then k + 1 else |roads[v]|)
    {
      var n := if v == u then k else |roads[v]|;
      assert CoveredFrom(roads, best, held, v, n);
      forall i | 0 <= i < n && best[v] < UNREACHED ensures Covered(roads, best, held + multiset{e}, v, i) {
        CoveredStill(roads, best, held, v, i, e);
      }
    }
  }

  /** Following one more road of the place just settled. */
  lemma PushVisit(roads: Map, best: seq<nat>, held: Held, u: nat, k: nat, e: Entry<Visit>)
    requires u < |roads| == |best| && k < |roads[u]| && Inv(roads, best, held, u, k, best[u]) && best[u] < UNREACHED
    requires best[u] + roads[u][k].km <= UNREACHED && e.item == VisitBy(roads, u, best[u], k)
    ensures Inv(roads, best, held + multiset{e}, u, k + 1, best[u])
  {
    PushCovers(roads, best, held, u, k, e);
    assert SettledAt(roads, best, u, best[u]);
    WalkOn(roads, u, best[u], k);
    forall f | f in held + multiset{e} ensures Waiting(roads, f.item, best[u]) {
      assert f in held || f == e;
    }
    if Queued(held, Visit(0, 0)) { QueuedStill(held, Visit(0, 0), e); }
  }

  /** A visit for each road, none of them past the sentinel, and `u` is like any other settled place. */
  lemma {:induction false} AddVisitsKeeps(roads: Map, best: seq<nat>, held: Held, next: nat, u: nat, k: nat)
    requires u < |roads| == |best| && Inv(roads, best, held, u, 0, best[u]) && best[u] < UNREACHED
    requires SumsFit(roads, u, best[u], k)
    ensures Inv(roads, best, AddVisits(held, next, roads, u, best[u], k), u, k, best[u])
  {
    if k > 0 {
      AddVisitsKeeps(roads, best, held, next, u, k - 1);
      var e := Entry(VisitBy(roads, u, best[u], k - 1), next + k - 1);
      AddVisitsNext(held, next, roads, u, best[u], k - 1, e);
      PushVisit(roads, best, AddVisits(held, next, roads, u, best[u], k - 1), u, k - 1, e);
    }
  }

  /** With every road of `cur` followed it is like any other settled place. */
  lemma AllFollowed(roads: Map, best: seq<nat>, held: Held, u: nat, last: nat)
    requires u < |roads| && Inv(roads, best, held, u, |roads[u]|, last)
    ensures Inv(roads, best, held, |roads|, 0, last)
  {
    forall v | 0 <= v < |roads| ensures CoveredFrom(roads, best, held, v, |roads[v]|) {
      assert CoveredFrom(roads, best, held, v, if v == u then |roads[u]| else |roads[v]|);
    }
  }

  /** From a place at a shortest distance below the sentinel, road i takes the sum past it. */
  ghost predicate OverflowsAt(roads: Map, u: nat, i: nat, d: nat) {
    u < |roads| && i < |roads[u]| && IsShortest(roads, u, d) && d < UNREACHED && d + roads[u][i].km > UNREACHED
  }

  ghost predicate Overflows(roads: Map) {
    exists u: nat, i: nat, d: nat :: OverflowsAt(roads, u, i, d)
  }

  /** With the queue empty every walk is accounted for by what is settled, and no road overflowed. */
  lemma EmptyMeansExact(roads: Map, best: seq<nat>, last: nat)
    requires Inv(roads, best, multiset{}, |roads|, 0, last)
    ensures Exact(roads, best) && !Overflows(roads)
  {
    forall w | IsWalk(roads, w) ensures End(w) < |best| && best[End(w)] <= Len(w) {
      WalkIsAccountedFor(roads, best, multiset{}, last, w);
    }
    forall v | 0 <= v < |best| ensures best[v] < UNREACHED ==> IsShortest(roads, v, best[v]) {
      assert SettledAt(roads, best, v, last);
    }
    forall v | 0 <= v < |best| ensures best[v] <= UNREACHED {
      assert SettledAt(roads, best, v, last);
    }
    forall u: nat, i: nat, d: nat
      | u < |roads| && i < |roads[u]| && IsShortest(roads, u, d) && d < UNREACHED
      ensures d + roads[u][i].km <= UNREACHED
    {
      var w :| IsWalk(roads, w) && End(w) == u && Len(w) == d;
      ShortestIsUnique(roads, u, d, best[u]);
      assert CoveredFrom(roads, best, multiset{}, u, |roads[u]|);
      assert Covered(roads, best, multiset{}, u, i);
    }
  }

  // ------------------------------------------------------------------ maps on which no sum can overflow

  /** As many of its longest roads as there are places fit below the sentinel. */
  ghost predicate FitsInU32(roads: Map) {
    exists km: nat :: NoRoadLonger(roads, km) && |roads| * km <= 0xFFFF_FFFF
  }

  lemma ShortestFits(roads: Map, w: Walk, d: nat, km: nat)
    requires WellFormed(roads) && NoRoadLonger(roads, km) && |roads| * km <= UNREACHED
    requires IsWalk(roads, w) && IsShortest(roads, End(w), d)
    ensures d + km <= UNREACHED && d < UNREACHED
  {
    var x := NearAsThePlacesAllow(roads, w, km);
    assert (|roads| - 1) * km + km == |roads| * km;
    if km == 0 { assert (|roads| - 1) * km == 0; }
  }

  /** Then no sum overflows. */
  lemma ShortRoadsDoNotOverflow(roads: Map)
    requires WellFormed(roads) && FitsInU32(roads)
    ensures !Overflows(roads)
  {
    var km: nat :| NoRoadLonger(roads, km) && |roads| * km <= UNREACHED;
    forall u: nat, i: nat, d: nat | u < |roads| && i < |roads[u]| && IsShortest(roads, u, d)
      ensures d + roads[u][i].km <= UNREACHED
    {
      var w :| IsWalk(roads, w) && End(w) == u && Len(w) == d;
      ShortestFits(roads, w, d, km);
    }
  }

  /** The sentinel marks exactly the places no walk leads to. */
  ghost predicate MarksUnreachable(roads: Map, best: seq<nat>) {
    |best| == |roads| && forall v :: 0 <= v < |best| ==> (best[v] == 0xFFFF_FFFF <==> Unreachable(roads, v))
  }

  lemma SentinelMeansUnreachable(roads: Map, best: seq<nat>)
    requires WellFormed(roads) && FitsInU32(roads) && Exact(roads, best)
    ensures MarksUnreachable(roads, best)
  {
    var km: nat :| NoRoadLonger(roads, km) && |roads| * km <= UNREACHED;
    forall v | 0 <= v < |best| ensures best[v] == UNREACHED <==> Unreachable(roads, v) {
      if w :| IsWalk(roads, w) && End(w) == v {
        var d := SomeShortest(roads, w);
        ShortestFits(roads, w, d, km);
        var x :| IsWalk(roads, x) && End(x) == v && Len(x) == d;
      }
    }
  }

  lemma VisitOrder()
    ensures StrictWeakOrder(VisitBefore)
  {
  }

  // ------------------------------------------------------------------ the record of a run

  /** The places settled and the visits taken, in order. */
  datatype Trace = Trace(settled: seq<nat>, popped: seq<Entry<Visit>>)

  /** Places are settled once each, in order of distance, and every place reached is. */
  ghost predicate InOrder(best: seq<nat>, settled: seq<nat>) {
    && (forall i :: 0 <= i < |settled| ==> settled[i] < |best| && best[settled[i]] < UNREACHED)
    && (forall i, j :: 0 <= i < j < |settled| ==> settled[i] != settled[j] && best[settled[i]] <= best[settled[j]])
    && (forall v :: 0 <= v < |best| && best[v] < UNREACHED ==> v in settled)
  }

  /** The distances of the visits taken never fall. */
  ghost predicate NeverFalls(popped: seq<Entry<Visit>>) {
    forall i, j :: 0 <= i < j < |popped| ==> popped[i].item.dist <= popped[j].item.dist
  }

  function LastTaken(popped: seq<Entry<Visit>>): nat {
    if popped == [] then 0 else popped[|popped| - 1].item.dist
  }

  function VisitsFrom(roads: Map, u: nat, d: nat): seq<Visit>
    requires u < |roads|
  {
    seq(|roads[u]|, i requires 0 <= i < |roads[u]| => VisitBy(roads, u, d, i))
  }

  /** Every visit ever added to the queue: the first to place 0, then one for each road of each place settled. */
  ghost function Added(roads: Map, best: seq<nat>, settled: seq<nat>): seq<Visit>
    requires |best| == |roads| && forall i :: 0 <= i < |settled| ==> settled[i] < |roads|
  {
    if settled == [] then [Visit(0, 0)]
    else
      var u := settled[|settled| - 1];
      Added(roads, best, settled[..|settled| - 1]) + VisitsFrom(roads, u, best[u])
  }

  /** What was added is what waits and what was taken. */
  ghost predicate Accounted(held: Held, popped: seq<Entry<Visit>>, added: seq<Visit>) {
    held + multiset(popped) == multiset(Arrivals(added))
  }

  lemma AccountTaken(held: Held, popped: seq<Entry<Visit>>, added: seq<Visit>, first: Entry<Visit>)
    requires Accounted(held, popped, added) && first in held
    ensures Accounted(held - multiset{first}, popped + [first], added)
  {
  }

  lemma AccountAdded(held: Held, popped: seq<Entry<Visit>>, added: seq<Visit>, x: Visit)
    requires Accounted(held, popped, added)
    ensures Accounted(held + multiset{Entry(x, |added|)}, popped, added + [x])
  {
    assert Arrivals(added + [x]) == Arrivals(added) + [Entry(x, |added|)];
  }

  lemma {:induction false} AccountRoads(
    held: Held, popped: seq<Entry<Visit>>, added: seq<Visit>, roads: Map, u: nat, d: nat, k: nat)
    requires u < |roads| && k <= |roads[u]| && Accounted(held, popped, added)
    ensures Accounted(AddVisits(held, |added|, roads, u, d, k), popped, added + VisitsFrom(roads, u, d)[..k])
  {
    if k == 0 {
      assert added + VisitsFrom(roads, u, d)[..0] == added;
    } else {
      var before := added + VisitsFrom(roads, u, d)[..k - 1];
      AccountRoads(held, popped, added, roads, u, d, k - 1);
      AccountAdded(AddVisits(held, |added|, roads, u, d, k - 1), popped, before, VisitBy(roads, u, d, k - 1));
      assert before + [VisitBy(roads, u, d, k - 1)] == added + VisitsFrom(roads, u, d)[..k];
    }
  }

  /** Settling another place does not change what the places settled before added. */
  lemma {:induction false} AddedStays(roads: Map, best: seq<nat>, settled: seq<nat>, v: nat, d: nat)
    requires |best| == |roads| && v < |roads| && v !in settled
    requires forall i :: 0 <= i < |settled| ==> settled[i] < |roads|
    ensures Added(roads, best[v := d], settled) == Added(roads, best, settled)
  {
    if settled != [] {
      AddedStays(roads, best, settled[..|settled| - 1], v, d);
    }
  }

  lemma AddedNext(roads: Map, best: seq<nat>, settled: seq<nat>, v: nat, d: nat)
    requires |best| == |roads| && v < |roads| && v !in settled
    requires forall i :: 0 <= i < |settled| ==> settled[i] < |roads|
    ensures Added(roads, best[v := d], settled + [v]) == Added(roads, best, settled) + VisitsFrom(roads, v, d)
  {
    assert (settled + [v])[..|settled|] == settled;
    AddedStays(roads, best, settled, v, d);
  }

  lemma FallsNot(popped: seq<Entry<Visit>>, e: Entry<Visit>)
    requires NeverFalls(popped) && LastTaken(popped) <= e.item.dist
    ensures NeverFalls(popped + [e]) && LastTaken(popped + [e]) == e.item.dist
  {
  }

  /** The record matches: what was settled and taken is in order, and what was added waits or was taken. */
  ghost predicate Recorded(roads: Map, best: seq<nat>, held: Held, next: nat, t: Trace) {
    && |best| == |roads|
    && InOrder(best, t.settled)
    && NeverFalls(t.popped)
    && next == |Added(roads, best, t.settled)|
    && Accounted(held, t.popped, Added(roads, best, t.settled))
  }

  function Unsettled(best: seq<nat>): set<nat> {
    set v | 0 <= v < |best| && best[v] == UNREACHED
  }

  lemma FewerUnsettled(best: seq<nat>, u: nat, d: nat)
    requires u < |best| && best[u] == UNREACHED && d < UNREACHED
    ensures Unsettled(best[u := d]) < Unsettled(best)
  {
    assert u in Unsettled(best) && u !in Unsettled(best[u := d]);
  }

  lemma SettledNext(best: seq<nat>, settled: seq<nat>, u: nat, d: nat)
    requires InOrder(best, settled) && u < |best| && best[u] == UNREACHED && d < UNREACHED
    requires forall v :: 0 <= v < |best| && best[v] < UNREACHED ==> best[v] <= d
    ensures InOrder(best[u := d], settled + [u])
  {
    assert (settled + [u])[|settled|] == u;
  }

  // ------------------------------------------------------------------ a turn of the loop

  ghost predicate AtTurn(roads: Map, best: seq<nat>, held: Held, next: nat, t: Trace) {
    Inv(roads, best, held, |roads|, 0, LastTaken(t.popped)) && Recorded(roads, best, held, next, t)
  }

  /** A visit has been added for each of the first k roads, none past the sentinel. */
  ghost predicate HasAdded(now: Held, nextNow: nat, held: Held, next: nat, roads: Map, u: nat, dist: nat, k: nat)
    requires u < |roads|
  {
    SumsFit(roads, u, dist, k) && nextNow == next + k && now == AddVisits(held, next, roads, u, dist, k)
  }

  /** One visit, one that came out first, was taken. */
  ghost predicate TookOne(held: Held, t: Trace, t': Trace) {
    exists first :: ComesOutFirst(VisitBefore, held, first) && t'.popped == t.popped + [first]
  }

  ghost predicate LessToDo(best: seq<nat>, held: Held, best': seq<nat>, held': Held) {
    Unsettled(best') < Unsettled(best) || (best' == best && |held'| < |held|)
  }

  lemma DropTurn(roads: Map, best: seq<nat>, held: Held, next: nat, t: Trace, first: Entry<Visit>, rest: Held)
    requires AtTurn(roads, best, held, next, t) && Taken(VisitBefore, held, first, rest)
    requires first.item.node < |best| && best[first.item.node] <= first.item.dist
    ensures var t' := Trace(t.settled, t.popped + [first]);
            AtTurn(roads, best, rest, next, t') && TookOne(held, t, t') && LessToDo(best, held, best, rest)
  {
    RestWaits(roads, held, LastTaken(t.popped), first);
    FallsNot(t.popped, first);
    DropVisit(roads, best, held, LastTaken(t.popped), first);
    AccountTaken(held, t.popped, Added(roads, best, t.settled), first);
  }

  lemma SettleRecorded(roads: Map, best: seq<nat>, held: Held, next: nat, t: Trace, first: Entry<Visit>)
    requires Recorded(roads, best, held, next, t) && AllSettled(roads, best, LastTaken(t.popped)) && first in held
    requires LastTaken(t.popped) <= first.item.dist < UNREACHED
    requires first.item.node < |best| && best[first.item.node] == UNREACHED
    ensures var u, d := first.item.node, first.item.dist;
            Recorded(roads, best[u := d], AddVisits(held - multiset{first}, next, roads, u, d, |roads[u]|),
                     next + |roads[u]|, Trace(t.settled + [u], t.popped + [first]))
  {
    var u, d, added := first.item.node, first.item.dist, Added(roads, best, t.settled);
    forall v | 0 <= v < |best| && best[v] < UNREACHED ensures best[v] <= d {
      assert SettledAt(roads, best, v, LastTaken(t.popped));
    }
    SettledNext(best, t.settled, u, d);
    FallsNot(t.popped, first);
    AccountTaken(held, t.popped, added, first);
    AccountRoads(held - multiset{first}, t.popped + [first], added, roads, u, d, |roads[u]|);
    assert VisitsFrom(roads, u, d)[..|roads[u]|] == VisitsFrom(roads, u, d);
    AddedNext(roads, best, t.settled, u, d);
  }

  /** When one of the sums goes past the sentinel, the program's overflow is a real one. */
  lemma SettleOverflows(roads: Map, best: seq<nat>, held: Held, next: nat, t: Trace, first: Entry<Visit>)
    requires AtTurn(roads, best, held, next, t) && ComesOutFirst(VisitBefore, held, first)
    requires first.item.node < |best| && first.item.dist < best[first.item.node]
    requires first.item.node < |roads| && !SumsFit(roads, first.item.node, first.item.dist, |roads[first.item.node]|)
    ensures Overflows(roads)
  {
    var u, d, last := first.item.node, first.item.dist, LastTaken(t.popped);
    assert SettledAt(roads, best, u, last);
    FirstVisitIsShortest(roads, best, held, last, first);
    var i :| 0 <= i < |roads[u]| && d + roads[u][i].km > UNREACHED;
    assert OverflowsAt(roads, u, i, d);
  }

  /** Otherwise the place is settled and the record goes on. */
  lemma SettleTurn(
    roads: Map, best: seq<nat>, held: Held, next: nat, t: Trace, first: Entry<Visit>, rest: Held,
    after: Held, nextAfter: nat)
    requires AtTurn(roads, best, held, next, t) && Taken(VisitBefore, held, first, rest)
    requires first.item.node < |best| == |roads| && first.item.dist < best[first.item.node]
    requires HasAdded(after, nextAfter, rest, next, roads, first.item.node, first.item.dist, |roads[first.item.node]|)
    ensures var u, d := first.item.node, first.item.dist;
            var t' := Trace(t.settled + [u], t.popped + [first]);
            AtTurn(roads, best[u := d], after, nextAfter, t') && TookOne(held, t, t')
            && LessToDo(best, held, best[u := d], after)
  {
    var u, d, last := first.item.node, first.item.dist, LastTaken(t.popped);
    SettleVisit(roads, best, held, last, first);
    RestWaits(roads, held, last, first);
    assert SettledAt(roads, best, u, last);
    FewerUnsettled(best, u, d);
    SettleRecorded(roads, best, held, next, t, first);
    FallsNot(t.popped, first);
    AddVisitsKeeps(roads, best[u := d], rest, next, u, |roads[u]|);
    AllFollowed(roads, best[u := d], after, u, d);
  }

  lemma AddsOneMore(
    now: Held, nextNow: nat, held: Held, next: nat, roads: Map, u: nat, dist: nat, k: nat, after: Held)
    requires u < |roads| && k < |roads[u]| && HasAdded(now, nextNow, held, next, roads, u, dist, k)
    requires dist + roads[u][k].km <= UNREACHED && after == now + multiset{Entry(VisitBy(roads, u, dist, k), nextNow)}
    ensures HasAdded(after, nextNow + 1, held, next, roads, u, dist, k + 1)
  {
    AddVisitsNext(held, next, roads, u, dist, k, Entry(VisitBy(roads, u, dist, k), nextNow));
  }

  /** One turn of the inner loop: a visit by road k of the place just settled. False when the sum overflowed. */
  method FollowRoad(
    roads: Map, frontier: PriorityQueue<Visit>, u: nat, dist: nat, k: nat, ghost held: Held, ghost next: nat)
    returns (ok: bool)
    requires frontier.Valid() && u < |roads| && k < |roads[u]|
    requires HasAdded(frontier.Held(), frontier.next, held, next, roads, u, dist, k)
    modifies frontier
    ensures frontier.Valid()
    ensures ok ==> HasAdded(frontier.Held(), frontier.next, held, next, roads, u, dist, k + 1)
    ensures !ok ==> !SumsFit(roads, u, dist, |roads[u]|)
  {
    var road := roads[u][k];
    if dist + road.km > UNREACHED {
      return false;
    }
    ghost var now, nextNow := frontier.Held(), frontier.next;
    frontier.Push(Visit(dist + road.km, road.to));
    AddsOneMore(now, nextNow, held, next, roads, u, dist, k, frontier.Held());
    return true;
  }

  /** The inner loop: a visit for each road of the place just settled. False when a sum overflowed. */
  method FollowRoads(roads: Map, frontier: PriorityQueue<Visit>, u: nat, dist: nat) returns (ok: bool)
    requires frontier.Valid() && u < |roads|
    modifies frontier
    ensures frontier.Valid()
    ensures ok <==> SumsFit(roads, u, dist, |roads[u]|)
    ensures ok ==> HasAdded(frontier.Held(), frontier.next, old(frontier.Held()), old(frontier.next), roads, u, dist,
                            |roads[u]|)
  {
    ghost var held, next := frontier.Held(), frontier.next;
    for k := 0 to |roads[u]|
      invariant frontier.Valid() && HasAdded(frontier.Held(), frontier.next, held, next, roads, u, dist, k)
    {
      ok := FollowRoad(roads, frontier, u, dist, k, held, next);
      if !ok {
        return;
      }
    }
    return true;
  }

  lemma StartingVisit(roads: Map, best: seq<nat>)
    requires WellFormed(roads) && best == seq(|roads|, _ => UNREACHED)
    ensures AtTurn(roads, best, multiset{Entry(Visit(0, 0), 0)}, 1, Trace([], []))
  {
    assert IsWalk(roads, Start) && End(Start) == 0 && Len(Start) == 0;
    assert Entry(Visit(0, 0), 0) in multiset{Entry(Visit(0, 0), 0)};
    assert Arrivals([Visit(0, 0)]) == [Entry(Visit(0, 0), 0)];
  }

  datatype Outcome = Empty | Going | Overflow

  /** One turn of the loop: the nearest visit is taken, and settles its place unless that was reached
      sooner. */
  method TakeNearest(roads: Map, best: seq<nat>, frontier: PriorityQueue<Visit>, ghost t: Trace)
    returns (outcome: Outcome, best': seq<nat>, ghost t': Trace)
    requires frontier.Valid() && frontier.less == VisitBefore
    requires AtTurn(roads, best, frontier.Held(), frontier.next, t)
    modifies frontier
    ensures frontier.Valid()
    ensures !outcome.Overflow? ==> AtTurn(roads, best', frontier.Held(), frontier.next, t')
    ensures outcome.Empty? ==> best' == best && t' == t && frontier.Held() == multiset{}
    ensures outcome.Going? ==> TookOne(old(frontier.Held()), t, t')
    ensures outcome.Going? ==> LessToDo(best, old(frontier.Held()), best', frontier.Held())
    ensures outcome.Overflow? ==> Overflows(roads)
  {
    ghost var held, next := frontier.Held(), frontier.next;
    var at, first := frontier.Pop();
    best', t' := best, t;
    if at.None? {
      return Empty, best', t';
    }
    ghost var rest := frontier.Held();
    var dist, u := at.value.dist, at.value.node;
    assert Waiting(roads, first.value.item, LastTaken(t.popped));
    if dist >= best[u] {
      DropTurn(roads, best, held, next, t, first.value, rest);
      t' := Trace(t.settled, t.popped + [first.value]);
      return Going, best', t';
    }
    best', t' := best[u := dist], Trace(t.settled + [u], t.popped + [first.value]);
    var ok := FollowRoads(roads, frontier, u, dist);
    if ok {
      SettleTurn(roads, best, held, next, t, first.value, rest, frontier.Held(), frontier.next);
      return Going, best', t';
    }
    SettleOverflows(roads, best, held, next, t, first.value);
    outcome := Overflow;
  }

  /** What a whole run shows: places are settled once each, in order of distance; every visit ever added to the queue
      was taken, once, and the distances of the visits taken never fell. */
  ghost predicate AllInOrder(roads: Map, best: seq<nat>, t: Trace) {
    && |best| == |roads|
    && InOrder(best, t.settled)
    && NeverFalls(t.popped)
    && multiset(t.popped) == multiset(Arrivals(Added(roads, best, t.settled)))
  }

  lemma AllTaken(roads: Map, best: seq<nat>, next: nat, t: Trace)
    requires WellFormed(roads) && AtTurn(roads, best, multiset{}, next, t)
    ensures Exact(roads, best) && AllInOrder(roads, best, t) && !Overflows(roads)
    ensures FitsInU32(roads) ==> MarksUnreachable(roads, best)
  {
    EmptyMeansExact(roads, best, LastTaken(t.popped));
    if FitsInU32(roads) { SentinelMeansUnreachable(roads, best); }
  }

  /** The program's search. It ends with every distance exact, or stops with an overflow, and it overflows
      exactly when some road leads from a place the sentinel is still above to past the sentinel. A map
      without places faults at place 0. The trace says which places were settled and which visits taken. */
  method ShortestRoutes(roads: Map) returns (r: Result<seq<nat>>, ghost t: Trace)
    requires roads == [] || WellFormed(roads)
    ensures r.Ok? ==> Exact(roads, r.value) && AllInOrder(roads, r.value, t)
    ensures r.Err? ==> r.fault == if roads == [] then IndexOutOfBounds else ArithOverflow
    ensures r.Err? <==> roads == [] || Overflows(roads)
    ensures roads != [] && FitsInU32(roads) ==> r.Ok? && MarksUnreachable(roads, r.value)
  {
    t := Trace([], []);
    if |roads| == 0 {
      return Err(IndexOutOfBounds), t;
    }
    VisitOrder();
    var best: seq<nat> := seq(|roads|, _ => UNREACHED);
    var frontier := new PriorityQueue(VisitBefore);
    frontier.Push(Visit(0, 0));
    StartingVisit(roads, best);
    var outcome := Going;
    while outcome.Going?
      invariant frontier.Valid() && fresh(frontier) && frontier.less == VisitBefore
      invariant !outcome.Overflow? ==> AtTurn(roads, best, frontier.Held(), frontier.next, t)
      invariant outcome.Empty? ==> frontier.Held() == multiset{}
      invariant outcome.Overflow? ==> Overflows(roads)
      decreases outcome.Going?, Unsettled(best), |frontier.Held()|
    {
      outcome, best, t := TakeNearest(roads, best, frontier, t);
    }
    if outcome.Overflow? {
      if FitsInU32(roads) { ShortRoadsDoNotOverflow(roads); }
      return Err(ArithOverflow), t;
    }
    AllTaken(roads, best, frontier.next, t);
    r := Ok(best);
  }
}
