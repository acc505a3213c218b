/** Road maps as adjacency lists, the walks through them from place 0, and what a shortest one is: the
    reference both searches are proved against. */
module Graphs {
  import opened Counting
  import opened Wrappers

  /** `max_value<u32>()`: what a distance holds when no walk is known. */
  const UNREACHED: nat := 0xFFFF_FFFF

  datatype Road = Road(to: nat, km: nat)

  type Map = seq<seq<Road>>

  /** Every road leads to a place on the map, at a length a `u32` holds. */
  ghost predicate WellFormed(roads: Map) {
    && |roads| > 0
    && forall u :: 0 <= u < |roads| ==> forall i :: 0 <= i < |roads[u]| ==>
         roads[u][i].to < |roads| && roads[u][i].km <= UNREACHED
  }

  /** A road can be taken either way. */
  ghost predicate TwoWay(roads: Map) {
    forall u :: 0 <= u < |roads| ==> forall r :: r in roads[u] ==>
      r.to < |roads| && Road(u, r.km) in roads[r.to]
  }

  function NoRoads(n: nat): Map {
    seq(n, _ => [])
  }

  /** `road`: the road is added at both its ends. */
  function AddRoad(roads: Map, a: nat, b: nat, km: nat): Result<Map> {
    if a >= |roads| || b >= |roads| then Err(IndexOutOfBounds) else
    var m := roads[a := roads[a] + [Road(b, km)]];
    Ok(m[b := m[b] + [Road(a, km)]])
  }

  /** Building a map road by road keeps it well-formed and two-way, and loses no road. */
  lemma AddRoadKeepsMap(roads: Map, a: nat, b: nat, km: nat)
    requires km <= UNREACHED && a < |roads| && b < |roads|
    requires TwoWay(roads) && WellFormed(roads)
    ensures var r := AddRoad(roads, a, b, km);
            && r.Ok? && |r.value| == |roads| && WellFormed(r.value) && TwoWay(r.value)
            && Road(b, km) in r.value[a] && Road(a, km) in r.value[b]
            && forall u, x :: 0 <= u < |roads| && x in roads[u] ==> x in r.value[u]
  {
    var m := roads[a := roads[a] + [Road(b, km)]];
    var n := m[b := m[b] + [Road(a, km)]];
    forall u, x | 0 <= u < |roads| && x in roads[u] ensures x in n[u] {
      assert x in m[u];
    }
    assert Road(b, km) in n[a] && Road(a, km) in n[b] by {
      assert m[a][|roads[a]|] == Road(b, km);
      assert n[b][|m[b]|] == Road(a, km);
      assert Road(b, km) in m[a];
    }
    forall u, r: Road | 0 <= u < |n| && r in n[u] ensures r.to < |n| && Road(u, r.km) in n[r.to] {
      assert r in roads[u] || (u == a && r == Road(b, km)) || (u == b && r == Road(a, km));
    }
    forall u, i | 0 <= u < |n| && 0 <= i < |n[u]| ensures n[u][i].to < |n| && n[u][i].km <= UNREACHED {
      assert n[u][i] in n[u];
      var r := n[u][i];
      if r in roads[u] {
        var j :| 0 <= j < |roads[u]| && roads[u][j] == r;
      }
    }
  }

  /** A call `road(&mut roads, a, b, km)`. */
  datatype Call = Call(a: nat, b: nat, km: nat)

  /** The map `road` calls build from n places without roads. */
  function Built(n: nat, calls: seq<Call>): Result<Map> {
    if calls == [] then Ok(NoRoads(n))
    else
      var before, c := Built(n, calls[..|calls| - 1]), calls[|calls| - 1];
      if before.Err? then before else AddRoad(before.value, c.a, c.b, c.km)
  }

  ghost predicate CalledBy(c: Call, u: nat, r: Road) {
    c == Call(u, r.to, r.km) || c == Call(r.to, u, r.km)
  }

  ghost predicate Called(calls: seq<Call>, u: nat, r: Road) {
    exists i :: 0 <= i < |calls| && CalledBy(calls[i], u, r)
  }

  /** One call adds its two roads and no others. */
  lemma AddRoadAdds(roads: Map, c: Call, u: nat, r: Road)
    requires c.a < |roads| && c.b < |roads| && u < |roads|
    ensures AddRoad(roads, c.a, c.b, c.km).Ok? && |AddRoad(roads, c.a, c.b, c.km).value| == |roads|
    ensures r in AddRoad(roads, c.a, c.b, c.km).value[u] <==> r in roads[u] || CalledBy(c, u, r)
  {
    var m := roads[c.a := roads[c.a] + [Road(c.b, c.km)]];
    var n := m[c.b := m[c.b] + [Road(c.a, c.km)]];
    assert r in m[u] <==> r in roads[u] || (u == c.a && r == Road(c.b, c.km));
    assert r in n[u] <==> r in m[u] || (u == c.b && r == Road(c.a, c.km));
  }

  lemma CalledOneMore(calls: seq<Call>, c: Call, u: nat, r: Road)
    ensures Called(calls + [c], u, r) <==> Called(calls, u, r) || CalledBy(c, u, r)
  {
    assert (calls + [c])[|calls|] == c;
    assert forall i :: 0 <= i < |calls| ==> (calls + [c])[i] == calls[i];
  }

  /** Every map built by `road` calls is well-formed and two-way, with exactly the roads called for, each at both its
      ends; and it is built exactly when every call names places there are. */
  lemma {:induction false} BuiltMap(n: nat, calls: seq<Call>)
    requires n > 0 && forall i :: 0 <= i < |calls| ==> calls[i].km <= UNREACHED
    ensures Built(n, calls).Ok? <==> forall i :: 0 <= i < |calls| ==> calls[i].a < n && calls[i].b < n
    ensures var m := Built(n, calls);
            m.Ok? ==> |m.value| == n && WellFormed(m.value) && TwoWay(m.value)
                      && forall u: nat, r :: u < n ==> (r in m.value[u] <==> Called(calls, u, r))
  {
    if calls != [] {
      var front, c := calls[..|calls| - 1], calls[|calls| - 1];
      assert calls == front + [c];
      BuiltMap(n, front);
      var before := Built(n, front);
      if before.Ok? && c.a < n && c.b < n {
        AddRoadKeepsMap(before.value, c.a, c.b, c.km);
        forall u: nat, r | u < n ensures r in Built(n, calls).value[u] <==> Called(calls, u, r) {
          AddRoadAdds(before.value, c, u, r);
          CalledOneMore(front, c, u, r);
        }
      }
    }
  }

  // ------------------------------------------------------------------ walks

  /** A walk from place 0, by its last road. */
  datatype Walk = Start | Extend(prev: Walk, road: Road)

  function End(w: Walk): nat {
    match w case Start => 0 case Extend(_, r) => r.to
  }

  function Len(w: Walk): nat {
    match w case Start => 0 case Extend(p, r) => Len(p) + r.km
  }

  predicate IsWalk(roads: Map, w: Walk) {
    match w
    case Start => 0 < |roads|
    case Extend(p, r) => IsWalk(roads, p) && End(p) < |roads| && r in roads[End(p)]
  }

  ghost predicate HasWalk(roads: Map, v: nat, d: nat) {
    exists w :: IsWalk(roads, w) && End(w) == v && Len(w) == d
  }

  ghost predicate NoneShorter(roads: Map, v: nat, d: nat) {
    forall w :: IsWalk(roads, w) && End(w) == v ==> d <= Len(w)
  }

  /** d is the length of the shortest walk from 0 to v. */
  ghost predicate IsShortest(roads: Map, v: nat, d: nat) {
    HasWalk(roads, v, d) && NoneShorter(roads, v, d)
  }

  lemma ShortestIsUnique(roads: Map, v: nat, d: nat, d': nat)
    requires IsShortest(roads, v, d) && IsShortest(roads, v, d')
    ensures d == d'
  {
    var w :| IsWalk(roads, w) && End(w) == v && Len(w) == d;
    var w' :| IsWalk(roads, w') && End(w') == v && Len(w') == d';
  }

  ghost predicate Unreachable(roads: Map, v: nat) {
    forall w :: IsWalk(roads, w) ==> End(w) != v
  }

  /** Where a walk leads a shortest one does. */
  lemma {:induction false} SomeShortest(roads: Map, w: Walk) returns (d: nat)
    requires IsWalk(roads, w)
    ensures IsShortest(roads, End(w), d)
    decreases Len(w)
  {
    if NoneShorter(roads, End(w), Len(w)) {
      d := Len(w);
    } else {
      var x :| IsWalk(roads, x) && End(x) == End(w) && Len(x) < Len(w);
      d := SomeShortest(roads, x);
    }
  }

  // ------------------------------------------------------------------ walks that pass no place twice

  function Places(w: Walk): set<nat> {
    match w case Start => {0} case Extend(p, r) => Places(p) + {r.to}
  }

  function Roads(w: Walk): nat {
    match w case Start => 0 case Extend(p, _) => Roads(p) + 1
  }

  predicate PassesOnce(w: Walk) {
    match w case Start => true case Extend(p, r) => PassesOnce(p) && r.to !in Places(p)
  }

  /** The part of a walk up to a place it passes. */
  lemma {:induction false} PartOfWalk(roads: Map, w: Walk, v: nat) returns (part: Walk)
    requires IsWalk(roads, w) && PassesOnce(w) && v in Places(w)
    ensures IsWalk(roads, part) && PassesOnce(part) && End(part) == v && Len(part) <= Len(w)
  {
    part := w;
    if End(w) != v { part := PartOfWalk(roads, w.prev, v); }
  }

  /** Without its detours a walk is no longer. */
  lemma {:induction false} WithoutDetours(roads: Map, w: Walk) returns (x: Walk)
    requires IsWalk(roads, w)
    ensures IsWalk(roads, x) && PassesOnce(x) && End(x) == End(w) && Len(x) <= Len(w)
  {
    match w
    case Start => x := Start;
    case Extend(p, r) =>
      var y := WithoutDetours(roads, p);
      if r.to in Places(y) {
        x := PartOfWalk(roads, y, r.to);
      } else {
        x := Extend(y, r);
      }
  }

  lemma {:induction false} OnceMeansFewRoads(roads: Map, w: Walk)
    requires WellFormed(roads) && IsWalk(roads, w) && PassesOnce(w)
    ensures |Places(w)| == Roads(w) + 1 && End(w) in Places(w)
    ensures forall v :: v in Places(w) ==> v < |roads|
  {
    match w
    case Start =>
    case Extend(p, r) =>
      OnceMeansFewRoads(roads, p);
      var i :| 0 <= i < |roads[End(p)]| && roads[End(p)][i] == r;
  }

  ghost predicate NoRoadLonger(roads: Map, km: nat) {
    forall u :: 0 <= u < |roads| ==> forall i :: 0 <= i < |roads[u]| ==> roads[u][i].km <= km
  }

  lemma {:induction false} LenByRoads(roads: Map, w: Walk, km: nat)
    requires IsWalk(roads, w) && NoRoadLonger(roads, km)
    ensures Len(w) <= Roads(w) * km
  {
    match w
    case Start =>
    case Extend(p, r) =>
      LenByRoads(roads, p, km);
      var i :| 0 <= i < |roads[End(p)]| && roads[End(p)][i] == r;
      assert Roads(w) * km == Roads(p) * km + km;
  }

  lemma TimesMore(few: nat, many: nat, km: nat)
    requires few <= many
    ensures few * km <= many * km
  {
    assert many * km == few * km + (many - few) * km;
  }

  /** Where a walk leads, one of fewer roads than there are places leads. */
  lemma NearAsThePlacesAllow(roads: Map, w: Walk, km: nat) returns (x: Walk)
    requires WellFormed(roads) && IsWalk(roads, w) && NoRoadLonger(roads, km)
    ensures IsWalk(roads, x) && End(x) == End(w) && Len(x) <= (|roads| - 1) * km
  {
    x := WithoutDetours(roads, w);
    OnceMeansFewRoads(roads, x);
    SubsetOfRange(Places(x), |roads|);
    LenByRoads(roads, x, km);
    TimesMore(Roads(x), |roads| - 1, km);
  }

  // ------------------------------------------------------------------ what the searches are to find

  lemma WalkOn(roads: Map, u: nat, d: nat, i: nat)
    requires u < |roads| && HasWalk(roads, u, d) && i < |roads[u]|
    ensures HasWalk(roads, roads[u][i].to, d + roads[u][i].km)
  {
    var w :| IsWalk(roads, w) && End(w) == u && Len(w) == d;
    var x := Extend(w, roads[u][i]);
    assert IsWalk(roads, x) && End(x) == roads[u][i].to;
  }

  /** The distances are exact: the least walk length below the sentinel, and the sentinel for every place
      no walk shorter than it reaches. */
  ghost predicate Exact(roads: Map, best: seq<nat>) {
    && |best| == |roads|
    && forall v :: 0 <= v < |best| ==>
         if best[v] < UNREACHED then IsShortest(roads, v, best[v])
         else best[v] == UNREACHED && NoneShorter(roads, v, UNREACHED)
  }

  lemma ExactAtMost(roads: Map, best: seq<nat>, other: seq<nat>, v: nat)
    requires Exact(roads, best) && Exact(roads, other) && v < |roads|
    ensures other[v] <= best[v]
  {
    if best[v] < UNREACHED {
      var w :| IsWalk(roads, w) && End(w) == v && Len(w) == best[v];
      assert NoneShorter(roads, v, other[v]);
    }
  }

  /** There is one exact answer. */
  lemma ExactIsUnique(roads: Map, best: seq<nat>, other: seq<nat>)
    requires Exact(roads, best) && Exact(roads, other)
    ensures best == other
  {
    forall v | 0 <= v < |best| ensures best[v] == other[v] {
      ExactAtMost(roads, best, other, v);
      ExactAtMost(roads, other, best, v);
    }
  }
}
