/** "Breadth-first search with a Queue": the fewest steps from 0 to every node of any graph, counted in
    `u32` with the largest value standing for "not reached". Distances are those of the same graph with
    every road of length 1. */
module BreadthFirst {
  import opened Counting
  import opened Wrappers
  import opened Graphs
  import opened Queues

  type Links = seq<seq<nat>>

  ghost predicate LinksWellFormed(adj: Links) {
    |adj| > 0 && forall u :: 0 <= u < |adj| ==> forall i :: 0 <= i < |adj[u]| ==> adj[u][i] < |adj|
  }

  /** The graph with a road of length 1 for each link. */
  function Unit(adj: Links): Map {
    seq(|adj|, u requires 0 <= u < |adj| =>
      seq(|adj[u]|, i requires 0 <= i < |adj[u]| => Road(adj[u][i], 1)))
  }

  /** `link`: each end is added to the other's list. */
  function Link(adj: Links, a: nat, b: nat): Result<Links> {
    if a >= |adj| || b >= |adj| then Err(IndexOutOfBounds) else
    var m := adj[a := adj[a] + [b]];
    Ok(m[b := m[b] + [a]])
  }

  /** Linking is adding a road of length 1. */
  lemma LinkIsUnitRoad(adj: Links, a: nat, b: nat)
    requires a < |adj| && b < |adj|
    ensures Link(adj, a, b).Ok? && AddRoad(Unit(adj), a, b, 1) == Ok(Unit(Link(adj, a, b).value))
  {
    var m := adj[a := adj[a] + [b]];
    var n := m[b := m[b] + [a]];
    var x := Unit(adj)[a := Unit(adj)[a] + [Road(b, 1)]];
    assert x == Unit(m) by {
      assert forall u :: 0 <= u < |adj| ==> x[u] == Unit(m)[u];
    }
    var y := x[b := x[b] + [Road(a, 1)]];
    assert y == Unit(n) by {
      assert |y| == |Unit(n)| && forall u :: 0 <= u < |adj| ==> y[u] == Unit(n)[u];
    }
  }

  // ------------------------------------------------------------------ the invariant

  /** Everything ever queued is kept as one row, in the order it was queued: the nodes before `at` have been
      taken, those from `at` on wait. */
  ghost predicate ExactAt(adj: Links, steps: seq<nat>, row: seq<nat>, i: nat)
    requires i < |row|
  {
    row[i] < |steps| && IsShortest(Unit(adj), row[i], steps[row[i]])
  }

  ghost predicate RowExact(adj: Links, steps: seq<nat>, row: seq<nat>) {
    forall i :: 0 <= i < |row| ==> ExactAt(adj, steps, row, i)
  }

  ghost predicate Labelled(steps: seq<nat>, row: seq<nat>) {
    forall v :: 0 <= v < |steps| ==> steps[v] <= UNREACHED && (steps[v] < UNREACHED ==> v in row)
  }

  ghost predicate RisesAt(steps: seq<nat>, row: seq<nat>, i: nat)
    requires 0 < i < |row|
  {
    row[i - 1] < |steps| && row[i] < |steps| && steps[row[i - 1]] <= steps[row[i]]
  }

  /** The labels never fall along the row. */
  ghost predicate Rising(steps: seq<nat>, row: seq<nat>) {
    forall i :: 0 < i < |row| ==> RisesAt(steps, row, i)
  }

  ghost predicate OnceAt(steps: seq<nat>, row: seq<nat>, i: nat)
    requires i < |row|
  {
    row[i] < |steps| && (steps[row[i]] < UNREACHED ==> row[i] !in row[..i])
  }

  /** Only a node still at the sentinel is in the row twice. */
  ghost predicate Once(steps: seq<nat>, row: seq<nat>) {
    forall i :: 0 <= i < |row| ==> OnceAt(steps, row, i)
  }

  /** The link from u to v has been followed: v was queued, at most one step further on, and labelled if u was not. */
  ghost predicate Followed(steps: seq<nat>, row: seq<nat>, u: nat, v: nat)
    requires u < |steps|
  {
    v < |steps| && v in row && steps[v] <= steps[u] + 1 && (steps[u] == UNREACHED ==> steps[v] < UNREACHED)
  }

  ghost predicate FirstFollowed(adj: Links, steps: seq<nat>, row: seq<nat>, u: nat, k: nat)
    requires u < |adj| == |steps|
  {
    k <= |adj[u]| && forall j :: 0 <= j < k ==> Followed(steps, row, u, adj[u][j])
  }

  ghost predicate FollowedAt(adj: Links, steps: seq<nat>, row: seq<nat>, i: nat)
    requires i < |row|
  {
    row[i] < |adj| == |steps| && FirstFollowed(adj, steps, row, row[i], |adj[row[i]]|)
  }

  ghost predicate TakenFollowed(adj: Links, steps: seq<nat>, row: seq<nat>, at: nat) {
    at <= |row| && forall i :: 0 <= i < at ==> FollowedAt(adj, steps, row, i)
  }

  /** The last of the first n in the row is at most one step further on than the one at k. */
  ghost predicate SpanAt(steps: seq<nat>, row: seq<nat>, k: nat, n: nat) {
    k < n <= |row| && row[k] < |steps| && row[n - 1] < |steps| && steps[row[n - 1]] <= steps[row[k]] + 1
  }

  ghost predicate Inv(adj: Links, steps: seq<nat>, row: seq<nat>, at: nat) {
    && LinksWellFormed(adj) && |steps| == |adj|
    && at <= |row| && |row| > 0 && row[0] == 0
    && RowExact(adj, steps, row)
    && Labelled(steps, row)
    && Rising(steps, row)
    && Once(steps, row)
    && TakenFollowed(adj, steps, row, at)
  }

  /** The node at `at` has been taken and its first k links followed; nothing queued is further than one step on. */
  ghost predicate Visiting(adj: Links, steps: seq<nat>, row: seq<nat>, at: nat, k: nat) {
    && Inv(adj, steps, row, at)
    && SpanAt(steps, row, at, |row|)
    && FirstFollowed(adj, steps, row, row[at], k)
  }

  lemma {:induction false} RisingFar(steps: seq<nat>, row: seq<nat>, i: nat, j: nat)
    requires Rising(steps, row) && i < j < |row|
    ensures row[i] < |steps| && row[j] < |steps| && steps[row[i]] <= steps[row[j]]
    decreases j - i
  {
    assert RisesAt(steps, row, j);
    if i + 1 < j { RisingFar(steps, row, i, j - 1); }
  }

  // ------------------------------------------------------------------ what the invariant means

  /** The walk ends at a node of the row whose label it is no shorter than, or it is longer than the label of the node
      at the front. */
  ghost predicate AccountedFor(steps: seq<nat>, row: seq<nat>, at: nat, w: Walk) {
    || (End(w) in row && End(w) < |steps| && steps[End(w)] <= Len(w))
    || (at < |row| && row[at] < |steps| && steps[row[at]] < Len(w))
  }

  lemma {:induction false} WalkIsAccountedFor(adj: Links, steps: seq<nat>, row: seq<nat>, at: nat, w: Walk)
    requires Inv(adj, steps, row, at) && IsWalk(Unit(adj), w)
    ensures AccountedFor(steps, row, at, w) && End(w) < |steps|
  {
    match w
    case Start =>
      assert ExactAt(adj, steps, row, 0) && IsWalk(Unit(adj), Start);
    case Extend(p, r) =>
      WalkIsAccountedFor(adj, steps, row, at, p);
      var u := End(p);
      var j :| 0 <= j < |adj[u]| && Unit(adj)[u][j] == r;
      if u in row && steps[u] <= Len(p) {
        var i :| 0 <= i < |row| && row[i] == u;
        if i < at {
          assert FollowedAt(adj, steps, row, i);
          assert Followed(steps, row, u, adj[u][j]);
        } else {
          if at < i { RisingFar(steps, row, at, i); }
        }
      }
  }

  /** While a node waits, an unlabelled one cannot be reached in fewer steps than one more than the front's. */
  lemma NoneShorterThanNext(adj: Links, steps: seq<nat>, row: seq<nat>, at: nat, v: nat)
    requires Inv(adj, steps, row, at) && at < |row| && row[at] < |steps| && v < |steps| && steps[v] == UNREACHED
    ensures NoneShorter(Unit(adj), v, if steps[row[at]] < UNREACHED then steps[row[at]] + 1 else UNREACHED)
  {
    forall w | IsWalk(Unit(adj), w) && End(w) == v
      ensures (if steps[row[at]] < UNREACHED then steps[row[at]] + 1 else UNREACHED) <= Len(w)
    {
      WalkIsAccountedFor(adj, steps, row, at, w);
    }
  }

  lemma StepOn(adj: Links, u: nat, d: nat, k: nat)
    requires u < |adj| && k < |adj[u]| && HasWalk(Unit(adj), u, d)
    ensures HasWalk(Unit(adj), adj[u][k], d + 1)
  {
    WalkOn(Unit(adj), u, d, k);
  }

  /** The next neighbour, not labelled, is one step further than the node taken, and no walk to it is shorter. */
  lemma NextIsShortest(adj: Links, steps: seq<nat>, row: seq<nat>, at: nat, k: nat)
    requires Visiting(adj, steps, row, at, k) && k < |adj[row[at]]|
    requires steps[row[at]] < UNREACHED && adj[row[at]][k] < |steps| && steps[adj[row[at]][k]] == UNREACHED
    ensures IsShortest(Unit(adj), adj[row[at]][k], steps[row[at]] + 1)
  {
    assert ExactAt(adj, steps, row, at);
    StepOn(adj, row[at], steps[row[at]], k);
    NoneShorterThanNext(adj, steps, row, at, adj[row[at]][k]);
  }

  // ------------------------------------------------------------------ one link

  /** Following a link to a node already labelled changes nothing. */
  lemma AlreadyLabelled(adj: Links, steps: seq<nat>, row: seq<nat>, at: nat, k: nat)
    requires Visiting(adj, steps, row, at, k) && k < |adj[row[at]]|
    requires adj[row[at]][k] < |steps| && steps[adj[row[at]][k]] < UNREACHED
    ensures Visiting(adj, steps, row, at, k + 1)
  {
    var u, v := row[at], adj[row[at]][k];
    assert ExactAt(adj, steps, row, at);
    StepOn(adj, u, steps[u], k);
    var i :| 0 <= i < |row| && row[i] == v;
    assert ExactAt(adj, steps, row, i);
    assert Followed(steps, row, u, v);
  }

  /** The labels of the nodes in the row stay as they are. */
  ghost predicate KeepsRow(steps: seq<nat>, row: seq<nat>, v: nat, d: nat) {
    v < |steps| && steps[v] == UNREACHED && d <= UNREACHED && (v in row ==> d == UNREACHED)
  }

  lemma RowStaysExact(adj: Links, steps: seq<nat>, row: seq<nat>, v: nat, d: nat)
    requires RowExact(adj, steps, row) && KeepsRow(steps, row, v, d) && IsShortest(Unit(adj), v, d)
    ensures RowExact(adj, steps[v := d], row + [v])
  {
    var steps', row' := steps[v := d], row + [v];
    forall i | 0 <= i < |row'| ensures ExactAt(adj, steps', row', i) {
      if i < |row| { assert ExactAt(adj, steps, row, i) && row[i] in row; }
    }
  }

  lemma StaysLabelled(steps: seq<nat>, row: seq<nat>, v: nat, d: nat)
    requires Labelled(steps, row) && KeepsRow(steps, row, v, d)
    ensures Labelled(steps[v := d], row + [v])
  {
    assert (row + [v])[|row|] == v;
    assert forall x :: x in row ==> x in row + [v];
  }

  lemma StaysRising(steps: seq<nat>, row: seq<nat>, v: nat, d: nat)
    requires Rising(steps, row) && KeepsRow(steps, row, v, d)
    requires |row| > 0 && row[|row| - 1] < |steps| && steps[row[|row| - 1]] <= d
    ensures Rising(steps[v := d], row + [v])
  {
    var steps', row' := steps[v := d], row + [v];
    forall i | 0 < i < |row'| ensures RisesAt(steps', row', i) {
      assert row'[i - 1] == row[i - 1] && row[i - 1] in row;
      if i < |row| { assert RisesAt(steps, row, i) && row[i] in row; }
    }
  }

  lemma StaysOnce(steps: seq<nat>, row: seq<nat>, v: nat, d: nat)
    requires Once(steps, row) && KeepsRow(steps, row, v, d)
    ensures Once(steps[v := d], row + [v])
  {
    var steps', row' := steps[v := d], row + [v];
    forall i | 0 <= i < |row'| ensures OnceAt(steps', row', i) {
      assert row'[..i] == row[..i];
      if i < |row| { assert OnceAt(steps, row, i) && row[i] in row; }
    }
  }

  lemma StaysFollowed(adj: Links, steps: seq<nat>, row: seq<nat>, u: nat, k: nat, v: nat, d: nat)
    requires u < |adj| == |steps| && FirstFollowed(adj, steps, row, u, k) && u in row && KeepsRow(steps, row, v, d)
    ensures FirstFollowed(adj, steps[v := d], row + [v], u, k)
  {
    forall j | 0 <= j < k ensures Followed(steps[v := d], row + [v], u, adj[u][j]) {
      assert Followed(steps, row, u, adj[u][j]);
    }
  }

  lemma TakenStayFollowed(adj: Links, steps: seq<nat>, row: seq<nat>, at: nat, v: nat, d: nat)
    requires TakenFollowed(adj, steps, row, at) && KeepsRow(steps, row, v, d)
    ensures TakenFollowed(adj, steps[v := d], row + [v], at)
  {
    var steps', row' := steps[v := d], row + [v];
    forall i | 0 <= i < at ensures FollowedAt(adj, steps', row', i) {
      assert row'[i] == row[i] && FollowedAt(adj, steps, row, i);
      StaysFollowed(adj, steps, row, row[i], |adj[row[i]]|, v, d);
    }
  }

  /** A node is queued again only if it lies the sentinel away; then its label stays. */
  lemma NextKeepsRow(adj: Links, steps: seq<nat>, row: seq<nat>, v: nat, d: nat)
    requires RowExact(adj, steps, row) && v < |steps| && steps[v] == UNREACHED && d <= UNREACHED
    requires IsShortest(Unit(adj), v, d)
    ensures KeepsRow(steps, row, v, d)
  {
    if v in row {
      var i :| 0 <= i < |row| && row[i] == v;
      assert ExactAt(adj, steps, row, i);
      ShortestIsUnique(Unit(adj), v, d, steps[row[i]]);
    }
  }

  /** The next neighbour, not labelled, can be given its label. */
  lemma NextIsExact(adj: Links, steps: seq<nat>, row: seq<nat>, at: nat, k: nat, v: nat, d: nat)
    requires Visiting(adj, steps, row, at, k) && k < |adj[row[at]]| && v == adj[row[at]][k] && d == steps[row[at]] + 1
    requires v < |steps| && steps[v] == UNREACHED && steps[row[at]] < UNREACHED
    ensures KeepsRow(steps, row, v, d) && IsShortest(Unit(adj), v, d)
  {
    NextIsShortest(adj, steps, row, at, k);
    NextKeepsRow(adj, steps, row, v, d);
  }

  lemma PushKeepsInv(adj: Links, steps: seq<nat>, row: seq<nat>, at: nat, v: nat, d: nat)
    requires Inv(adj, steps, row, at) && KeepsRow(steps, row, v, d) && IsShortest(Unit(adj), v, d)
    requires row[|row| - 1] < |steps| && steps[row[|row| - 1]] <= d
    ensures Inv(adj, steps[v := d], row + [v], at)
  {
    RowStaysExact(adj, steps, row, v, d);
    StaysLabelled(steps, row, v, d);
    StaysRising(steps, row, v, d);
    StaysOnce(steps, row, v, d);
    TakenStayFollowed(adj, steps, row, at, v, d);
  }

  /** Labelling an unlabelled neighbour of the node taken, and queuing it. */
  lemma LabelNeighbour(adj: Links, steps: seq<nat>, row: seq<nat>, at: nat, k: nat, v: nat, d: nat)
    requires Visiting(adj, steps, row, at, k) && k < |adj[row[at]]| && v == adj[row[at]][k] && d == steps[row[at]] + 1
    requires steps[row[at]] < UNREACHED && KeepsRow(steps, row, v, d) && IsShortest(Unit(adj), v, d)
    ensures Visiting(adj, steps[v := d], row + [v], at, k + 1)
  {
    var u := row[at];
    PushKeepsInv(adj, steps, row, at, v, d);
    StaysFollowed(adj, steps, row, u, k, v, d);
    assert (row + [v])[|row|] == v;
    assert Followed(steps[v := d], row + [v], u, v);
  }

  // ------------------------------------------------------------------ when a count overflows

  /** A node whose shortest walk is exactly the sentinel long leads to one no nearer. */
  ghost predicate OverflowsAt(adj: Links, u: nat, i: nat) {
    && u < |adj| && i < |adj[u]|
    && IsShortest(Unit(adj), u, UNREACHED)
    && NoneShorter(Unit(adj), adj[u][i], UNREACHED)
  }

  ghost predicate Overflows(adj: Links) {
    exists u: nat, i: nat :: OverflowsAt(adj, u, i)
  }

  lemma OverflowFound(adj: Links, steps: seq<nat>, row: seq<nat>, at: nat, k: nat)
    requires Visiting(adj, steps, row, at, k) && k < |adj[row[at]]|
    requires adj[row[at]][k] < |steps| && steps[adj[row[at]][k]] == UNREACHED == steps[row[at]]
    ensures Overflows(adj)
  {
    assert ExactAt(adj, steps, row, at);
    NoneShorterThanNext(adj, steps, row, at, adj[row[at]][k]);
    assert OverflowsAt(adj, row[at], k);
  }

  /** With nothing waiting every label is exact and no node was left to overflow. */
  lemma EmptyMeansExact(adj: Links, steps: seq<nat>, row: seq<nat>)
    requires Inv(adj, steps, row, |row|)
    ensures Exact(Unit(adj), steps) && !Overflows(adj)
  {
    forall w | IsWalk(Unit(adj), w) ensures End(w) < |steps| && steps[End(w)] <= Len(w) && End(w) in row {
      WalkIsAccountedFor(adj, steps, row, |row|, w);
    }
    forall v | 0 <= v < |steps| && steps[v] < UNREACHED ensures IsShortest(Unit(adj), v, steps[v]) {
      var i :| 0 <= i < |row| && row[i] == v;
      assert ExactAt(adj, steps, row, i);
    }
    forall u: nat, i: nat | u < |adj| && i < |adj[u]| && IsShortest(Unit(adj), u, UNREACHED)
      ensures !NoneShorter(Unit(adj), adj[u][i], UNREACHED)
    {
      LeadsToLabelled(adj, steps, row, u, i);
    }
  }

  /** A node the sentinel away was queued, and what it leads to was labelled when its turn came. */
  lemma LeadsToLabelled(adj: Links, steps: seq<nat>, row: seq<nat>, u: nat, i: nat)
    requires Inv(adj, steps, row, |row|) && u < |adj| && i < |adj[u]| && IsShortest(Unit(adj), u, UNREACHED)
    ensures !NoneShorter(Unit(adj), adj[u][i], UNREACHED)
  {
    var w :| IsWalk(Unit(adj), w) && End(w) == u && Len(w) == UNREACHED;
    WalkIsAccountedFor(adj, steps, row, |row|, w);
    var k :| 0 <= k < |row| && row[k] == u;
    assert ExactAt(adj, steps, row, k);
    ShortestIsUnique(Unit(adj), u, UNREACHED, steps[row[k]]);
    var v := adj[u][i];
    assert FollowedAt(adj, steps, row, k);
    assert Followed(steps, row, u, v);
    var j :| 0 <= j < |row| && row[j] == v;
    assert ExactAt(adj, steps, row, j);
  }

  // ------------------------------------------------------------------ everything that was ever queued

  /** All nodes queued so far, in order; and how many that were when the k-th of them was taken, so that the queue was
      then row[k..sizes[k]]. */
  datatype Trace = Trace(row: seq<nat>, sizes: seq<nat>)

  /** Whenever a node was taken, the last in the queue was at most one step further on. */
  ghost predicate SpansOne(steps: seq<nat>, t: Trace) {
    forall k :: 0 <= k < |t.sizes| ==> SpanAt(steps, t.row, k, t.sizes[k])
  }

  /** The labels of the nodes in the row do not change, so what they spanned stays. */
  lemma SpansStay(adj: Links, steps: seq<nat>, t: Trace, steps': seq<nat>, row': seq<nat>)
    requires RowExact(adj, steps, t.row) && RowExact(adj, steps', row') && t.row <= row' && SpansOne(steps, t)
    ensures SpansOne(steps', Trace(row', t.sizes))
  {
    forall k | 0 <= k < |t.sizes| ensures SpanAt(steps', row', k, t.sizes[k]) {
      assert SpanAt(steps, t.row, k, t.sizes[k]);
      SameLabel(adj, steps, t.row, steps', row', k);
      SameLabel(adj, steps, t.row, steps', row', t.sizes[k] - 1);
    }
  }

  lemma SameLabel(adj: Links, steps: seq<nat>, row: seq<nat>, steps': seq<nat>, row': seq<nat>, i: nat)
    requires RowExact(adj, steps, row) && RowExact(adj, steps', row') && row <= row' && i < |row|
    ensures row'[i] == row[i] < |steps| && row[i] < |steps'| && steps'[row[i]] == steps[row[i]]
  {
    assert row'[i] == row[i] && ExactAt(adj, steps, row, i) && ExactAt(adj, steps', row', i);
    ShortestIsUnique(Unit(adj), row[i], steps[row[i]], steps'[row'[i]]);
  }

  /** What the trace of a whole search shows: along everything ever queued the distances never fall, at every moment
      those waiting span at most one step, every node reached was queued, and none twice unless it lies the sentinel
      away. */
  ghost predicate QueuedInOrder(steps: seq<nat>, t: Trace) {
    && |t.sizes| == |t.row|
    && (forall i :: 0 <= i < |t.row| ==> t.row[i] < |steps|)
    && (forall i, j :: 0 <= i < j < |t.row| ==> steps[t.row[i]] <= steps[t.row[j]])
    && (forall i, j :: 0 <= i < j < |t.row| && t.row[i] == t.row[j] ==> steps[t.row[j]] == UNREACHED)
    && (forall k :: 0 <= k < |t.sizes| ==> k < t.sizes[k] <= |t.row|)
    && (forall k, i :: 0 <= k <= i < |t.row| && i < t.sizes[k] ==> steps[t.row[i]] <= steps[t.row[k]] + 1)
    && (forall v :: 0 <= v < |steps| && steps[v] < UNREACHED ==> v in t.row)
  }

  lemma AllTaken(adj: Links, steps: seq<nat>, t: Trace)
    requires Inv(adj, steps, t.row, |t.row|) && SpansOne(steps, t) && |t.sizes| == |t.row|
    ensures QueuedInOrder(steps, t)
  {
    forall i | 0 <= i < |t.row| ensures t.row[i] < |steps| {
      assert ExactAt(adj, steps, t.row, i);
    }
    forall i, j | 0 <= i < j < |t.row|
      ensures steps[t.row[i]] <= steps[t.row[j]]
      ensures t.row[i] == t.row[j] ==> steps[t.row[j]] == UNREACHED
    {
      RisingFar(steps, t.row, i, j);
      assert OnceAt(steps, t.row, j) && t.row[i] in t.row[..j];
    }
    forall k | 0 <= k < |t.sizes| ensures SpanAt(steps, t.row, k, t.sizes[k]) {
    }
    forall k, i | 0 <= k <= i < |t.row| && i < t.sizes[k] ensures steps[t.row[i]] <= steps[t.row[k]] + 1 {
      assert SpanAt(steps, t.row, k, t.sizes[k]);
      if i < t.sizes[k] - 1 { RisingFar(steps, t.row, i, t.sizes[k] - 1); }
    }
  }

  /** In a graph whose nodes a `u32` can number, no node is ever queued twice. */
  lemma QueuedAtMostOnce(adj: Links, steps: seq<nat>, t: Trace)
    requires LinksWellFormed(adj) && |adj| <= UNREACHED && |steps| == |adj|
    requires Exact(Unit(adj), steps) && QueuedInOrder(steps, t) && RowExact(adj, steps, t.row)
    ensures forall i, j :: 0 <= i < j < |t.row| ==> t.row[i] != t.row[j]
  {
    forall i, j | 0 <= i < j < |t.row| ensures t.row[i] != t.row[j] {
      assert ExactAt(adj, steps, t.row, j);
      NoneAtSentinel(adj, t.row[j]);
    }
  }

  // ------------------------------------------------------------------ what is left to do

  function Unlabelled(steps: seq<nat>): set<nat> {
    set v | 0 <= v < |steps| && steps[v] == UNREACHED
  }

  /** The labelled nodes waiting. */
  function Pending(steps: seq<nat>, q: seq<nat>): set<nat> {
    set v | 0 <= v < |steps| && v in q && steps[v] < UNREACHED
  }

  /** Fewer nodes to label, or the same labels with the same of them waiting; from a node at the sentinel,
      nothing new. */
  ghost predicate NoMoreToDo(steps: seq<nat>, q: seq<nat>, steps': seq<nat>, q': seq<nat>, u: nat)
    requires u < |steps|
  {
    || Unlabelled(steps') < Unlabelled(steps)
    || (steps' == steps && Pending(steps, q') == Pending(steps, q) && (steps[u] == UNREACHED ==> q' == q))
  }

  lemma LabelEffect(steps: seq<nat>, q: seq<nat>, v: nat, d: nat, u: nat)
    requires v < |steps| && u < |steps| && steps[v] == UNREACHED && d <= UNREACHED && steps[u] < UNREACHED
    ensures NoMoreToDo(steps, q, steps[v := d], q + [v], u)
  {
    if d < UNREACHED {
      assert v in Unlabelled(steps) && v !in Unlabelled(steps[v := d]);
    } else {
      assert steps[v := d] == steps;
      assert Pending(steps, q + [v]) == Pending(steps, q);
    }
  }

  /** What a turn leaves to do is less than before. */
  ghost predicate LessToDo(steps: seq<nat>, q: seq<nat>, steps': seq<nat>, q': seq<nat>) {
    || Unlabelled(steps') < Unlabelled(steps)
    || (steps' == steps && Pending(steps, q') < Pending(steps, q))
    || (steps' == steps && Pending(steps, q') == Pending(steps, q) && |q'| < |q|)
  }

  /** The node at the front gone, for good if it is labelled, and no more left to do is less to do. */
  lemma LessAfter(steps: seq<nat>, q: seq<nat>, steps': seq<nat>, q': seq<nat>)
    requires q != [] && q[0] < |steps| && NoMoreToDo(steps, q[1..], steps', q', q[0])
    requires steps[q[0]] <= UNREACHED && (steps[q[0]] < UNREACHED ==> q[0] !in q[1..])
    ensures LessToDo(steps, q, steps', q')
  {
    assert q == [q[0]] + q[1..];
    assert Pending(steps, q[1..]) <= Pending(steps, q);
    if steps[q[0]] < UNREACHED {
      assert q[0] in Pending(steps, q) && q[0] !in Pending(steps, q[1..]);
    } else {
      assert Pending(steps, q[1..]) == Pending(steps, q);
    }
  }

  // ------------------------------------------------------------------ a turn of the loop

  /** Between turns: as many nodes taken as there are sizes, and those waiting at most one step apart. */
  ghost predicate AtTurn(adj: Links, steps: seq<nat>, t: Trace) {
    && Inv(adj, steps, t.row, |t.sizes|)
    && SpansOne(steps, t)
    && (|t.sizes| < |t.row| ==> SpanAt(steps, t.row, |t.sizes|, |t.row|))
  }

  /** Taking the node at the front. */
  lemma TurnBegins(adj: Links, steps: seq<nat>, t: Trace)
    requires AtTurn(adj, steps, t) && |t.sizes| < |t.row|
    ensures Visiting(adj, steps, t.row, |t.sizes|, 0)
  {
  }

  /** With every link of the node taken followed the next turn can begin. */
  lemma TurnEnds(adj: Links, steps: seq<nat>, row: seq<nat>, at: nat)
    requires at < |row| && row[at] < |adj| && Visiting(adj, steps, row, at, |adj[row[at]]|)
    ensures Inv(adj, steps, row, at + 1)
    ensures at + 1 < |row| ==> SpanAt(steps, row, at + 1, |row|)
  {
    assert FollowedAt(adj, steps, row, at);
    if at + 1 < |row| { RisingFar(steps, row, at, at + 1); }
  }

  lemma SpansTake(steps: seq<nat>, t: Trace)
    requires SpansOne(steps, t) && SpanAt(steps, t.row, |t.sizes|, |t.row|)
    ensures SpansOne(steps, Trace(t.row, t.sizes + [|t.row|]))
  {
    var sizes := t.sizes + [|t.row|];
    forall k | 0 <= k < |sizes| ensures SpanAt(steps, t.row, k, sizes[k]) {
      assert k < |t.sizes| ==> sizes[k] == t.sizes[k] && SpanAt(steps, t.row, k, t.sizes[k]);
    }
  }

  /** One turn of the loop, in which the row grows to `row'`. */
  lemma TurnKeeps(adj: Links, steps: seq<nat>, t: Trace, steps': seq<nat>, row': seq<nat>)
    requires AtTurn(adj, steps, t) && |t.sizes| < |t.row| <= |row'| && t.row <= row' && row'[|t.sizes|] < |adj|
    requires Visiting(adj, steps', row', |t.sizes|, |adj[row'[|t.sizes|]]|)
    ensures AtTurn(adj, steps', Trace(row', t.sizes + [|t.row|]))
  {
    SpansTake(steps, t);
    SpansStay(adj, steps, Trace(t.row, t.sizes + [|t.row|]), steps', row');
    TurnEnds(adj, steps', row', |t.sizes|);
  }

  // ------------------------------------------------------------------ following links

  lemma WaitingGrows(row: seq<nat>, n: nat, v: nat)
    requires n <= |row|
    ensures (row + [v])[n..] == row[n..] + [v]
  {
  }

  datatype Labels = Labels(steps: seq<nat>, row: seq<nat>)

  /** What following one link does; none when the count overflows. */
  function FollowLink(adj: Links, l: Labels, u: nat, k: nat): (r: Option<Labels>)
    requires LinksWellFormed(adj) && u < |adj| && k < |adj[u]| && |l.steps| == |adj|
    ensures r.Some? ==> |r.value.steps| == |adj|
  {
    var v := adj[u][k];
    if l.steps[v] != UNREACHED then Some(l)
    else if l.steps[u] + 1 > UNREACHED then None
    else Some(Labels(l.steps[v := l.steps[u] + 1], l.row + [v]))
  }

  function FollowLinks(adj: Links, l: Labels, u: nat, k: nat): (r: Option<Labels>)
    requires LinksWellFormed(adj) && u < |adj| && k <= |adj[u]| && |l.steps| == |adj|
    ensures r.Some? ==> |r.value.steps| == |adj|
  {
    if k == 0 then Some(l)
    else
      var before := FollowLinks(adj, l, u, k - 1);
      if before.None? then None else FollowLink(adj, before.value, u, k - 1)
  }

  lemma LinkKeeps(adj: Links, l: Labels, at: nat, k: nat)
    requires Visiting(adj, l.steps, l.row, at, k) && k < |adj[l.row[at]]|
    ensures var r := FollowLink(adj, l, l.row[at], k);
            if r.None? then Overflows(adj)
            else l.row <= r.value.row && Visiting(adj, r.value.steps, r.value.row, at, k + 1)
  {
    var u := l.row[at];
    var v := adj[u][k];
    if l.steps[v] != UNREACHED {
      AlreadyLabelled(adj, l.steps, l.row, at, k);
    } else if l.steps[u] + 1 > UNREACHED {
      OverflowFound(adj, l.steps, l.row, at, k);
    } else {
      NextIsExact(adj, l.steps, l.row, at, k, v, l.steps[u] + 1);
      LabelNeighbour(adj, l.steps, l.row, at, k, v, l.steps[u] + 1);
    }
  }

  /** Following the links of the node taken labels and queues its neighbours, unless a count overflows. */
  lemma {:induction false} LinksKeep(adj: Links, l: Labels, at: nat, u: nat, k: nat)
    requires Visiting(adj, l.steps, l.row, at, 0) && u == l.row[at] && k <= |adj[u]|
    ensures var r := FollowLinks(adj, l, u, k);
            if r.None? then Overflows(adj)
            else at < |r.value.row| && r.value.row[at] == u && Visiting(adj, r.value.steps, r.value.row, at, k)
  {
    if k > 0 {
      LinksKeep(adj, l, at, u, k - 1);
      var before := FollowLinks(adj, l, u, k - 1);
      if before.Some? { LinkKeeps(adj, before.value, at, k - 1); }
    }
  }

  /** What the links leave to do is no more than before. */
  lemma {:induction false} NoMoreFromLinks(adj: Links, l: Labels, n: nat, u: nat, k: nat)
    requires LinksWellFormed(adj) && u < |adj| == |l.steps| && k <= |adj[u]| && n <= |l.row|
    ensures var r := FollowLinks(adj, l, u, k);
            r.Some? ==> l.row <= r.value.row && NoMoreToDo(l.steps, l.row[n..], r.value.steps, r.value.row[n..], u)
  {
    if k > 0 {
      NoMoreFromLinks(adj, l, n, u, k - 1);
      var before := FollowLinks(adj, l, u, k - 1);
      if before.Some? && before.value.steps[adj[u][k - 1]] == UNREACHED && before.value.steps[u] < UNREACHED {
        var m, v := before.value, adj[u][k - 1];
        LabelEffect(m.steps, m.row[n..], v, m.steps[u] + 1, u);
        WaitingGrows(m.row, n, v);
      }
    }
  }

  lemma {:induction false} StopsThere(adj: Links, l: Labels, u: nat, k: nat, n: nat)
    requires LinksWellFormed(adj) && u < |adj| == |l.steps| && k < n <= |adj[u]|
    requires FollowLinks(adj, l, u, k + 1).None?
    ensures FollowLinks(adj, l, u, n).None?
  {
    if k + 1 < n { StopsThere(adj, l, u, k, n - 1); }
  }

  /** The inner loop: every neighbour of u not yet labelled is labelled one more than u and queued. False
      when that count overflows. */
  method LabelNeighbours(adj: Links, steps: seq<nat>, todo: Queue<nat>, u: nat, ghost row: seq<nat>, ghost n: nat)
    returns (ok: bool, steps': seq<nat>, ghost row': seq<nat>)
    requires LinksWellFormed(adj) && u < |adj| == |steps| && n <= |row| && todo.Contents() == row[n..]
    modifies todo
    ensures FollowLinks(adj, Labels(steps, row), u, |adj[u]|) == if ok then Some(Labels(steps', row')) else None
    ensures ok ==> n <= |row'| && todo.Contents() == row'[n..]
  {
    steps', row' := steps, row;
    for k := 0 to |adj[u]|
      invariant n <= |row'| && todo.Contents() == row'[n..]
      invariant FollowLinks(adj, Labels(steps, row), u, k) == Some(Labels(steps', row'))
    {
      var v := adj[u][k];
      if steps'[v] == UNREACHED {
        if steps'[u] + 1 > UNREACHED {
          StopsThere(adj, Labels(steps, row), u, k, |adj[u]|);
          return false, steps', row';
        }
        WaitingGrows(row', n, v);
        steps' := steps'[v := steps'[u] + 1];
        todo.PushBack(v);
        row' := row' + [v];
      }
    }
    ok := true;
  }

  /** A labelled node at the front does not wait again behind. */
  lemma FrontIsOnce(steps: seq<nat>, t: Trace)
    requires Once(steps, t.row) && |t.sizes| < |t.row|
    ensures var q := t.row[|t.sizes|..]; q[0] < |steps| && (steps[q[0]] < UNREACHED ==> q[0] !in q[1..])
  {
    var n, q := |t.sizes|, t.row[|t.sizes|..];
    assert OnceAt(steps, t.row, n) && q[0] == t.row[n];
    forall i | 0 <= i < |q[1..]| && q[1..][i] == q[0] ensures steps[q[0]] >= UNREACHED {
      assert t.row[n] in t.row[..n + 1 + i] && t.row[n + 1 + i] == q[0] && OnceAt(steps, t.row, n + 1 + i);
    }
  }

  /** A turn of the loop: a node is taken and all its links followed. */
  lemma TurnKeepsAll(adj: Links, steps: seq<nat>, t: Trace, u: nat)
    requires AtTurn(adj, steps, t) && |t.sizes| < |t.row| && u == t.row[|t.sizes|]
    ensures u < |adj| == |steps|
    ensures var r := FollowLinks(adj, Labels(steps, t.row), u, |adj[u]|);
            if r.None? then Overflows(adj)
            else t.row <= r.value.row && AtTurn(adj, r.value.steps, Trace(r.value.row, t.sizes + [|t.row|]))
                 && LessToDo(steps, t.row[|t.sizes|..], r.value.steps, r.value.row[|t.sizes| + 1..])
  {
    var n, l := |t.sizes|, Labels(steps, t.row);
    TurnBegins(adj, steps, t);
    LinksKeep(adj, l, n, u, |adj[u]|);
    NoMoreFromLinks(adj, l, n + 1, u, |adj[u]|);
    var r := FollowLinks(adj, l, u, |adj[u]|);
    if r.Some? {
      TurnKeeps(adj, steps, t, r.value.steps, r.value.row);
      FrontIsOnce(steps, t);
      LessAfter(steps, t.row[n..], r.value.steps, r.value.row[n + 1..]);
    }
  }

  datatype Outcome = Empty | Going | Overflow

  /** One turn of the loop: the node at the front is taken and its neighbours labelled. */
  method TakeNext(adj: Links, steps: seq<nat>, todo: Queue<nat>, ghost t: Trace)
    returns (outcome: Outcome, steps': seq<nat>, ghost t': Trace)
    requires AtTurn(adj, steps, t) && todo.Contents() == t.row[|t.sizes|..]
    modifies todo
    ensures !outcome.Overflow? ==> AtTurn(adj, steps', t') && todo.Contents() == t'.row[|t'.sizes|..]
    ensures outcome.Empty? ==> todo.Contents() == []
    ensures outcome.Going? ==> LessToDo(steps, old(todo.Contents()), steps', todo.Contents())
    ensures outcome.Going? ==> t'.sizes == t.sizes + [|t.row|] && t.row <= t'.row
    ensures outcome.Overflow? ==> Overflows(adj)
  {
    var front := todo.PopFront();
    if front.None? {
      return Empty, steps, t;
    }
    var u := front.value;
    ghost var at := |t.sizes|;
    assert u == t.row[at];
    TurnKeepsAll(adj, steps, t, u);
    var ok;
    ghost var row;
    ok, steps', row := LabelNeighbours(adj, steps, todo, u, t.row, at + 1);
    t' := Trace(row, t.sizes + [|t.row|]);
    outcome := if ok then Going else Overflow;
  }

  lemma StartQueue(adj: Links, steps: seq<nat>)
    requires LinksWellFormed(adj) && steps == seq(|adj|, v => if v == 0 then 0 else UNREACHED)
    ensures AtTurn(adj, steps, Trace([0], []))
  {
    assert IsWalk(Unit(adj), Start) && End(Start) == 0 && Len(Start) == 0;
  }

  /** The program's search: it ends with every count exact, or stops when a count overflows, and it
      overflows exactly when some node lies exactly the sentinel away and leads to one no nearer. A graph
      without nodes faults at node 0. The trace says what was queued, and when it was taken. */
  method FewestSteps(adj: Links) returns (r: Result<seq<nat>>, ghost t: Trace)
    requires adj == [] || LinksWellFormed(adj)
    ensures r.Ok? ==> Exact(Unit(adj), r.value) && QueuedInOrder(r.value, t)
    ensures r.Ok? && |adj| <= UNREACHED ==> forall i, j :: 0 <= i < j < |t.row| ==> t.row[i] != t.row[j]
    ensures r.Ok? && |adj| <= 0xFFFF_FFFF ==>
              forall v :: 0 <= v < |adj| ==> (r.value[v] == 0xFFFF_FFFF <==> Unreachable(Unit(adj), v))
    ensures r.Err? ==> r.fault == if adj == [] then IndexOutOfBounds else ArithOverflow
    ensures r.Err? <==> adj == [] || Overflows(adj)
  {
    t := Trace([0], []);
    if |adj| == 0 {
      return Err(IndexOutOfBounds), t;
    }
    var steps: seq<nat> := seq(|adj|, v => if v == 0 then 0 else UNREACHED);
    var todo := new Queue();
    todo.PushBack(0);
    StartQueue(adj, steps);
    var outcome := Going;
    while outcome.Going?
      invariant fresh(todo)
      invariant !outcome.Overflow? ==> AtTurn(adj, steps, t) && todo.Contents() == t.row[|t.sizes|..]
      invariant outcome.Empty? ==> todo.Contents() == []
      invariant outcome.Overflow? ==> Overflows(adj)
      decreases outcome.Going?, Unlabelled(steps), Pending(steps, todo.Contents()), |todo.Contents()|
    {
      outcome, steps, t := TakeNext(adj, steps, todo, t);
    }
    if outcome.Overflow? {
      return Err(ArithOverflow), t;
    }
    EmptyMeansExact(adj, steps, t.row);
    AllTaken(adj, steps, t);
    if |adj| <= UNREACHED {
      QueuedAtMostOnce(adj, steps, t);
      forall v | 0 <= v < |adj| ensures steps[v] == UNREACHED <==> Unreachable(Unit(adj), v) {
        SentinelMeansUnreachable(adj, steps, v);
      }
    }
    return Ok(steps), t;
  }

  // ------------------------------------------------------------------ graphs a u32 can number

  lemma {:induction false} UnitLen(adj: Links, w: Walk)
    requires IsWalk(Unit(adj), w) && w.Extend?
    ensures Len(w) == Len(w.prev) + 1
  {
    var i :| 0 <= i < |adj[End(w.prev)]| && Unit(adj)[End(w.prev)][i] == w.road;
  }

  lemma OtherDistance(roads: Map, u: nat, d: nat, v: nat, k: nat)
    requires IsShortest(roads, u, d) && IsShortest(roads, v, k) && k < d
    ensures u != v
  {
    assert NoneShorter(roads, u, d) && HasWalk(roads, v, k);
  }

  /** A node at distance d has a different node before it at each smaller distance. */
  lemma {:induction false} DistinctBefore(adj: Links, u: nat, d: nat) returns (before: set<nat>)
    requires LinksWellFormed(adj) && u < |adj| && IsShortest(Unit(adj), u, d)
    ensures |before| == d + 1
    ensures forall v :: v in before ==> v < |adj| && exists k: nat :: k <= d && IsShortest(Unit(adj), v, k)
    decreases d
  {
    var w :| IsWalk(Unit(adj), w) && End(w) == u && Len(w) == d;
    if d == 0 {
      before := {u};
    } else {
      var y := End(w.prev);
      UnitLen(adj, w);
      forall x | IsWalk(Unit(adj), x) && End(x) == y ensures d - 1 <= Len(x) {
        var further := Extend(x, w.road);
        assert IsWalk(Unit(adj), further);
        UnitLen(adj, further);
      }
      var rest := DistinctBefore(adj, y, d - 1);
      forall v | v in rest ensures v != u {
        var k: nat :| k <= d - 1 && IsShortest(Unit(adj), v, k);
        OtherDistance(Unit(adj), u, d, v, k);
      }
      before := rest + {u};
    }
  }

  lemma NoneAtSentinel(adj: Links, u: nat)
    requires LinksWellFormed(adj) && |adj| <= UNREACHED && u < |adj|
    ensures !IsShortest(Unit(adj), u, UNREACHED)
  {
    if IsShortest(Unit(adj), u, UNREACHED) {
      var before := DistinctBefore(adj, u, UNREACHED);
      SubsetOfRange(before, |adj|);
    }
  }

  /** A node that can be reached at all is nearer than there are nodes. */
  lemma ReachedWithinTheNodes(adj: Links, w: Walk) returns (d: nat)
    requires LinksWellFormed(adj) && IsWalk(Unit(adj), w) && End(w) < |adj|
    ensures d < |adj| && IsShortest(Unit(adj), End(w), d)
  {
    d := SomeShortest(Unit(adj), w);
    var before := DistinctBefore(adj, End(w), d);
    SubsetOfRange(before, |adj|);
  }

  /** In a graph of at most `UNREACHED` nodes the sentinel marks exactly the nodes no walk leads to. */
  lemma SentinelMeansUnreachable(adj: Links, steps: seq<nat>, v: nat)
    requires LinksWellFormed(adj) && |adj| <= UNREACHED && Exact(Unit(adj), steps) && v < |adj|
    ensures steps[v] == UNREACHED <==> Unreachable(Unit(adj), v)
  {
    if w :| IsWalk(Unit(adj), w) && End(w) == v {
      var d := ReachedWithinTheNodes(adj, w);
      var x :| IsWalk(Unit(adj), x) && End(x) == v && Len(x) == d;
    }
  }

  /** A graph of at most `UNREACHED` nodes never overflows the count, so the search is exact on all of
      them. */
  lemma NoOverflowUpToSentinelNodes(adj: Links)
    requires LinksWellFormed(adj) && |adj| <= UNREACHED
    ensures !Overflows(adj)
  {
    forall u: nat | u < |adj| ensures !IsShortest(Unit(adj), u, UNREACHED) {
      NoneAtSentinel(adj, u);
    }
  }
}
