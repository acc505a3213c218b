/** `std::collections::PriorityQueue`: a heap kept in two vectors side by side, one of elements and one of the
    numbers they arrived under. What comes out is the least, and between equals the longest there. */
module PriorityQueues {
  import opened Wrappers

  datatype Entry<T> = Entry(item: T, arrival: nat)

  /** What `less` must be: never of an element and itself, transitive, and with "neither goes first"
      transitive too. */
  ghost predicate StrictWeakOrder<T(!new)>(less: (T, T) -> bool) {
    forall a: T, b: T, c: T :: Ordered(less, a, b, c)
  }

  ghost predicate Ordered<T>(less: (T, T) -> bool, a: T, b: T, c: T) {
    !less(a, a) && (less(a, b) && less(b, c) ==> less(a, c)) && (less(a, c) ==> less(a, b) || less(b, c))
  }

  /** a leaves the queue ahead of b. One comparison decides it, because a tie goes to the lower number. */
  predicate Before<T>(less: (T, T) -> bool, a: Entry<T>, b: Entry<T>) {
    if a.arrival < b.arrival then !less(b.item, a.item) else less(a.item, b.item)
  }

  /** b does not come out before a. */
  predicate Leq<T>(less: (T, T) -> bool, a: Entry<T>, b: Entry<T>) {
    !Before(less, b, a)
  }

  lemma BeforeIsAsymmetric<T(!new)>(less: (T, T) -> bool, a: Entry<T>, b: Entry<T>)
    requires StrictWeakOrder(less) && Before(less, a, b)
    ensures Leq(less, a, b)
  {
    assert Ordered(less, a.item, b.item, a.item);
  }

  lemma LeqTransitive<T(!new)>(less: (T, T) -> bool, a: Entry<T>, b: Entry<T>, c: Entry<T>)
    requires StrictWeakOrder(less) && Leq(less, a, b) && Leq(less, b, c)
    ensures Leq(less, a, c)
  {
    assert Ordered(less, a.item, b.item, c.item) && Ordered(less, c.item, b.item, a.item);
    assert Ordered(less, a.item, c.item, b.item) && Ordered(less, b.item, a.item, c.item);
    assert Ordered(less, b.item, c.item, a.item) && Ordered(less, c.item, a.item, b.item);
  }

  /** Least first, first come first served: nothing goes before an entry that comes out first, and nothing
      equal to it arrived earlier. And arrival numbers that differ leave no ties. */
  lemma LeqMeansLeastThenEarliest<T(!new)>(less: (T, T) -> bool, a: Entry<T>, b: Entry<T>)
    requires StrictWeakOrder(less)
    ensures Leq(less, a, b) <==>
            !less(b.item, a.item) && (!less(a.item, b.item) ==> a.arrival <= b.arrival)
    ensures Leq(less, a, b) && Leq(less, b, a) ==> a.arrival == b.arrival
  {
    assert Ordered(less, a.item, b.item, a.item);
  }

  // ------------------------------------------------------------------ heaps

  function Parent(i: nat): nat
    requires i > 0
  {
    (i - 1) / 2
  }

  ghost predicate ParentFirst<T>(less: (T, T) -> bool, e: seq<Entry<T>>, k: nat)
    requires 0 < k < |e|
  {
    Leq(less, e[Parent(k)], e[k])
  }

  ghost predicate Heap<T>(less: (T, T) -> bool, e: seq<Entry<T>>) {
    forall k :: 0 < k < |e| ==> ParentFirst(less, e, k)
  }

  /** A heap but for the element at i, which may go before its ancestors. */
  ghost predicate HeapBut<T>(less: (T, T) -> bool, e: seq<Entry<T>>, i: nat) {
    && (forall k :: 0 < k < |e| && k != i ==> ParentFirst(less, e, k))
    && (forall k :: 0 < i < k < |e| && Parent(k) == i ==> Leq(less, e[Parent(i)], e[k]))
  }

  /** The first n elements are a heap but for a hole at i, whose own value does not matter. */
  ghost predicate HeapAround<T>(less: (T, T) -> bool, e: seq<Entry<T>>, n: nat, i: nat)
    requires n <= |e|
  {
    && (forall k :: 0 < k < n && k != i && Parent(k) != i ==> ParentFirst(less, e, k))
    && (forall k :: 0 < i < k < n && Parent(k) == i ==> Leq(less, e[Parent(i)], e[k]))
  }

  /** Where x, entering at i, meets the first ancestor that is to leave no later than x, or the root. */
  function Place<T>(less: (T, T) -> bool, e: seq<Entry<T>>, i: nat, x: Entry<T>): (t: nat)
    requires i < |e|
    ensures t <= i
  {
    if i == 0 || !Before(less, x, e[Parent(i)]) then i else Place(less, e, Parent(i), x)
  }

  lemma {:induction false} RootIsLeast<T(!new)>(less: (T, T) -> bool, e: seq<Entry<T>>, k: nat)
    requires StrictWeakOrder(less) && Heap(less, e) && k < |e|
    ensures Leq(less, e[0], e[k])
  {
    if k == 0 {
      assert Ordered(less, e[0].item, e[0].item, e[0].item);
    } else {
      RootIsLeast(less, e, Parent(k));
      assert ParentFirst(less, e, k);
      LeqTransitive(less, e[0], e[Parent(k)], e[k]);
    }
  }

  lemma UpdateMultiset<T>(s: seq<T>, i: nat, x: T)
    requires i < |s|
    ensures multiset(s[i := x]) + multiset{s[i]} == multiset(s) + multiset{x}
  {
  }

  /** Exchanging an element with its parent moves the exception up. */
  lemma RiseOneLevel<T(!new)>(less: (T, T) -> bool, e: seq<Entry<T>>, j: nat)
    requires StrictWeakOrder(less) && 0 < j < |e| && HeapBut(less, e, j) && Before(less, e[j], e[Parent(j)])
    ensures HeapBut(less, e[j := e[Parent(j)]][Parent(j) := e[j]], Parent(j))
    ensures multiset(e[j := e[Parent(j)]][Parent(j) := e[j]]) == multiset(e)
  {
    var p := Parent(j);
    var f := e[j := e[p]][p := e[j]];
    BeforeIsAsymmetric(less, e[j], e[p]);
    forall k | 0 < k < |f| && k != p ensures ParentFirst(less, f, k) {
      assert k != j ==> ParentFirst(less, e, k);
      if Parent(k) == p && k != j { LeqTransitive(less, e[j], e[p], e[k]); }
    }
    forall k | 0 < p < k < |f| && Parent(k) == p ensures Leq(less, f[Parent(p)], f[k]) {
      assert ParentFirst(less, e, p);
      if k != j {
        assert ParentFirst(less, e, k);
        LeqTransitive(less, e[Parent(p)], e[p], e[k]);
      }
    }
  }

  /** x entering at i and exchanged with its parent, level by level, until the parent is to leave no later. */
  function Rise<T>(less: (T, T) -> bool, e: seq<Entry<T>>, i: nat, x: Entry<T>): (f: seq<Entry<T>>)
    requires i < |e|
    ensures |f| == |e|
    decreases i
  {
    if i == 0 || !Before(less, x, e[Parent(i)]) then e[i := x]
    else Rise(less, e[i := e[Parent(i)]], Parent(i), x)
  }

  /** While what lies above the hole is untouched, the place found beforehand is where the rise is going. */
  lemma RiseUnfolds<T>(less: (T, T) -> bool, e: seq<Entry<T>>, f: seq<Entry<T>>, j: nat, x: Entry<T>)
    requires j < |e| == |f| && f[..j] == e[..j] && Place(less, e, j, x) != j
    ensures j > 0 && Place(less, e, Parent(j), x) == Place(less, e, j, x)
    ensures Rise(less, f, j, x) == Rise(less, f[j := f[Parent(j)]], Parent(j), x)
    ensures f[j := f[Parent(j)]][..Parent(j)] == e[..Parent(j)]
  {
    var p := Parent(j);
    assert f[p] == f[..j][p] == e[p];
    assert f[j := f[p]][..p] == f[..j][..p];
  }

  lemma RiseEnds<T>(less: (T, T) -> bool, e: seq<Entry<T>>, f: seq<Entry<T>>, t: nat, x: Entry<T>)
    requires t < |e| == |f| && f[..t] == e[..t] && Place(less, e, t, x) == t
    ensures Rise(less, f, t, x) == f[t := x]
  {
    if t > 0 {
      var p := Parent(t);
      assert f[p] == f[..t][p] == e[p];
    }
  }

  lemma {:induction false} RiseMakesHeap<T(!new)>(less: (T, T) -> bool, e: seq<Entry<T>>, i: nat, x: Entry<T>)
    requires StrictWeakOrder(less) && i < |e| && HeapBut(less, e[i := x], i)
    ensures Heap(less, Rise(less, e, i, x))
    ensures multiset(Rise(less, e, i, x)) == multiset(e[i := x])
    decreases i
  {
    if i > 0 && Before(less, x, e[Parent(i)]) {
      var p := Parent(i);
      var h := e[i := x];
      RiseOneLevel(less, h, i);
      assert e[i := e[p]][p := x] == h[i := h[p]][p := h[i]];
      RiseMakesHeap(less, e[i := e[p]], p, x);
    }
  }

  /** Moving the child that comes out first into the hole moves the hole down. */
  lemma SinkOneLevel<T(!new)>(less: (T, T) -> bool, e: seq<Entry<T>>, n: nat, hole: nat, c: nat, top: Entry<T>)
    requires StrictWeakOrder(less) && n <= |e| && c < n && c > 0 && Parent(c) == hole && HeapAround(less, e, n, hole)
    requires forall k :: 0 < k < n && Parent(k) == hole ==> Leq(less, e[c], e[k])
    ensures HeapAround(less, e[hole := e[c]], n, c)
    ensures multiset(e[hole := e[c]][c := top]) == multiset(e[hole := top])
  {
    UpdateMultiset(e[hole := e[c]], c, top);
    UpdateMultiset(e, hole, e[c]);
    UpdateMultiset(e, hole, top);
  }

  /** Of the hole's children, the one chosen does not come out after another. */
  lemma FirstChild<T(!new)>(less: (T, T) -> bool, e: seq<Entry<T>>, n: nat, hole: nat, c: nat)
    requires StrictWeakOrder(less) && n <= |e| && 2 * hole + 1 < n
    requires c == if 2 * hole + 2 < n && Before(less, e[2 * hole + 2], e[2 * hole + 1]) then 2 * hole + 2
                  else 2 * hole + 1
    ensures forall k :: 0 < k < n && Parent(k) == hole ==> Leq(less, e[c], e[k])
  {
    forall k | 0 < k < n && Parent(k) == hole ensures Leq(less, e[c], e[k]) {
      assert k == 2 * hole + 1 || k == 2 * hole + 2;
      assert Ordered(less, e[c].item, e[k].item, e[c].item);
    }
  }

  /** With the hole at a leaf, putting the last element there makes a heap but for that place. */
  lemma FillHole<T(!new)>(less: (T, T) -> bool, e: seq<Entry<T>>, hole: nat)
    requires hole < |e| - 1 <= 2 * hole + 1 && HeapAround(less, e, |e| - 1, hole)
    ensures HeapBut(less, e[hole := e[|e| - 1]][..|e| - 1], hole)
  {
  }

  lemma FillHoleKeepsElements<T>(e: seq<T>, hole: nat, top: T)
    requires hole < |e| - 1
    ensures multiset(e[hole := e[|e| - 1]][..|e| - 1]) + multiset{top} == multiset(e[hole := top])
  {
    var last := |e| - 1;
    var g := e[hole := top];
    assert g == g[..last] + [e[last]];
    assert e[hole := e[last]][..last] == g[..last][hole := e[last]];
    UpdateMultiset(g[..last], hole, e[last]);
  }

  /** The first of the children of `hole` to come out, of those below n. */
  function FirstChildOf<T>(less: (T, T) -> bool, e: seq<Entry<T>>, n: nat, hole: nat): (c: nat)
    requires 2 * hole + 1 < n <= |e|
    ensures hole < c < n && Parent(c) == hole
  {
    if 2 * hole + 2 < n && Before(less, e[2 * hole + 2], e[2 * hole + 1]) then 2 * hole + 2 else 2 * hole + 1
  }

  /** The hole sunk to a leaf among the first n, and where it ended. */
  function Sink<T>(less: (T, T) -> bool, e: seq<Entry<T>>, n: nat, hole: nat): (r: (seq<Entry<T>>, nat))
    requires n <= |e| && hole < |e|
    ensures |r.0| == |e| && r.1 < |e| && n <= 2 * r.1 + 1
    ensures hole < n ==> r.1 < n
    ensures n <= hole ==> r == (e, hole)
    decreases n - hole
  {
    if 2 * hole + 1 < n then
      var c := FirstChildOf(less, e, n, hole);
      Sink(less, e[hole := e[c]], n, c)
    else (e, hole)
  }

  lemma SinkUnfolds<T>(less: (T, T) -> bool, e: seq<Entry<T>>, n: nat, hole: nat)
    requires 2 * hole + 1 < n <= |e|
    ensures var c := FirstChildOf(less, e, n, hole); Sink(less, e, n, hole) == Sink(less, e[hole := e[c]], n, c)
  {
  }

  lemma {:induction false} SinkKeepsHeap<T(!new)>(
    less: (T, T) -> bool, e: seq<Entry<T>>, n: nat, hole: nat, top: Entry<T>)
    requires StrictWeakOrder(less) && n <= |e| && hole < |e| && HeapAround(less, e, n, hole)
    ensures var r := Sink(less, e, n, hole);
            HeapAround(less, r.0, n, r.1) && multiset(r.0[r.1 := top]) == multiset(e[hole := top])
    decreases n - hole
  {
    if 2 * hole + 1 < n {
      var c := FirstChildOf(less, e, n, hole);
      FirstChild(less, e, n, hole, c);
      SinkOneLevel(less, e, n, hole, c, top);
      SinkKeepsHeap(less, e[hole := e[c]], n, c, top);
    }
  }

  /** The last element, in the hole at a leaf, rises to its place. */
  lemma FilledRises<T(!new)>(less: (T, T) -> bool, h: seq<Entry<T>>, hole: nat)
    requires StrictWeakOrder(less) && hole < |h| - 1 <= 2 * hole + 1 && HeapAround(less, h, |h| - 1, hole)
    ensures var f := h[hole := h[|h| - 1]][..|h| - 1];
            Heap(less, Rise(less, f, hole, h[|h| - 1])) && multiset(Rise(less, f, hole, h[|h| - 1])) == multiset(f)
  {
    var f := h[hole := h[|h| - 1]][..|h| - 1];
    assert f[hole := h[|h| - 1]] == f;
    FillHole(less, h, hole);
    RiseMakesHeap(less, f, hole, h[|h| - 1]);
  }

  lemma FillAndRise<T(!new)>(less: (T, T) -> bool, h: seq<Entry<T>>, hole: nat, top: Entry<T>)
    requires StrictWeakOrder(less) && hole < |h| - 1 <= 2 * hole + 1 && HeapAround(less, h, |h| - 1, hole)
    ensures var last := |h| - 1;
            var f := Rise(less, h[hole := h[last]][..last], hole, h[last]);
            Heap(less, f) && multiset(f) + multiset{top} == multiset(h[hole := top])
  {
    FilledRises(less, h, hole);
    FillHoleKeepsElements(h, hole, top);
  }

  /** What is left when the root has gone. */
  function WithoutRoot<T>(less: (T, T) -> bool, e: seq<Entry<T>>): (f: seq<Entry<T>>)
    requires e != []
  {
    var last := |e| - 1;
    var (h, hole) := Sink(less, e, last, 0);
    if hole == last then h[..last] else Rise(less, h[hole := h[last]][..last], hole, h[last])
  }

  lemma HeapAroundRoot<T>(less: (T, T) -> bool, e: seq<Entry<T>>)
    requires Heap(less, e) && e != []
    ensures HeapAround(less, e, |e| - 1, 0)
  {
  }

  /** The root's place sunk to a leaf of the others. */
  lemma RootSunk<T(!new)>(less: (T, T) -> bool, e: seq<Entry<T>>)
    requires StrictWeakOrder(less) && Heap(less, e) && |e| > 1
    ensures var r := Sink(less, e, |e| - 1, 0);
            && r.1 < |e| - 1 <= 2 * r.1 + 1
            && HeapAround(less, r.0, |e| - 1, r.1)
            && multiset(r.0[r.1 := e[0]]) == multiset(e)
  {
    HeapAroundRoot(less, e);
    assert e[0 := e[0]] == e;
    SinkKeepsHeap(less, e, |e| - 1, 0, e[0]);
  }

  lemma WithoutRootIsHeap<T(!new)>(less: (T, T) -> bool, e: seq<Entry<T>>)
    requires StrictWeakOrder(less) && Heap(less, e) && e != []
    ensures Heap(less, WithoutRoot(less, e))
    ensures multiset(WithoutRoot(less, e)) + multiset{e[0]} == multiset(e)
  {
    if |e| == 1 {
      assert e == [e[0]] && WithoutRoot(less, e) == [];
    } else {
      var (h, hole) := Sink(less, e, |e| - 1, 0);
      RootSunk(less, e);
      FillAndRise(less, h, hole, e[0]);
    }
  }

  function Entries<T>(items: seq<T>, arrivals: seq<nat>): (e: seq<Entry<T>>)
    requires |items| == |arrivals|
    ensures |e| == |items|
  {
    seq(|items|, i requires 0 <= i < |items| => Entry(items[i], arrivals[i]))
  }

  /** The entries of a row pushed in order to a new queue. */
  function Arrivals<T>(xs: seq<T>): (es: seq<Entry<T>>)
    ensures |es| == |xs|
  {
    seq(|xs|, i requires 0 <= i < |xs| => Entry(xs[i], i))
  }

  // ------------------------------------------------------------------ the queue

  /** x may leave a queue holding `held`: nothing in it comes out before x. */
  ghost predicate ComesOutFirst<T>(less: (T, T) -> bool, held: multiset<Entry<T>>, x: Entry<T>) {
    x in held && forall f :: f in held ==> Leq(less, x, f)
  }

  /** Arrival numbers are given out once each, in increasing order. */
  ghost predicate Numbered<T>(held: multiset<Entry<T>>, next: nat) {
    && (forall e :: e in held ==> e.arrival < next)
    && (forall e {:trigger Alone(held, e)} :: e in held ==> Alone(held, e))
  }

  /** No other entry has the number of this one. */
  ghost predicate Alone<T>(held: multiset<Entry<T>>, e: Entry<T>) {
    held[e] == 1 && forall f :: f in held && f.arrival == e.arrival ==> f == e
  }

  lemma NumberedWith<T>(held: multiset<Entry<T>>, x: Entry<T>)
    requires Numbered(held, x.arrival)
    ensures Numbered(held + multiset{x}, x.arrival + 1)
  {
    forall e | e in held + multiset{x} ensures Alone(held + multiset{x}, e) {
      assert e in held ==> Alone(held, e);
    }
  }

  lemma NumberedWithout<T>(held: multiset<Entry<T>>, next: nat, x: Entry<T>)
    requires Numbered(held, next)
    ensures Numbered(held - multiset{x}, next)
  {
    forall e | e in held - multiset{x} ensures Alone(held - multiset{x}, e) {
      assert e in held && Alone(held, e);
      assert e == x ==> (held - multiset{x})[e] == 0;
    }
  }

  lemma RootComesOutFirst<T(!new)>(less: (T, T) -> bool, e: seq<Entry<T>>)
    requires StrictWeakOrder(less) && Heap(less, e) && e != []
    ensures ComesOutFirst(less, multiset(e), e[0])
  {
    forall f | f in multiset(e) ensures Leq(less, e[0], f) {
      var k :| 0 <= k < |e| && e[k] == f;
      RootIsLeast(less, e, k);
    }
  }

  /** Taking x out of a queue that held `before` leaves `after`. */
  ghost predicate Taken<T>(less: (T, T) -> bool, before: multiset<Entry<T>>, x: Entry<T>, after: multiset<Entry<T>>) {
    ComesOutFirst(less, before, x) && after == before - multiset{x}
  }

  /** What the root's leaving does to what is held. */
  lemma RootLeaves<T(!new)>(less: (T, T) -> bool, e: seq<Entry<T>>, next: nat)
    requires StrictWeakOrder(less) && Heap(less, e) && e != [] && Numbered(multiset(e), next)
    ensures Heap(less, WithoutRoot(less, e))
    ensures Taken(less, multiset(e), e[0], multiset(WithoutRoot(less, e)))
    ensures Numbered(multiset(WithoutRoot(less, e)), next)
  {
    RootComesOutFirst(less, e);
    WithoutRootIsHeap(less, e);
    NumberedWithout(multiset(e), next, e[0]);
    assert multiset(WithoutRoot(less, e)) == multiset(e) - multiset{e[0]};
  }

  /** What an entry's arrival does to what is held. */
  lemma EntryArrives<T(!new)>(less: (T, T) -> bool, e: seq<Entry<T>>, x: Entry<T>)
    requires StrictWeakOrder(less) && Heap(less, e) && Numbered(multiset(e), x.arrival)
    ensures Heap(less, Rise(less, e + [x], |e|, x))
    ensures multiset(Rise(less, e + [x], |e|, x)) == multiset(e) + multiset{x}
    ensures Numbered(multiset(Rise(less, e + [x], |e|, x)), x.arrival + 1)
  {
    var f := e + [x];
    assert f[|e| := x] == f;
    forall k | 0 < k < |f| && k != |e| ensures ParentFirst(less, f, k) {
      assert ParentFirst(less, e, k);
    }
    RiseMakesHeap(less, f, |e|, x);
    NumberedWith(multiset(e), x);
    assert multiset(f) == multiset(e) + multiset{x};
  }

  class PriorityQueue<T(!new)> {
    var items: seq<T>
    var seqs: seq<nat>
    var next: nat
    const less: (T, T) -> bool

    ghost predicate Aligned()
      reads this
    {
      |items| == |seqs|
    }

    ghost function Heaped(): seq<Entry<T>>
      reads this
      requires Aligned()
    {
      Entries(items, seqs)
    }

    ghost function Held(): multiset<Entry<T>>
      reads this
      requires Aligned()
    {
      multiset(Heaped())
    }

    ghost predicate Valid()
      reads this
    {
      Aligned() && StrictWeakOrder(less) && Heap(less, Heaped()) && Numbered(Held(), next)
    }

    constructor (less: (T, T) -> bool)
      requires StrictWeakOrder(less)
      ensures Valid() && this.less == less && Held() == multiset{} && next == 0
    {
      items, seqs, next, this.less := [], [], 0, less;
    }

    method Len() returns (n: nat)
      requires Valid()
      ensures n == |Held()|
    {
      n := |items|;
    }

    /** The result is that of rising level by level, though the two loops do it otherwise: the first only looks
        for the end of the rise, the second shifts what is on the way. */
    method SiftUp(i: nat)
      requires Aligned() && i < |items|
      modifies this`items, this`seqs
      ensures Aligned() && Heaped() == Rise(less, old(Heaped()), i, old(Heaped()[i]))
    {
      ghost var e := Entries(items, seqs);
      var x, xs := items[i], seqs[i];
      ghost var moved := e[i];
      var t: nat := i;
      while t > 0
        invariant t <= i
        invariant Place(less, e, i, moved) == Place(less, e, t, moved)
      {
        var p := (t - 1) / 2;
        if !Before(less, Entry(items[i], seqs[i]), Entry(items[p], seqs[p])) {
          break;
        }
        t := p;
      }
      if t == i {
        assert e[i := moved] == e;
        return;
      }
      var j: nat := i;
      ghost var now := e;
      while j != t
        invariant |items| == |seqs| == |e| && j < |e| && now == Entries(items, seqs)
        invariant t == Place(less, e, j, moved)
        invariant now[..j] == e[..j]
        invariant Rise(less, now, j, moved) == Rise(less, e, i, moved)
        decreases j
      {
        var p := (j - 1) / 2;
        RiseUnfolds(less, e, now, j, moved);
        now := now[j := now[p]];
        items, seqs := items[j := items[p]], seqs[j := seqs[p]];
        j := p;
      }
      RiseEnds(less, e, now, t, moved);
      items, seqs := items[t := x], seqs[t := xs];
      assert Entries(items, seqs) == now[t := moved];
    }

    /** Appends x under the next number and lets it rise. */
    method AddLast(x: T)
      requires Aligned()
      modifies this
      ensures Aligned() && next == old(next) + 1
      ensures Heaped() == Rise(less, old(Heaped()) + [Entry(x, old(next))], |old(items)|, Entry(x, old(next)))
    {
      ghost var e := Heaped();
      items := items + [x];
      seqs := seqs + [next];
      next := next + 1;
      assert Heaped() == e + [Entry(x, old(next))];
      SiftUp(|items| - 1);
    }

    method Push(x: T)
      requires Valid()
      modifies this
      ensures Valid()
      ensures Held() == old(Held()) + multiset{Entry(x, old(next))} && next == old(next) + 1
    {
      EntryArrives(less, Heaped(), Entry(x, next));
      AddLast(x);
    }

    /** The root's place becomes a hole, sunk among all but the last element as `Sink` says. */
    method SinkHole() returns (hole: nat)
      requires Aligned() && |items| > 0
      modifies this`items, this`seqs
      ensures Aligned() && (Heaped(), hole) == Sink(less, old(Heaped()), |old(items)| - 1, 0)
    {
      ghost var e := Entries(items, seqs);
      ghost var now := e;
      var last := |items| - 1;
      hole := 0;
      while 2 * hole + 1 < last
        invariant |items| == |seqs| == last + 1 && hole <= last && now == Entries(items, seqs)
        invariant Sink(less, now, last, hole) == Sink(less, e, last, 0)
        decreases last - hole
      {
        var c := 2 * hole + 1;
        if c + 1 < last && Before(less, Entry(items[c + 1], seqs[c + 1]), Entry(items[c], seqs[c])) {
          c := c + 1;
        }
        assert c == FirstChildOf(less, now, last, hole);
        SinkUnfolds(less, now, last, hole);
        now := now[hole := now[c]];
        items, seqs := items[hole := items[c]], seqs[hole := seqs[c]];
        hole := c;
      }
    }

    /** The vectors lose the root and are what `WithoutRoot` makes of them. */
    method RemoveFirst()
      requires Aligned() && |items| > 0
      modifies this`items, this`seqs
      ensures Aligned() && Heaped() == WithoutRoot(less, old(Heaped()))
    {
      var last := |items| - 1;
      var hole := SinkHole();
      ghost var h := Entries(items, seqs);
      if hole != last {
        items, seqs := items[hole := items[last]], seqs[hole := seqs[last]];
      }
      items, seqs := items[..last], seqs[..last];
      assert Entries(items, seqs) == if hole != last then h[hole := h[last]][..last] else h[..last];
      if hole != last {
        SiftUp(hole);
      }
    }

    /** Hands out an element nothing held is to leave before. */
    method Pop() returns (r: Option<T>, ghost first: Option<Entry<T>>)
      requires Valid()
      modifies this
      ensures Valid() && next == old(next)
      ensures r.None? <==> old(|items|) == 0
      ensures r.None? ==> Held() == old(Held()) == multiset{}
      ensures r.Some? ==> first.Some? && r.value == first.value.item && Taken(less, old(Held()), first.value, Held())
    {
      if |items| == 0 {
        return None, None;
      }
      ghost var e := Heaped();
      RootLeaves(less, e, next);
      var top := items[0];
      RemoveFirst();
      r, first := Some(top), Some(e[0]);
    }

    /** What `Pop` would hand out, left where it is. */
    method Peek() returns (r: Option<T>)
      requires Valid()
      ensures Held() == multiset{} ==> r == None
      ensures Held() != multiset{} ==>
                exists first :: ComesOutFirst(less, Held(), first) && r == Some(first.item)
    {
      if |items| == 0 {
        return None;
      }
      RootComesOutFirst(less, Heaped());
      return Some(items[0]);
    }

    method Clear()
      modifies this
      requires Valid()
      ensures Valid() && Held() == multiset{} && next == 0
    {
      items, seqs, next := [], [], 0;
    }
  }
}
