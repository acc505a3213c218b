/** "Largest first, and ties in arrival order": filling a priority queue and popping until nothing is left. */
module Draining {
  import opened PriorityQueues

  /** Which entry comes out is settled by what the queue holds, not by how the heap happens to lie. */
  lemma FirstOutIsUnique<T(!new)>(less: (T, T) -> bool, held: multiset<Entry<T>>, next: nat, a: Entry<T>, b: Entry<T>)
    requires StrictWeakOrder(less) && Numbered(held, next)
    requires ComesOutFirst(less, held, a) && ComesOutFirst(less, held, b)
    ensures a == b
  {
    LeqMeansLeastThenEarliest(less, a, b);
    assert Alone(held, a);
  }

  /** es is what successive pops give, and `left` what is then still held. */
  ghost predicate DrainsTo<T>(
    less: (T, T) -> bool, held: multiset<Entry<T>>, es: seq<Entry<T>>, left: multiset<Entry<T>>)
    decreases es
  {
    if es == [] then left == held else
    ComesOutFirst(less, held, es[0]) && DrainsTo(less, held - multiset{es[0]}, es[1..], left)
  }

  /** es is what successive pops give until nothing is held. */
  ghost predicate Drains<T>(less: (T, T) -> bool, held: multiset<Entry<T>>, es: seq<Entry<T>>) {
    DrainsTo(less, held, es, multiset{})
  }

  lemma {:induction false} DrainsOneMore<T(!new)>(
    less: (T, T) -> bool, held: multiset<Entry<T>>, es: seq<Entry<T>>, left: multiset<Entry<T>>, x: Entry<T>,
    after: multiset<Entry<T>>)
    requires DrainsTo(less, held, es, left) && Taken(less, left, x, after)
    ensures DrainsTo(less, held, es + [x], after) && |after| < |left|
  {
    if es == [] {
      assert es + [x] == [x];
    } else {
      DrainsOneMore(less, held - multiset{es[0]}, es[1..], left, x, after);
      assert (es + [x])[1..] == es[1..] + [x];
    }
  }

  lemma {:induction false} DrainGivesEverything<T(!new)>(
    less: (T, T) -> bool, held: multiset<Entry<T>>, es: seq<Entry<T>>)
    requires Drains(less, held, es)
    ensures multiset(es) == held
  {
    if es != [] {
      DrainGivesEverything(less, held - multiset{es[0]}, es[1..]);
      assert es == [es[0]] + es[1..];
    }
  }

  lemma {:induction false} DrainInOrder<T(!new)>(
    less: (T, T) -> bool, held: multiset<Entry<T>>, next: nat, es: seq<Entry<T>>, i: nat, j: nat)
    requires Drains(less, held, es) && Numbered(held, next) && i < j < |es|
    ensures Leq(less, es[i], es[j]) && es[i].arrival != es[j].arrival
  {
    var rest := held - multiset{es[0]};
    if i == 0 {
      DrainGivesEverything(less, rest, es[1..]);
      assert es[j] == es[1..][j - 1] && es[j] in multiset(es[1..]);
      assert Alone(held, es[0]);
    } else {
      NumberedWithout(held, next, es[0]);
      DrainInOrder(less, rest, next, es[1..], i - 1, j - 1);
    }
  }

  /** Emptying a queue is a stable sort of what it held: nothing is lost or repeated, nothing smaller follows, and
      ties are broken by arrival. */
  lemma DrainIsStableSort<T(!new)>(less: (T, T) -> bool, held: multiset<Entry<T>>, next: nat, es: seq<Entry<T>>)
    requires StrictWeakOrder(less) && Numbered(held, next) && Drains(less, held, es)
    ensures multiset(es) == held
    ensures forall i, j :: 0 <= i < j < |es| ==>
              && !less(es[j].item, es[i].item)
              && (!less(es[i].item, es[j].item) ==> es[i].arrival < es[j].arrival)
              && es[i].arrival != es[j].arrival
  {
    DrainGivesEverything(less, held, es);
    forall i, j | 0 <= i < j < |es|
      ensures !less(es[j].item, es[i].item) && es[i].arrival != es[j].arrival
      ensures !less(es[i].item, es[j].item) ==> es[i].arrival < es[j].arrival
    {
      DrainInOrder(less, held, next, es, i, j);
      LeqMeansLeastThenEarliest(less, es[i], es[j]);
    }
  }

  /** And the order of leaving is settled by what was pushed and when. */
  lemma {:induction false} DrainIsUnique<T(!new)>(
    less: (T, T) -> bool, held: multiset<Entry<T>>, next: nat, es: seq<Entry<T>>, fs: seq<Entry<T>>)
    requires StrictWeakOrder(less) && Numbered(held, next) && Drains(less, held, es) && Drains(less, held, fs)
    ensures es == fs
  {
    if es != [] && fs != [] {
      FirstOutIsUnique(less, held, next, es[0], fs[0]);
      NumberedWithout(held, next, es[0]);
      DrainIsUnique(less, held - multiset{es[0]}, next, es[1..], fs[1..]);
    }
  }

  /** xs are the elements of es. */
  ghost predicate ItemsOf<T>(xs: seq<T>, es: seq<Entry<T>>) {
    |xs| == |es| && forall i :: 0 <= i < |xs| ==> xs[i] == es[i].item
  }

  /** The pops so far gave xs and left `left`. */
  ghost predicate SoFar<T>(less: (T, T) -> bool, held: multiset<Entry<T>>, xs: seq<T>, es: seq<Entry<T>>,
                           left: multiset<Entry<T>>)
  {
    DrainsTo(less, held, es, left) && ItemsOf(xs, es)
  }

  lemma OneMorePopped<T(!new)>(
    less: (T, T) -> bool, held: multiset<Entry<T>>, xs: seq<T>, es: seq<Entry<T>>, left: multiset<Entry<T>>,
    x: Entry<T>, after: multiset<Entry<T>>)
    requires SoFar(less, held, xs, es, left) && Taken(less, left, x, after)
    ensures SoFar(less, held, xs + [x.item], es + [x], after) && |after| < |left|
  {
    DrainsOneMore(less, held, es, left, x, after);
  }

  /** One turn of the popping loop, after those that gave xs. False when nothing was left. */
  method PopNext<T(!new)>(q: PriorityQueue<T>, xs: seq<T>, ghost held: multiset<Entry<T>>, ghost es: seq<Entry<T>>)
    returns (some: bool, xs': seq<T>, ghost es': seq<Entry<T>>)
    requires q.Valid() && SoFar(q.less, held, xs, es, q.Held())
    modifies q
    ensures q.Valid() && SoFar(q.less, held, xs', es', q.Held())
    ensures if some then |q.Held()| < |old(q.Held())| else q.Held() == multiset{}
  {
    ghost var left := q.Held();
    var x, first := q.Pop();
    if x.None? {
      return false, xs, es;
    }
    OneMorePopped(q.less, held, xs, es, left, first.value, q.Held());
    return true, xs + [x.value], es + [first.value];
  }

  /** The popping loop gives what successive pops give, until nothing is left. */
  method DrainAll<T(!new)>(q: PriorityQueue<T>) returns (xs: seq<T>, ghost es: seq<Entry<T>>)
    requires q.Valid()
    modifies q
    ensures q.Valid() && q.Held() == multiset{}
    ensures Drains(q.less, old(q.Held()), es) && ItemsOf(xs, es)
  {
    ghost var held := q.Held();
    xs, es := [], [];
    var some := true;
    while some
      invariant q.Valid() && SoFar(q.less, held, xs, es, q.Held())
      invariant !some ==> q.Held() == multiset{}
      decreases some, |q.Held()|
    {
      some, xs, es := PopNext(q, xs, held, es);
    }
  }

  method PushAll<T(!new)>(q: PriorityQueue<T>, row: seq<T>)
    requires q.Valid() && q.Held() == multiset{} && q.next == 0
    modifies q
    ensures q.Valid() && q.Held() == multiset(Arrivals(row)) && q.next == |row|
  {
    for i := 0 to |row|
      invariant q.Valid() && q.Held() == multiset(Arrivals(row[..i])) && q.next == i
    {
      ArrivesNext(row, i);
      q.Push(row[i]);
    }
    assert row[..|row|] == row;
  }

  lemma ArrivesNext<T>(row: seq<T>, i: nat)
    requires i < |row|
    ensures multiset(Arrivals(row[..i + 1])) == multiset(Arrivals(row[..i])) + multiset{Entry(row[i], i)}
  {
    assert Arrivals(row[..i + 1]) == Arrivals(row[..i]) + [Entry(row[i], i)];
  }

  /** xs is the row in the given order of its places, each place once: sorted, with equals in their old order. */
  ghost predicate StableSort<T>(less: (T, T) -> bool, row: seq<T>, xs: seq<T>, order: seq<nat>) {
    && |xs| == |order| == |row|
    && (forall i :: 0 <= i < |xs| ==> order[i] < |row| && xs[i] == row[order[i]])
    && (forall i, j :: 0 <= i < j < |xs| ==> order[i] != order[j])
    && (forall i, j :: 0 <= i < j < |xs| ==> !less(xs[j], xs[i]))
    && (forall i, j :: 0 <= i < j < |xs| && !less(xs[i], xs[j]) ==> order[i] < order[j])
  }

  function Places<T>(es: seq<Entry<T>>): (order: seq<nat>) {
    seq(|es|, i requires 0 <= i < |es| => es[i].arrival)
  }

  lemma DrainSorts<T(!new)>(less: (T, T) -> bool, row: seq<T>, es: seq<Entry<T>>, xs: seq<T>)
    requires StrictWeakOrder(less) && Drains(less, multiset(Arrivals(row)), es)
    requires Numbered(multiset(Arrivals(row)), |row|)
    requires ItemsOf(xs, es)
    ensures StableSort(less, row, xs, Places(es))
  {
    DrainIsStableSort(less, multiset(Arrivals(row)), |row|, es);
    assert |es| == |multiset(es)| == |Arrivals(row)|;
    forall i | 0 <= i < |es| ensures es[i].arrival < |row| && es[i].item == row[es[i].arrival] {
      assert es[i] in multiset(es) && es[i] in Arrivals(row);
    }
  }

  /** The program: what is pushed to a new queue comes out sorted, ties in arrival order. */
  method LeastFirst<T(!new)>(less: (T, T) -> bool, row: seq<T>) returns (xs: seq<T>, ghost order: seq<nat>)
    requires StrictWeakOrder(less)
    ensures StableSort(less, row, xs, order)
  {
    var q := new PriorityQueue(less);
    PushAll(q, row);
    ghost var es;
    xs, es := DrainAll(q);
    DrainSorts(less, row, es, xs);
    order := Places(es);
  }
}
