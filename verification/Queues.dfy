/** `std::collections::Queue`: a row open at both ends, kept as two stacks whose tops are its ends; read from front
    to back it is `head` reversed and then `tail`. */
module Queues {
  import opened Wrappers

  function Reverse<T>(s: seq<T>): (r: seq<T>)
    ensures |r| == |s|
  {
    if s == [] then [] else Reverse(s[1..]) + [s[0]]
  }

  lemma {:induction false} ReverseAppend<T>(a: seq<T>, b: seq<T>)
    ensures Reverse(a + b) == Reverse(b) + Reverse(a)
  {
    if a == [] {
      assert a + b == b;
    } else {
      assert (a + b)[1..] == a[1..] + b;
      ReverseAppend(a[1..], b);
    }
  }

  lemma {:induction false} ReverseTwice<T>(s: seq<T>)
    ensures Reverse(Reverse(s)) == s
  {
    if s != [] {
      ReverseTwice(s[1..]);
      ReverseAppend(Reverse(s[1..]), [s[0]]);
    }
  }

  /** Splitting a stack and turning one part over leaves the queue read across the two the same. */
  lemma ReverseSplit<T>(s: seq<T>, m: nat)
    requires m <= |s|
    ensures Reverse(s) == Reverse(s[m..]) + Reverse(s[..m])
  {
    assert s == s[..m] + s[m..];
    ReverseAppend(s[..m], s[m..]);
  }

  lemma ReverseOne<T>(x: T)
    ensures Reverse([x]) == [x]
  {
    assert [x][1..] == [];
  }

  /** The first of the elements is the last of the head. */
  lemma FrontIsLastOfHead<T>(front: seq<T>, last: T, tail: seq<T>)
    ensures Reverse(front + [last]) + tail == [last] + (Reverse(front) + tail)
  {
    ReverseAppend(front, [last]);
    ReverseOne(last);
    Regrouped([last], Reverse(front), tail);
  }

  lemma Regrouped<T>(a: seq<T>, b: seq<T>, c: seq<T>)
    ensures a + b + c == a + (b + c)
  {
  }

  /** The last of the elements is the last of the tail. */
  lemma BackIsLastOfTail<T>(row: seq<T>, tail: seq<T>)
    requires tail != []
    ensures (row + tail)[|row + tail| - 1] == tail[|tail| - 1]
    ensures (row + tail)[..|row + tail| - 1] == row + tail[..|tail| - 1]
  {
  }

  /** Moving the beginning of the tail over to the head keeps the row. */
  lemma ShiftKeepsTheRow<T>(tail: seq<T>, m: nat)
    requires m <= |tail|
    ensures Reverse(Reverse(tail[..m])) + tail[m..] == tail
  {
    ReverseTwice(tail[..m]);
  }

  class Queue<T> {
    var head: seq<T>
    var tail: seq<T>
    var tookFront: bool
    var tookBack: bool

    /** How many elements have been copied from one place to another since the queue was made. */
    ghost var moves: nat

    /** The elements, front to back. */
    ghost function Contents(): seq<T>
      reads this
    {
      Reverse(head) + tail
    }

    /** The moves the elements may still need: until a side has been refilled both ways, one for each time an element
        can cross; after that, as many as the sides differ by. */
    ghost function Due(): nat
      reads this
    {
      if tookFront && tookBack then (if |head| < |tail| then |tail| - |head| else |head| - |tail|)
      else if tookFront then |head| + 2 * |tail|
      else if tookBack then 2 * |head| + |tail|
      else 2 * |head| + 2 * |tail|
    }

    constructor ()
      ensures Contents() == [] && moves == 0 && Due() == 0 && !tookFront && !tookBack
    {
      head, tail, tookFront, tookBack, moves := [], [], false, false, 0;
    }

    method Len() returns (n: nat)
      ensures n == |Contents()|
    {
      n := |head| + |tail|;
    }

    /** Splits a stack at its bottom: the part that crosses over comes out upside down, the rest stays as it is. */
    static method Shift(from: seq<T>, half: bool) returns (stay: seq<T>, to: seq<T>)
      ensures |to| == |from| - (if half then |from| / 2 else 0)
      ensures to == Reverse(from[..|to|]) && stay == from[|to|..]
    {
      var n := |from|;
      var m := n - (if half then n / 2 else 0);
      to := [];
      for k := 0 to m
        invariant to == Reverse(from[..k])
      {
        assert from[..k + 1] == from[..k] + [from[k]];
        ReverseAppend(from[..k], [from[k]]);
        to := [from[k]] + to;
      }
      stay := from[m..];
    }

    method PushBack(x: T)
      modifies this
      ensures Contents() == old(Contents()) + [x] && moves == old(moves)
      ensures moves + Due() <= old(moves + Due()) + 2
    {
      tail := tail + [x];
    }

    method PushFront(x: T)
      modifies this
      ensures Contents() == [x] + old(Contents()) && moves == old(moves)
      ensures moves + Due() <= old(moves + Due()) + 2
    {
      ReverseAppend(head, [x]);
      head := head + [x];
    }

    /** Part of the tail turned over into the empty head, and the rest moved down in it: all are copied. */
    method RefillHead()
      requires head == [] && tail != []
      modifies this
      ensures head != [] && Contents() == old(Contents()) && tookFront && tookBack == old(tookBack)
      ensures moves == old(moves) + |old(tail)|
      ensures moves + Due() <= old(moves + Due()) + 1
    {
      tookFront := true;
      ghost var was := tail;
      tail, head := Shift(tail, tookBack);
      moves := moves + |was|;
      ShiftKeepsTheRow(was, |head|);
    }

    /** Part of the head turned over into the empty tail, and the rest moved down in it. */
    method RefillTail()
      requires tail == [] && head != []
      modifies this
      ensures tail != [] && Contents() == old(Contents()) && tookBack && tookFront == old(tookFront)
      ensures moves == old(moves) + |old(head)|
      ensures moves + Due() <= old(moves + Due()) + 1
    {
      tookBack := true;
      ghost var was := head;
      head, tail := Shift(head, tookFront);
      moves := moves + |was|;
      ReverseSplit(was, |tail|);
    }

    method PopFront() returns (r: Option<T>)
      modifies this
      ensures old(Contents()) == [] ==> r == None && Contents() == []
      ensures old(Contents()) != [] ==> r == Some(old(Contents())[0]) && Contents() == old(Contents())[1..]
      ensures old(moves) <= moves <= old(moves + Due()) + 2 - Due()
    {
      if |head| == 0 {
        if |tail| == 0 {
          return None;
        }
        RefillHead();
      }
      var last := |head| - 1;
      assert head == head[..last] + [head[last]];
      FrontIsLastOfHead(head[..last], head[last], tail);
      r := Some(head[last]);
      head := head[..last];
    }

    method PopBack() returns (r: Option<T>)
      modifies this
      ensures old(Contents()) == [] ==> r == None && Contents() == []
      ensures old(Contents()) != [] ==>
                var was := old(Contents());
                r == Some(was[|was| - 1]) && Contents() == was[..|was| - 1]
      ensures old(moves) <= moves <= old(moves + Due()) + 2 - Due()
    {
      if |tail| == 0 {
        if |head| == 0 {
          return None;
        }
        RefillTail();
      }
      assert Reverse(head) + tail == old(Contents());
      var last := |tail| - 1;
      BackIsLastOfTail(Reverse(head), tail);
      r := Some(tail[last]);
      tail := tail[..last];
      assert Contents() == Reverse(head) + tail;
    }

    method Front() returns (r: Option<T>)
      ensures r == if Contents() == [] then None else Some(Contents()[0])
    {
      if |head| > 0 {
        ReverseSplit(head, |head| - 1);
        return Some(head[|head| - 1]);
      }
      if |tail| > 0 {
        return Some(tail[0]);
      }
      return None;
    }

    method Back() returns (r: Option<T>)
      ensures r == if Contents() == [] then None else Some(Contents()[|Contents()| - 1])
    {
      if |tail| > 0 {
        return Some(tail[|tail| - 1]);
      }
      if |head| > 0 {
        ReverseSplit(head, 1);
        return Some(head[0]);
      }
      return None;
    }

    method Clear()
      modifies this
      ensures Contents() == []
      ensures moves + Due() <= old(moves + Due()) + 2
    {
      head, tail := [], [];
    }
  }

  // ------------------------------------------------------------------ any run of operations

  datatype Operation<T> = AddBack(x: T) | AddFront(x: T) | TakeFront | TakeBack | Drop

  /** A plain row of elements. */
  function Row<T>(s: seq<T>, op: Operation<T>): seq<T> {
    match op
    case AddBack(x) => s + [x]
    case AddFront(x) => [x] + s
    case TakeFront => if s == [] then s else s[1..]
    case TakeBack => if s == [] then s else s[..|s| - 1]
    case Drop => []
  }

  function Answer<T>(s: seq<T>, op: Operation<T>): Option<T> {
    if s == [] then None
    else if op.TakeFront? then Some(s[0])
    else if op.TakeBack? then Some(s[|s| - 1])
    else None
  }

  function RowAfter<T>(ops: seq<Operation<T>>): seq<T> {
    if ops == [] then [] else Row(RowAfter(ops[..|ops| - 1]), ops[|ops| - 1])
  }

  method Perform<T>(q: Queue<T>, op: Operation<T>) returns (r: Option<T>)
    modifies q
    ensures q.Contents() == Row(old(q.Contents()), op) && r == Answer(old(q.Contents()), op)
    ensures q.moves + q.Due() <= old(q.moves + q.Due()) + 2
  {
    r := None;
    match op {
      case AddBack(x) => q.PushBack(x);
      case AddFront(x) => q.PushFront(x);
      case TakeFront => r := q.PopFront();
      case TakeBack => r := q.PopBack();
      case Drop => q.Clear();
    }
  }

  lemma RowNext<T>(ops: seq<Operation<T>>, k: nat)
    requires k < |ops|
    ensures RowAfter(ops[..k + 1]) == Row(RowAfter(ops[..k]), ops[k])
  {
    assert ops[..k + 1][..k] == ops[..k];
  }

  /** The k-th answer is the plain row's. */
  ghost predicate AnsweredAt<T>(ops: seq<Operation<T>>, answers: seq<Option<T>>, k: nat)
    requires k < |ops| && k < |answers|
  {
    answers[k] == Answer(RowAfter(ops[..k]), ops[k])
  }

  lemma AnsweredStill<T>(ops: seq<Operation<T>>, answers: seq<Option<T>>, r: Option<T>)
    requires |answers| < |ops| && forall j :: 0 <= j < |answers| ==> AnsweredAt(ops, answers, j)
    requires r == Answer(RowAfter(ops[..|answers|]), ops[|answers|])
    ensures forall j :: 0 <= j <= |answers| ==> AnsweredAt(ops, answers + [r], j)
  {
    forall j | 0 <= j <= |answers| ensures AnsweredAt(ops, answers + [r], j) {
      assert j < |answers| ==> AnsweredAt(ops, answers, j);
    }
  }

  /** Whatever is done with a queue, in any order and at either end, it answers as a plain row would, and its elements
      have been moved at most twice for each operation. */
  method Replay<T>(ops: seq<Operation<T>>) returns (q: Queue<T>, answers: seq<Option<T>>)
    ensures fresh(q) && q.Contents() == RowAfter(ops) && |answers| == |ops|
    ensures forall k :: 0 <= k < |ops| ==> AnsweredAt(ops, answers, k)
    ensures q.moves <= 2 * |ops|
  {
    q := new Queue();
    answers := [];
    for k := 0 to |ops|
      invariant fresh(q) && q.Contents() == RowAfter(ops[..k]) && |answers| == k
      invariant forall j :: 0 <= j < k ==> AnsweredAt(ops, answers, j)
      invariant q.moves + q.Due() <= 2 * k
    {
      RowNext(ops, k);
      var r := Perform(q, ops[k]);
      AnsweredStill(ops, answers, r);
      answers := answers + [r];
    }
    assert ops[..|ops|] == ops;
  }
}
