/** The unbalanced binary search tree built by in-place insertion. */
module SearchTree {
  import opened Counting
  import opened Wrappers

  // ------------------------------------------------------------------ what an insertion does to the keys

  ghost predicate Sorted(s: seq<int>) {
    forall i, j :: 0 <= i < j < |s| ==> s[i] <= s[j]
  }

  /** The keys with k placed after every key up to k and before every key above it. */
  function Placed(s: seq<int>, k: int): seq<int> {
    if s == [] then [k]
    else if k < s[0] then [k] + s
    else [s[0]] + Placed(s[1..], k)
  }

  /** The keys after all the insertions in turn. */
  function AllPlaced(s: seq<int>, ks: seq<int>): seq<int> {
    if ks == [] then s else Placed(AllPlaced(s, ks[..|ks| - 1]), ks[|ks| - 1])
  }

  /** How many keys lead the row without exceeding k. */
  function UpTo(s: seq<int>, k: int): (i: nat)
    ensures i <= |s|
  {
    if s == [] || k < s[0] then 0 else 1 + UpTo(s[1..], k)
  }

  /** In a sorted row those are all the keys up to k. */
  lemma {:induction false} UpToSplits(s: seq<int>, k: int)
    requires Sorted(s)
    ensures forall j :: 0 <= j < |s| ==> (s[j] <= k <==> j < UpTo(s, k))
  {
    if s != [] && s[0] <= k {
      UpToSplits(s[1..], k);
      assert forall j :: 0 < j < |s| ==> s[j] == s[1..][j - 1];
    }
  }

  /** k goes in at that one point, and neither side is changed. */
  lemma {:induction false} PlacedAfterTheLastUpTo(s: seq<int>, k: int)
    ensures Placed(s, k) == s[..UpTo(s, k)] + [k] + s[UpTo(s, k)..]
  {
    if s != [] && s[0] <= k {
      var rest, i := s[1..], UpTo(s[1..], k);
      PlacedAfterTheLastUpTo(rest, k);
      assert s[..i + 1] == [s[0]] + rest[..i] && s[i + 1..] == rest[i..];
    }
  }

  lemma PlacedIsSorted(s: seq<int>, k: int)
    requires Sorted(s)
    ensures Sorted(Placed(s, k))
  {
    UpToSplits(s, k);
    PlacedAfterTheLastUpTo(s, k);
  }

  lemma {:induction false} TotalsAreAtLeast(s: seq<int>)
    ensures AtLeast(s, 0) ==> Total(s) >= 0
  {
    if s != [] { TotalsAreAtLeast(s[1..]); }
  }

  lemma TotalOfParts(l: seq<int>, m: int, r: seq<int>)
    ensures Total(l + [m] + r) == Total(l) + m + Total(r)
    ensures AtLeast(l + [m] + r, 0) ==> AtLeast(l, 0) && AtLeast(r, 0) && m >= 0 && Total(l) >= 0 && Total(r) >= 0
  {
    var s := l + [m] + r;
    TotalAppend(l + [m], r);
    TotalAppend(l, [m]);
    TotalsAreAtLeast(l);
    TotalsAreAtLeast(r);
    assert s[|l|] == m && s[..|l|] == l && s[|l| + 1..] == r;
  }

  ghost predicate Below(s: seq<int>, m: int) {
    forall i :: 0 <= i < |s| ==> s[i] < m
  }

  ghost predicate AtLeast(s: seq<int>, m: int) {
    forall i :: 0 <= i < |s| ==> m <= s[i]
  }

  lemma {:induction false} PlacedStaysBelow(s: seq<int>, k: int, m: int)
    requires Below(s, m) && k < m
    ensures Below(Placed(s, k), m)
  {
    if s != [] && !(k < s[0]) { PlacedStaysBelow(s[1..], k, m); }
  }

  lemma {:induction false} PlacedStaysAtLeast(s: seq<int>, k: int, m: int)
    requires AtLeast(s, m) && m <= k
    ensures AtLeast(Placed(s, k), m)
  {
    if s != [] && !(k < s[0]) { PlacedStaysAtLeast(s[1..], k, m); }
  }

  /** To place a key among the smaller keys, or among the others, is to place it in the whole row. */
  lemma {:induction false} PlacedOnTheLeft(l: seq<int>, m: int, r: seq<int>, k: int)
    requires k < m
    ensures Placed(l + [m] + r, k) == Placed(l, k) + [m] + r
  {
    var s := l + [m] + r;
    if l == [] {
      assert s[0] == m;
    } else if k < l[0] {
      assert s[0] == l[0];
    } else {
      assert s[0] == l[0] && s[1..] == l[1..] + [m] + r;
      PlacedOnTheLeft(l[1..], m, r, k);
    }
  }

  lemma {:induction false} PlacedOnTheRight(l: seq<int>, m: int, r: seq<int>, k: int)
    requires Below(l, m) && m <= k
    ensures Placed(l + [m] + r, k) == l + [m] + Placed(r, k)
  {
    if l == [] {
      assert ([m] + r)[1..] == r;
    } else {
      PlacedOnTheRight(l[1..], m, r, k);
      assert (l + [m] + r)[1..] == l[1..] + [m] + r;
    }
  }

  lemma PlacedAddsTheKey(s: seq<int>, k: int)
    ensures multiset(Placed(s, k)) == multiset(s) + multiset{k}
  {
    PlacedAfterTheLastUpTo(s, k);
    assert s == s[..UpTo(s, k)] + s[UpTo(s, k)..];
  }

  lemma {:induction false} PlacedAddsToTotal(s: seq<int>, k: int)
    ensures Total(Placed(s, k)) == Total(s) + k
  {
    if s != [] && s[0] <= k { PlacedAddsToTotal(s[1..], k); }
  }

  lemma {:induction false} AllPlacedIsSorted(s: seq<int>, ks: seq<int>)
    requires Sorted(s)
    ensures Sorted(AllPlaced(s, ks))
  {
    if ks != [] {
      AllPlacedIsSorted(s, ks[..|ks| - 1]);
      PlacedIsSorted(AllPlaced(s, ks[..|ks| - 1]), ks[|ks| - 1]);
    }
  }

  lemma {:induction false} AllPlacedKeepsKeys(s: seq<int>, ks: seq<int>)
    ensures multiset(AllPlaced(s, ks)) == multiset(s) + multiset(ks)
  {
    if ks != [] {
      var front, k := ks[..|ks| - 1], ks[|ks| - 1];
      AllPlacedKeepsKeys(s, front);
      assert ks == front + [k];
      calc {
        multiset(AllPlaced(s, ks));
        { PlacedAddsTheKey(AllPlaced(s, front), k); }
        multiset(AllPlaced(s, front)) + multiset{k};
        (multiset(s) + multiset(front)) + multiset{k};
        multiset(s) + multiset(front + [k]);
      }
    }
  }

  lemma {:induction false} AllPlacedKeepsTotal(s: seq<int>, ks: seq<int>)
    ensures Total(AllPlaced(s, ks)) == Total(s) + Total(ks)
  {
    if ks != [] {
      AllPlacedKeepsTotal(s, ks[..|ks| - 1]);
      PlacedAddsToTotal(AllPlaced(s, ks[..|ks| - 1]), ks[|ks| - 1]);
      assert ks == ks[..|ks| - 1] + [ks[|ks| - 1]];
      TotalAppend(ks[..|ks| - 1], [ks[|ks| - 1]]);
    }
  }

  // ------------------------------------------------------------------ the tree

  class Node {
    const key: i64
    var left: Node?
    var right: Node?
    /** The nodes of the tree from here down, and its keys from left to right. */
    ghost var Repr: set<Node>
    ghost var Keys: seq<int>

    /** The subtrees are disjoint from each other and from this node; the left one has the keys below the node's own,
        the right one the others, all the way down. */
    ghost predicate Valid()
      reads this, Repr
      decreases Repr
    {
      && this in Repr
      && (left != null ==>
            left in Repr && left.Repr <= Repr && this !in left.Repr && left.Valid() && Below(left.Keys, key))
      && (right != null ==>
            right in Repr && right.Repr <= Repr && this !in right.Repr && right.Valid() && AtLeast(right.Keys, key))
      && (left != null && right != null ==> left.Repr !! right.Repr)
      && Repr == {this} + ReprOf(left) + ReprOf(right)
      && Keys == KeysOf(left) + [key] + KeysOf(right)
    }

    constructor (k: i64)
      ensures Valid() && fresh(Repr) && Repr == {this} && Keys == [k] && key == k
    {
      key := k;
      left := null;
      right := null;
      Repr := {this};
      Keys := [k];
    }

    /** The subtrees are as they should be, whatever this node itself remembers of them. */
    ghost predicate Apart()
      reads this, left, right, ReprOf(left), ReprOf(right)
    {
      && (left != null ==> this !in left.Repr && left.Valid() && Below(left.Keys, key))
      && (right != null ==> this !in right.Repr && right.Valid() && AtLeast(right.Keys, key))
      && (left != null && right != null ==> left.Repr !! right.Repr)
    }

    ghost method Gather()
      requires Apart()
      modifies this`Repr, this`Keys
      ensures Valid()
      ensures Repr == {this} + old(ReprOf(left)) + old(ReprOf(right))
      ensures Keys == old(KeysOf(left)) + [key] + old(KeysOf(right))
    {
      Repr := {this} + ReprOf(left) + ReprOf(right);
      Keys := KeysOf(left) + [key] + KeysOf(right);
    }

    /** The sum of all keys, with the overflow check of every addition. */
    method Sum() returns (s: Result<i64>)
      requires Valid()
      ensures s.Ok? ==> s.value == Total(Keys)
      ensures AtLeast(Keys, 0) ==> (s.Ok? <==> Total(Keys) <= I64_MAX)
      decreases Repr
    {
      TotalOfParts(KeysOf(left), key, KeysOf(right));
      s := Ok(key);
      if left != null {
        var more := left.Sum();
        if more.Err? { return more; }
        s := CheckedAdd(s.value, more.value);
        if s.Err? { return; }
      }
      if right != null {
        var more := right.Sum();
        if more.Err? { return more; }
        s := CheckedAdd(s.value, more.value);
      }
    }

    /** Changes one absent link, the one where k belongs, into a new leaf; every other node and link stays. */
    method Insert(k: i64) returns (ghost leaf: Node)
      requires Valid()
      modifies Repr
      ensures Valid() && Keys == Placed(old(Keys), k)
      ensures fresh(leaf) && leaf.key == k && Repr == old(Repr) + {leaf}
      ensures LinksKept(old(Repr), leaf)
      decreases Repr, 2
    {
      if k < key {
        leaf := InsertLeft(k);
      } else {
        leaf := InsertRight(k);
      }
    }

    /** The left subtree with k inserted, or a new leaf where there was none; nothing else is touched. */
    method GrowLeft(k: i64) returns (ghost leaf: Node)
      requires Valid() && k < key
      modifies ReprOf(left), this`left
      ensures Apart()
      ensures left != null && left.Keys == Placed(old(KeysOf(left)), k)
      ensures fresh(leaf) && leaf.key == k && left.Repr == old(ReprOf(left)) + {leaf}
      ensures left == old(left) || (old(left) == null && left == leaf)
      ensures LinksKept(old(ReprOf(left)), leaf)
      decreases Repr, 0
    {
      PlacedStaysBelow(KeysOf(left), k, key);
      if left != null {
        leaf := left.Insert(k);
      } else {
        left := new Node(k);
        leaf := left;
      }
    }

    method InsertLeft(k: i64) returns (ghost leaf: Node)
      requires Valid() && k < key
      modifies Repr
      ensures Valid() && Keys == Placed(old(Keys), k)
      ensures fresh(leaf) && leaf.key == k && Repr == old(Repr) + {leaf}
      ensures LinksKept(old(Repr), leaf)
      decreases Repr, 1
    {
      PlacedOnTheLeft(KeysOf(left), key, KeysOf(right), k);
      ghost var grown, other := ReprOf(left), ReprOf(right);
      leaf := GrowLeft(k);
      assert ReprOf(left) == grown + {leaf} && ReprOf(right) == other;
      LeafJoins({this}, grown, other, leaf);
      Gather();
    }

    /** The right subtree with k inserted, or a new leaf where there was none; nothing else is touched. */
    method GrowRight(k: i64) returns (ghost leaf: Node)
      requires Valid() && key <= k
      modifies ReprOf(right), this`right
      ensures Apart()
      ensures right != null && right.Keys == Placed(old(KeysOf(right)), k)
      ensures fresh(leaf) && leaf.key == k && right.Repr == old(ReprOf(right)) + {leaf}
      ensures right == old(right) || (old(right) == null && right == leaf)
      ensures LinksKept(old(ReprOf(right)), leaf)
      decreases Repr, 0
    {
      PlacedStaysAtLeast(KeysOf(right), k, key);
      if right != null {
        leaf := right.Insert(k);
      } else {
        right := new Node(k);
        leaf := right;
      }
    }

    method InsertRight(k: i64) returns (ghost leaf: Node)
      requires Valid() && key <= k
      modifies Repr
      ensures Valid() && Keys == Placed(old(Keys), k)
      ensures fresh(leaf) && leaf.key == k && Repr == old(Repr) + {leaf}
      ensures LinksKept(old(Repr), leaf)
      decreases Repr, 1
    {
      PlacedOnTheRight(KeysOf(left), key, KeysOf(right), k);
      ghost var grown, other := ReprOf(right), ReprOf(left);
      leaf := GrowRight(k);
      assert ReprOf(right) == grown + {leaf} && ReprOf(left) == other;
      LeafJoins({this}, grown, other, leaf);
      Gather();
    }
  }

  lemma LeafJoins(root: set<Node>, grown: set<Node>, other: set<Node>, leaf: Node)
    ensures root + (grown + {leaf}) + other == root + grown + other + {leaf}
    ensures root + other + (grown + {leaf}) == root + other + grown + {leaf}
  {
  }

  /** No link of these nodes has changed but from absent to the new leaf. */
  twostate predicate LinksKept(nodes: set<Node>, new leaf: Node)
    reads nodes
  {
    forall n :: n in nodes ==>
      && (n.left == old(n.left) || (old(n.left) == null && n.left == leaf))
      && (n.right == old(n.right) || (old(n.right) == null && n.right == leaf))
  }

  lemma AllPlacedNext(s: seq<int>, keys: seq<int>, i: nat)
    requires i < |keys|
    ensures AllPlaced(s, keys[..i + 1]) == Placed(AllPlaced(s, keys[..i]), keys[i])
  {
    assert keys[..i + 1][..i] == keys[..i];
  }

  /** The nodes of one round: a root and the drawn keys inserted one by one. */
  method Grow(rootKey: i64, keys: seq<i64>) returns (root: Node)
    ensures root.Valid() && fresh(root.Repr)
    ensures root.Keys == AllPlaced([rootKey], keys)
  {
    root := new Node(rootKey);
    for i := 0 to |keys|
      invariant root.Valid() && fresh(root.Repr)
      invariant root.Keys == AllPlaced([rootKey], keys[..i])
    {
      ghost var leaf := root.Insert(keys[i]);
      AllPlacedNext([rootKey], keys, i);
    }
    assert keys[..|keys|] == keys;
  }

  /** After a round the tree holds exactly the root's key and the drawn ones, in order from left to right. */
  lemma KeysOfARound(rootKey: int, keys: seq<int>)
    ensures var s := AllPlaced([rootKey], keys);
            && Sorted(s)
            && multiset(s) == multiset([rootKey] + keys)
  {
    AllPlacedIsSorted([rootKey], keys);
    AllPlacedKeepsKeys([rootKey], keys);
  }

  lemma TotalOfARound(rootKey: int, keys: seq<int>)
    ensures Total(AllPlaced([rootKey], keys)) == rootKey + Total(keys)
    ensures AtLeast([rootKey] + keys, 0) ==> AtLeast(AllPlaced([rootKey], keys), 0)
  {
    var s := AllPlaced([rootKey], keys);
    AllPlacedKeepsKeys([rootKey], keys);
    AllPlacedKeepsTotal([rootKey], keys);
    forall i | 0 <= i < |s| ensures s[i] in [rootKey] + keys {
      assert s[i] in multiset(s);
    }
  }

  /** One round: the sum is that of the root's key and the drawn ones, or overflows when an addition does. */
  method Round(rootKey: i64, keys: seq<i64>) returns (root: Node, total: Result<i64>)
    ensures root.Valid() && root.Keys == AllPlaced([rootKey], keys)
    ensures total.Ok? ==> total.value == rootKey + Total(keys)
    ensures AtLeast([rootKey] + keys, 0) ==> (total.Ok? <==> rootKey + Total(keys) <= I64_MAX)
  {
    TotalOfARound(rootKey, keys);
    root := Grow(rootKey, keys);
    total := root.Sum();
  }

  ghost function ReprOf(n: Node?): set<Node>
    reads n
  {
    if n != null then n.Repr else {}
  }

  ghost function KeysOf(n: Node?): seq<int>
    reads n
  {
    if n != null then n.Keys else []
  }
}
