/** The standard library's hash map. A row of entries is kept in order beside a table that finds them: its
    slots are probed one after the other, and deletion leaves no marks behind. */
module HashMaps {
  import opened Counting
  import opened Division
  import opened Wrappers

  // ------------------------------------------------------------------ going round a table

  /** How many steps on from h to x, going round n slots. */
  function Dist(n: int, h: int, x: int): int {
    if h <= x then x - h else x + n - h
  }

  /** Going on from h, x comes before p. */
  predicate Before(n: int, h: int, x: int, p: int) {
    Dist(n, h, x) < Dist(n, h, p)
  }

  /** x lies after i, up to j. */
  predicate InRun(n: int, i: int, j: int, x: int) {
    0 < Dist(n, i, x) <= Dist(n, i, j)
  }

  function NextSlot(n: int, i: int): int {
    if i + 1 == n then 0 else i + 1
  }

  /** The code goes round by masking the next index. */
  lemma MaskedNext(n: nat, i: nat)
    requires PowerOfTwo(n) && i < n
    ensures And(i + 1, n - 1) == NextSlot(n, i)
  {
    MaskIsRemainder(i + 1, n);
    RemainderIsUnique(i + 1, n, if i + 1 == n then 1 else 0, NextSlot(n, i));
  }

  predicate Index(n: int, i: int) {
    0 <= i < n
  }

  // ------------------------------------------------------------------ the table

  /** A slot is an index into the entries, or `EMPTY`. */
  const EMPTY: int := -1

  function Home<K>(hash: K -> nat, n: int, k: K): int
    requires n > 0
  {
    hash(k) % n
  }

  /** Slot p holds an entry, at home at HomeOf. */
  predicate Holds<K>(slots: seq<int>, keys: seq<K>, p: int) {
    0 <= p < |slots| && 0 <= slots[p] < |keys|
  }

  function HomeOf<K>(slots: seq<int>, keys: seq<K>, hash: K -> nat, p: int): int
    requires Holds(slots, keys, p)
  {
    Home(hash, |slots|, keys[slots[p]])
  }

  ghost predicate HasEntry(slots: seq<int>, e: int) {
    exists p :: 0 <= p < |slots| && slots[p] == e
  }

  ghost predicate Single(slots: seq<int>) {
    forall p, q :: 0 <= p < q < |slots| && slots[p] != EMPTY ==> slots[p] != slots[q]
  }

  /** From an entry's home to its slot there is no empty one. */
  ghost predicate Reached<K>(slots: seq<int>, keys: seq<K>, hash: K -> nat) {
    forall p, x {:trigger Before(|slots|, HomeOf(slots, keys, hash, p), x, p)} ::
      Index(|slots|, x) && Holds(slots, keys, p) ==>
      Before(|slots|, HomeOf(slots, keys, hash, p), x, p) ==> slots[x] != EMPTY
  }

  /** The table holds the first `count` entries, each in one slot where probing finds it. */
  ghost predicate Table<K>(slots: seq<int>, keys: seq<K>, count: nat, hash: K -> nat) {
    && count <= |keys|
    && (forall p :: 0 <= p < |slots| ==> slots[p] == EMPTY || 0 <= slots[p] < count)
    && (forall e :: 0 <= e < count ==> HasEntry(slots, e))
    && Single(slots)
    && Reached(slots, keys, hash)
  }

  /** What a search for k may end at: its entry's slot, or an empty one with only other keys on the way to it. */
  ghost predicate Found<K>(slots: seq<int>, keys: seq<K>, hash: K -> nat, k: K, i: int) {
    && Index(|slots|, i)
    && (slots[i] == EMPTY || (Holds(slots, keys, i) && keys[slots[i]] == k))
    && (forall x {:trigger Before(|slots|, Home(hash, |slots|, k), x, i)} :: Index(|slots|, x) ==>
          Before(|slots|, Home(hash, |slots|, k), x, i) ==> Holds(slots, keys, x) && keys[slots[x]] != k)
  }

  lemma {:induction false} Pigeons(s: seq<int>, m: nat)
    requires (forall i :: 0 <= i < |s| ==> 0 <= s[i] < m) && forall i, j :: 0 <= i < j < |s| ==> s[i] != s[j]
    ensures |s| <= m
  {
    if s != [] {
      assert s[0] < m;
      if m - 1 in s {
        var i :| 0 <= i < |s| && s[i] == m - 1;
        Pigeons(s[..i] + s[i + 1..], m - 1);
      } else {
        Pigeons(s, m - 1);
      }
    }
  }

  /** A table with fewer entries than slots has an empty slot. */
  lemma EmptySlot<K>(slots: seq<int>, keys: seq<K>, count: nat, hash: K -> nat) returns (z: int)
    requires Table(slots, keys, count, hash) && count < |slots|
    ensures Index(|slots|, z) && slots[z] == EMPTY
  {
    if forall p :: 0 <= p < |slots| ==> slots[p] != EMPTY {
      Pigeons(slots, count);
    }
    z :| 0 <= z < |slots| && slots[z] == EMPTY;
  }

  lemma OneIsBefore(n: int, h: int, i: int, p: int)
    requires Index(n, h) && Index(n, i) && Index(n, p) && i != p
    ensures Before(n, h, i, p) || Before(n, h, p, i)
  {
  }

  /** A key that has an entry cannot be missed. */
  lemma FoundTells<K>(slots: seq<int>, keys: seq<K>, count: nat, hash: K -> nat, k: K, i: int)
    requires Table(slots, keys, count, hash) && Found(slots, keys, hash, k, i) && slots[i] == EMPTY
    ensures k !in keys[..count]
  {
    forall e | 0 <= e < count ensures keys[e] != k {
      assert HasEntry(slots, e);
      var p :| 0 <= p < |slots| && slots[p] == e;
      OneIsBefore(|slots|, HomeOf(slots, keys, hash, p), i, p);
    }
  }

  /** An entry put in the empty slot found for its key is reached there, and hides no other. */
  lemma PlacedInTable<K>(slots: seq<int>, keys: seq<K>, count: nat, hash: K -> nat, i: int)
    requires Table(slots, keys, count, hash) && count < |keys|
    requires Found(slots, keys, hash, keys[count], i) && slots[i] == EMPTY
    ensures Table(slots[i := count], keys, count + 1, hash)
  {
    var t := slots[i := count];
    forall e | 0 <= e < count + 1 ensures HasEntry(t, e) {
      if e == count {
        assert t[i] == e;
      } else {
        assert HasEntry(slots, e);
        var p :| 0 <= p < |slots| && slots[p] == e;
        assert t[p] == e;
      }
    }
    forall p, x | Index(|t|, x) && Holds(t, keys, p) && Before(|t|, HomeOf(t, keys, hash, p), x, p)
      ensures t[x] != EMPTY
    {
      if p == i {
        assert Before(|slots|, Home(hash, |slots|, keys[count]), x, i);
      } else {
        assert HomeOf(t, keys, hash, p) == HomeOf(slots, keys, hash, p);
      }
    }
  }

  // ------------------------------------------------------------------ taking an entry out of the table

  /** But for the hole at i every slot names an entry, and each entry is named once. */
  ghost predicate SingleBut<K>(slots: seq<int>, keys: seq<K>, i: int) {
    && (forall p :: 0 <= p < |slots| && p != i ==> slots[p] == EMPTY || 0 <= slots[p] < |keys|)
    && (forall p, q :: 0 <= p < q < |slots| && p != i && q != i && slots[p] != EMPTY ==> slots[p] != slots[q])
  }

  /** No empty slot is in an entry's way, and the hole only in the way of entries outside the run from i to j. */
  ghost predicate ReachedBut<K>(slots: seq<int>, keys: seq<K>, hash: K -> nat, i: int, j: int) {
    forall p, x {:trigger Before(|slots|, HomeOf(slots, keys, hash, p), x, p)} ::
      Index(|slots|, x) && Holds(slots, keys, p) && p != i ==>
      Before(|slots|, HomeOf(slots, keys, hash, p), x, p) ==>
      if x == i then !InRun(|slots|, i, j, p) else slots[x] != EMPTY
  }

  ghost predicate RunIsFull(slots: seq<int>, i: int, j: int) {
    forall x :: 0 <= x < |slots| && InRun(|slots|, i, j, x) ==> slots[x] != EMPTY
  }

  /** The table with a hole at i, looked through up to j. */
  ghost predicate Holed<K>(slots: seq<int>, keys: seq<K>, hash: K -> nat, i: int, j: int) {
    && Index(|slots|, i) && Index(|slots|, j)
    && RunIsFull(slots, i, j)
    && SingleBut(slots, keys, i)
    && ReachedBut(slots, keys, hash, i, j)
  }

  ghost predicate HasEntryBut(slots: seq<int>, i: int, e: int) {
    exists p :: 0 <= p < |slots| && p != i && slots[p] == e
  }

  /** The code's test whether the entry at j, at home at h, stays there when slot i is emptied. */
  predicate Stays(i: int, j: int, h: int) {
    if i <= j then h > i && h <= j else h > i || h <= j
  }

  lemma StaysMeansHomeBetween(n: int, i: int, j: int, h: int)
    requires Index(n, i) && Index(n, j) && Index(n, h) && i != j
    ensures Stays(i, j, h) <==> InRun(n, i, j, h)
    ensures Stays(i, j, h) <==> !Before(n, h, i, j)
  {
  }

  lemma RunGrows(n: int, i: int, j: int, x: int)
    requires Index(n, i) && Index(n, j) && Index(n, x) && NextSlot(n, j) != i
    ensures InRun(n, i, NextSlot(n, j), x) <==> InRun(n, i, j, x) || x == NextSlot(n, j)
  {
  }

  lemma BeforeIsTransitive(n: int, h: int, x: int, i: int, j: int)
    requires Before(n, h, x, i) && Before(n, h, i, j)
    ensures Before(n, h, x, j)
  {
  }

  /** What lies behind the hole but not in the run after it lies behind the end of the run. */
  lemma PastTheRun(n: int, h: int, i: int, j: int, p: int)
    requires Index(n, h) && Index(n, i) && Index(n, j) && Index(n, p)
    requires p != i && p != NextSlot(n, j) && NextSlot(n, j) != i
    requires Before(n, h, i, p) && !InRun(n, i, j, p)
    ensures Before(n, h, NextSlot(n, j), p)
  {
  }

  /** An entry whose home is after the hole is reached without crossing it. */
  lemma LeftInPlace<K>(slots: seq<int>, keys: seq<K>, hash: K -> nat, i: int, j: int)
    requires Holed(slots, keys, hash, i, j)
    requires var j' := NextSlot(|slots|, j);
             j' != i && Holds(slots, keys, j') && Stays(i, j', HomeOf(slots, keys, hash, j'))
    ensures Holed(slots, keys, hash, i, NextSlot(|slots|, j))
  {
    var n, j' := |slots|, NextSlot(|slots|, j);
    StaysMeansHomeBetween(n, i, j', HomeOf(slots, keys, hash, j'));
    forall x | 0 <= x < n && InRun(n, i, j', x) ensures slots[x] != EMPTY {
      RunGrows(n, i, j, x);
    }
    forall p, x | Index(n, x) && Holds(slots, keys, p) && p != i && Before(n, HomeOf(slots, keys, hash, p), x, p)
      ensures if x == i then !InRun(n, i, j', p) else slots[x] != EMPTY
    {
      if x == i { RunGrows(n, i, j, p); }
    }
  }

  /** Any other entry may move into the hole, which is then where it was. */
  lemma MovedBack<K>(slots: seq<int>, keys: seq<K>, hash: K -> nat, i: int, j: int)
    requires Holed(slots, keys, hash, i, j)
    requires var j' := NextSlot(|slots|, j);
             j' != i && Holds(slots, keys, j') && !Stays(i, j', HomeOf(slots, keys, hash, j'))
    ensures var j' := NextSlot(|slots|, j);
            Holed(slots[i := slots[j']], keys, hash, j', j')
  {
    var j' := NextSlot(|slots|, j);
    StillSingle(slots, keys, i, j');
    StillReached(slots, keys, hash, i, j, j');
  }

  lemma StillSingle<K>(slots: seq<int>, keys: seq<K>, i: int, j: int)
    requires Index(|slots|, i) && i != j && Holds(slots, keys, j) && SingleBut(slots, keys, i)
    ensures SingleBut(slots[i := slots[j]], keys, j)
  {
    var t := slots[i := slots[j]];
    forall p, q | 0 <= p < q < |t| && p != j && q != j && t[p] != EMPTY ensures t[p] != t[q] {
      assert t[p] == slots[if p == i then j else p] && t[q] == slots[if q == i then j else q];
    }
  }

  lemma StillReached<K>(slots: seq<int>, keys: seq<K>, hash: K -> nat, i: int, j: int, j': int)
    requires Index(|slots|, i) && ReachedBut(slots, keys, hash, i, j)
    requires i != j' && Holds(slots, keys, j') && !Stays(i, j', HomeOf(slots, keys, hash, j'))
    ensures ReachedBut(slots[i := slots[j']], keys, hash, j', j')
  {
    var n, t, h' := |slots|, slots[i := slots[j']], HomeOf(slots, keys, hash, j');
    StaysMeansHomeBetween(n, i, j', h');
    forall p, x | Index(n, x) && Holds(t, keys, p) && p != j' && Before(n, HomeOf(t, keys, hash, p), x, p)
      ensures if x == j' then !InRun(n, j', j', p) else t[x] != EMPTY
    {
      if x != i && x != j' {
        if p == i {
          assert HomeOf(t, keys, hash, p) == h';
          BeforeIsTransitive(n, h', x, i, j');
        } else {
          assert HomeOf(slots, keys, hash, p) == HomeOf(t, keys, hash, p);
        }
      }
    }
  }

  lemma SameEntriesMovedBack(slots: seq<int>, i: int, j: int, e: int)
    requires Index(|slots|, i) && Index(|slots|, j) && i != j
    ensures HasEntryBut(slots[i := slots[j]], j, e) <==> HasEntryBut(slots, i, e)
  {
    var t := slots[i := slots[j]];
    if HasEntryBut(slots, i, e) {
      var p :| 0 <= p < |slots| && p != i && slots[p] == e;
      assert t[if p == j then i else p] == e;
    }
    if HasEntryBut(t, j, e) {
      var p :| 0 <= p < |t| && p != j && t[p] == e;
      assert slots[if p == i then j else p] == e;
    }
  }

  /** At an empty slot the search is over: nothing after it is behind the hole. */
  lemma HoleEmptied<K>(slots: seq<int>, keys: seq<K>, hash: K -> nat, i: int, j: int)
    requires Holed(slots, keys, hash, i, j)
    requires var j' := NextSlot(|slots|, j); j' != i && slots[j'] == EMPTY
    ensures Single(slots[i := EMPTY]) && Reached(slots[i := EMPTY], keys, hash)
  {
    var n, t := |slots|, slots[i := EMPTY];
    forall p, x | Index(n, x) && Holds(t, keys, p) && Before(n, HomeOf(t, keys, hash, p), x, p)
      ensures t[x] != EMPTY
    {
      var h := HomeOf(t, keys, hash, p);
      assert h == HomeOf(slots, keys, hash, p);
      if x == i { PastTheRun(n, h, i, j, p); }
    }
  }

  lemma SameEntriesEmptied(slots: seq<int>, i: int, e: int)
    requires Index(|slots|, i) && e != EMPTY
    ensures HasEntry(slots[i := EMPTY], e) <==> HasEntryBut(slots, i, e)
  {
    var t := slots[i := EMPTY];
    if HasEntry(t, e) {
      var p :| 0 <= p < |t| && t[p] == e;
      assert slots[p] == e;
    }
    if HasEntryBut(slots, i, e) {
      var p :| 0 <= p < |slots| && p != i && slots[p] == e;
      assert t[p] == e;
    }
  }

  // ------------------------------------------------------------------ the map

  /** Where k stands among the keys. */
  ghost function Place<K>(keys: seq<K>, k: K): (e: int)
    requires k in keys
    ensures 0 <= e < |keys| && keys[e] == k
  {
    var e :| 0 <= e < |keys| && keys[e] == k; e
  }

  lemma PlaceIs<K>(keys: seq<K>, e: int)
    requires Distinct(keys) && 0 <= e < |keys|
    ensures Place(keys, keys[e]) == e
  {
  }

  /** What the entries mean: the value of each key. */
  ghost function Meaning<K, V>(keys: seq<K>, values: seq<V>): (m: map<K, V>)
    requires |keys| == |values|
  {
    map k | k in keys :: values[Place(keys, k)]
  }

  /** The entries but one, in their old order. */
  function Removed<T>(s: seq<T>, e: int): (r: seq<T>)
    requires 0 <= e < |s|
    ensures |r| == |s| - 1 && forall i :: 0 <= i < |r| ==> r[i] == s[if i < e then i else i + 1]
  {
    s[..e] + s[e + 1..]
  }

  /** The entries but one, with the last where it was. */
  function Swapped<T>(s: seq<T>, e: int): (r: seq<T>)
    requires 0 <= e < |s|
    ensures |r| == |s| - 1 && forall i :: 0 <= i < |r| ==> r[i] == s[if i == e then |s| - 1 else i]
  {
    s[e := s[|s| - 1]][..|s| - 1]
  }

  lemma MeaningAdded<K, V>(keys: seq<K>, values: seq<V>, k: K, v: V)
    requires |keys| == |values| && Distinct(keys) && k !in keys
    ensures Distinct(keys + [k]) && Meaning(keys + [k], values + [v]) == Meaning(keys, values)[k := v]
  {
  }

  lemma MeaningReplaced<K, V>(keys: seq<K>, values: seq<V>, e: int, v: V)
    requires |keys| == |values| && Distinct(keys) && 0 <= e < |keys|
    ensures Meaning(keys, values[e := v]) == Meaning(keys, values)[keys[e] := v]
  {
  }

  lemma KeysRemoved<K>(keys: seq<K>, e: int, k: K)
    requires Distinct(keys) && 0 <= e < |keys|
    ensures Distinct(Removed(keys, e)) && Distinct(Swapped(keys, e))
    ensures k in Removed(keys, e) <==> k in keys && k != keys[e]
    ensures k in Swapped(keys, e) <==> k in keys && k != keys[e]
  {
    if k in keys && k != keys[e] {
      var i := Place(keys, k);
      assert Removed(keys, e)[if i < e then i else i - 1] == k;
      assert Swapped(keys, e)[if i == |keys| - 1 then e else i] == k;
    }
  }

  lemma MeaningRemoved<K, V>(keys: seq<K>, values: seq<V>, e: int)
    requires |keys| == |values| && Distinct(keys) && 0 <= e < |keys|
    ensures Meaning(Removed(keys, e), Removed(values, e)) == Meaning(keys, values) - {keys[e]}
  {
    var keys', values' := Removed(keys, e), Removed(values, e);
    forall k ensures k in keys' <==> k in keys && k != keys[e] { KeysRemoved(keys, e, k); }
    forall k | k in keys' ensures values'[Place(keys', k)] == values[Place(keys, k)] {
      var i := Place(keys', k);
      PlaceIs(keys, if i < e then i else i + 1);
    }
  }

  lemma MeaningSwapped<K, V>(keys: seq<K>, values: seq<V>, e: int)
    requires |keys| == |values| && Distinct(keys) && 0 <= e < |keys|
    ensures Meaning(Swapped(keys, e), Swapped(values, e)) == Meaning(keys, values) - {keys[e]}
  {
    var keys', values' := Swapped(keys, e), Swapped(values, e);
    forall k ensures k in keys' <==> k in keys && k != keys[e] { KeysRemoved(keys, e, k); }
    forall k | k in keys' ensures values'[Place(keys', k)] == values[Place(keys, k)] {
      var i := Place(keys', k);
      PlaceIs(keys, if i == e then |keys| - 1 else i);
    }
  }

  class HashMap<K(==), V> {
    const hash: K -> nat
    var keys: seq<K>
    var values: seq<V>
    var slots: seq<int>

    ghost predicate Valid()
      reads this
    {
      && |keys| == |values| && Distinct(keys)
      && |slots| >= 8 && PowerOfTwo(|slots|) && 4 * |keys| <= 3 * |slots|
      && Table(slots, keys, |keys|, hash)
    }

    constructor (hash: K -> nat)
      ensures Valid() && keys == [] && values == [] && this.hash == hash
    {
      this.hash := hash;
      keys := [];
      values := [];
      slots := seq(8, _ => EMPTY);
    }

    /** Probes on from k's home until a slot is empty or has k; in a table with room it always ends. */
    method Find(k: K, ghost count: nat) returns (i: int)
      requires PowerOfTwo(|slots|) && Table(slots, keys, count, hash) && count < |slots|
      ensures Found(slots, keys, hash, k, i)
    {
      ghost var z := EmptySlot(slots, keys, count, hash);
      ghost var n, h := |slots|, Home(hash, |slots|, k);
      var mask := |slots| - 1;
      MaskIsRemainder(hash(k), |slots|);
      i := And(hash(k), mask);
      while true
        invariant Index(n, i) && Dist(n, h, i) <= Dist(n, h, z)
        invariant forall x {:trigger Before(n, h, x, i)} :: Index(n, x) ==>
                    Before(n, h, x, i) ==> Holds(slots, keys, x) && keys[slots[x]] != k
        decreases Dist(n, h, z) - Dist(n, h, i)
      {
        var e := slots[i];
        if e == EMPTY || keys[e] == k { break; }
        assert forall x {:trigger Before(n, h, x, NextSlot(n, i))} :: Index(n, x) ==>
                 Before(n, h, x, NextSlot(n, i)) ==> Before(n, h, x, i) || x == i;
        MaskedNext(n, i);
        i := And(i + 1, mask);
      }
    }

    /** Growth: a fresh table of n slots in which all the entries can be found, themselves untouched. */
    method Reslot(n: nat)
      requires Valid() && n >= |slots| && PowerOfTwo(n)
      modifies this`slots
      ensures |slots| == n && Table(slots, keys, |keys|, hash)
    {
      var oldLength := |slots|;
      for i := 0 to n
        invariant |slots| == (if i < oldLength then oldLength else i)
        invariant forall p :: 0 <= p < i ==> slots[p] == EMPTY
      {
        if i < oldLength {
          slots := slots[i := EMPTY];
        } else {
          slots := slots + [EMPTY];
        }
      }
      for e := 0 to |keys|
        invariant |slots| == n && Table(slots, keys, e, hash)
      {
        var s := Find(keys[e], e);
        assert slots[s] == EMPTY;
        PlacedInTable(slots, keys, e, hash, s);
        slots := slots[s := e];
      }
    }

    /** Afterwards an insertion will leave a quarter of the slots empty; they are doubled only where it would not. */
    method ReserveOne()
      requires Valid()
      modifies this`slots
      ensures Valid() && 4 * (|keys| + 1) <= 3 * |slots|
      ensures |slots| == old(|slots|) || (|slots| == 2 * old(|slots|) && 3 * old(|slots|) < 4 * (|keys| + 1))
    {
      var n := |slots|;
      if (|keys| + 1) * 4 > n * 3 {
        Reslot(n * 2);
      }
    }

    ghost function Contents(): map<K, V>
      requires |keys| == |values|
      reads this
    {
      Meaning(keys, values)
    }

    /** Afterwards k maps to v and nothing else has changed; only a new key lengthens the row of entries. */
    method Insert(k: K, v: V) returns (replaced: Option<V>)
      requires Valid()
      modifies this
      ensures Valid()
      ensures Contents() == old(Contents())[k := v]
      ensures replaced == if k in old(Contents()) then Some(old(Contents())[k]) else None
      ensures keys == if k in old(keys) then old(keys) else old(keys) + [k]
      ensures |slots| == old(|slots|) || (|slots| == 2 * old(|slots|) && 3 * old(|slots|) < 4 * (old(|keys|) + 1))
    {
      ReserveOne();
      var s := Find(k, |keys|);
      var e := slots[s];
      if e == EMPTY {
        FoundTells(slots, keys, |keys|, hash, k, s);
        TableOfMore(slots, keys, k, hash);
        FoundOfMore(slots, keys, k, hash, s);
        PlacedInTable(slots, keys + [k], |keys|, hash, s);
        MeaningAdded(keys, values, k, v);
        slots := slots[s := |keys|];
        keys := keys + [k];
        values := values + [v];
        return None;
      }
      MeaningReplaced(keys, values, e, v);
      replaced := Some(values[e]);
      values := values[e := v];
    }

    method Get(k: K) returns (r: Option<V>)
      requires Valid()
      ensures r == if k in Contents() then Some(Contents()[k]) else None
    {
      var s := Find(k, |keys|);
      var e := slots[s];
      if e == EMPTY {
        FoundTells(slots, keys, |keys|, hash, k, s);
        return None;
      }
      r := Some(values[e]);
    }

    /** From a table with a hole at s to a right one: the hole travels along the run to where it harms no search. */
    method Unslot(s: int)
      requires PowerOfTwo(|slots|) && Holed(slots, keys, hash, s, s)
      requires exists z :: Index(|slots|, z) && z != s && slots[z] == EMPTY
      modifies this`slots
      ensures |slots| == old(|slots|) && Single(slots) && Reached(slots, keys, hash)
      ensures forall e :: e != EMPTY ==> (HasEntry(slots, e) <==> HasEntryBut(old(slots), s, e))
    {
      ghost var n := |slots|;
      var mask := |slots| - 1;
      ghost var z :| Index(n, z) && z != s && slots[z] == EMPTY;
      var i, j := s, s;
      var shifting := true;
      while shifting
        invariant |slots| == n && Holed(slots, keys, hash, i, j)
        invariant slots[z] == EMPTY && i != z && Dist(n, i, j) < Dist(n, i, z)
        invariant !shifting ==> NextSlot(n, j) != i && slots[NextSlot(n, j)] == EMPTY
        invariant forall e :: e != EMPTY ==> (HasEntryBut(slots, i, e) <==> HasEntryBut(old(slots), s, e))
        decreases shifting, Dist(n, j, z)
      {
        MaskedNext(n, j);
        var j' := And(j + 1, mask);
        var e := slots[j'];
        if e == EMPTY {
          shifting := false;
        } else {
          MaskIsRemainder(hash(keys[e]), n);
          var home := And(hash(keys[e]), mask);
          if Stays(i, j', home) {
            LeftInPlace(slots, keys, hash, i, j);
            j := j';
          } else {
            MovedBack(slots, keys, hash, i, j);
            forall x { SameEntriesMovedBack(slots, i, j', x); }
            slots := slots[i := e];
            i, j := j', j';
          }
        }
      }
      HoleEmptied(slots, keys, hash, i, j);
      forall e | e != EMPTY ensures HasEntry(slots[i := EMPTY], e) <==> HasEntryBut(slots, i, e) {
        SameEntriesEmptied(slots, i, e);
      }
      slots := slots[i := EMPTY];
    }

    /** Afterwards k maps to nothing; the one entry that changes its place is the last. */
    method SwapRemove(k: K) returns (r: Option<V>)
      requires Valid()
      modifies this
      ensures Valid()
      ensures k !in old(keys) ==> r == None && keys == old(keys) && values == old(values)
      ensures k in old(keys) ==> keys == Swapped(old(keys), Place(old(keys), k)) && r == Some(old(Contents())[k])
      ensures Contents() == old(Contents()) - {k}
    {
      var s := Find(k, |keys|);
      var e := slots[s];
      if e == EMPTY {
        FoundTells(slots, keys, |keys|, hash, k, s);
        return None;
      }
      ghost var z := EmptySlot(slots, keys, |keys|, hash);
      KeysRemoved(keys, e, k);
      MeaningSwapped(keys, values, e);
      r := Some(values[e]);
      var last := |keys| - 1;
      if e != last {
        var t := Find(keys[last], |keys|);
        if slots[t] == EMPTY { FoundTells(slots, keys, |keys|, hash, keys[last], t); }
        LastRenamed(slots, keys, hash, s, t);
        ghost var u := slots[t := e];
        forall x | x != EMPTY ensures HasEntryBut(u, s, x) <==> 0 <= x < last {
          EntriesRenamed(slots, keys, hash, s, t, x);
        }
        slots := slots[t := e];
      } else {
        LastUnnamed(slots, keys, hash, s);
        ghost var u := slots;
        forall x | x != EMPTY ensures HasEntryBut(u, s, x) <==> 0 <= x < last {
          EntriesUnnamed(slots, keys, hash, s, x);
        }
      }
      keys := Swapped(keys, e);
      values := Swapped(values, e);
      Unslot(s);
      assert forall p :: 0 <= p < |slots| && slots[p] != EMPTY ==> HasEntry(slots, slots[p]);
    }

    /** Afterwards k maps to nothing and the order is the old one without k. */
    method Remove(k: K) returns (r: Option<V>)
      requires Valid()
      modifies this
      ensures Valid()
      ensures k !in old(keys) ==> r == None && keys == old(keys) && values == old(values)
      ensures k in old(keys) ==> keys == Removed(old(keys), Place(old(keys), k)) && r == Some(old(Contents())[k])
      ensures Contents() == old(Contents()) - {k}
    {
      var s := Find(k, |keys|);
      var e := slots[s];
      if e == EMPTY {
        FoundTells(slots, keys, |keys|, hash, k, s);
        return None;
      }
      ghost var z := EmptySlot(slots, keys, |keys|, hash);
      ghost var full := slots;
      OnlyUnnamed(slots, keys, hash, s);
      Unslot(s);
      forall x | x != EMPTY ensures HasEntry(slots, x) <==> 0 <= x < |keys| && x != e {
        EntriesButOne(full, keys, hash, s, x);
      }
      KeysRemoved(keys, e, k);
      MeaningRemoved(keys, values, e);
      r := Some(values[e]);
      MoveDown(e);
      keys := Removed(keys, e);
      values := Removed(values, e);
    }

    /** The table follows the entries: whatever named an index above e names one less. */
    method MoveDown(e: int)
      requires 0 <= e < |keys| && Single(slots) && Reached(slots, keys, hash)
      requires forall x :: x != EMPTY ==> (HasEntry(slots, x) <==> 0 <= x < |keys| && x != e)
      modifies this`slots
      ensures |slots| == old(|slots|) && Table(slots, Removed(keys, e), |keys| - 1, hash)
    {
      for i := 0 to |slots|
        invariant |slots| == |old(slots)|
        invariant forall p :: 0 <= p < |slots| ==>
                    slots[p] == if p < i then MovedDown(old(slots)[p], e) else old(slots)[p]
      {
        var x := slots[i];
        if x != EMPTY && x > e {
          slots := slots[i := x - 1];
        }
      }
      MovedDownTable(old(slots), slots, keys, hash, e);
    }

    method Clear()
      requires Valid()
      modifies this
      ensures Valid() && keys == [] && values == []
    {
      values := [];
      keys := [];
      slots := seq(8, _ => EMPTY);
    }
  }

  /** A key more, not yet placed, changes nothing for the others. */
  lemma TableOfMore<K>(slots: seq<int>, keys: seq<K>, k: K, hash: K -> nat)
    requires Table(slots, keys, |keys|, hash)
    ensures Table(slots, keys + [k], |keys|, hash)
  {
    forall p, x
      | Index(|slots|, x) && Holds(slots, keys + [k], p) && Before(|slots|, HomeOf(slots, keys + [k], hash, p), x, p)
      ensures slots[x] != EMPTY
    {
      assert HomeOf(slots, keys + [k], hash, p) == HomeOf(slots, keys, hash, p);
    }
  }

  lemma FoundOfMore<K>(slots: seq<int>, keys: seq<K>, k: K, hash: K -> nat, i: int)
    requires Found(slots, keys, hash, k, i) && slots[i] == EMPTY
    ensures Found(slots, keys + [k], hash, k, i)
  {
  }

  /** Renaming the last entry to the removed index leaves a table whose one hole is the removed slot. */
  lemma LastRenamed<K>(slots: seq<int>, keys: seq<K>, hash: K -> nat, s: int, t: int)
    requires Table(slots, keys, |keys|, hash) && Holds(slots, keys, s) && Holds(slots, keys, t)
    requires slots[t] == |keys| - 1 && s != t
    ensures Holed(slots[t := slots[s]], Swapped(keys, slots[s]), hash, s, s)
  {
    var u, keys' := slots[t := slots[s]], Swapped(keys, slots[s]);
    forall p | Holds(u, keys', p) && p != s ensures HomeOf(u, keys', hash, p) == HomeOf(slots, keys, hash, p) {
      assert p != t ==> slots[p] != slots[s] && slots[p] != slots[t];
    }
  }

  lemma EntriesRenamed<K>(slots: seq<int>, keys: seq<K>, hash: K -> nat, s: int, t: int, x: int)
    requires Table(slots, keys, |keys|, hash) && Holds(slots, keys, s) && Holds(slots, keys, t)
    requires slots[t] == |keys| - 1 && s != t
    ensures x != EMPTY ==> (HasEntryBut(slots[t := slots[s]], s, x) <==> 0 <= x < |keys| - 1)
  {
    var u := slots[t := slots[s]];
    if 0 <= x < |keys| - 1 {
      assert HasEntry(slots, x);
      var p :| 0 <= p < |slots| && slots[p] == x;
      assert u[if p == s then t else p] == x;
    }
    if x != EMPTY && HasEntryBut(u, s, x) {
      var p :| 0 <= p < |u| && p != s && u[p] == x;
      assert p != t ==> slots[p] != slots[t];
      assert slots[s] != slots[t];
    }
  }

  lemma LastUnnamed<K>(slots: seq<int>, keys: seq<K>, hash: K -> nat, s: int)
    requires Table(slots, keys, |keys|, hash) && Holds(slots, keys, s) && slots[s] == |keys| - 1
    ensures Holed(slots, Swapped(keys, slots[s]), hash, s, s)
  {
    var keys' := Swapped(keys, slots[s]);
    forall p | Holds(slots, keys', p) && p != s ensures HomeOf(slots, keys', hash, p) == HomeOf(slots, keys, hash, p) {
    }
  }

  lemma EntriesUnnamed<K>(slots: seq<int>, keys: seq<K>, hash: K -> nat, s: int, x: int)
    requires Table(slots, keys, |keys|, hash) && Holds(slots, keys, s) && slots[s] == |keys| - 1
    ensures x != EMPTY ==> (HasEntryBut(slots, s, x) <==> 0 <= x < |keys| - 1)
  {
    if 0 <= x < |keys| - 1 {
      assert HasEntry(slots, x);
      var p :| 0 <= p < |slots| && slots[p] == x;
    }
    if x != EMPTY && HasEntryBut(slots, s, x) {
      var p :| 0 <= p < |slots| && p != s && slots[p] == x;
      assert slots[p] != slots[s];
    }
  }

  lemma OnlyUnnamed<K>(slots: seq<int>, keys: seq<K>, hash: K -> nat, s: int)
    requires Table(slots, keys, |keys|, hash) && Holds(slots, keys, s)
    ensures Holed(slots, keys, hash, s, s)
  {
  }

  lemma EntriesButOne<K>(slots: seq<int>, keys: seq<K>, hash: K -> nat, s: int, x: int)
    requires Table(slots, keys, |keys|, hash) && Holds(slots, keys, s)
    ensures x != EMPTY ==> (HasEntryBut(slots, s, x) <==> 0 <= x < |keys| && x != slots[s])
  {
    if 0 <= x < |keys| && x != slots[s] {
      assert HasEntry(slots, x);
      var p :| 0 <= p < |slots| && slots[p] == x;
    }
    if x != EMPTY && HasEntryBut(slots, s, x) {
      var p :| 0 <= p < |slots| && p != s && slots[p] == x;
      assert slots[p] != slots[s];
    }
  }

  function MovedDown(x: int, e: int): int {
    if x != EMPTY && x > e then x - 1 else x
  }

  lemma MovedDownTable<K>(slots: seq<int>, t: seq<int>, keys: seq<K>, hash: K -> nat, e: int)
    requires 0 <= e < |keys| && Single(slots) && Reached(slots, keys, hash)
    requires forall x :: x != EMPTY ==> (HasEntry(slots, x) <==> 0 <= x < |keys| && x != e)
    requires |t| == |slots| && forall p :: 0 <= p < |t| ==> t[p] == MovedDown(slots[p], e)
    ensures Table(t, Removed(keys, e), |keys| - 1, hash)
  {
    var keys' := Removed(keys, e);
    forall p | 0 <= p < |t|
      ensures t[p] == EMPTY || (0 <= t[p] < |keys'| && Holds(slots, keys, p) && keys'[t[p]] == keys[slots[p]])
    {
      if slots[p] != EMPTY { assert HasEntry(slots, slots[p]); }
    }
    forall x | 0 <= x < |keys'| ensures HasEntry(t, x) {
      var y := if x < e then x else x + 1;
      assert HasEntry(slots, y);
      var p :| 0 <= p < |slots| && slots[p] == y;
      assert t[p] == x;
    }
    forall p, q | 0 <= p < q < |t| && t[p] != EMPTY ensures t[p] != t[q] {
      assert HasEntry(slots, slots[p]) && slots[p] != slots[q];
      if slots[q] != EMPTY { assert HasEntry(slots, slots[q]); }
    }
    forall p, x | Index(|t|, x) && Holds(t, keys', p) && Before(|t|, HomeOf(t, keys', hash, p), x, p)
      ensures t[x] != EMPTY
    {
      assert HomeOf(t, keys', hash, p) == HomeOf(slots, keys, hash, p);
      assert slots[x] != EMPTY && HasEntry(slots, slots[x]);
    }
  }
}
