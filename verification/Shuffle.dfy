/** Fisher and Yates' shuffle over the bounded draw: every order is given by exactly one row of draws. */
module Shuffle {
  import opened Counting
  import opened UnbiasedDraw
  import opened Generator

  function Exchanged<T>(s: seq<T>, i: nat, j: nat): seq<T>
    requires i < |s| && j < |s|
  {
    s[i := s[j]][j := s[i]]
  }

  /** A draw below i, then one below i - 1, and so on down to one below 2. */
  predicate IsRow(i: nat, draws: seq<nat>) {
    if i <= 1 then draws == [] else draws != [] && draws[0] < i && IsRow(i - 1, draws[1..])
  }

  /** The first i elements put in order by the row, the others left. */
  function Shuffled<T>(s: seq<T>, i: nat, draws: seq<nat>): seq<T>
    requires i <= |s| && IsRow(i, draws)
    decreases i
  {
    if i <= 1 then s else Shuffled(Exchanged(s, i - 1, draws[0]), i - 1, draws[1..])
  }

  /** From i on nothing is moved. */
  ghost predicate SameFrom<T>(s: seq<T>, t: seq<T>, i: nat) {
    |s| == |t| && forall k :: i <= k < |s| ==> s[k] == t[k]
  }

  lemma ExchangedKeepsElements<T>(s: seq<T>, i: nat, j: nat)
    requires i < |s| && j < |s|
    ensures multiset(Exchanged(s, i, j)) == multiset(s)
  {
  }

  lemma {:induction false} ShuffledMovesTheFirst<T>(s: seq<T>, i: nat, draws: seq<nat>)
    requires i <= |s| && IsRow(i, draws)
    ensures SameFrom(Shuffled(s, i, draws), s, i)
    decreases i
  {
    if i > 1 { ShuffledMovesTheFirst(Exchanged(s, i - 1, draws[0]), i - 1, draws[1..]); }
  }

  /** Nothing but the order changes. */
  lemma {:induction false} ShuffledKeepsElements<T>(s: seq<T>, i: nat, draws: seq<nat>)
    requires i <= |s| && IsRow(i, draws)
    ensures multiset(Shuffled(s, i, draws)) == multiset(s)
    decreases i
  {
    if i > 1 {
      ExchangedKeepsElements(s, i - 1, draws[0]);
      ShuffledKeepsElements(Exchanged(s, i - 1, draws[0]), i - 1, draws[1..]);
    }
  }

  lemma ExchangedStaysDistinct<T>(s: seq<T>, i: nat, j: nat)
    requires i < |s| && j < |s| && Distinct(s)
    ensures Distinct(Exchanged(s, i, j))
  {
  }

  /** Different rows give different orders. */
  lemma {:induction false} RowIsTold<T>(s: seq<T>, i: nat, draws: seq<nat>, draws': seq<nat>)
    requires i <= |s| && IsRow(i, draws) && IsRow(i, draws') && Distinct(s)
    requires Shuffled(s, i, draws) == Shuffled(s, i, draws')
    ensures draws == draws'
    decreases i
  {
    if i > 1 {
      var t, t' := Exchanged(s, i - 1, draws[0]), Exchanged(s, i - 1, draws'[0]);
      ShuffledMovesTheFirst(t, i - 1, draws[1..]);
      ShuffledMovesTheFirst(t', i - 1, draws'[1..]);
      assert t[i - 1] == s[draws[0]] && t'[i - 1] == s[draws'[0]];
      ExchangedStaysDistinct(s, i - 1, draws[0]);
      RowIsTold(t, i - 1, draws[1..], draws'[1..]);
      assert draws == [draws[0]] + draws[1..] && draws' == [draws'[0]] + draws'[1..];
    }
  }

  /** The element that belongs at i - 1 is among the first i. */
  lemma PlaceOf<T>(s: seq<T>, i: nat, t: seq<T>) returns (j: nat)
    requires 0 < i <= |s| && Distinct(s) && multiset(s) == multiset(t) && SameFrom(s, t, i)
    ensures j < i && s[j] == t[i - 1]
  {
    assert t[i - 1] in multiset(t);
    assert t[i - 1] in s;
    j :| 0 <= j < |s| && s[j] == t[i - 1];
    OnceInS(s, j);
    if j >= i { TwiceInT(t, i - 1, j); }
  }

  lemma TwiceInT<T>(t: seq<T>, i: nat, j: nat)
    requires i < j < |t| && t[i] == t[j]
    ensures multiset(t)[t[i]] >= 2
  {
    assert t == t[..j] + [t[j]] + t[j + 1..];
    assert t[i] in multiset(t[..j]) by { assert t[..j][i] == t[i]; }
  }

  lemma OnceInS<T>(s: seq<T>, j: nat)
    requires j < |s| && Distinct(s)
    ensures multiset(s)[s[j]] == 1
  {
    assert s == s[..j] + [s[j]] + s[j + 1..];
    assert s[j] !in s[..j] && s[j] !in s[j + 1..];
  }

  /** One exchange puts one more element where t has it. */
  lemma OneMorePlaced<T>(s: seq<T>, i: nat, t: seq<T>) returns (j: nat)
    requires 0 < i <= |s| && Distinct(s) && multiset(s) == multiset(t) && SameFrom(s, t, i)
    ensures j < i && Distinct(Exchanged(s, i - 1, j)) && multiset(Exchanged(s, i - 1, j)) == multiset(t)
    ensures SameFrom(Exchanged(s, i - 1, j), t, i - 1)
  {
    j := PlaceOf(s, i, t);
    assert Distinct(Exchanged(s, i - 1, j)) by { ExchangedStaysDistinct(s, i - 1, j); }
    assert multiset(Exchanged(s, i - 1, j)) == multiset(t) by { ExchangedKeepsElements(s, i - 1, j); }
  }

  /** And every order is given by some row. */
  lemma {:induction false} EveryOrderHasARow<T>(s: seq<T>, i: nat, t: seq<T>) returns (draws: seq<nat>)
    requires i <= |s| && Distinct(s) && multiset(s) == multiset(t) && SameFrom(s, t, i)
    ensures IsRow(i, draws) && Shuffled(s, i, draws) == t
    decreases i
  {
    draws := [];
    if i == 0 {
      assert s == t;
    } else {
      var j := OneMorePlaced(s, i, t);
      if i == 1 {
        assert Exchanged(s, 0, 0) == s == t;
      } else {
        var rest := EveryOrderHasARow(Exchanged(s, i - 1, j), i - 1, t);
        draws := [j] + rest;
        assert draws[1..] == rest;
      }
    }
  }

  // ------------------------------------------------------------------ the generator's row

  /** What a bounded draw gives in state w: the first `used` words are rejected, and the next one gives j. */
  ghost predicate Drawn(w: State, n: nat, j: nat, used: nat)
    requires 0 < n < WORDS
  {
    && (forall k :: 0 <= k < used ==> !Accepted(n, Draw(w, k)))
    && Accepted(n, Draw(w, used))
    && j == Draw(w, used) % n
  }

  /** Drawing below i, i - 1 and so on down to 2 from state w gives the row and leaves the generator at `after`. */
  ghost predicate RowFrom(w: State, i: nat, draws: seq<nat>, after: State)
    requires i < WORDS
    decreases i
  {
    if i <= 1 then draws == [] && after == w
    else draws != [] && exists used: nat :: TurnFrom(w, i, draws, after, used)
  }

  ghost predicate TurnFrom(w: State, i: nat, draws: seq<nat>, after: State, used: nat)
    requires 1 < i < WORDS && draws != []
    decreases i, 0
  {
    Drawn(w, i, draws[0], used) && RowFrom(After(w, used + 1), i - 1, draws[1..], after)
  }

  /** Every one of these draws comes to a word it accepts: the program's loop ends exactly then. */
  ghost predicate DrawsEnd(w: State, i: nat)
    requires i < WORDS
  {
    exists draws, after :: RowFrom(w, i, draws, after)
  }

  lemma {:induction false} RowFromIsRow(w: State, i: nat, draws: seq<nat>, after: State)
    requires i < WORDS && RowFrom(w, i, draws, after)
    ensures IsRow(i, draws)
    decreases i
  {
    if i > 1 {
      var used: nat :| TurnFrom(w, i, draws, after, used);
      RowFromIsRow(After(w, used + 1), i - 1, draws[1..], after);
    }
  }

  lemma DrawnOnce(w: State, n: nat, j: nat, used: nat, j': nat, used': nat)
    requires 0 < n < WORDS && Drawn(w, n, j, used) && Drawn(w, n, j', used')
    ensures used == used' && j == j'
  {
  }

  /** One state gives one row: the same seed shuffles the same way, whatever is shuffled. */
  lemma {:induction false} RowFromIsUnique(
    w: State, i: nat, draws: seq<nat>, after: State, draws': seq<nat>, after': State)
    requires i < WORDS && RowFrom(w, i, draws, after) && RowFrom(w, i, draws', after')
    ensures draws == draws' && after == after'
    decreases i
  {
    if i > 1 {
      var used: nat :| TurnFrom(w, i, draws, after, used);
      var used': nat :| TurnFrom(w, i, draws', after', used');
      DrawnOnce(w, i, draws[0], used, draws'[0], used');
      RowFromIsUnique(After(w, used + 1), i - 1, draws[1..], after, draws'[1..], after');
      assert draws == [draws[0]] + draws[1..] && draws' == [draws'[0]] + draws'[1..];
    }
  }

  // ------------------------------------------------------------------ the shuffle

  /** One turn of the loop, with the row still to be drawn: its first number is drawn and the exchange made. */
  method Turn<T>(r: Rng, a: array<T>, i: nat, ghost rest: seq<nat>, ghost after: State)
    requires 1 < i <= a.Length < WORDS && RowFrom(r.Now(), i, rest, after)
    modifies r, a
    ensures rest != [] && RowFrom(r.Now(), i - 1, rest[1..], after)
    ensures rest[0] < i && a[..] == Exchanged(old(a[..]), i - 1, rest[0])
  {
    ghost var w := r.Now();
    ghost var tries: nat :| TurnFrom(w, i, rest, after, tries);
    var j, used := r.Below(i, tries);
    DrawnOnce(w, i, rest[0], tries, j.value, used);
    a[i - 1], a[j.value] := a[j.value], a[i - 1];
  }

  /** The order is the one the generator's own row of draws gives, and the generator is left behind that row. */
  method Shuffle<T>(r: Rng, a: array<T>) returns (ghost draws: seq<nat>)
    requires a.Length < WORDS && DrawsEnd(r.Now(), a.Length)
    modifies r, a
    ensures RowFrom(old(r.Now()), a.Length, draws, r.Now())
    ensures IsRow(a.Length, draws) && a[..] == Shuffled(old(a[..]), a.Length, draws)
    ensures multiset(a[..]) == multiset(old(a[..]))
  {
    ghost var s, w := a[..], r.Now();
    ghost var row, after :| RowFrom(w, a.Length, row, after);
    draws := row;
    RowFromIsRow(w, a.Length, row, after);
    ghost var rest := row;
    var i := a.Length;
    while i > 1
      invariant 0 <= i <= a.Length && RowFrom(r.Now(), i, rest, after) && IsRow(i, rest)
      invariant Shuffled(a[..], i, rest) == Shuffled(s, a.Length, row)
    {
      Turn(r, a, i, rest, after);
      rest := rest[1..];
      i := i - 1;
    }
    ShuffledKeepsElements(s, a.Length, draws);
  }
}
