/** The sieve of Eratosthenes, in one function and in three that share a vector, with checked 64-bit indices. */
module Sieve {
  import Counting
  import opened Division
  import opened Wrappers

  predicate Prime(k: nat) {
    k >= 2 && forall d :: 2 <= d < k ==> k % d != 0
  }

  /** The number of primes below n. */
  function PrimesBelow(n: nat): nat {
    if n == 0 then 0 else PrimesBelow(n - 1) + if Prime(n - 1) then 1 else 0
  }

  // ------------------------------------------------------------------ what the flags mean

  predicate NoFactorBelow(k: nat, p: nat) {
    forall d :: 2 <= d < p && d < k ==> k % d != 0
  }

  /** The multiples of every number from 2 up to p are crossed out, except those numbers themselves. */
  ghost predicate SievedTo(s: seq<bool>, p: nat) {
    forall k: nat :: k < |s| ==> (s[k] <==> k >= 2 && NoFactorBelow(k, p))
  }

  /** And the multiples of p from its square up to m. */
  ghost predicate Crossing(s: seq<bool>, p: nat, m: nat)
    requires p > 0
  {
    forall k: nat :: k < |s| ==> (s[k] <==> k >= 2 && NoFactorBelow(k, p) && !(k % p == 0 && p * p <= k < m))
  }

  ghost predicate ExactlyPrimes(s: seq<bool>) {
    forall k: nat :: k < |s| ==> (s[k] <==> Prime(k))
  }

  lemma ProductsGrow(a: nat, b: nat, c: nat, d: nat)
    ensures a <= c && b <= d ==> a * b <= c * d
  {
    if a <= c && b <= d {
      assert c * d == a * b + (c - a) * b + c * (d - b);
    }
  }

  /** A proper factor comes with its cofactor. */
  lemma Cofactor(k: nat, d: nat) returns (e: nat)
    requires 2 <= d < k && k % d == 0
    ensures d * e == k && 2 <= e < k && k % e == 0
  {
    e := k / d;
    assert k == e * d + k % d;
    ProductsGrow(e, d, 1, d);
    ProductsGrow(2, e, d, e);
    RemainderIsUnique(k, e, d, 0);
  }

  /** A multiple of p below its square has a smaller factor. */
  lemma SmallMultiple(k: nat, p: nat)
    requires 2 <= p < k < p * p && k % p == 0
    ensures !NoFactorBelow(k, p)
  {
    var e := Cofactor(k, p);
    ProductsGrow(p, p, p, e);
  }

  lemma OneMoreFactor(k: nat, p: nat)
    requires p >= 2
    ensures NoFactorBelow(k, p + 1) <==> NoFactorBelow(k, p) && !(p < k && k % p == 0)
  {
  }

  /** Crossing out one more multiple. */
  lemma CrossOne(s: seq<bool>, p: nat, m: nat)
    requires p >= 2 && Crossing(s, p, m) && m % p == 0 && p * p <= m < |s|
    ensures Crossing(s[m := false], p, m + p) && (m + p) % p == 0
  {
    RoundLater(m, p);
    forall k: nat | m < k < m + p ensures k % p != 0 {
      SameRemainder(m, k, p);
    }
  }

  lemma CrossedAll(s: seq<bool>, p: nat, m: nat)
    requires p >= 2 && Crossing(s, p, m) && m >= |s|
    ensures SievedTo(s, p + 1)
  {
    forall k: nat | k < |s| ensures s[k] <==> k >= 2 && NoFactorBelow(k, p + 1) {
      OneMoreFactor(k, p);
      if p < k < p * p && k % p == 0 { SmallMultiple(k, p); }
      if k <= p { SquareIsLarger(p, k); }
    }
  }

  lemma SquareIsLarger(p: nat, k: nat)
    requires p >= 2 && k <= p
    ensures k < p * p
  {
    AtLeastOnce(p - 1, p);
    assert p * p == (p - 1) * p + p;
  }

  /** A number already crossed out brings nothing new: its multiples are multiples of its own factor. */
  lemma SkipComposite(s: seq<bool>, p: nat)
    requires 2 <= p < |s| && SievedTo(s, p) && !s[p]
    ensures SievedTo(s, p + 1)
  {
    var q :| 2 <= q < p && p % q == 0;
    forall k: nat | k < |s| ensures s[k] <==> k >= 2 && NoFactorBelow(k, p + 1) {
      OneMoreFactor(k, p);
      if p < k && k % p == 0 { FactorOfFactor(k, p, q); }
    }
  }

  lemma FactorOfFactor(k: nat, p: nat, q: nat)
    requires p > 0 && q > 0 && k % p == 0 && p % q == 0
    ensures k % q == 0
  {
    var a, b := k / p, p / q;
    assert k == a * p + k % p && p == b * q + p % q;
    assert a * (b * q) == (a * b) * q;
    RemainderIsUnique(k, q, a * b, 0);
  }

  lemma SmallFactor(k: nat, p: nat)
    requires 2 <= k < p * p && !Prime(k)
    ensures !NoFactorBelow(k, p)
  {
    var d :| 2 <= d < k && k % d == 0;
    var e := Cofactor(k, d);
    ProductsGrow(p, p, d, e);
  }

  /** Once p squared is past the end, what is left is prime. */
  lemma SievedFarEnough(s: seq<bool>, p: nat)
    requires p >= 2 && SievedTo(s, p) && |s| <= p * p
    ensures ExactlyPrimes(s)
  {
    forall k: nat | k < |s| ensures s[k] <==> Prime(k) {
      if k >= 2 && !Prime(k) { SmallFactor(k, p); }
    }
  }

  // ------------------------------------------------------------------ the sieve in one function

  /** Indices are 64-bit, and their products and sums are checked. */
  const USIZE_MAX: nat := 0xFFFF_FFFF_FFFF_FFFF

  /** Beyond the square of this number no square of an index below the limit reaches the limit within 64 bits. */
  const ROOT: nat := 0xFFFF_FFFF

  /** Where the square of p stops fitting 64 bits, and where it first reaches the limit. */
  lemma SquaresAndTheLimit(p: nat, limit: nat)
    requires p >= 2
    ensures p * p > USIZE_MAX && (p - 1) * (p - 1) < limit ==> limit > ROOT * ROOT
    ensures p * p <= USIZE_MAX ==> p <= ROOT && p * p <= ROOT * ROOT
  {
    ProductsGrow(p, p, ROOT, ROOT);
    ProductsGrow(ROOT, ROOT, p - 1, p - 1);
    ProductsGrow(ROOT + 1, ROOT + 1, p, p);
  }

  method SieveCount(limit: nat) returns (n: Result<nat>)
    requires limit <= USIZE_MAX
    ensures n.Ok? <==> 2 <= limit <= ROOT * ROOT
    ensures n.Ok? ==> n.value == PrimesBelow(limit)
    ensures n.Err? ==> n.fault == if limit < 2 then IndexOutOfBounds else ArithOverflow
  {
    var isPrime := new bool[limit](_ => true);
    if limit <= 0 { return Err(IndexOutOfBounds); }
    isPrime[0] := false;
    if limit <= 1 { return Err(IndexOutOfBounds); }
    isPrime[1] := false;
    var p := 2;
    while true
      invariant 2 <= p && SievedTo(isPrime[..], p) && (p - 1) * (p - 1) < limit
      decreases limit - p
    {
      SquaresAndTheLimit(p, limit);
      if p * p > USIZE_MAX { return Err(ArithOverflow); }
      if p * p >= limit { break; }
      SquareIsLarger(p, p);
      if isPrime[p] {
        var m := p * p;
        RemainderIsUnique(m, p, p, 0);
        while m < limit
          invariant m >= p * p && m % p == 0 && Crossing(isPrime[..], p, m)
        {
          CrossOne(isPrime[..], p, m);
          isPrime[m] := false;
          if m + p > USIZE_MAX { return Err(ArithOverflow); }
          m := m + p;
        }
        CrossedAll(isPrime[..], p, m);
      } else {
        SkipComposite(isPrime[..], p);
      }
      p := p + 1;
    }
    SievedFarEnough(isPrime[..], p);
    var found := 0;
    for k := 0 to limit
      invariant found == PrimesBelow(k)
    {
      if isPrime[k] { found := found + 1; }
    }
    n := Ok(found);
  }

  // ------------------------------------------------------------------ marking any flags

  /** The flag of p, still set, has cleared k. */
  ghost predicate ClearedBy(s: seq<bool>, p: nat, k: nat) {
    2 <= p < |s| && s[p] && p * p <= k && k % p == 0
  }

  ghost predicate Cleared(s: seq<bool>, q: nat, k: nat) {
    exists p: nat :: p < q && ClearedBy(s, p, k)
  }

  /** Whatever the flags were: below the limit those are cleared that a flag still set below q clears, and no others. */
  ghost predicate Swept(was: seq<bool>, s: seq<bool>, q: nat, limit: nat) {
    |s| == |was| && forall k: nat :: k < |s| ==> (s[k] <==> was[k] && !(k < limit && Cleared(s, q, k)))
  }

  ghost predicate OnlyCleared(was: seq<bool>, s: seq<bool>, limit: nat) {
    |s| == |was| && forall k :: 0 <= k < |s| ==> (s[k] ==> was[k]) && (k >= limit ==> s[k] == was[k])
  }

  /** What marking up to the limit leaves of any flags. */
  ghost predicate Marked(was: seq<bool>, s: seq<bool>, limit: nat) {
    Swept(was, s, limit, limit)
  }

  /** The multiples of p from its square up to m have been cleared. */
  ghost predicate Sweeping(base: seq<bool>, s: seq<bool>, p: nat, m: nat)
    requires p > 0
  {
    |s| == |base| && forall k: nat :: k < |s| ==> (s[k] <==> base[k] && !(k % p == 0 && p * p <= k < m))
  }

  lemma SweepOne(base: seq<bool>, s: seq<bool>, p: nat, m: nat)
    requires p >= 2 && Sweeping(base, s, p, m) && m % p == 0 && p * p <= m < |s|
    ensures Sweeping(base, s[m := false], p, m + p) && (m + p) % p == 0
  {
    RoundLater(m, p);
    forall k: nat | m < k < m + p ensures k % p != 0 {
      SameRemainder(m, k, p);
    }
  }

  /** With m at or past the limit, and no multiple between, p is done. */
  lemma SweptBy(was: seq<bool>, base: seq<bool>, s: seq<bool>, p: nat, m: nat, limit: nat)
    requires Swept(was, base, p, limit) && 2 <= p < |base| && base[p] && Sweeping(base, s, p, m)
    requires m >= limit && (forall k: nat :: limit <= k < m ==> k % p != 0)
    ensures Swept(was, s, p + 1, limit)
  {
    forall q: nat, k: nat | q <= p ensures ClearedBy(s, q, k) <==> ClearedBy(base, q, k) {
      SquareIsLarger(p, q);
    }
    forall k: nat | k < |s| ensures Cleared(s, p + 1, k) <==> Cleared(base, p, k) || ClearedBy(base, p, k) {
      ClearedOneMore(base, s, p, k);
    }
  }

  lemma ClearedOneMore(base: seq<bool>, s: seq<bool>, p: nat, k: nat)
    requires forall q: nat :: q <= p ==> (ClearedBy(s, q, k) <==> ClearedBy(base, q, k))
    ensures Cleared(s, p + 1, k) <==> Cleared(base, p, k) || ClearedBy(base, p, k)
  {
    if Cleared(base, p, k) {
      var q: nat :| q < p && ClearedBy(base, q, k);
      assert ClearedBy(s, q, k);
    }
    if Cleared(s, p + 1, k) {
      var q: nat :| q < p + 1 && ClearedBy(s, q, k);
      assert ClearedBy(base, q, k);
    }
  }

  lemma SweptOver(was: seq<bool>, s: seq<bool>, p: nat, limit: nat)
    requires p < |s| && Swept(was, s, p, limit) && !s[p]
    ensures Swept(was, s, p + 1, limit)
  {
    forall k: nat | k < |s| ensures Cleared(s, p + 1, k) <==> Cleared(s, p, k) {
      if Cleared(s, p, k) {
        var q: nat :| q < p && ClearedBy(s, q, k);
      }
    }
  }

  /** No flag is left to clear any below the limit once the square is past it. */
  lemma SweptFarEnough(was: seq<bool>, s: seq<bool>, p: nat, limit: nat)
    requires p >= 2 && Swept(was, s, p, limit) && limit <= p * p
    ensures Marked(was, s, limit)
  {
    forall k: nat | k < |s| && k < limit ensures Cleared(s, limit, k) <==> Cleared(s, p, k) {
      forall q: nat | ClearedBy(s, q, k) ensures q < p && q < limit {
        ProductsGrow(p, p, q, q);
        SquareIsLarger(q, q);
      }
    }
  }

  /** A composite number has a prime factor whose square is no larger. */
  lemma {:induction false} SmallPrimeFactor(k: nat) returns (p: nat)
    requires k >= 2 && !Prime(k)
    ensures Prime(p) && p * p <= k && k % p == 0
    decreases k
  {
    var d :| 2 <= d < k && k % d == 0;
    var e := Cofactor(k, d);
    var low := if d <= e then d else e;
    ProductsGrow(low, low, d, e);
    if Prime(low) {
      p := low;
    } else {
      p := SmallPrimeFactor(low);
      FactorOfFactor(k, low, p);
    }
  }

  /** Marking flags that are set from two on leaves exactly the primes below the limit. */
  lemma {:induction false} MarkedCandidates(was: seq<bool>, s: seq<bool>, limit: nat, k: nat)
    requires Marked(was, s, limit) && limit <= |s| && k < limit
    requires forall i: nat :: i < limit ==> (was[i] <==> i >= 2)
    ensures s[k] <==> Prime(k)
    decreases k
  {
    if k >= 2 && !Prime(k) {
      var p := SmallPrimeFactor(k);
      SquareIsLarger(p, p);
      MarkedCandidates(was, s, limit, p);
      assert ClearedBy(s, p, k);
    } else if Prime(k) && Cleared(s, limit, k) {
      var p: nat :| p < limit && ClearedBy(s, p, k);
      SquareIsLarger(p, p);
    }
  }

  /** The multiples of p from its square up to m are indices below n. */
  ghost predicate Fits(p: nat, m: nat, n: nat)
    requires p > 0
  {
    forall x: nat :: p * p <= x < m && x % p == 0 ==> x < n
  }

  lemma FitsNext(p: nat, m: nat, n: nat)
    requires p >= 2 && Fits(p, m, n) && m % p == 0 && m < n
    ensures Fits(p, m + p, n)
  {
    forall x: nat | m < x < m + p ensures x % p != 0 {
      SameRemainder(m, x, p);
    }
  }

  /** Whether the flag of k is still set when everything that could clear it has been done: no number still set clears
      it. */
  ghost predicate Stays(was: seq<bool>, k: nat) {
    k < |was| && was[k] && forall p: nat :: 2 <= p < k && p * p <= k && k % p == 0 ==> !Stays(was, p)
  }

  /** Up to where marking has come, the flags are as they will stay. */
  lemma {:induction false} FlagStays(was: seq<bool>, s: seq<bool>, q: nat, limit: nat, k: nat)
    requires Swept(was, s, q, limit) && k <= q && k < limit && k < |s|
    ensures s[k] <==> Stays(was, k)
  {
    forall p: nat | 2 <= p < k ensures p < |s| && (s[p] <==> Stays(was, p)) {
      FlagStays(was, s, q, limit, p);
    }
    if Cleared(s, q, k) {
      var p: nat :| p < q && ClearedBy(s, p, k);
      SquareIsLarger(p, p);
    }
    if p: nat :| 2 <= p < k && p * p <= k && k % p == 0 && Stays(was, p) {
      assert ClearedBy(s, p, k);
    }
  }

  /** Marking p would go past the end of the flags. */
  ghost predicate BeyondAt(was: seq<bool>, p: nat, limit: nat) {
    2 <= p && p * p < limit && (p >= |was| || (Stays(was, p) && !Fits(p, limit, |was|)))
  }

  ghost predicate Beyond(was: seq<bool>, q: nat, limit: nat) {
    exists p: nat :: p < q && BeyondAt(was, p, limit)
  }

  lemma StepPast(p: nat, m: nat, limit: nat)
    requires p >= 2 && m % p == 0 && m < limit
    ensures forall k: nat :: limit <= k < m + p ==> k % p != 0
  {
    forall k: nat | limit <= k < m + p ensures k % p != 0 {
      SameRemainder(m, k, p);
    }
  }

  lemma MarkEnds(was: seq<bool>, s: seq<bool>, p: nat, limit: nat)
    requires p >= 2 && Swept(was, s, p, limit) && !Beyond(was, p, limit) && limit <= p * p <= USIZE_MAX
    ensures Marked(was, s, limit) && !Beyond(was, limit, limit) && limit <= ROOT * ROOT
  {
    SweptFarEnough(was, s, p, limit);
    SquaresAndTheLimit(p, limit);
    forall q: nat | q < limit ensures !BeyondAt(was, q, limit) {
      ProductsGrow(p, p, q, q);
      assert !(q < p && BeyondAt(was, q, limit));
    }
  }

  lemma MarkFails(was: seq<bool>, p: nat, limit: nat)
    requires BeyondAt(was, p, limit)
    ensures Beyond(was, limit, limit) && limit > |was|
  {
    SquareIsLarger(p, p);
    if p < |was| {
      var x: nat :| p * p <= x < limit && x % p == 0 && x >= |was|;
    }
  }

  lemma MarkGoesOn(p: nat, limit: nat)
    requires p >= 2 && p * p < limit
    ensures (p + 1 - 1) * (p + 1 - 1) < limit && p < limit
  {
    SquareIsLarger(p, p);
  }

  lemma NotBeyondHere(was: seq<bool>, p: nat, limit: nat)
    requires !Beyond(was, p, limit) && !BeyondAt(was, p, limit)
    ensures !Beyond(was, p + 1, limit)
  {
    forall q: nat | q < p + 1 ensures !BeyondAt(was, q, limit) {
      assert !(q < p && BeyondAt(was, q, limit));
    }
  }

  // ------------------------------------------------------------------ the sieve over a vector taken by reference

  function Candidates(n: nat): seq<bool> {
    seq(n, i => i >= 2)
  }

  class Flags {
    var items: seq<bool>

    constructor ()
      ensures items == []
    {
      items := [];
    }

    method Fill(limit: nat)
      modifies this
      ensures items == old(items) + Candidates(limit)
    {
      for i := 0 to limit
        invariant items == old(items) + Candidates(i)
      {
        items := items + [i >= 2];
      }
    }

    /** The inner loop: the multiples of p from its square on are cleared. */
    method MarkMultiples(ghost was: seq<bool>, p: nat, limit: nat) returns (r: Result<()>)
      requires 2 <= p < |items| && items[p] && p * p < limit <= USIZE_MAX
      requires Swept(was, items, p, limit) && !Beyond(was, p, limit)
      modifies this
      ensures OnlyCleared(was, items, limit)
      ensures r.Ok? ==> Swept(was, items, p + 1, limit) && !Beyond(was, p + 1, limit)
      ensures r.Err? ==> if r.fault == ArithOverflow then limit > ROOT * ROOT
                         else r.fault == IndexOutOfBounds && Beyond(was, limit, limit) && limit > |items|
    {
      ghost var base := items;
      var m := p * p;
      RemainderIsUnique(m, p, p, 0);
      SquareIsLarger(p, p);
      FlagStays(was, items, p, limit, p);
      while m < limit
        invariant m >= p * p && m % p == 0 && Sweeping(base, items, p, m) && Fits(p, m, |items|)
        invariant forall k: nat :: limit <= k < m ==> k % p != 0
      {
        if m >= |items| {
          MarkFails(was, p, limit);
          return Err(IndexOutOfBounds);
        }
        SweepOne(base, items, p, m);
        FitsNext(p, m, |items|);
        StepPast(p, m, limit);
        items := items[m := false];
        if m + p > USIZE_MAX {
          ProductsGrow(ROOT, ROOT, p, p);
          return Err(ArithOverflow);
        }
        m := m + p;
      }
      SweptBy(was, base, items, p, m, limit);
      NotBeyondHere(was, p, limit);
      r := Ok(());
    }

    /** Whatever the flags and the limit: the flags left are those no flag left clears. It runs into no fault exactly
        when no index it needs is past the end, and no square or sum past 64 bits. */
    method Mark(limit: nat) returns (r: Result<()>)
      requires limit <= USIZE_MAX
      modifies this
      ensures OnlyCleared(old(items), items, limit)
      ensures r.Ok? ==> Marked(old(items), items, limit)
      ensures r.Ok? <==> limit <= ROOT * ROOT && !Beyond(old(items), limit, limit)
      ensures limit <= |items| ==> (r.Ok? <==> limit <= ROOT * ROOT)
      ensures r.Err? ==> if r.fault == ArithOverflow then limit > ROOT * ROOT
                         else r.fault == IndexOutOfBounds && limit > |items|
    {
      ghost var was := items;
      var p := 2;
      while true
        invariant 2 <= p && Swept(was, items, p, limit) && !Beyond(was, p, limit)
        invariant p > 2 ==> (p - 1) * (p - 1) < limit
        decreases limit - p
      {
        SquaresAndTheLimit(p, limit);
        if p * p > USIZE_MAX { return Err(ArithOverflow); }
        if p * p >= limit { break; }
        MarkGoesOn(p, limit);
        if p >= |items| {
          MarkFails(was, p, limit);
          return Err(IndexOutOfBounds);
        }
        if items[p] {
          r := MarkMultiples(was, p, limit);
          if r.Err? { return; }
        } else {
          FlagStays(was, items, p, limit, p);
          SweptOver(was, items, p, limit);
          NotBeyondHere(was, p, limit);
        }
        p := p + 1;
      }
      MarkEnds(was, items, p, limit);
      r := Ok(());
    }

    /** How many flags are set, whatever they are. */
    method Count() returns (n: nat)
      ensures n == Counting.Count(items, IsSet)
      ensures ExactlyPrimes(items) ==> n == PrimesBelow(|items|)
    {
      n := 0;
      for k := 0 to |items|
        invariant n == Counting.Count(items[..k], IsSet)
      {
        CountNext(items, k);
        if items[k] { n := n + 1; }
      }
      assert items[..|items|] == items;
      if ExactlyPrimes(items) { FlagsCountPrimes(items); }
    }
  }

  predicate IsSet(b: bool) { b }

  lemma CountNext(s: seq<bool>, k: nat)
    requires k < |s|
    ensures Counting.Count(s[..k + 1], IsSet) == Counting.Count(s[..k], IsSet) + if s[k] then 1 else 0
  {
    assert s[..k + 1] == s[..k] + [s[k]];
    Counting.CountAppend(s[..k], [s[k]], IsSet);
  }

  /** With flags exactly on the primes, counting them counts the primes. */
  lemma {:induction false} FlagsCountPrimes(s: seq<bool>)
    requires ExactlyPrimes(s)
    ensures Counting.Count(s, IsSet) == PrimesBelow(|s|)
  {
    if s != [] {
      var last: nat := |s| - 1;
      FlagsCountPrimes(s[..last]);
      CountNext(s, last);
      assert s[..last + 1] == s;
    }
  }

  /** The three functions one after the other. Unlike the single function they do not fault below two. */
  method FillMarkCount(limit: nat) returns (n: Result<nat>)
    requires limit <= USIZE_MAX
    ensures n == if limit <= ROOT * ROOT then Ok(PrimesBelow(limit)) else Err(ArithOverflow)
  {
    var isPrime := new Flags();
    isPrime.Fill(limit);
    assert isPrime.items == Candidates(limit);
    var marked := isPrime.Mark(limit);
    if marked.Err? { return Err(marked.fault); }
    forall k: nat | k < limit ensures isPrime.items[k] <==> Prime(k) {
      MarkedCandidates(Candidates(limit), isPrime.items, limit, k);
    }
    var count := isPrime.Count();
    n := Ok(count);
  }

  /** The two forms agree on every limit but 0 and 1, where only the single function faults. */
  method BothForms(limit: nat) returns (one: Result<nat>, three: Result<nat>)
    requires limit <= USIZE_MAX
    ensures one == three <==> limit >= 2
    ensures limit < 2 ==> one == Err(IndexOutOfBounds) && three == Ok(0)
  {
    one := SieveCount(limit);
    three := FillMarkCount(limit);
    assert PrimesBelow(1) == 0 && PrimesBelow(0) == 0;
  }
}
