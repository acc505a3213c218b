/** What the quotient and the remainder are, for arguments that deal things out in equal rounds. */
module Division {

  lemma RemainderAfterTaking(a: nat, n: nat)
    requires 0 < n <= a
    ensures (a - n) % n == a % n
  {
    var q := a / n;
    assert a == q * n + a % n;
    assert a - n == (q - 1) * n + a % n;
    RemainderIsUnique(a - n, n, q - 1, a % n);
  }

  lemma RemainderIsUnique(a: int, n: nat, q: int, r: nat)
    requires r < n && a == q * n + r
    ensures a % n == r && a / n == q
  {
    var d := a / n - q;
    assert a == (a / n) * n + a % n;
    assert d * n == r - a % n;
    MultiplesAreFarApart(d, n);
  }

  lemma MultiplesAreFarApart(d: int, n: nat)
    ensures d == 0 || d * n >= n || d * n + n <= 0
  {
    if d > 0 {
      AtLeastOnce(d, n);
    } else if d < 0 {
      AtLeastOnce(-d, n);
      assert (-d) * n == -(d * n);
    }
  }

  lemma {:induction false} AtLeastOnce(d: nat, n: nat)
    requires d > 0
    ensures d * n >= n
  {
    if d > 1 {
      AtLeastOnce(d - 1, n);
      assert d * n == (d - 1) * n + n;
    }
  }

  /** Counting on by one goes to the next remainder, or back to the first. */
  lemma NextRemainder(a: nat, n: nat)
    requires n > 0
    ensures (a + 1) % n == if a % n + 1 == n then 0 else a % n + 1
  {
    assert a == (a / n) * n + a % n;
    if a % n + 1 == n {
      assert a + 1 == (a / n + 1) * n;
      RemainderIsUnique(a + 1, n, a / n + 1, 0);
    } else {
      RemainderIsUnique(a + 1, n, a / n, a % n + 1);
    }
  }

  /** Equal remainders lie a whole number of rounds apart. */
  lemma SameRemainder(a: nat, b: nat, n: nat)
    requires n > 0 && a < b < a + n
    ensures a % n != b % n
  {
    assert a == (a / n) * n + a % n && b == (b / n) * n + b % n;
    var d := b / n - a / n;
    assert d * n == (b - a) - (b % n - a % n);
    MultiplesAreFarApart(d, n);
  }

  lemma RoundLater(a: nat, n: nat)
    requires n > 0
    ensures (a + n) % n == a % n
  {
    assert a + n == (a / n + 1) * n + a % n;
    RemainderIsUnique(a + n, n, a / n + 1, a % n);
  }

  // ------------------------------------------------------------------ masks

  /** Bitwise and, from the lowest bit up. */
  function And(a: nat, b: nat): (r: nat)
    ensures r <= b
  {
    if a == 0 || b == 0 then 0 else 2 * And(a / 2, b / 2) + (if a % 2 == 1 && b % 2 == 1 then 1 else 0)
  }

  predicate PowerOfTwo(n: nat) {
    n == 1 || (n > 1 && n % 2 == 0 && PowerOfTwo(n / 2))
  }

  lemma TwiceProduct(q: nat, m: nat)
    ensures q * (2 * m) == 2 * (q * m)
  {
  }

  /** The remainder by an even number, from that of the half. */
  lemma RemainderOfHalf(x: nat, m: nat)
    requires m > 0
    ensures x % (2 * m) == 2 * (x / 2 % m) + x % 2
  {
    var q, r, b := x / 2 / m, x / 2 % m, x % 2;
    assert x / 2 == q * m + r;
    TwiceProduct(q, m);
    RemainderIsUnique(x, 2 * m, q, 2 * r + b);
  }

  lemma AndOdd(x: nat, m: nat)
    requires m > 0
    ensures And(x, 2 * m - 1) == 2 * And(x / 2, m - 1) + x % 2
  {
    assert (2 * m - 1) / 2 == m - 1 && (2 * m - 1) % 2 == 1;
  }

  /** Masking with one less than a power of two takes the remainder. */
  lemma {:induction false} MaskIsRemainder(x: nat, n: nat)
    requires PowerOfTwo(n)
    ensures And(x, n - 1) == x % n
  {
    if n > 1 {
      MaskIsRemainder(x / 2, n / 2);
      AndOdd(x, n / 2);
      RemainderOfHalf(x, n / 2);
    }
  }
}
