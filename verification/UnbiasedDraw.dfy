/** Why rejecting the draws below `reject_under` leaves every remainder equally likely. */
module UnbiasedDraw {
  import opened Division

  /** How many 64-bit words there are. */
  const WORDS: nat := 0x1_0000_0000_0000_0000

  /** `0.wrapping_sub(n) % n`. */
  function RejectUnder(n: nat): nat
    requires 0 < n < WORDS
  {
    ((0 - n) % WORDS) % n
  }

  predicate Accepted(n: nat, x: nat)
    requires 0 < n < WORDS
  {
    x >= RejectUnder(n)
  }

  /** The words with remainder r among the q blocks of n words from lo. */
  function WithRemainder(lo: nat, q: nat, n: nat, r: nat): set<nat>
    requires n > 0
  {
    set x | lo <= x < lo + q * n && x % n == r
  }

  /** A block of n consecutive words has each remainder once. */
  lemma OneInEachBlock(lo: nat, n: nat, r: nat) returns (x: nat)
    requires r < n
    ensures lo <= x < lo + n && x % n == r
    ensures forall y :: lo <= y < lo + n && y % n == r ==> y == x
  {
    var q, s := lo / n, lo % n;
    assert lo == q * n + s;
    x := if r >= s then lo + (r - s) else lo + n + r - s;
    if r >= s {
      RemainderIsUnique(x, n, q, r);
    } else {
      assert x == (q + 1) * n + r;
      RemainderIsUnique(x, n, q + 1, r);
    }
    forall y: nat | lo <= y < lo + n && y % n == r ensures y == x {
      if y < x {
        SameRemainder(y, x, n);
      } else if x < y {
        SameRemainder(x, y, n);
      }
    }
  }

  lemma {:induction false} OncePerBlock(lo: nat, q: nat, n: nat, r: nat)
    requires r < n
    ensures |WithRemainder(lo, q, n, r)| == q
  {
    if q == 0 {
      assert WithRemainder(lo, 0, n, r) == {};
    } else {
      OncePerBlock(lo, q - 1, n, r);
      assert q * n == (q - 1) * n + n;
      var x := OneInEachBlock(lo + (q - 1) * n, n, r);
      assert WithRemainder(lo, q, n, r) == WithRemainder(lo, q - 1, n, r) + {x};
    }
  }

  /** The words not rejected. */
  function AcceptedWords(n: nat): nat
    requires 0 < n < WORDS
  {
    WORDS - RejectUnder(n)
  }

  /** What is rejected is what is left over when the words are dealt out n at a time: the accepted ones
      are a whole number of rounds, and more than half of all words. */
  lemma RejectsTheRemainder(n: nat)
    requires 0 < n < WORDS
    ensures RejectUnder(n) == WORDS % n
    ensures AcceptedWords(n) == (AcceptedWords(n) / n) * n
    ensures 2 * AcceptedWords(n) > WORDS
  {
    RemainderIsUnique(0 - n, WORDS, -1, WORDS - n);
    RemainderAfterTaking(WORDS, n);
    var q := WORDS / n;
    assert WORDS == q * n + WORDS % n;
    RemainderIsUnique(AcceptedWords(n), n, q, 0);
    if 2 * n > WORDS {
      RemainderIsUnique(WORDS, n, 1, WORDS - n);
    }
  }

  /** Every remainder below n is given by exactly the same number of accepted words. */
  lemma EveryRemainderEquallyLikely(n: nat, r: nat)
    requires r < n < WORDS
    ensures |set x: nat | x < WORDS && Accepted(n, x) && x % n == r| == AcceptedWords(n) / n
  {
    RejectsTheRemainder(n);
    var lo, q := RejectUnder(n), AcceptedWords(n) / n;
    OncePerBlock(lo, q, n, r);
    assert lo + q * n == WORDS;
    assert (set x: nat | x < WORDS && Accepted(n, x) && x % n == r) == WithRemainder(lo, q, n, r);
  }
}
