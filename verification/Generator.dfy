/** xoshiro256** seeded by splitmix64, on 64-bit words: nothing the generator does to its state loses
    information, so no seed leads to the all-zero state it could never leave. */
module Generator {
  import opened Wrappers
  import opened UnbiasedDraw
  import opened Words

  // ------------------------------------------------------------------ splitmix64

  function Advance(z: bv64): bv64 { z + 0x9E3779B97F4A7C15 }
  function Retreat(z: bv64): bv64 { z - 0x9E3779B97F4A7C15 }

  function Fold30(z: bv64): bv64 { z ^ (z >> 30) }
  function Fold27(z: bv64): bv64 { z ^ (z >> 27) }
  function Fold31(z: bv64): bv64 { z ^ (z >> 31) }
  function TimesA(z: bv64): bv64 { z * 0xBF58476D1CE4E5B9 }
  function TimesB(z: bv64): bv64 { z * 0x94D049BB133111EB }

  /** What undoes each of them; the multipliers are the inverses modulo 2 to the 64. */
  function Unfold30(z: bv64): bv64 { z ^ (z >> 30) ^ (z >> 60) }
  function Unfold27(z: bv64): bv64 { z ^ (z >> 27) ^ (z >> 54) }
  function Unfold31(z: bv64): bv64 { z ^ (z >> 31) ^ (z >> 62) }
  function OverA(z: bv64): bv64 { z * 0x96DE1B173F119089 }
  function OverB(z: bv64): bv64 { z * 0x319642B2D24D8EC3 }

  /** What `splitmix` makes of its advanced state. */
  function Mix(z: bv64): bv64 { Fold31(TimesB(Fold27(TimesA(Fold30(z))))) }
  function Unmix(y: bv64): bv64 { Unfold30(OverA(Unfold27(OverB(Unfold31(y))))) }

  lemma RetreatAdvance(z: bv64)
    ensures Retreat(Advance(z)) == z
  {
    assert Advance(z) == z + 0x9E3779B97F4A7C15;
  }

  lemma AdvanceMoves(z: bv64)
    ensures Advance(z) != z
  {
  }

  lemma AdvanceTwiceMoves(z: bv64)
    ensures Advance(Advance(z)) != z
  {
    assert Advance(z) == z + 0x9E3779B97F4A7C15;
  }

  lemma AdvanceThriceMoves(z: bv64)
    ensures Advance(Advance(Advance(z))) != z
  {
    assert Advance(z) == z + 0x9E3779B97F4A7C15;
    assert Advance(z + 0x9E3779B97F4A7C15) == z + 0x9E3779B97F4A7C15 + 0x9E3779B97F4A7C15;
  }

  lemma Back30(z: bv64)
    ensures Unfold30(Fold30(z)) == z
  {
    assert Fold30(z) == z ^ (z >> 30);
  }

  lemma Back27(z: bv64)
    ensures Unfold27(Fold27(z)) == z
  {
    assert Fold27(z) == z ^ (z >> 27);
  }

  lemma Back31(z: bv64)
    ensures Unfold31(Fold31(z)) == z
  {
    assert Fold31(z) == z ^ (z >> 31);
  }

  lemma Forth30(z: bv64)
    ensures Fold30(Unfold30(z)) == z
  {
    assert Unfold30(z) == z ^ (z >> 30) ^ (z >> 60);
  }

  lemma Forth27(z: bv64)
    ensures Fold27(Unfold27(z)) == z
  {
    assert Unfold27(z) == z ^ (z >> 27) ^ (z >> 54);
  }

  lemma Forth31(z: bv64)
    ensures Fold31(Unfold31(z)) == z
  {
    assert Unfold31(z) == z ^ (z >> 31) ^ (z >> 62);
  }

  lemma BackProductA(z: bv64)
    ensures OverA(z * 0xBF58476D1CE4E5B9) == z
  {
    assert OverA(z * 0xBF58476D1CE4E5B9) == z * 0xBF58476D1CE4E5B9 * 0x96DE1B173F119089;
  }

  lemma BackA(z: bv64)
    ensures OverA(TimesA(z)) == z
  {
    assert TimesA(z) == z * 0xBF58476D1CE4E5B9;
    BackProductA(z);
  }

  lemma BackProductB(z: bv64)
    ensures OverB(z * 0x94D049BB133111EB) == z
  {
    assert OverB(z * 0x94D049BB133111EB) == z * 0x94D049BB133111EB * 0x319642B2D24D8EC3;
  }

  lemma BackB(z: bv64)
    ensures OverB(TimesB(z)) == z
  {
    assert TimesB(z) == z * 0x94D049BB133111EB;
    BackProductB(z);
  }

  lemma ForthProductA(z: bv64)
    ensures TimesA(z * 0x96DE1B173F119089) == z
  {
    assert TimesA(z * 0x96DE1B173F119089) == z * 0x96DE1B173F119089 * 0xBF58476D1CE4E5B9;
  }

  lemma ForthA(z: bv64)
    ensures TimesA(OverA(z)) == z
  {
    assert OverA(z) == z * 0x96DE1B173F119089;
    ForthProductA(z);
  }

  lemma ForthProductB(z: bv64)
    ensures TimesB(z * 0x319642B2D24D8EC3) == z
  {
    assert TimesB(z * 0x319642B2D24D8EC3) == z * 0x319642B2D24D8EC3 * 0x94D049BB133111EB;
  }

  lemma ForthB(z: bv64)
    ensures TimesB(OverB(z)) == z
  {
    assert OverB(z) == z * 0x319642B2D24D8EC3;
    ForthProductB(z);
  }

  /** The output mix is a bijection on 64-bit words. */
  lemma MixIsABijection(z: bv64)
    ensures Unmix(Mix(z)) == z
    ensures Mix(Unmix(z)) == z
  {
    MixIsUndone(z);
    MixReachesAll(z);
  }

  lemma MixIsUndone(z: bv64)
    ensures Unmix(Mix(z)) == z
  {
    Back30(z);
    BackA(Fold30(z));
    Back27(TimesA(Fold30(z)));
    BackB(Fold27(TimesA(Fold30(z))));
    Back31(TimesB(Fold27(TimesA(Fold30(z)))));
  }

  lemma MixReachesAll(y: bv64)
    ensures Mix(Unmix(y)) == y
  {
    Forth31(y);
    ForthB(Unfold31(y));
    Forth27(OverB(Unfold31(y)));
    ForthA(Unfold27(OverB(Unfold31(y))));
    Forth30(OverA(Unfold27(OverB(Unfold31(y)))));
  }

  method Splitmix(state: bv64) returns (state': bv64, z: bv64)
    ensures state' == Advance(state) && z == Mix(state')
  {
    state' := Advance(state);
    z := state';
    z := TimesA(Fold30(z));
    z := TimesB(Fold27(z));
    z := Fold31(z);
  }

  // ------------------------------------------------------------------ xoshiro256**

  datatype State = State(s0: bv64, s1: bv64, s2: bv64, s3: bv64)

  const ZERO := State(0, 0, 0, 0)

  /** The state a seed gives. */
  function Seeded(seed: bv64): State {
    var a := Advance(seed);
    var b := Advance(a);
    var c := Advance(b);
    var d := Advance(c);
    State(Mix(a), Mix(b), Mix(c), Mix(d))
  }

  function Up17(x: bv64): bv64 { x << 17 }
  function Fold17(x: bv64): bv64 { x ^ (x << 17) }
  function Unfold17(x: bv64): bv64 { x ^ (x << 17) ^ (x << 34) ^ (x << 51) }

  /** The state after one draw. */
  function Next(w: State): State {
    State(Xor(w.s0, Xor(w.s3, w.s1)), Xor(w.s1, Xor(w.s2, w.s0)), Xor(Xor(w.s2, w.s0), Up17(w.s1)),
          Rotl(Xor(w.s3, w.s1), 45))
  }

  /** The state before it. */
  function Previous(n: State): State {
    var t := Rotl(n.s3, 19);
    var a, b := Xor(n.s0, t), Unfold17(Xor(n.s1, n.s2));
    State(a, b, Xor(Xor(n.s1, b), a), Xor(t, b))
  }

  /** The word one draw gives. */
  function Output(w: State): bv64 { Times9(Rotl(Times5(w.s1), 7)) }

  function Times5(z: bv64): bv64 { z * 5 }
  function Times9(z: bv64): bv64 { z * 9 }
  function Over5(z: bv64): bv64 { z * 0xCCCCCCCCCCCCCCCD }
  function Over9(z: bv64): bv64 { z * 0x8E38E38E38E38E39 }

  lemma Rotl45Then19(z: bv64)
    ensures Rotl(Rotl(z, 45), 19) == z
  {
  }

  lemma Rotl19Then45(z: bv64)
    ensures Rotl(Rotl(z, 19), 45) == z
  {
  }

  lemma Back17(z: bv64)
    ensures Unfold17(Fold17(z)) == z
  {
    assert Fold17(z) == z ^ (z << 17);
  }

  lemma Forth17(z: bv64)
    ensures Fold17(Unfold17(z)) == z
  {
    assert Unfold17(z) == z ^ (z << 17) ^ (z << 34) ^ (z << 51);
  }

  lemma Fold17Is(z: bv64)
    ensures Fold17(z) == Xor(z, Up17(z))
  {
    assert Up17(z) == z << 17;
  }

  /** The second and third words of the next state still tell the second word of this one. */
  lemma SecondWordIsTold(w: State)
    ensures Xor(Next(w).s1, Next(w).s2) == Fold17(w.s1)
  {
    var y := Xor(w.s2, w.s0);
    XorCommutes(Next(w).s1, Next(w).s2);
    XorCommutes(y, Up17(w.s1));
    XorCommutes(w.s1, y);
    XorAssociates(Up17(w.s1), y, Xor(y, w.s1));
    XorCancels(y, w.s1);
    XorCommutes(Up17(w.s1), w.s1);
    Fold17Is(w.s1);
  }

  lemma NextIsUndone(w: State)
    ensures Previous(Next(w)) == w
  {
    Rotl45Then19(Xor(w.s3, w.s1));
    SecondWordIsTold(w);
    Back17(w.s1);
    XorCancels(Xor(w.s3, w.s1), w.s0);
    XorCommutes(w.s1, Xor(w.s2, w.s0));
    XorCancels(w.s1, Xor(w.s2, w.s0));
    XorCancels(w.s0, w.s2);
    XorCancels(w.s1, w.s3);
  }

  lemma NextReachesAll(n: State)
    ensures Next(Previous(n)) == n
  {
    var p, t := Previous(n), Rotl(n.s3, 19);
    XorCancels(p.s1, t);
    Rotl19Then45(n.s3);
    XorCancels(t, n.s0);
    XorCancels(p.s0, Xor(n.s1, p.s1));
    XorCommutes(p.s1, Xor(n.s1, p.s1));
    XorCancels(p.s1, n.s1);
    XorAssociates(n.s1, p.s1, Up17(p.s1));
    Fold17Is(p.s1);
    Forth17(Xor(n.s1, n.s2));
    XorCancels(n.s1, n.s2);
  }

  lemma NextOfZero()
    ensures Next(ZERO) == ZERO
  {
  }

  /** Advancing the state is a bijection on four words, and zero alone goes to zero. */
  lemma NextIsABijection(w: State)
    ensures Previous(Next(w)) == w
    ensures Next(Previous(w)) == w
    ensures Next(w) == ZERO <==> w == ZERO
  {
    NextIsUndone(w);
    NextReachesAll(w);
    NextOfZero();
    NextIsUndone(ZERO);
  }

  lemma Rotl7Then57(z: bv64)
    ensures Rotl(Rotl(z, 7), 57) == z
  {
  }

  lemma NineTimes(z: bv64)
    ensures Over9(z * 9) == z
  {
    assert Over9(z * 9) == z * 9 * 0x8E38E38E38E38E39;
  }

  lemma FiveTimes(z: bv64)
    ensures Over5(z * 5) == z
  {
    assert Over5(z * 5) == z * 5 * 0xCCCCCCCCCCCCCCCD;
  }

  lemma NineIs(z: bv64)
    ensures Times9(z) == z * 9
  {
  }

  lemma FiveIs(z: bv64)
    ensures Times5(z) == z * 5
  {
  }

  lemma OverNine(z: bv64)
    ensures Over9(Times9(z)) == z
  {
    NineIs(z);
    NineTimes(z);
  }

  lemma OverFive(z: bv64)
    ensures Over5(Times5(z)) == z
  {
    FiveIs(z);
    FiveTimes(z);
  }

  lemma NineUndoes(z: bv64)
    ensures Times9(z * 0x8E38E38E38E38E39) == z
  {
    assert Times9(z * 0x8E38E38E38E38E39) == z * 0x8E38E38E38E38E39 * 9;
  }

  lemma FiveUndoes(z: bv64)
    ensures Times5(z * 0xCCCCCCCCCCCCCCCD) == z
  {
    assert Times5(z * 0xCCCCCCCCCCCCCCCD) == z * 0xCCCCCCCCCCCCCCCD * 5;
  }

  lemma NineOver(z: bv64)
    ensures Times9(Over9(z)) == z
  {
    assert Over9(z) == z * 0x8E38E38E38E38E39;
    NineUndoes(z);
  }

  lemma FiveOver(z: bv64)
    ensures Times5(Over5(z)) == z
  {
    assert Over5(z) == z * 0xCCCCCCCCCCCCCCCD;
    FiveUndoes(z);
  }

  lemma Rotl57Then7(z: bv64)
    ensures Rotl(Rotl(z, 57), 7) == z
  {
  }

  /** The second word of the states that draw x. */
  function Drawing(x: bv64): bv64 { Over5(Rotl(Over9(x), 57)) }

  /** The drawn word is a bijection of the second word of the state: whatever the other three words, each word is drawn
      with exactly one second word. */
  lemma OutputTellsTheWord(w: State, x: bv64)
    ensures Drawing(Output(w)) == w.s1
    ensures Output(w.(s1 := Drawing(x))) == x
  {
    OverNine(Rotl(Times5(w.s1), 7));
    Rotl7Then57(Times5(w.s1));
    OverFive(w.s1);
    FiveOver(Rotl(Over9(x), 57));
    Rotl57Then7(Over9(x));
    NineOver(x);
  }

  // ------------------------------------------------------------------ any number of draws

  function After(w: State, draws: nat): State {
    if draws == 0 then w else Next(After(w, draws - 1))
  }

  lemma SeededWith42()
    ensures Seeded(42) == State(0xBDD732262FEB6E95, 0x28EFE333B266F103, 0x47526757130F9F52, 0x581CE1FF0E4AE394)
  {
    var a, b, c: bv64 := 0x9E3779B97F4A7C3F, 0x3C6EF372FE94F854, 0xDAA66D2C7DDF7469;
    assert Advance(42) == a && Advance(a) == b && Advance(b) == c && Advance(c) == 0x78DDE6E5FD29F07E;
    assert Mix(a) == 0xBDD732262FEB6E95;
    assert Mix(b) == 0x28EFE333B266F103;
    assert Mix(c) == 0x47526757130F9F52;
    assert Mix(0x78DDE6E5FD29F07E) == 0x581CE1FF0E4AE394;
  }

  /** The words every implementation draws from the seeds 42 and 0. */
  lemma CheckValues()
    ensures var w := Seeded(42);
            Output(w) == 1546998764402558742 && Output(After(w, 1)) == 6990951692964543102
            && Output(After(w, 2)) == 12544586762248559009
    ensures Output(Seeded(0)) == 11091344671253066420
  {
    SeededWith42();
    var w := Seeded(42);
    assert After(w, 1) == Next(After(w, 0)) && After(w, 2) == Next(After(w, 1));
    assert Next(w) == State(0xCD2430EA93C77C02, 0xD26AB6428E8200C4, 0x3CE231BCDEE2F1C7, 0x8252EE1E60599785);
    assert Next(Next(w)).s1 == 0x23ACB714C3A78D01;
    assert Mix(Advance(Advance(0))) == 0x6E789E6AA1B965F4;
  }

  lemma AdvanceIsInjective(z: bv64, z': bv64)
    requires Advance(z) == Advance(z')
    ensures z == z'
  {
    RetreatAdvance(z);
    RetreatAdvance(z');
  }

  lemma MixTells(z: bv64, z': bv64)
    requires Mix(z) == Mix(z')
    ensures z == z'
  {
    MixIsUndone(z);
    MixIsUndone(z');
  }

  /** The four words of a fresh generator are all different. */
  lemma SeededWordsDiffer(seed: bv64)
    ensures var w := Seeded(seed);
            && w.s0 != w.s1 && w.s0 != w.s2 && w.s0 != w.s3 && w.s1 != w.s2 && w.s1 != w.s3 && w.s2 != w.s3
  {
    var a := Advance(seed);
    var b := Advance(a);
    var c := Advance(b);
    AdvanceMoves(a);
    AdvanceMoves(b);
    AdvanceMoves(c);
    AdvanceTwiceMoves(a);
    AdvanceTwiceMoves(b);
    AdvanceThriceMoves(a);
    MixIsUndone(a);
    MixIsUndone(b);
    MixIsUndone(c);
    MixIsUndone(Advance(c));
  }

  /** Different seeds give different generators. */
  lemma SeedsDiffer(seed: bv64, seed': bv64)
    requires Seeded(seed) == Seeded(seed')
    ensures seed == seed'
  {
    MixTells(Advance(seed), Advance(seed'));
    AdvanceIsInjective(seed, seed');
  }

  /** From every seed, after any number of draws, the state is not the all-zero one. */
  lemma {:induction false} NeverZero(seed: bv64, draws: nat)
    ensures After(Seeded(seed), draws) != ZERO
  {
    if draws == 0 {
      SeededWordsDiffer(seed);
    } else {
      NeverZero(seed, draws - 1);
      NextIsABijection(After(Seeded(seed), draws - 1));
    }
  }

  /** No two states ever run together. */
  lemma {:induction false} AfterIsInjective(w: State, w': State, draws: nat)
    requires After(w, draws) == After(w', draws)
    ensures w == w'
  {
    if draws > 0 {
      NextIsUndone(After(w, draws - 1));
      NextIsUndone(After(w', draws - 1));
      AfterIsInjective(w, w', draws - 1);
    }
  }

  lemma {:induction false} AfterSplits(w: State, m: nat, k: nat)
    ensures After(w, m + k) == After(After(w, k), m)
  {
    if m > 0 { AfterSplits(w, m - 1, k); }
  }

  /** A run of states that ever repeats comes back to its own start: there is no lead-in. */
  lemma RepeatsFromTheStart(w: State, m: nat, n: nat)
    requires m <= n && After(w, m) == After(w, n)
    ensures After(w, n - m) == w
  {
    AfterSplits(w, m, n - m);
    AfterIsInjective(After(w, n - m), w, m);
  }

  // ------------------------------------------------------------------ the generator

  /** The word drawn from a state after `k` earlier draws. */
  ghost function Draw(w: State, k: nat): nat {
    Output(After(w, k)) as nat
  }

  /** The words are numbered from 0 to WORDS - 1. */
  lemma WordsAreNumbered(x: bv64)
    ensures x as nat < WORDS && (0xFFFF_FFFF_FFFF_FFFF as bv64) as nat == WORDS - 1
  {
  }

  /** The word x is accepted for the bound n and gives j. */
  predicate Gives(x: nat, n: nat, j: nat)
    requires 0 < n < WORDS
  {
    Accepted(n, x) && x % n == j
  }

  /** The first words drawn from the seed 42, as numbers. */
  lemma FirstWords()
    ensures var w := Seeded(42);
            Draw(w, 0) == 1546998764402558742 && Draw(w, 1) == 6990951692964543102 && Draw(w, 2) == 12544586762248559009
            && Draw(w, 3) == 17057574109182124193
  {
    CheckValues();
    SeededWith42();
    var w := Seeded(42);
    assert After(w, 3) == Next(After(w, 2)) && After(w, 2) == Next(After(w, 1)) && After(w, 1) == Next(After(w, 0));
    assert Next(Next(w)) == State(0x9D1C68B67D1CEB43, 0x23ACB714C3A78D01, 0x9D431C524CAD8DC5, 0x72E82A070B0B9DDB);
    assert Next(Next(Next(w))).s1 == 0x23F3C3F0F216EB87;
  }

  /** Those words are accepted for the bounds 10, 10, 6 and 1000000007, and give what every implementation draws; below
      1 any word gives 0. */
  lemma BoundedWords(x: nat)
    ensures Gives(1546998764402558742, 10, 2) && Gives(6990951692964543102, 10, 2) && Gives(12544586762248559009, 6, 5)
    ensures Gives(17057574109182124193, 1000000007, 779106270) && Gives(x, 1, 0)
  {
  }

  class Rng {
    var s0: bv64
    var s1: bv64
    var s2: bv64
    var s3: bv64

    ghost function Now(): State
      reads this
    {
      State(s0, s1, s2, s3)
    }

    constructor (seed: bv64)
      ensures Now() == Seeded(seed) && Now() != ZERO
    {
      var state, a, b, c, d := seed, 0, 0, 0, 0;
      state, a := Splitmix(state);
      state, b := Splitmix(state);
      state, c := Splitmix(state);
      state, d := Splitmix(state);
      s0, s1, s2, s3 := a, b, c, d;
      new;
      NeverZero(seed, 0);
    }

    method NextU64() returns (result: bv64)
      modifies this
      ensures result == Output(old(Now())) && Now() == Next(old(Now()))
    {
      result := Times9(Rotl(Times5(s1), 7));
      var t := Up17(s1);
      s2 := Xor(s2, s0);
      s3 := Xor(s3, s1);
      s1 := Xor(s1, s2);
      s0 := Xor(s0, s3);
      s2 := Xor(s2, t);
      s3 := Rotl(s3, 45);
    }

    /** A number below `n`, by rejection. The loop ends at the first draw not rejected; `tries` is the promise
        that there is one, without which the program would draw for ever. */
    method Below(n: nat, ghost tries: nat) returns (r: Result<nat>, ghost used: nat)
      requires n < WORDS
      requires n > 0 ==> Accepted(n, Draw(Now(), tries))
      modifies this
      ensures n == 0 ==> r == Err(DivByZero) && Now() == old(Now())
      ensures n > 0 ==>
                && used <= tries
                && (forall k :: 0 <= k < used ==> !Accepted(n, Draw(old(Now()), k)))
                && Accepted(n, Draw(old(Now()), used))
                && r == Ok(Draw(old(Now()), used) % n) && r.value < n
                && Now() == After(old(Now()), used + 1)
    {
      used := 0;
      if n == 0 {
        return Err(DivByZero), 0;
      }
      ghost var w := Now();
      var rejectUnder := ((0 - n) % WORDS) % n;
      var x := NextU64();
      while x as nat < rejectUnder
        invariant used <= tries && x as nat == Draw(w, used) && Now() == After(w, used + 1)
        invariant rejectUnder == RejectUnder(n)
        invariant forall k :: 0 <= k < used ==> !Accepted(n, Draw(w, k))
        decreases tries - used
      {
        x := NextU64();
        used := used + 1;
      }
      r := Ok(x as nat % n);
    }
  }
}
