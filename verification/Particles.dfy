/** Particles bouncing in a square box, moved in whole steps and reflected only after they have left it. */
module Particles {
  import opened Counting
  import opened Division
  import opened Wrappers

  const SIDE: int := 10000

  /** One coordinate: where it is, and how far it moves a step. */
  datatype Motion = Motion(x: int, v: int)

  predicate Inside(x: int) {
    0 <= x <= SIDE
  }

  function Moved(m: Motion): Motion {
    var x := m.x + m.v;
    Motion(x, if Inside(x) then m.v else -m.v)
  }

  function After(m: Motion, steps: nat): Motion {
    if steps == 0 then m else Moved(After(m, steps - 1))
  }

  lemma {:induction false} AfterSplits(m: Motion, a: nat, b: nat)
    ensures After(m, a + b) == After(After(m, a), b)
  {
    if b > 0 { AfterSplits(m, a, b - 1); }
  }

  // ------------------------------------------------------------------ never far outside

  /** Inside, or one step from it: no coordinate overshoots twice running. */
  predicate Near(m: Motion) {
    Inside(m.x) || Inside(m.x + m.v)
  }

  /** Whatever the speed, what starts inside is always inside or about to come back, at the same speed. */
  lemma {:induction false} StaysNear(m: Motion, steps: nat)
    requires Near(m)
    ensures Near(After(m, steps))
    ensures After(m, steps).v == m.v || After(m, steps).v == -m.v
  {
    if steps > 0 { StaysNear(m, steps - 1); }
  }

  function Speed(m: Motion): int {
    if m.v < 0 then -m.v else m.v
  }

  /** So it is never further outside than one step, and no sum or change of sign leaves the 64-bit range unless the
      speed is within the box's width of it. */
  lemma NeverFarOutside(m: Motion, steps: nat)
    requires Inside(m.x)
    ensures -Speed(m) <= After(m, steps).x <= 10000 + Speed(m)
    ensures Speed(m) <= I64_MAX - 10000 ==>
              && Checked(After(m, steps).x + After(m, steps).v).Ok?
              && Checked(After(m, steps).x).Ok? && Checked(-After(m, steps).v).Ok?
  {
    StaysNear(m, steps);
  }

  // ------------------------------------------------------------------ the period

  /** How many steps from m it takes to leave the box upwards, and downwards, at m's speed. */
  function StepsUp(m: Motion): nat
    requires Inside(m.x) && m.v != 0
  {
    (SIDE - m.x) / Speed(m) + 1
  }

  function StepsDown(m: Motion): nat
    requires Inside(m.x) && m.v != 0
  {
    m.x / Speed(m) + 1
  }

  function Leg(m: Motion): nat
    requires Inside(m.x) && m.v != 0
  {
    StepsUp(m) + StepsDown(m)
  }

  /** The two turning points: the first places beyond either wall. */
  function Top(m: Motion): int
    requires Inside(m.x) && m.v != 0
  {
    m.x + StepsUp(m) * Speed(m)
  }

  function Bottom(m: Motion): int
    requires Inside(m.x) && m.v != 0
  {
    m.x - StepsDown(m) * Speed(m)
  }

  lemma TurningPoints(m: Motion)
    requires Inside(m.x) && m.v != 0
    ensures SIDE < Top(m) <= SIDE + Speed(m)
    ensures -Speed(m) <= Bottom(m) < 0
    ensures Leg(m) * Speed(m) == Top(m) - Bottom(m)
  {
    var v := Speed(m);
    assert SIDE - m.x == (SIDE - m.x) / v * v + (SIDE - m.x) % v;
    assert m.x == m.x / v * v + m.x % v;
  }

  /** Where a coordinate is i steps after turning at the top: down to the bottom, then up again. */
  function Cycle(top: int, leg: nat, v: int, i: nat): Motion {
    if i < leg then Motion(top - i * v, -v) else Motion(top - (2 * leg - i) * v, v)
  }

  ghost predicate Fits(top: int, leg: nat, v: int) {
    v > 0 && leg >= 2 && SIDE < top <= SIDE + v && -v <= top - leg * v < 0
  }

  lemma Between(top: int, leg: nat, v: int, i: int)
    requires Fits(top, leg, v)
    ensures 0 < i < leg ==> Inside(top - i * v)
    ensures i == 0 || i == leg ==> !Inside(top - i * v)
  {
    if 0 < i < leg {
      AtLeastOnce(i, v);
      AtLeastOnce(leg - i, v);
      assert (leg - i) * v == leg * v - i * v;
    }
  }

  lemma CycleStep(top: int, leg: nat, v: int, i: nat)
    requires Fits(top, leg, v) && i < 2 * leg
    ensures Moved(Cycle(top, leg, v, i)) == Cycle(top, leg, v, if i + 1 == 2 * leg then 0 else i + 1)
  {
    if i < leg {
      Between(top, leg, v, i + 1);
      assert top - i * v - v == top - (i + 1) * v;
    } else {
      Between(top, leg, v, 2 * leg - (i + 1));
      assert top - (2 * leg - i) * v + v == top - (2 * leg - (i + 1)) * v;
    }
  }

  lemma CyclePlacesDiffer(top: int, leg: nat, v: int, i: nat, j: nat)
    requires v > 0 && i < 2 * leg && j < 2 * leg && i != j
    ensures Cycle(top, leg, v, i) != Cycle(top, leg, v, j)
  {
    MultiplesAreFarApart(i - j, v);
    assert (i - j) * v == i * v - j * v;
    assert (2 * leg - j) * v - (2 * leg - i) * v == (i - j) * v;
  }

  function StepsToFirstTurn(m: Motion): nat
    requires Inside(m.x) && m.v != 0
  {
    if m.v > 0 then StepsUp(m) else StepsDown(m)
  }

  lemma InsideGoingUp(x: int, v: int, up: nat, k: nat)
    requires Inside(x) && v > 0 && SIDE < x + up * v <= SIDE + v && 0 < k <= up
    ensures Inside(x + k * v) <==> k < up
  {
    AtLeastOnce(k, v);
    if k < up {
      AtLeastOnce(up - k, v);
      assert (up - k) * v == up * v - k * v;
    }
  }

  lemma InsideGoingDown(x: int, v: int, down: nat, k: nat)
    requires Inside(x) && v > 0 && -v <= x - down * v < 0 && 0 < k <= down
    ensures Inside(x - k * v) <==> k < down
  {
    AtLeastOnce(k, v);
    if k < down {
      AtLeastOnce(down - k, v);
      assert (down - k) * v == down * v - k * v;
    }
  }

  /** Where k steps at the same speed lead. */
  function Straight(m: Motion, k: nat): int {
    if m.v > 0 then m.x + k * Speed(m) else m.x - k * Speed(m)
  }

  /** k steps on at the same speed a coordinate is still inside, if it has not come to its turning point. */
  lemma InsideUntilItTurns(m: Motion, k: nat)
    requires Inside(m.x) && m.v != 0 && 0 < k <= StepsToFirstTurn(m)
    ensures Inside(Straight(m, k)) <==> k < StepsToFirstTurn(m)
  {
    TurningPoints(m);
    if m.v > 0 {
      InsideGoingUp(m.x, Speed(m), StepsUp(m), k);
    } else {
      InsideGoingDown(m.x, Speed(m), StepsDown(m), k);
    }
  }

  lemma StraightStep(m: Motion, k: nat)
    ensures Straight(m, k) + m.v == Straight(m, k + 1)
  {
    assert (k + 1) * Speed(m) == k * Speed(m) + Speed(m);
  }

  /** Up to its first turn a coordinate keeps its direction; there it has passed a wall and turns. */
  lemma {:induction false} BeforeTheFirstTurn(m: Motion, k: nat)
    requires Inside(m.x) && m.v != 0 && k <= StepsToFirstTurn(m)
    ensures After(m, k) == Motion(Straight(m, k), if k < StepsToFirstTurn(m) then m.v else -m.v)
  {
    if k > 0 {
      BeforeTheFirstTurn(m, k - 1);
      InsideUntilItTurns(m, k);
      StraightStep(m, k - 1);
    }
  }

  /** The place in the cycle of the state n steps after the first turn. */
  function Phase(m: Motion, n: nat): nat
    requires Inside(m.x) && m.v != 0
  {
    (n + if m.v > 0 then 0 else Leg(m)) % (2 * Leg(m))
  }

  lemma CycleEnds(top: int, leg: nat, v: int)
    requires leg > 0
    ensures Cycle(top, leg, v, 0) == Motion(top, -v)
    ensures Cycle(top, leg, v, leg) == Motion(top - leg * v, v)
  {
  }

  lemma PhaseAtFirst(m: Motion)
    requires Inside(m.x) && m.v != 0
    ensures Phase(m, 0) == if m.v > 0 then 0 else Leg(m)
  {
    var a := if m.v > 0 then 0 else Leg(m);
    RemainderIsUnique(a, 2 * Leg(m), 0, a);
  }

  /** The first turn is at the turning point ahead. */
  lemma FirstTurn(m: Motion)
    requires Inside(m.x) && m.v != 0
    ensures After(m, StepsToFirstTurn(m)) == Motion(if m.v > 0 then Top(m) else Bottom(m), -m.v)
  {
    BeforeTheFirstTurn(m, StepsToFirstTurn(m));
  }

  lemma CycleStart(m: Motion)
    requires Inside(m.x) && m.v != 0
    ensures After(m, StepsToFirstTurn(m)) == Cycle(Top(m), Leg(m), Speed(m), Phase(m, 0))
  {
    FirstTurn(m);
    PhaseAtFirst(m);
    TurningPoints(m);
    CycleEnds(Top(m), Leg(m), Speed(m));
  }

  lemma CycleNext(m: Motion, n: nat)
    requires Inside(m.x) && m.v != 0
    ensures Moved(Cycle(Top(m), Leg(m), Speed(m), Phase(m, n))) == Cycle(Top(m), Leg(m), Speed(m), Phase(m, n + 1))
  {
    TurningPoints(m);
    NextRemainder(n + if m.v > 0 then 0 else Leg(m), 2 * Leg(m));
    CycleStep(Top(m), Leg(m), Speed(m), Phase(m, n));
  }

  lemma {:induction false} GoesRound(m: Motion, n: nat)
    requires Inside(m.x) && m.v != 0
    ensures After(m, StepsToFirstTurn(m) + n) == Cycle(Top(m), Leg(m), Speed(m), Phase(m, n))
  {
    if n == 0 {
      CycleStart(m);
    } else {
      GoesRound(m, n - 1);
      CycleNext(m, n - 1);
    }
  }

  /** How many steps it takes to go from one turning point to the other and back. */
  function Period(m: Motion): (p: nat)
    requires Inside(m.x) && m.v != 0
  {
    2 * Leg(m)
  }

  /** From its first turn on, a moving coordinate repeats after exactly that many steps, and no sooner. */
  lemma RepeatsWithItsPeriod(m: Motion, n: nat)
    requires Inside(m.x) && m.v != 0 && n >= StepsToFirstTurn(m)
    ensures Period(m) * Speed(m) == 2 * (Top(m) - Bottom(m))
    ensures After(m, n + Period(m)) == After(m, n)
    ensures forall later :: n < later < n + Period(m) ==> After(m, later) != After(m, n)
  {
    TurningPoints(m);
    assert 2 * Leg(m) * Speed(m) == 2 * (Leg(m) * Speed(m));
    ComesBack(m, n - StepsToFirstTurn(m));
    forall later | n < later < n + Period(m) ensures After(m, later) != After(m, n) {
      NotSooner(m, n - StepsToFirstTurn(m), later - n);
    }
  }

  lemma ComesBack(m: Motion, n: nat)
    requires Inside(m.x) && m.v != 0
    ensures After(m, StepsToFirstTurn(m) + n + Period(m)) == After(m, StepsToFirstTurn(m) + n)
  {
    GoesRound(m, n);
    GoesRound(m, n + Period(m));
    RoundLater(n + if m.v > 0 then 0 else Leg(m), Period(m));
  }

  lemma NotSooner(m: Motion, n: nat, d: nat)
    requires Inside(m.x) && m.v != 0 && 0 < d < Period(m)
    ensures After(m, StepsToFirstTurn(m) + n + d) != After(m, StepsToFirstTurn(m) + n)
  {
    var a := n + if m.v > 0 then 0 else Leg(m);
    GoesRound(m, n);
    GoesRound(m, n + d);
    SameRemainder(a, a + d, Period(m));
    CyclePlacesDiffer(Top(m), Leg(m), Speed(m), Phase(m, n), Phase(m, n + d));
  }

  /** A coordinate at rest inside the box stays where it is. */
  lemma {:induction false} AtRest(m: Motion, n: nat)
    requires Inside(m.x) && m.v == 0
    ensures After(m, n) == m
  {
    if n > 0 { AtRest(m, n - 1); }
  }

  // ------------------------------------------------------------------ the particles

  /** A particle's two coordinates. */
  datatype Body = Body(across: Motion, up: Motion)

  function MovedBoth(b: Body): Body {
    Body(Moved(b.across), Moved(b.up))
  }

  function AfterBoth(b: Body, steps: nat): Body {
    Body(After(b.across, steps), After(b.up, steps))
  }

  function EnergyOf(b: Body): nat {
    b.across.v * b.across.v + b.up.v * b.up.v
  }

  function TotalEnergy(bs: seq<Body>): nat {
    if bs == [] then 0 else TotalEnergy(bs[..|bs| - 1]) + EnergyOf(bs[|bs| - 1])
  }

  /** However long a body moves, reflection keeps its energy. */
  lemma {:induction false} EnergyIsKept(b: Body, steps: nat)
    ensures EnergyOf(AfterBoth(b, steps)) == EnergyOf(b)
  {
    if steps > 0 {
      EnergyIsKept(b, steps - 1);
      var a, u := After(b.across, steps - 1).v, After(b.up, steps - 1).v;
      assert (-a) * (-a) == a * a && (-u) * (-u) == u * u;
    }
  }

  lemma {:induction false} TotalEnergyIsKept(bs: seq<Body>, bs': seq<Body>, steps: nat)
    requires |bs'| == |bs| && forall i :: 0 <= i < |bs| ==> bs'[i] == AfterBoth(bs[i], steps)
    ensures TotalEnergy(bs') == TotalEnergy(bs)
  {
    if bs != [] {
      TotalEnergyIsKept(bs[..|bs| - 1], bs'[..|bs| - 1], steps);
      EnergyIsKept(bs[|bs| - 1], steps);
    }
  }

  class Particle {
    var x: int
    var y: int
    var vx: int
    var vy: int

    ghost function Now(): Body
      reads this
    {
      Body(Motion(x, vx), Motion(y, vy))
    }

    constructor (x: int, y: int, vx: int, vy: int)
      ensures Now() == Body(Motion(x, vx), Motion(y, vy))
    {
      this.x, this.y, this.vx, this.vy := x, y, vx, vy;
    }

    method Step()
      modifies this
      ensures Now() == MovedBoth(old(Now()))
    {
      x := x + vx;
      y := y + vy;
      if x < 0 || x > 10000 {
        vx := -vx;
      }
      if y < 0 || y > 10000 {
        vy := -vy;
      }
    }
  }

  ghost function Bodies(ps: seq<Particle>): (bs: seq<Body>)
    reads ps
    ensures |bs| == |ps| && forall i :: 0 <= i < |ps| ==> bs[i] == ps[i].Now()
  {
    if ps == [] then [] else Bodies(ps[..|ps| - 1]) + [ps[|ps| - 1].Now()]
  }

  lemma {:induction false} EnergyOfSome(bs: seq<Body>, i: nat)
    requires i < |bs|
    ensures TotalEnergy(bs[..i + 1]) == TotalEnergy(bs[..i]) + EnergyOf(bs[i]) <= TotalEnergy(bs)
    decreases |bs|
  {
    assert bs[..i + 1][..i] == bs[..i];
    if i + 1 == |bs| {
      assert bs[..i + 1] == bs;
    } else {
      var front := bs[..|bs| - 1];
      EnergyOfSome(front, i);
      assert front[..i + 1] == bs[..i + 1] && front[..i] == bs[..i];
    }
  }

  /** The expression as it is evaluated, each product and sum checked. */
  function SumOfSquares(a: int, b: int): Result<i64> {
    var aa, bb := Checked(a * a), Checked(b * b);
    if aa.Err? then aa else if bb.Err? then bb else CheckedAdd(aa.value, bb.value)
  }

  lemma SumOfSquaresFits(a: int, b: int)
    ensures SumOfSquares(a, b) == Checked(a * a + b * b)
  {
    assert a * a >= 0 && b * b >= 0;
  }

  lemma AddsUpChecked(before: int, own: int, total: int)
    requires 0 <= before <= I64_MAX && 0 <= own && before + own <= total
    ensures if Checked(own).Err? then Checked(own) == Checked(total)
            else CheckedAdd(before, own) == Checked(if before + own <= I64_MAX then before + own else total)
  {
  }

  /** Adding one body's energy to those before it. */
  lemma EnergyAdded(bs: seq<Body>, i: nat)
    requires i < |bs| && TotalEnergy(bs[..i]) <= I64_MAX
    ensures var own := SumOfSquares(bs[i].across.v, bs[i].up.v);
            if own.Err? then own == Checked(TotalEnergy(bs))
            else
              var sum := CheckedAdd(TotalEnergy(bs[..i]), own.value);
              sum == if sum.Ok? then Checked(TotalEnergy(bs[..i + 1])) else Checked(TotalEnergy(bs))
  {
    EnergyOfSome(bs, i);
    SumOfSquaresFits(bs[i].across.v, bs[i].up.v);
    var before, own: nat := TotalEnergy(bs[..i]), EnergyOf(bs[i]);
    AddsUpChecked(before, own, TotalEnergy(bs));
  }

  /** The squares and their sum are checked; as none is negative, one fails exactly when the total does not fit. */
  method Energy(ps: seq<Particle>) returns (e: Result<i64>)
    ensures e == Checked(TotalEnergy(Bodies(ps)))
  {
    e := Ok(0);
    for i := 0 to |ps|
      invariant TotalEnergy(Bodies(ps)[..i]) <= I64_MAX && e == Ok(TotalEnergy(Bodies(ps)[..i]))
    {
      EnergyAdded(Bodies(ps), i);
      var own := SumOfSquares(ps[i].vx, ps[i].vy);
      if own.Err? { return own; }
      e := CheckedAdd(e.value, own.value);
      if e.Err? { return; }
    }
    assert Bodies(ps)[..|ps|] == Bodies(ps);
  }

  /** One round: every particle moves one step, once. */
  method StepAll(ps: seq<Particle>)
    requires Distinct(ps)
    modifies ps
    ensures forall i :: 0 <= i < |ps| ==> ps[i].Now() == MovedBoth(old(ps[i].Now()))
  {
    for i := 0 to |ps|
      invariant forall j :: 0 <= j < i ==> ps[j].Now() == MovedBoth(old(ps[j].Now()))
      invariant forall j :: i <= j < |ps| ==> ps[j].Now() == old(ps[j].Now())
    {
      ps[i].Step();
    }
  }

  /** All rounds: each particle ends where its own motion takes it, and the energy is what it was. */
  method Run(ps: seq<Particle>, rounds: nat) returns (e: Result<i64>)
    requires Distinct(ps)
    modifies ps
    ensures forall i :: 0 <= i < |ps| ==> ps[i].Now() == AfterBoth(old(ps[i].Now()), rounds)
    ensures e == Checked(TotalEnergy(old(Bodies(ps))))
  {
    ghost var start := Bodies(ps);
    for t := 0 to rounds
      invariant forall i :: 0 <= i < |ps| ==> ps[i].Now() == AfterBoth(start[i], t)
    {
      StepAll(ps);
      assert forall i :: 0 <= i < |ps| ==> MovedBoth(AfterBoth(start[i], t)) == AfterBoth(start[i], t + 1);
    }
    TotalEnergyIsKept(start, Bodies(ps), rounds);
    e := Energy(ps);
  }

  // ------------------------------------------------------------------ the program's own particles

  /** The k-th particle made. */
  function Made(k: nat): Body {
    Body(Motion(k * 5, k % 7 - 3), Motion(k * 3, k % 5 - 2))
  }

  function AllMade(n: nat): (bs: seq<Body>)
    ensures |bs| == n && forall k :: 0 <= k < n ==> bs[k] == Made(k)
  {
    if n == 0 then [] else AllMade(n - 1) + [Made(n - 1)]
  }

  lemma MadeIsSlow(k: nat)
    ensures EnergyOf(Made(k)) <= 13
  {
    SquareAtMost(k % 7 - 3, 3);
    SquareAtMost(k % 5 - 2, 2);
  }

  lemma SquareAtMost(v: int, n: int)
    requires -n <= v <= n
    ensures v * v <= n * n
  {
    assert n * n - v * v == (n - v) * (n + v);
  }

  lemma {:induction false} AllMadeAreSlow(n: nat)
    ensures TotalEnergy(AllMade(n)) <= 13 * n
  {
    if n > 0 {
      AllMadeAreSlow(n - 1);
      MadeIsSlow(n - 1);
    }
  }

  /** The squares of the speeds across and up of the first n of them: they come round every seven and every five. */
  function SquaresAcross(n: nat): nat {
    28 * (n / 7) + [0, 9, 13, 14, 14, 15, 19][n % 7]
  }

  function SquaresUp(n: nat): nat {
    10 * (n / 5) + [0, 4, 5, 5, 6][n % 5]
  }

  lemma SquaresRound(n: nat)
    ensures SquaresAcross(n + 1) == SquaresAcross(n) + (n % 7 - 3) * (n % 7 - 3)
    ensures SquaresUp(n + 1) == SquaresUp(n) + (n % 5 - 2) * (n % 5 - 2)
  {
    NextRemainder(n, 7);
    NextRemainder(n, 5);
  }

  function SquaresMade(n: nat): nat { SquaresAcross(n) + SquaresUp(n) }

  lemma SquaresMadeRound(n: nat)
    ensures SquaresMade(n + 1) == SquaresMade(n) + EnergyOf(Made(n))
  {
    SquaresRound(n);
  }

  lemma NoneMade()
    ensures TotalEnergy(AllMade(0)) == SquaresMade(0)
  {
  }

  lemma OneMoreMade(n: nat)
    ensures TotalEnergy(AllMade(n + 1)) == TotalEnergy(AllMade(n)) + EnergyOf(Made(n))
  {
    assert AllMade(n + 1)[..n] == AllMade(n);
  }

  lemma {:induction false} AllMadeHave(n: nat)
    ensures TotalEnergy(AllMade(n)) == SquaresMade(n)
  {
    if n == 0 {
      NoneMade();
    } else {
      AllMadeHave(n - 1);
      OneMoreMade(n - 1);
      SquaresMadeRound(n - 1);
    }
  }

  /** Of two thousand particles, one and the same whatever the rounds. */
  lemma EnergyOf2000()
    ensures TotalEnergy(AllMade(2000)) == 11995
  {
    AllMadeHave(2000);
  }

  /** The whole program, which makes 2000 particles and moves them 100000 rounds, for any numbers of both: the energy
      it writes does not depend on the rounds, and the first particle is where its own motion takes it. */
  method Program(count: nat, rounds: nat) returns (energy: Result<i64>, first: Option<(int, int)>)
    ensures energy == Checked(TotalEnergy(AllMade(count)))
    ensures 13 * count <= I64_MAX ==> energy == Ok(SquaresMade(count))
    ensures count == 2000 ==> energy == Ok(11995)
    ensures first == if count == 0 then None else Some((After(Motion(0, -3), rounds).x, After(Motion(0, -2), rounds).x))
  {
    var ps: seq<Particle> := [];
    for k := 0 to count
      invariant |ps| == k && Distinct(ps) && fresh(ps)
      invariant forall i :: 0 <= i < k ==> ps[i].Now() == Made(i)
    {
      var p := new Particle(k * 5, k * 3, k % 7 - 3, k % 5 - 2);
      ps := ps + [p];
    }
    assert Bodies(ps) == AllMade(count);
    energy := Run(ps, rounds);
    AllMadeAreSlow(count);
    AllMadeHave(count);
    if count == 2000 { EnergyOf2000(); }
    first := if count == 0 then None else Some((ps[0].x, ps[0].y));
  }
}
