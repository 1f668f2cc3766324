/**
 * Ecliptic degrees and the one lifting step the table generator uses
 * everywhere: add whole turns of 360 degrees to a value until it is no
 * longer below a base.
 */
module Angles {

  /** k full turns of the circle, in degrees. */
  function Turns(k: nat): real {
    360.0 * (k as real)
  }

  /** d is a non-negative whole number of turns: d / 360 is a natural number. */
  predicate WholeTurns(d: real) {
    0.0 <= d && (d / 360.0).Floor as real == d / 360.0
  }

  lemma TurnsAreWhole(k: nat)
    ensures WholeTurns(Turns(k))
  {
    assert Turns(k) / 360.0 == k as real;
  }

  /** The number of turns in a whole number of turns. */
  lemma TurnCount(d: real) returns (k: nat)
    requires WholeTurns(d)
    ensures d == Turns(k)
  {
    k := (d / 360.0).Floor;
  }

  /**
   * r is what "while r < base: r += 360" makes of v: v plus whole turns,
   * at or above base, and one turn less would be below base (or no turn
   * was added at all).
   */
  ghost predicate IsLeastLift(r: real, v: real, base: real) {
    && WholeTurns(r - v)
    && base <= r
    && (r == v || r - 360.0 < base)
  }

  lemma NoTurns()
    ensures WholeTurns(0.0)
  {
    assert 0.0 == Turns(0);
  }

  lemma OneMoreTurn(d: real)
    requires WholeTurns(d)
    ensures WholeTurns(d + 360.0)
  {
    var k := TurnCount(d);
    assert d + 360.0 == Turns(k + 1);
    TurnsAreWhole(k + 1);
  }

  /** Python's `x % 360.0` on exact reals. */
  function Normalize(x: real): (r: real)
    ensures 0.0 <= r < 360.0
  {
    x - 360.0 * ((x / 360.0).Floor as real)
  }

  /** How many turns the lifting loop adds: the gap to base in turns, rounded up. */
  function TurnsNeeded(v: real, base: real): nat {
    if base <= v then 0 else -(((v - base) / 360.0).Floor)
  }

  /** The value of the lifting loop, in closed form. */
  function Lift(v: real, base: real): (r: real)
    ensures IsLeastLift(r, v, base)
  {
    var k := TurnsNeeded(v, base);
    assert (v + Turns(k)) - v == Turns(k);
    TurnsAreWhole(k);
    v + Turns(k)
  }

  /** The least lift is unique: any r with IsLeastLift(r, v, base) is Lift(v, base). */
  lemma LeastLiftUnique(r: real, v: real, base: real)
    requires IsLeastLift(r, v, base)
    ensures r == Lift(v, base)
  {
    var s := Lift(v, base);
    var j := TurnCount(r - v);
    var k := TurnCount(s - v);
    if j < k {
      assert false;
    } else if k < j {
      assert false;
    }
  }

  /**
   * The loop `while v < base: v += 360.0`, which the generator runs when it
   * unwraps a sample, lifts a target degree and anchors a bisection midpoint.
   */
  method LiftAbove(v: real, base: real) returns (r: real)
    ensures IsLeastLift(r, v, base)
    ensures r == Lift(v, base)
  {
    r := v;
    ghost var k: nat := 0;
    while r < base
      invariant r == v + Turns(k)
      invariant k == 0 || r - 360.0 < base
      decreases if r < base then (base - r).Floor + 1 else 0
    {
      r := r + 360.0;
      k := k + 1;
    }
    assert r - v == Turns(k);
    TurnsAreWhole(k);
    LeastLiftUnique(r, v, base);
  }

  /** A lift of a degree already in [0, 360) reduces back to it. */
  lemma NormalizeUndoesTurns(v: real, d: real)
    requires 0.0 <= v < 360.0
    requires WholeTurns(d)
    ensures Normalize(v + d) == v
  {
    var k := TurnCount(d);
    var q := (v + d) / 360.0;
    assert q == v / 360.0 + (k as real);
    assert q.Floor == k;
  }

  /** A value that is v plus whole turns, for v in [0, 360), reduces to v. */
  lemma NormalizeRecovers(r: real, v: real)
    requires 0.0 <= v < 360.0
    requires WholeTurns(r - v)
    ensures Normalize(r) == v
  {
    NormalizeUndoesTurns(v, r - v);
    assert v + (r - v) == r;
  }

  /**
   * Lifting a degree in [0, 360) above a non-negative base lands less than
   * one turn above the base.
   */
  lemma LiftWithinOneTurn(v: real, base: real)
    requires 0.0 <= v < 360.0 && 0.0 <= base
    ensures base <= Lift(v, base) < base + 360.0
    ensures Normalize(Lift(v, base)) == v
  {
    NormalizeUndoesTurns(v, Lift(v, base) - v);
  }
}
