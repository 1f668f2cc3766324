/**
 * `_binary_search_crossing` and its helper `lon_unwrapped`: bisect a time
 * bracket for the instant the Sun's longitude, anchored on the branch of the
 * bracket's left end, reaches an unwrapped target.
 */
module Crossing {
  import opened Angles

  /**
   * The ephemeris: the Sun's apparent geocentric ecliptic longitude in
   * degrees, as the astronomy library reports it, at an instant counted in
   * microseconds (UTC).
   */
  type Ephemeris = int -> real

  /** `_sun_ecl_lon_deg`: the ephemeris longitude reduced with `% 360.0`. */
  function SunLongitude(eph: Ephemeris, t: int): (deg: real)
    ensures 0.0 <= deg < 360.0
  {
    Normalize(eph(t))
  }

  /** `lon_unwrapped(t)`: the longitude at t lifted onto the branch at or above baseWrap. */
  function Anchored(eph: Ephemeris, t: int, baseWrap: real): real {
    Lift(SunLongitude(eph, t), baseWrap)
  }

  /** `lon_unwrapped`, nested in `_binary_search_crossing`. */
  method LonUnwrapped(eph: Ephemeris, t: int, baseWrap: real) returns (v: real)
    ensures v == Anchored(eph, t, baseWrap)
    ensures IsLeastLift(v, SunLongitude(eph, t), baseWrap)
  {
    var lon := SunLongitude(eph, t);
    v := LiftAbove(lon, baseWrap);
  }

  /**
   * `timedelta / 2` on a span of d microseconds: Python divides and rounds
   * half to even.
   */
  function HalfSpan(d: int): (h: int)
    ensures d - 1 <= 2 * h <= d + 1
  {
    var q := d / 2;
    if d % 2 == 1 && q % 2 == 1 then q + 1 else q
  }

  /** On an odd span the half is the even one of the two nearest integers. */
  lemma HalfSpanRoundsToEven(d: int)
    ensures var h := HalfSpan(d);
      2 * h == d || (h % 2 == 0 && (2 * h == d - 1 || 2 * h == d + 1))
  {
  }

  /** The number of bisection steps the generator runs. */
  const BisectSteps: nat := 50

  function Pow2(n: nat): (p: nat)
    ensures p >= 1
  {
    if n == 0 then 1 else 2 * Pow2(n - 1)
  }

  /** 2^50 microseconds, the widest bracket that 50 steps pin down to one microsecond: about 35.7 years. */
  lemma BisectSpan()
    ensures Pow2(BisectSteps) == 1_125_899_906_842_624
  {
    assert Pow2(1) == 2 && Pow2(2) == 4 && Pow2(4) == 16 && Pow2(5) == 32;
    Pow2Add(5, 5);
    var p10 := Pow2(10);
    assert p10 == 1024;
    Pow2Add(10, 10);
    var p20 := Pow2(20);
    assert p20 == p10 * p10 == 1_048_576;
    Pow2Add(20, 20);
    var p40 := Pow2(40);
    assert p40 == p20 * p20 == 1_099_511_627_776;
    Pow2Add(40, 10);
    assert Pow2(50) == p40 * p10;
  }

  /** Powers of two multiply by adding exponents. */
  lemma {:induction false} Pow2Add(m: nat, n: nat)
    ensures Pow2(m + n) == Pow2(m) * Pow2(n)
  {
    if n > 0 {
      Pow2Add(m, n - 1);
      assert Pow2(m + n) == 2 * Pow2(m + n - 1);
    }
  }

  datatype Bracket = Bracket(lo: int, hi: int)

  /**
   * The test each bisection step makes at a midpoint: whether the longitude
   * there, anchored on the left bracket's branch, is still below the target.
   */
  type Probe = int -> bool

  /** `below` answers, at every instant, whether the anchored longitude is below the target. */
  ghost predicate IsBelowTarget(below: Probe, eph: Ephemeris, targetUnwrapped: real, baseWrap: real) {
    forall t {:trigger Anchored(eph, t, baseWrap)} :: below(t) == (Anchored(eph, t, baseWrap) < targetUnwrapped)
  }

  /** The probe `_binary_search_crossing` uses: `lon_unwrapped(mid) < target_unwrapped`. */
  function BelowTarget(eph: Ephemeris, targetUnwrapped: real, baseWrap: real): (below: Probe)
    ensures IsBelowTarget(below, eph, targetUnwrapped, baseWrap)
  {
    t => Anchored(eph, t, baseWrap) < targetUnwrapped
  }

  /**
   * The bracket after n more bisection steps from [lo, hi]. The width in the
   * decreases clause is never needed for termination; it stops the verifier
   * from unrolling all 50 steps whenever n is the literal step count.
   */
  function Bisect(below: Probe, lo: int, hi: int, n: nat): Bracket
    decreases n, hi - lo
  {
    if n == 0 then Bracket(lo, hi)
    else
      var mid := lo + HalfSpan(hi - lo);
      if below(mid) then Bisect(below, mid, hi, n - 1)
      else Bisect(below, lo, mid, n - 1)
  }

  /**
   * What each step keeps: the bracket stays inside [t0, t1]; its left end is
   * t0 or an instant the probe finds below the target; its right end is t1
   * or an instant the probe finds at or above it.
   */
  lemma {:induction false} BisectKeepsBracket(below: Probe, lo: int, hi: int, n: nat, t0: int, t1: int)
    requires t0 <= lo <= hi <= t1
    requires lo == t0 || below(lo)
    requires hi == t1 || !below(hi)
    ensures var b := Bisect(below, lo, hi, n);
      && t0 <= b.lo <= b.hi <= t1
      && (b.lo == t0 || below(b.lo))
      && (b.hi == t1 || !below(b.hi))
    decreases n
  {
    if n > 0 {
      var mid := lo + HalfSpan(hi - lo);
      if below(mid) {
        BisectKeepsBracket(below, mid, hi, n - 1, t0, t1);
      } else {
        BisectKeepsBracket(below, lo, mid, n - 1, t0, t1);
      }
    }
  }

  /** Each step at least halves the bracket's width, rounding up. */
  lemma BisectNarrows(below: Probe, lo: int, hi: int, n: nat)
    requires lo <= hi
    ensures var b := Bisect(below, lo, hi, n);
      lo <= b.lo <= b.hi <= hi && (b.hi - b.lo) * Pow2(n) < (hi - lo) + Pow2(n)
  {
    BisectKeepsBracket(below, lo, hi, n, lo, hi);
    BisectWidth(below, lo, hi, n);
  }

  /** The width bound alone, by induction on the steps. */
  lemma {:induction false} BisectWidth(below: Probe, lo: int, hi: int, n: nat)
    ensures var b := Bisect(below, lo, hi, n);
      (b.hi - b.lo) * Pow2(n) < (hi - lo) + Pow2(n)
    decreases n
  {
    var b := Bisect(below, lo, hi, n);
    if n == 0 {
      assert Pow2(n) == 1 && b == Bracket(lo, hi);
      assert (b.hi - b.lo) * 1 == hi - lo;
    } else {
      var mid := lo + HalfSpan(hi - lo);
      var p := Pow2(n - 1);
      if below(mid) {
        BisectWidth(below, mid, hi, n - 1);
        assert b == Bisect(below, mid, hi, n - 1);
        HalvingBound(b.hi - b.lo, hi - mid, hi - lo, p, Pow2(n));
      } else {
        BisectWidth(below, lo, mid, n - 1);
        assert b == Bisect(below, lo, mid, n - 1);
        HalvingBound(b.hi - b.lo, mid - lo, hi - lo, p, Pow2(n));
      }
    }
  }

  lemma HalvingBound(wb: int, w': int, w: int, p: int, p': int)
    requires p >= 1 && p' == 2 * p && wb * p < w' + p && 2 * w' <= w + 1
    ensures wb * p' < w + p'
  {
    assert wb * p' == 2 * (wb * p);
  }

  /**
   * With a bracket narrower than 2^n microseconds, n steps leave the crossing
   * pinned to within one microsecond; for the generator's 50 steps, 2^50
   * microseconds is about 35 years.
   */
  lemma BisectPrecision(below: Probe, t0: int, t1: int, n: nat)
    requires t0 <= t1 < t0 + Pow2(n)
    ensures var b := Bisect(below, t0, t1, n);
      t0 <= b.lo <= b.hi <= t1 && b.hi - b.lo <= 1
  {
    BisectNarrows(below, t0, t1, n);
    var b := Bisect(below, t0, t1, n);
    WidthBelowTwo(b.hi - b.lo, t1 - t0, Pow2(n));
  }

  lemma WidthBelowTwo(wb: int, w: int, p: int)
    requires 0 <= wb && 0 <= w < p && wb * p < w + p
    ensures wb <= 1
  {
    if wb >= 2 {
      assert false;
    }
  }

  /**
   * The bisection loop of `_binary_search_crossing`, run for `steps` steps.
   * The ghost `below` stands for the comparison the loop makes at each
   * midpoint; the only such probe is `BelowTarget`.
   */
  method Bisection(eph: Ephemeris, ghost below: Probe, t0: int, t1: int, targetUnwrapped: real, baseWrap: real,
                   steps: nat)
    returns (hit: int)
    requires t0 <= t1 && IsBelowTarget(below, eph, targetUnwrapped, baseWrap)
    ensures hit == Bisect(below, t0, t1, steps).hi
  {
    var lo, hi := t0, t1;
    var remaining: nat := steps;
    while remaining > 0
      invariant Bisect(below, lo, hi, remaining) == Bisect(below, t0, t1, steps)
    {
      var mid := lo + HalfSpan(hi - lo);
      var v := LonUnwrapped(eph, mid, baseWrap);
      if v < targetUnwrapped {
        lo := mid;
      } else {
        hi := mid;
      }
      remaining := remaining - 1;
    }
    hit := hi;
  }

  /** The instant `_binary_search_crossing` returns: the right end after 50 steps. */
  function CrossingInstant(eph: Ephemeris, t0: int, t1: int, targetUnwrapped: real, baseWrap: real): int {
    Bisect(BelowTarget(eph, targetUnwrapped, baseWrap), t0, t1, BisectSteps).hi
  }

  /**
   * The returned instant lies in [t0, t1], and unless it is t1 the anchored
   * longitude there has reached the target; the bracket it closes starts at
   * t0 or at an instant still below the target.
   */
  lemma CrossingBracketed(eph: Ephemeris, t0: int, t1: int, targetUnwrapped: real, baseWrap: real)
    requires t0 <= t1
    ensures var b := Bisect(BelowTarget(eph, targetUnwrapped, baseWrap), t0, t1, BisectSteps);
      && b.hi == CrossingInstant(eph, t0, t1, targetUnwrapped, baseWrap)
      && t0 <= b.lo <= b.hi <= t1
      && (b.lo == t0 || Anchored(eph, b.lo, baseWrap) < targetUnwrapped)
      && (b.hi == t1 || targetUnwrapped <= Anchored(eph, b.hi, baseWrap))
  {
    var below := BelowTarget(eph, targetUnwrapped, baseWrap);
    BisectKeepsBracket(below, t0, t1, BisectSteps, t0, t1);
    var b := Bisect(below, t0, t1, BisectSteps);
    assert below(b.lo) == (Anchored(eph, b.lo, baseWrap) < targetUnwrapped);
    assert below(b.hi) == (Anchored(eph, b.hi, baseWrap) < targetUnwrapped);
  }

  /**
   * When the bracket is narrower than 2^50 microseconds, the returned instant
   * is within one microsecond of an instant still below the target (or of t0).
   */
  lemma CrossingPrecise(eph: Ephemeris, t0: int, t1: int, targetUnwrapped: real, baseWrap: real)
    requires t0 <= t1 < t0 + Pow2(BisectSteps)
    ensures var b := Bisect(BelowTarget(eph, targetUnwrapped, baseWrap), t0, t1, BisectSteps);
      b.hi == CrossingInstant(eph, t0, t1, targetUnwrapped, baseWrap) && b.hi - b.lo <= 1
  {
    BisectPrecision(BelowTarget(eph, targetUnwrapped, baseWrap), t0, t1, BisectSteps);
  }

  /**
   * When the anchored longitude is at most the target at t0 and at least the
   * target at t1, the returned instant has reached the target; when the
   * bracket is also narrower than 2^50 microseconds, an instant at most one
   * microsecond earlier, not before t0, has not yet passed it.
   */
  lemma CrossingPinned(eph: Ephemeris, t0: int, t1: int, targetUnwrapped: real, baseWrap: real)
    requires t0 <= t1
    requires Anchored(eph, t0, baseWrap) <= targetUnwrapped <= Anchored(eph, t1, baseWrap)
    ensures var hit := CrossingInstant(eph, t0, t1, targetUnwrapped, baseWrap);
      && t0 <= hit <= t1
      && targetUnwrapped <= Anchored(eph, hit, baseWrap)
      && (t1 - t0 < Pow2(BisectSteps) ==>
            exists lo :: t0 <= lo && hit - 1 <= lo <= hit && Anchored(eph, lo, baseWrap) <= targetUnwrapped)
  {
    CrossingBracketed(eph, t0, t1, targetUnwrapped, baseWrap);
    var b := Bisect(BelowTarget(eph, targetUnwrapped, baseWrap), t0, t1, BisectSteps);
    assert Anchored(eph, b.lo, baseWrap) <= targetUnwrapped;
    if t1 - t0 < Pow2(BisectSteps) {
      CrossingPrecise(eph, t0, t1, targetUnwrapped, baseWrap);
    }
  }

  /** `_binary_search_crossing`: 50 bisection steps, returning the right end. */
  method BinarySearchCrossing(eph: Ephemeris, t0: int, t1: int, targetUnwrapped: real, baseWrap: real)
    returns (hit: int)
    requires t0 <= t1
    ensures hit == CrossingInstant(eph, t0, t1, targetUnwrapped, baseWrap)
  {
    hit := Bisection(eph, BelowTarget(eph, targetUnwrapped, baseWrap), t0, t1, targetUnwrapped, baseWrap, BisectSteps);
  }
}
