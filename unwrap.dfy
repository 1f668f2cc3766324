/**
 * `_unwrap_degrees`: turn a time-ordered series of circular degree samples
 * into a non-decreasing track by adding whole turns to each sample.
 */
module Unwrap {
  import opened Angles

  ghost predicate NonDecreasing(s: seq<real>) {
    forall i, j :: 0 <= i <= j < |s| ==> s[i] <= s[j]
  }

  /** Every sample lies in [0, 360), as the ephemeris promises. */
  ghost predicate InCircle(degs: seq<real>) {
    forall i :: 0 <= i < |degs| ==> 0.0 <= degs[i] < 360.0
  }

  /**
   * One iteration of the unwrap loop: the wrap test against prev - 180,
   * then the "force monotonic" loop. Either way the sample ends up on the
   * least branch at or above prev.
   */
  function UnwrapStep(cur: real, prev: real): (r: real)
    ensures IsLeastLift(r, cur, prev)
  {
    if cur < prev - 180.0 then
      var r := Lift(cur + 360.0, prev);
      OneMoreTurn(r - (cur + 360.0));
      r
    else
      Lift(cur, prev)
  }

  /**
   * The 180-degree wrap test decides nothing on its own: the loop after it
   * reaches the same value from the raw sample.
   */
  lemma WrapTestIsSubsumed(cur: real, prev: real)
    ensures UnwrapStep(cur, prev) == Lift(cur, prev)
  {
    LeastLiftUnique(UnwrapStep(cur, prev), cur, prev);
  }

  /** The track `_unwrap_degrees` builds, as a function of the samples. */
  function Unwrapped(degs: seq<real>): (out: seq<real>)
    requires |degs| > 0
    ensures |out| == |degs| && out[0] == degs[0]
    ensures forall i :: 0 < i < |out| ==> IsLeastLift(out[i], degs[i], out[i - 1])
    decreases |degs|
  {
    if |degs| == 1 then [degs[0]]
    else
      var prev := Unwrapped(degs[..|degs| - 1]);
      prev + [UnwrapStep(degs[|degs| - 1], prev[|prev| - 1])]
  }

  /** `_unwrap_degrees`, appending one unwrapped sample per iteration. */
  method UnwrapDegrees(degSeries: seq<real>) returns (out: seq<real>)
    requires |degSeries| > 0
    ensures out == Unwrapped(degSeries)
  {
    out := [degSeries[0]];
    for i := 1 to |degSeries|
      invariant out == Unwrapped(degSeries[..i])
    {
      var prev := out[|out| - 1];
      var cur := degSeries[i];
      if cur < prev - 180.0 {
        cur := cur + 360.0;
      }
      cur := LiftAbove(cur, prev);
      assert degSeries[..i + 1][..i] == degSeries[..i];
      out := out + [cur];
    }
    assert degSeries[..|degSeries|] == degSeries;
  }

  lemma {:induction false} AdjacentOrderIsOrder(s: seq<real>)
    requires forall i :: 0 < i < |s| ==> s[i - 1] <= s[i]
    ensures NonDecreasing(s)
  {
    if |s| > 1 {
      var p := s[..|s| - 1];
      AdjacentOrderIsOrder(p);
      assert forall i :: 0 <= i < |p| ==> p[i] == s[i];
      forall i | 0 <= i < |s| - 1
        ensures s[i] <= s[|s| - 1]
      {
        assert p[i] <= p[|p| - 1];
      }
    }
  }

  /** The unwrapped track never decreases. */
  lemma UnwrappedNonDecreasing(degs: seq<real>)
    requires |degs| > 0
    ensures NonDecreasing(Unwrapped(degs))
  {
    var out := Unwrapped(degs);
    forall i | 0 < i < |out|
      ensures out[i - 1] <= out[i]
    {
      assert IsLeastLift(out[i], degs[i], out[i - 1]);
    }
    AdjacentOrderIsOrder(out);
  }

  /** Each unwrapped value is its sample plus a non-negative whole number of turns. */
  lemma UnwrappedTurns(degs: seq<real>)
    requires |degs| > 0
    ensures forall i :: 0 <= i < |degs| ==> WholeTurns(Unwrapped(degs)[i] - degs[i])
  {
    TrackTurns(degs, Unwrapped(degs));
  }

  lemma TrackTurns(degs: seq<real>, out: seq<real>)
    requires |out| == |degs| > 0 && out[0] == degs[0]
    requires forall i :: 0 < i < |out| ==> IsLeastLift(out[i], degs[i], out[i - 1])
    ensures forall i :: 0 <= i < |degs| ==> WholeTurns(out[i] - degs[i])
  {
    forall i | 0 <= i < |degs|
      ensures WholeTurns(out[i] - degs[i])
    {
      if i == 0 {
        NoTurns();
        assert out[0] - degs[0] == 0.0;
      } else {
        assert IsLeastLift(out[i], degs[i], out[i - 1]);
      }
    }
  }

  /** For samples in [0, 360), reducing the track modulo 360 gives the samples back. */
  lemma UnwrappedWrapsBack(degs: seq<real>)
    requires |degs| > 0 && InCircle(degs)
    ensures forall i :: 0 <= i < |degs| ==> Normalize(Unwrapped(degs)[i]) == degs[i]
  {
    var out := Unwrapped(degs);
    TrackTurns(degs, out);
    TrackWrapsBack(degs, out);
  }

  lemma TrackWrapsBack(degs: seq<real>, out: seq<real>)
    requires |out| == |degs| && InCircle(degs)
    requires forall i :: 0 <= i < |degs| ==> WholeTurns(out[i] - degs[i])
    ensures forall i :: 0 <= i < |degs| ==> Normalize(out[i]) == degs[i]
  {
    forall i | 0 <= i < |degs|
      ensures Normalize(out[i]) == degs[i]
    {
      NormalizeRecovers(out[i], degs[i]);
    }
  }

  /**
   * For samples in [0, 360), each unwrapped value lies at most one turn
   * (exclusive) above its predecessor: the unwrapper never skips a turn.
   */
  lemma UnwrappedStepsBelowTurn(degs: seq<real>)
    requires |degs| > 0 && InCircle(degs)
    ensures forall i :: 0 < i < |degs| ==> 0.0 <= Unwrapped(degs)[i] - Unwrapped(degs)[i - 1] < 360.0
  {
    var out := Unwrapped(degs);
    TrackTurns(degs, out);
    TrackStepsBelowTurn(degs, out);
  }

  lemma TrackStepsBelowTurn(degs: seq<real>, out: seq<real>)
    requires |out| == |degs| && InCircle(degs)
    requires forall i :: 0 <= i < |degs| ==> WholeTurns(out[i] - degs[i])
    requires forall i :: 0 < i < |out| ==> IsLeastLift(out[i], degs[i], out[i - 1])
    ensures forall i :: 0 < i < |degs| ==> 0.0 <= out[i] - out[i - 1] < 360.0
  {
    forall i | 0 < i < |degs|
      ensures 0.0 <= out[i] - out[i - 1] < 360.0
    {
      assert 0.0 <= out[i - 1];
      assert IsLeastLift(out[i], degs[i], out[i - 1]);
    }
  }
}
