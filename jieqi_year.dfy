/**
 * `generate_year`: sample the Sun's longitude over one UTC calendar year,
 * unwrap the samples, and for each of the 24 terms lift its degree onto the
 * track, find the first bracketing pair of samples and bisect it.
 */
module JieqiYear {
  import opened Wrappers
  import opened Angles
  import opened Unwrap
  import opened Crossing
  import opened SolarTerms

  const MicrosPerHour: int := 3_600_000_000
  const MicrosPerDay: int := 86_400_000_000

  /** Python's datetime accepts years 1 through 9999. */
  const MinYear: int := 1
  const MaxYear: int := 9999

  /** One record of a year's table: the term and the instant of its crossing. */
  datatype TermHit = TermHit(name: string, degree: int, instant: int)

  datatype YearError =
    | YearOutOfRange(year: int)                 // datetime(year, 1, 1) or datetime(year + 1, 1, 1) is invalid
    | BracketNotFound(name: string, degree: int) // "failed to bracket term"
    | WrongCount(count: int)                    // the final sanity check

  /** Days from 0001-01-01 to January 1 of `year` (proleptic Gregorian, as Python counts). */
  function DaysBeforeYear(year: int): int {
    var y := year - 1;
    y * 365 + y / 4 - y / 100 + y / 400
  }

  /** The instant 00:00 UTC on January 1 of `year`, in microseconds since 0001-01-01T00:00Z. */
  function JanFirst(year: int): int {
    DaysBeforeYear(year) * MicrosPerDay
  }

  /** A calendar year is 365 or 366 days long, so the sampling window is never empty. */
  lemma YearLength(year: int)
    ensures JanFirst(year + 1) - JanFirst(year) == 365 * MicrosPerDay
         || JanFirst(year + 1) - JanFirst(year) == 366 * MicrosPerDay
  {
    var y := year - 1;
    var a := (y + 1) / 4 - y / 4;
    var b := (y + 1) / 100 - y / 100;
    var c := (y + 1) / 400 - y / 400;
    FloorStep4(y);
    FloorStep100(y);
    FloorStep400(y);
    if b == 1 {
      HundredsAreFours(y + 1);
    }
    if c == 1 {
      FourHundredsAreHundreds(y + 1);
    }
    var d := DaysBeforeYear(year + 1) - DaysBeforeYear(year);
    assert d == 365 + a - b + c;
    assert d == 365 || d == 366;
    assert JanFirst(year + 1) - JanFirst(year) == d * MicrosPerDay;
  }

  lemma FloorStep4(y: int)
    ensures (y + 1) / 4 - y / 4 == (if (y + 1) % 4 == 0 then 1 else 0)
  {
  }

  lemma FloorStep100(y: int)
    ensures (y + 1) / 100 - y / 100 == (if (y + 1) % 100 == 0 then 1 else 0)
  {
  }

  lemma FloorStep400(y: int)
    ensures (y + 1) / 400 - y / 400 == (if (y + 1) % 400 == 0 then 1 else 0)
  {
  }

  lemma HundredsAreFours(x: int)
    requires x % 100 == 0
    ensures x % 4 == 0
  {
    var q := x / 100;
    assert x == 4 * (25 * q);
  }

  lemma FourHundredsAreHundreds(x: int)
    requires x % 400 == 0
    ensures x % 100 == 0
  {
    var q := x / 400;
    assert x == 100 * (4 * q);
  }

  /** The sampling instants: start, start + step, ... up to end. */
  function Grid(start: int, end: int, step: int): (ts: seq<int>)
    requires step > 0
    ensures |ts| > 0 <==> start <= end
    decreases end - start
  {
    if start > end then [] else [start] + Grid(start + step, end, step)
  }

  /**
   * The grid starts at `start`, stays within [start, end], advances by
   * exactly `step`, and stops at the last instant not past `end`.
   */
  lemma {:induction false} GridShape(start: int, end: int, step: int)
    requires step > 0
    ensures var ts := Grid(start, end, step);
      && (|ts| > 0 ==> ts[0] == start && end < ts[|ts| - 1] + step)
      && (forall i :: 0 <= i < |ts| ==> start <= ts[i] <= end)
      && (forall i :: 0 < i < |ts| ==> ts[i] == ts[i - 1] + step)
    decreases end - start
  {
    if start <= end {
      GridShape(start + step, end, step);
      var ts := Grid(start, end, step);
      var rest := Grid(start + step, end, step);
      assert ts == [start] + rest;
      assert forall i :: 0 < i < |ts| ==> ts[i] == rest[i - 1];
    }
  }

  /** The sampling instants strictly increase. */
  lemma {:induction false} GridIncreasing(start: int, end: int, step: int)
    requires step > 0
    ensures var ts := Grid(start, end, step);
      forall i, j :: 0 <= i < j < |ts| ==> ts[i] < ts[j]
    decreases end - start
  {
    if start <= end {
      GridIncreasing(start + step, end, step);
      GridShape(start + step, end, step);
      var ts := Grid(start, end, step);
      var rest := Grid(start + step, end, step);
      assert ts == [start] + rest;
      forall i, j | 0 <= i < j < |ts|
        ensures ts[i] < ts[j]
      {
        assert ts[j] == rest[j - 1];
        if i > 0 {
          assert ts[i] == rest[i - 1];
        }
      }
    }
  }

  /** The `times` loop: append `cur` while `cur <= end`, stepping by `step`. */
  method SampleTimes(start: int, end: int, step: int) returns (times: seq<int>)
    requires step > 0
    ensures times == Grid(start, end, step)
  {
    times := [];
    var cur := start;
    while cur <= end
      invariant times + Grid(cur, end, step) == Grid(start, end, step)
      decreases end - cur
    {
      assert Grid(cur, end, step) == [cur] + Grid(cur + step, end, step);
      assert times + Grid(cur, end, step) == (times + [cur]) + Grid(cur + step, end, step);
      times := times + [cur];
      cur := cur + step;
    }
    assert times + [] == times;
  }

  /** `lons`: the Sun's longitude at each sampling instant. */
  function Sample(eph: Ephemeris, times: seq<int>): (lons: seq<real>)
    ensures |lons| == |times| && InCircle(lons)
    ensures forall i :: 0 <= i < |times| ==> lons[i] == SunLongitude(eph, times[i])
  {
    seq(|times|, i requires 0 <= i < |times| => SunLongitude(eph, times[i]))
  }

  /** Samples i and i + 1 of the track bracket x. */
  predicate Brackets(u: seq<real>, i: int, x: real) {
    0 <= i && i + 1 < |u| && u[i] <= x <= u[i + 1]
  }

  /** The bracket search, from index i on: the first bracketing pair, if any. */
  function FirstBracketFrom(u: seq<real>, x: real, i: nat): (r: Option<nat>)
    ensures r.Some? ==> i <= r.value && Brackets(u, r.value, x)
    ensures r.Some? ==> forall j :: i <= j < r.value ==> !Brackets(u, j, x)
    ensures r.None? ==> forall j :: i <= j ==> !Brackets(u, j, x)
    decreases |u| - i
  {
    if i + 1 >= |u| then None
    else if u[i] <= x <= u[i + 1] then Some(i)
    else FirstBracketFrom(u, x, i + 1)
  }

  /** The `for i in range(len(lons_u) - 1)` search with its `break`. */
  method FindBracket(lonsU: seq<real>, targetU: real) returns (idx: Option<nat>)
    ensures idx == FirstBracketFrom(lonsU, targetU, 0)
    ensures idx.Some? ==> Brackets(lonsU, idx.value, targetU)
    ensures idx.Some? ==> forall j :: 0 <= j < idx.value ==> !Brackets(lonsU, j, targetU)
    ensures idx.None? ==> forall j :: 0 <= j ==> !Brackets(lonsU, j, targetU)
  {
    var i := 0;
    while i + 1 < |lonsU|
      invariant FirstBracketFrom(lonsU, targetU, i) == FirstBracketFrom(lonsU, targetU, 0)
      decreases |lonsU| - i
    {
      if lonsU[i] <= targetU <= lonsU[i + 1] {
        return Some(i);
      }
      i := i + 1;
    }
    return None;
  }

  lemma {:induction false} BracketAtOrAfter(u: seq<real>, x: real, i: nat)
    requires i + 1 < |u| && u[i] <= x <= u[|u| - 1]
    ensures exists j :: i <= j && Brackets(u, j, x)
    decreases |u| - i
  {
    if x <= u[i + 1] {
      assert Brackets(u, i, x);
    } else {
      BracketAtOrAfter(u, x, i + 1);
    }
  }

  /**
   * On a non-decreasing track of at least two samples whose first sample is
   * at or below x, the search finds a bracket exactly when x does not exceed
   * the last sample.
   */
  lemma BracketExistsIff(u: seq<real>, x: real)
    requires |u| >= 2 && NonDecreasing(u) && u[0] <= x
    ensures FirstBracketFrom(u, x, 0).Some? <==> x <= u[|u| - 1]
  {
    var r := FirstBracketFrom(u, x, 0);
    if x <= u[|u| - 1] {
      BracketAtOrAfter(u, x, 0);
    }
    if r.Some? {
      assert u[r.value + 1] <= u[|u| - 1];
    }
  }

  /** The track for a list of sampling instants. */
  function Track(eph: Ephemeris, times: seq<int>): (u: seq<real>)
    requires |times| > 0
    ensures |u| == |times|
  {
    Unwrapped(Sample(eph, times))
  }

  /** The lifted target: the term's degree on the track's first branch. */
  function LiftedTarget(u: seq<real>, term: Term): real
    requires |u| > 0
  {
    Lift(term.degree as real, u[0])
  }

  /** One iteration of the term loop: lift, bracket, bisect. */
  function HitFor(eph: Ephemeris, times: seq<int>, u: seq<real>, term: Term): (r: Result<TermHit, YearError>)
    requires |times| == |u| > 0
    ensures r.Ok? ==> r.value.name == term.name && r.value.degree == term.degree
    ensures r.Err? ==> r.error == BracketNotFound(term.name, term.degree)
  {
    var targetU := LiftedTarget(u, term);
    match FirstBracketFrom(u, targetU, 0)
    case None => Err(BracketNotFound(term.name, term.degree))
    case Some(i) =>
      Ok(TermHit(term.name, term.degree, CrossingInstant(eph, times[i], times[i + 1], targetU, u[i])))
  }

  /**
   * An iteration succeeds exactly when the search finds a bracketing pair
   * (i, i + 1), and its instant is then the right end of the bisected bracket:
   * it lies between the two sampling instants, and unless it is the later one
   * the longitude anchored on sample i has reached the target there; the
   * bracket's left end is the earlier instant or one still below the target.
   */
  lemma HitForCrossing(eph: Ephemeris, times: seq<int>, u: seq<real>, term: Term)
    requires |times| == |u| > 0
    requires forall i :: 0 < i < |times| ==> times[i - 1] <= times[i]
    ensures var targetU := LiftedTarget(u, term);
      var idx := FirstBracketFrom(u, targetU, 0);
      var r := HitFor(eph, times, u, term);
      && (r.Ok? <==> idx.Some?)
      && (r.Ok? ==>
            var i := idx.value;
            var b := Bisect(BelowTarget(eph, targetU, u[i]), times[i], times[i + 1], BisectSteps);
            && r.value.instant == b.hi
            && times[i] <= b.lo <= b.hi <= times[i + 1]
            && (b.lo == times[i] || Anchored(eph, b.lo, u[i]) < targetU)
            && (b.hi == times[i + 1] || targetU <= Anchored(eph, b.hi, u[i])))
  {
    var targetU := LiftedTarget(u, term);
    var idx := FirstBracketFrom(u, targetU, 0);
    if idx.Some? {
      var i := idx.value;
      CrossingBracketed(eph, times[i], times[i + 1], targetU, u[i]);
    }
  }

  /**
   * The track's sample i, read back through the anchoring that bisection
   * uses, is sample i itself: at the left end of its bracket the anchored
   * longitude is exactly the track value that was compared with the target.
   */
  lemma AnchorAtLeftSample(eph: Ephemeris, times: seq<int>, i: int)
    requires 0 <= i < |times|
    ensures Anchored(eph, times[i], Track(eph, times)[i]) == Track(eph, times)[i]
  {
    var lons := Sample(eph, times);
    var u := Track(eph, times);
    UnwrappedTurns(lons);
    assert IsLeastLift(u[i], SunLongitude(eph, times[i]), u[i]);
    LeastLiftUnique(u[i], SunLongitude(eph, times[i]), u[i]);
  }

  /**
   * Sample i + 1, read through the anchoring on sample i, is the track's
   * sample i + 1: `lon_unwrapped` and `_unwrap_degrees` lift by the same loop.
   */
  lemma AnchorAtRightSample(eph: Ephemeris, times: seq<int>, i: int)
    requires 0 <= i && i + 1 < |times|
    ensures Anchored(eph, times[i + 1], Track(eph, times)[i]) == Track(eph, times)[i + 1]
  {
    var lons := Sample(eph, times);
    var u := Track(eph, times);
    assert IsLeastLift(u[i + 1], lons[i + 1], u[i]);
    LeastLiftUnique(u[i + 1], SunLongitude(eph, times[i + 1]), u[i]);
  }

  /**
   * `instant` lies in the first pair of samples (i, i + 1) that brackets the
   * term's lifted target, and the longitude anchored on sample i has reached
   * the target there.
   */
  ghost predicate Reached(eph: Ephemeris, times: seq<int>, term: Term, instant: int)
    requires |times| > 0
  {
    var u := Track(eph, times);
    var targetU := LiftedTarget(u, term);
    var idx := FirstBracketFrom(u, targetU, 0);
    && idx.Some?
    && times[idx.value] <= instant <= times[idx.value + 1]
    && targetU <= Anchored(eph, instant, u[idx.value])
  }

  /**
   * Some instant at most one microsecond before `instant`, inside the first
   * bracketing pair, has the anchored longitude not yet past the lifted
   * target: the crossing is pinned to the microsecond.
   */
  ghost predicate JustBefore(eph: Ephemeris, times: seq<int>, term: Term, instant: int)
    requires |times| > 0
  {
    var u := Track(eph, times);
    var targetU := LiftedTarget(u, term);
    var idx := FirstBracketFrom(u, targetU, 0);
    && idx.Some?
    && exists lo :: times[idx.value] <= lo && instant - 1 <= lo <= instant && Anchored(eph, lo, u[idx.value]) <= targetU
  }

  /** Consecutive sampling instants are less than 2^50 microseconds apart. */
  predicate CloseSamples(times: seq<int>) {
    forall i :: 0 < i < |times| ==> times[i] - times[i - 1] < Pow2(BisectSteps)
  }

  /**
   * A successful iteration over ordered samples returns an instant at which
   * the lifted target is reached, and, over close samples, pinned to the
   * microsecond.
   */
  lemma HitForPinned(eph: Ephemeris, times: seq<int>, term: Term)
    requires |times| > 0
    requires forall i :: 0 < i < |times| ==> times[i - 1] <= times[i]
    ensures var r := HitFor(eph, times, Track(eph, times), term);
      r.Ok? ==>
        && Reached(eph, times, term, r.value.instant)
        && (CloseSamples(times) ==> JustBefore(eph, times, term, r.value.instant))
  {
    var u := Track(eph, times);
    var targetU := LiftedTarget(u, term);
    var idx := FirstBracketFrom(u, targetU, 0);
    if idx.Some? {
      var i := idx.value;
      AnchorAtLeftSample(eph, times, i);
      AnchorAtRightSample(eph, times, i);
      CrossingPinned(eph, times[i], times[i + 1], targetU, u[i]);
    }
  }

  /**
   * The results list after the term loop has run over `terms`, or the first
   * error. As in `Bisect`, the second decreases component only keeps the
   * verifier from unrolling the loop over the literal term table.
   */
  function Collect(eph: Ephemeris, times: seq<int>, u: seq<real>, terms: seq<Term>): (r: Result<seq<TermHit>, YearError>)
    requires |times| == |u| > 0
    ensures r.Ok? ==> |r.value| == |terms|
    decreases |terms|, |u|
  {
    if terms == [] then Ok([])
    else
      match Collect(eph, times, u, terms[..|terms| - 1])
      case Err(e) => Err(e)
      case Ok(rs) =>
        match HitFor(eph, times, u, terms[|terms| - 1])
        case Err(e) => Err(e)
        case Ok(h) => Ok(rs + [h])
  }

  /**
   * The term loop succeeds exactly when every term's iteration does, and then
   * its k-th record is what the k-th iteration produced.
   */
  lemma {:induction false} CollectOkIff(eph: Ephemeris, times: seq<int>, u: seq<real>, terms: seq<Term>)
    requires |times| == |u| > 0
    ensures Collect(eph, times, u, terms).Ok?
        <==> forall k :: 0 <= k < |terms| ==> HitFor(eph, times, u, terms[k]).Ok?
    ensures Collect(eph, times, u, terms).Ok? ==>
      forall k :: 0 <= k < |terms| ==> Collect(eph, times, u, terms).value[k] == HitFor(eph, times, u, terms[k]).value
    decreases |terms|
  {
    if terms != [] {
      var init := terms[..|terms| - 1];
      var last := terms[|terms| - 1];
      CollectOkIff(eph, times, u, init);
      assert forall k :: 0 <= k < |init| ==> init[k] == terms[k];
      var r := Collect(eph, times, u, terms);
      if r.Ok? {
        var rs := Collect(eph, times, u, init).value;
        assert r.value == rs + [HitFor(eph, times, u, last).value];
        forall k | 0 <= k < |terms|
          ensures r.value[k] == HitFor(eph, times, u, terms[k]).value
        {
          if k < |init| {
            assert r.value[k] == rs[k];
          }
        }
      }
    }
  }

  /**
   * A failed term loop reports the error of the first term whose iteration
   * fails; every earlier term succeeded.
   */
  lemma {:induction false} CollectFirstError(eph: Ephemeris, times: seq<int>, u: seq<real>, terms: seq<Term>)
    requires |times| == |u| > 0
    ensures var r := Collect(eph, times, u, terms);
      r.Err? ==> exists k :: 0 <= k < |terms| && HitFor(eph, times, u, terms[k]) == Err(r.error)
                             && forall j :: 0 <= j < k ==> HitFor(eph, times, u, terms[j]).Ok?
    decreases |terms|
  {
    var r := Collect(eph, times, u, terms);
    if terms != [] && r.Err? {
      var init := terms[..|terms| - 1];
      var n := |terms| - 1;
      assert forall k :: 0 <= k < |init| ==> init[k] == terms[k];
      CollectFirstError(eph, times, u, init);
      if Collect(eph, times, u, init).Ok? {
        CollectOkIff(eph, times, u, init);
        assert HitFor(eph, times, u, terms[n]) == Err(r.error);
      }
    }
  }

  lemma {:induction false} CollectKeepsError(eph: Ephemeris, times: seq<int>, u: seq<real>, terms: seq<Term>,
                                             k: nat, e: YearError)
    requires |times| == |u| > 0 && k <= |terms|
    requires Collect(eph, times, u, terms[..k]) == Err(e)
    ensures Collect(eph, times, u, terms) == Err(e)
    decreases |terms| - k
  {
    if k < |terms| {
      assert terms[..k + 1][..k] == terms[..k];
      CollectKeepsError(eph, times, u, terms, k + 1, e);
    } else {
      assert terms[..k] == terms;
    }
  }

  /** The years for which both `datetime(year, 1, 1)` and `datetime(year + 1, 1, 1)` exist. */
  predicate InDatetimeRange(year: int) {
    MinYear <= year && year + 1 <= MaxYear
  }

  /** The sampling instants of a year: its window from January 1 to the next January 1. */
  function YearTimes(year: int, stepHours: int): (times: seq<int>)
    requires stepHours > 0
    ensures |times| > 0
  {
    YearLength(year);
    Grid(JanFirst(year), JanFirst(year + 1), stepHours * MicrosPerHour)
  }

  /** What `generate_year` returns or raises, as a function of the ephemeris, the year and the step. */
  function YearTerms(eph: Ephemeris, year: int, stepHours: int): Result<seq<TermHit>, YearError>
    requires stepHours > 0
  {
    if !InDatetimeRange(year) then Err(YearOutOfRange(year))
    else TermsOver(eph, YearTimes(year, stepHours))
  }

  /** The term loop and the final count check over a year's sampling instants. */
  function TermsOver(eph: Ephemeris, times: seq<int>): Result<seq<TermHit>, YearError>
    requires |times| > 0
  {
    match Collect(eph, times, Track(eph, times), Jieqi24)
    case Err(e) => Err(e)
    case Ok(results) => if |results| != 24 then Err(WrongCount(|results|)) else Ok(results)
  }

  /** The lifted target of a term in [0, 360) lies less than one turn above the track's start. */
  lemma LiftedTargetWithinTurn(eph: Ephemeris, times: seq<int>, term: Term)
    requires |times| > 0 && 0 <= term.degree < 360
    ensures var u := Track(eph, times);
      && u[0] <= LiftedTarget(u, term) < u[0] + 360.0
      && WholeTurns(LiftedTarget(u, term) - term.degree as real)
      && Normalize(LiftedTarget(u, term)) == term.degree as real
  {
    var u := Track(eph, times);
    assert u[0] == Sample(eph, times)[0];
    LiftWithinOneTurn(term.degree as real, u[0]);
  }

  /**
   * What a year's outcome can be: the out-of-range error exactly for years
   * whose window datetime cannot build; never the count error; otherwise a
   * missing bracket for one of the 24 terms, or 24 records that follow the
   * term table in order, by name and degree.
   */
  lemma YearTermsOutcome(eph: Ephemeris, year: int, stepHours: int)
    requires stepHours > 0
    ensures var r := YearTerms(eph, year, stepHours);
      && (r == Err(YearOutOfRange(year)) <==> !InDatetimeRange(year))
      && (r.Err? ==> !r.error.WrongCount?)
      && (r.Err? && !r.error.YearOutOfRange? ==>
            exists k :: 0 <= k < |Jieqi24| && r.error == BracketNotFound(Jieqi24[k].name, Jieqi24[k].degree))
      && (r.Ok? ==> |r.value| == |Jieqi24| == 24
                    && forall k :: 0 <= k < 24 ==>
                         r.value[k].name == Jieqi24[k].name && r.value[k].degree == Jieqi24[k].degree)
  {
    assert |Jieqi24| == 24;
    var r := YearTerms(eph, year, stepHours);
    if InDatetimeRange(year) {
      var times := YearTimes(year, stepHours);
      var u := Track(eph, times);
      CollectOkIff(eph, times, u, Jieqi24);
      CollectFirstError(eph, times, u, Jieqi24);
    }
  }

  /**
   * Over any ordered sampling instants, a successful term loop gives each
   * term an instant inside the first bracketing pair at which the lifted
   * target is reached, and, over close samples, pinned to the microsecond.
   */
  lemma TermsOverCrossings(eph: Ephemeris, times: seq<int>)
    requires |times| > 0
    requires forall i :: 0 < i < |times| ==> times[i - 1] <= times[i]
    ensures var r := TermsOver(eph, times);
      r.Ok? ==>
        && |r.value| == 24
        && forall k :: 0 <= k < 24 ==>
          && Reached(eph, times, Jieqi24[k], r.value[k].instant)
          && (CloseSamples(times) ==> JustBefore(eph, times, Jieqi24[k], r.value[k].instant))
  {
    var r := TermsOver(eph, times);
    var u := Track(eph, times);
    if r.Ok? {
      CollectOkIff(eph, times, u, Jieqi24);
      forall k | 0 <= k < 24
        ensures && Reached(eph, times, Jieqi24[k], r.value[k].instant)
                && (CloseSamples(times) ==> JustBefore(eph, times, Jieqi24[k], r.value[k].instant))
      {
        HitForPinned(eph, times, Jieqi24[k]);
      }
    }
  }

  /**
   * Each record of a successful year lies inside the year's window, and
   * inside the first pair of samples bracketing its term's lifted target; the
   * target is reached at the record's instant and not yet passed at most one
   * microsecond earlier: 50 steps pin every crossing of a year to the
   * microsecond.
   */
  lemma YearTermsCrossings(eph: Ephemeris, year: int, stepHours: int)
    requires stepHours > 0
    ensures var r := YearTerms(eph, year, stepHours);
      r.Ok? ==>
        var times := YearTimes(year, stepHours);
        forall k :: 0 <= k < |r.value| ==>
          && JanFirst(year) <= r.value[k].instant <= JanFirst(year + 1)
          && Reached(eph, times, Jieqi24[k], r.value[k].instant)
          && JustBefore(eph, times, Jieqi24[k], r.value[k].instant)
  {
    if InDatetimeRange(year) {
      var times := YearTimes(year, stepHours);
      YearSamplesClose(year, stepHours);
      TermsOverCrossings(eph, times);
      var r := YearTerms(eph, year, stepHours);
      if r.Ok? {
        forall k | 0 <= k < |r.value|
          ensures JanFirst(year) <= r.value[k].instant <= JanFirst(year + 1)
        {
          ReachedInWindow(eph, times, Jieqi24[k], r.value[k].instant, JanFirst(year), JanFirst(year + 1));
        }
      }
    }
  }

  /**
   * A year's samples lie in its window, in order, one step apart, so
   * consecutive samples are at most 366 days, far less than 2^50
   * microseconds, apart.
   */
  lemma YearSamplesClose(year: int, stepHours: int)
    requires stepHours > 0
    ensures var times := YearTimes(year, stepHours);
      && CloseSamples(times)
      && (forall i :: 0 < i < |times| ==> times[i - 1] <= times[i])
      && (forall i :: 0 <= i < |times| ==> JanFirst(year) <= times[i] <= JanFirst(year + 1))
  {
    YearLength(year);
    GridShape(JanFirst(year), JanFirst(year + 1), stepHours * MicrosPerHour);
    BisectSpan();
  }

  /** An instant inside a pair of samples lies inside any interval that holds every sample. */
  lemma ReachedInWindow(eph: Ephemeris, times: seq<int>, term: Term, instant: int, start: int, end: int)
    requires |times| > 0 && Reached(eph, times, term, instant)
    requires forall i :: 0 <= i < |times| ==> start <= times[i] <= end
    ensures start <= instant <= end
  {
    var u := Track(eph, times);
    var idx := FirstBracketFrom(u, LiftedTarget(u, term), 0);
    assert times[idx.value] <= instant <= times[idx.value + 1];
  }

  /**
   * A year in range succeeds exactly when its window holds at least two
   * samples and no term's lifted target lies beyond the track's last sample.
   */
  lemma YearSucceedsIff(eph: Ephemeris, year: int, stepHours: int)
    requires stepHours > 0 && InDatetimeRange(year)
    ensures var times := YearTimes(year, stepHours);
      var u := Track(eph, times);
      (YearTerms(eph, year, stepHours).Ok? <==>
         |times| >= 2 && forall k :: 0 <= k < |Jieqi24| ==> LiftedTarget(u, Jieqi24[k]) <= u[|u| - 1])
  {
    assert |Jieqi24| == 24;
    var times := YearTimes(year, stepHours);
    var u := Track(eph, times);
    YearLength(year);
    GridShape(JanFirst(year), JanFirst(year + 1), stepHours * MicrosPerHour);
    CollectOkIff(eph, times, u, Jieqi24);
    forall k | 0 <= k < |Jieqi24|
      ensures HitFor(eph, times, u, Jieqi24[k]).Ok? <==> FirstBracketFrom(u, LiftedTarget(u, Jieqi24[k]), 0).Some?
    {
      HitForCrossing(eph, times, u, Jieqi24[k]);
    }
    if |times| >= 2 {
      UnwrappedNonDecreasing(Sample(eph, times));
      forall k | 0 <= k < |Jieqi24|
        ensures FirstBracketFrom(u, LiftedTarget(u, Jieqi24[k]), 0).Some? <==> LiftedTarget(u, Jieqi24[k]) <= u[|u| - 1]
      {
        BracketExistsIff(u, LiftedTarget(u, Jieqi24[k]));
      }
    } else {
      assert FirstBracketFrom(u, LiftedTarget(u, Jieqi24[0]), 0).None?;
    }
  }

  /**
   * The body of the term loop in `generate_year`: lift the term's degree onto
   * the track, find the first bracketing pair of samples and bisect it.
   */
  method LocateTerm(eph: Ephemeris, times: seq<int>, lonsU: seq<real>, term: Term)
    returns (r: Result<TermHit, YearError>)
    requires |times| == |lonsU| > 0
    requires forall i :: 0 < i < |times| ==> times[i - 1] <= times[i]
    ensures r == HitFor(eph, times, lonsU, term)
  {
    var targetU := LiftAbove(term.degree as real, lonsU[0]);
    var idx := FindBracket(lonsU, targetU);
    if idx.None? {
      return Err(BracketNotFound(term.name, term.degree));
    }
    var i := idx.value;
    var hit := BinarySearchCrossing(eph, times[i], times[i + 1], targetU, lonsU[i]);
    return Ok(TermHit(term.name, term.degree, hit));
  }

  /** `generate_year`. */
  method GenerateYear(eph: Ephemeris, year: int, stepHours: int) returns (r: Result<seq<TermHit>, YearError>)
    requires stepHours > 0
    ensures r == YearTerms(eph, year, stepHours)
  {
    if year < MinYear || MaxYear < year + 1 {
      return Err(YearOutOfRange(year));
    }
    var start := JanFirst(year);
    var end := JanFirst(year + 1);
    var step := stepHours * MicrosPerHour;
    var times := SampleTimes(start, end, step);
    YearLength(year);
    GridShape(start, end, step);
    var lons := Sample(eph, times);
    var lonsU := UnwrapDegrees(lons);

    var results: seq<TermHit> := [];
    for k := 0 to |Jieqi24|
      invariant Collect(eph, times, lonsU, Jieqi24[..k]) == Ok(results)
    {
      var prefix := Jieqi24[..k + 1];
      assert prefix[..k] == Jieqi24[..k] && prefix[k] == Jieqi24[k];
      var hit := LocateTerm(eph, times, lonsU, Jieqi24[k]);
      if hit.Err? {
        CollectKeepsError(eph, times, lonsU, Jieqi24, k + 1, hit.error);
        return Err(hit.error);
      }
      results := results + [hit.value];
    }
    assert Jieqi24[..|Jieqi24|] == Jieqi24;
    if |results| != 24 {
      return Err(WrongCount(|results|));
    }
    return Ok(results);
  }
}
