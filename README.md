# Solar-term table generator, modelled in Dafny

`tools/generate_jieqi_table.py` builds a table of the 24 solar terms
(jieqi, 節氣) for a range of years. For each year it samples the Sun's
apparent ecliptic longitude every `STEP_HOURS` hours from 1 January
00:00 UTC to the next 1 January. It unwraps the samples into a
non-decreasing track. For each of the 24 terms it lifts the term's degree
onto the track, finds the first pair of consecutive samples that brackets
it, and bisects that pair 50 times. The year loop of `generate` stores each
successful year under its decimal key in a JSON table, writes the table
out after every year, keeps a list of the years that failed, and exits
with status 1 when that list is not empty.

The model is split into these modules:

- `Angles`:
  - the `% 360.0` reduction;
  - the loop `while v < base: v += 360.0`, which the script uses in three places, as the method `LiftAbove`;
  - its closed form `Lift`, characterised by `IsLeastLift`: `v` plus whole turns, at or above `base`, and minimal.
- `Unwrap`: `_unwrap_degrees`, as the loop method `UnwrapDegrees` proved equal to the function `Unwrapped`.
- `Crossing`: `_sun_ecl_lon_deg`, the helper `lon_unwrapped`, and `_binary_search_crossing`.
  - The spec function `Bisect` follows the bisection steps for any probe, that is, any test of an instant against the target.
  - `BelowTarget` is the probe the script makes: `lon_unwrapped(mid) < target_unwrapped`.
  - `CrossingInstant` is the instant returned after 50 steps with that probe.
- `SolarTerms`: the table `JIEQI_24`.
- `JieqiYear`: `generate_year`.
  - Calendar arithmetic gives the window.
  - `Grid` describes the sampling instants.
  - The term loop is modelled by `HitFor` and `Collect`.
  - A year's outcome is the function `YearTerms`.
  - The method `GenerateYear` is proved equal to `YearTerms`.
- `JieqiTable`: `generate`.
  - The year loop is the method `Generate`.
  - It is proved equal to three spec functions: `Merged` gives the final table, `FailedYears` gives `bad_years`, and `Written` gives the table as written after each year.
  - These functions are generic over what each year yields (a `YearRun`).
  - `RunWith` is the run of `generate_year` itself. `Generate` takes the run as a ghost parameter, and `IsRunOf` pins it to `generate_year` year by year. `GenerateTable` calls `Generate` with `RunWith`.

The model uses these representations:

- Instants are integers counting microseconds since 0001-01-01T00:00 UTC, the resolution of Python's `datetime`.
- Degrees are exact reals.
- The ephemeris is a parameter of type `int -> real`.
- `timedelta / 2` rounds half to even on microseconds. `HalfSpan` models that rounding.
- The exceptions `generate_year` raises become `YearError` values:
  - `datetime` rejects the window gives `YearOutOfRange`;
  - the bracket search fails gives `BracketNotFound`;
  - the final count check fires gives `WrongCount`.
- `generate` catches every exception of a year. The model does the same with the `Err` branch.

The code has these properties, which a reader might not expect. The model follows the code.

- The window is exactly 1 January to 1 January in UTC. There is no padding and no filtering by the local (KST) calendar year.
- Each target degree is lifted once, onto the branch at or above the first sample. Only the first bracketing pair is used. Later candidates a whole turn away are not considered.
- Bisection runs 50 steps. It has no tolerance test.
- Midpoints are anchored on the branch at or above the left sample's unwrapped value, not on the branch nearest to it.
- Every year of the range is recomputed and, when it succeeds, overwrites its key, even when the table already holds it. A failed year leaves its key as loaded.
- No count of distinct names is checked. Only the length of the list is checked, and that check never fires (`JieqiYear.YearTermsOutcome`).

## Model

| member | source | states |
|---|---|---|
| Angles.Normalize | tools/generate_jieqi_table.py:83 | `lon.degrees % 360.0` lies in [0, 360) |
| Angles.Lift | tools/generate_jieqi_table.py:97-98 | the closed form of the lifting loop is the original value plus whole turns, at or above the base, and is the least such value |
| Angles.LeastLiftUnique | tools/generate_jieqi_table.py:97-98 | any value satisfying the least-lift conditions equals `Lift`, so the loop's result is determined |
| Angles.LiftAbove | tools/generate_jieqi_table.py:116-117 | the loop `while v < base: v += 360.0` terminates with the least lift of `v` above `base` |
| Angles.NormalizeUndoesTurns | tools/generate_jieqi_table.py:83 | adding whole turns to a degree in [0, 360) does not change its reduction modulo 360 |
| Angles.NormalizeRecovers | tools/generate_jieqi_table.py:83 | a value that is v plus whole turns reduces to v, for v in [0, 360) |
| Angles.LiftWithinOneTurn | tools/generate_jieqi_table.py:160-162 | lifting a degree in [0, 360) above a non-negative base lands in [base, base + 360) and reduces back to the degree |
| Unwrap.UnwrapStep | tools/generate_jieqi_table.py:91-98 | one unwrap iteration, with the 180-degree wrap test and the forcing loop, yields the least lift of the sample above the previous track value |
| Unwrap.WrapTestIsSubsumed | tools/generate_jieqi_table.py:94-95 | the wrap test changes no result: the forcing loop alone gives the same value |
| Unwrap.Unwrapped | tools/generate_jieqi_table.py:87-100 | the track has the samples' length and starts with the first sample, and each later value is the least lift of its sample above the previous value |
| Unwrap.UnwrapDegrees | tools/generate_jieqi_table.py:87-100 | the loop with its appends computes exactly `Unwrapped` |
| Unwrap.UnwrappedNonDecreasing | tools/generate_jieqi_table.py:88 | the unwrapped track never decreases, as the docstring promises |
| Unwrap.UnwrappedTurns | tools/generate_jieqi_table.py:93-98 | each track value is its sample plus a non-negative whole number of turns |
| Unwrap.UnwrappedWrapsBack | tools/generate_jieqi_table.py:87-100 | for samples in [0, 360), reducing the track modulo 360 gives back the samples |
| Unwrap.UnwrappedStepsBelowTurn | tools/generate_jieqi_table.py:90-99 | for samples in [0, 360), each step of the track is in [0, 360) |
| Crossing.SunLongitude | tools/generate_jieqi_table.py:77-84 | `_sun_ecl_lon_deg` returns a degree in [0, 360) |
| Crossing.LonUnwrapped | tools/generate_jieqi_table.py:112-118 | `lon_unwrapped(t)` is the least lift of the longitude at t above `base_wrap` |
| Crossing.HalfSpan | tools/generate_jieqi_table.py:122 | `(hi - lo) / 2` on microseconds is within half a microsecond of the exact half |
| Crossing.HalfSpanRoundsToEven | tools/generate_jieqi_table.py:122 | on an odd span, the half rounds to the even one of the two nearest integers |
| Crossing.BisectKeepsBracket | tools/generate_jieqi_table.py:121-127 | every bisection step keeps the bracket inside [t0, t1]; its left end is t0 or below the target, and its right end is t1 or at or above it |
| Crossing.BisectNarrows | tools/generate_jieqi_table.py:121-127 | n steps shrink the bracket's width to at most the starting width over 2^n, rounded up |
| Crossing.BisectPrecision | tools/generate_jieqi_table.py:120-127 | from a bracket narrower than 2^n microseconds, n steps leave a bracket at most one microsecond wide |
| Crossing.Bisection | tools/generate_jieqi_table.py:121-127 | the loop of midpoints, `lon_unwrapped` calls and updates computes exactly the right end of `Bisect` with the probe `lon_unwrapped(mid) < target_unwrapped` |
| Crossing.CrossingBracketed | tools/generate_jieqi_table.py:108-129 | the returned instant lies in [t0, t1], and unless it is t1 the anchored longitude there has reached the target; the left end of the final bracket is t0 or still below the target |
| Crossing.CrossingPrecise | tools/generate_jieqi_table.py:120-129 | for brackets shorter than 2^50 microseconds, the returned instant is within one microsecond of the final bracket's left end |
| Crossing.BisectSpan | tools/generate_jieqi_table.py:120-121 | 50 steps cover brackets up to 2^50 = 1125899906842624 microseconds, about 35.7 years |
| Crossing.CrossingPinned | tools/generate_jieqi_table.py:103-129 | when the anchored longitude is at most the target at t0 and at least it at t1, the returned instant has reached the target, and for brackets under 2^50 microseconds an instant at most one microsecond earlier has not yet passed it |
| Crossing.BinarySearchCrossing | tools/generate_jieqi_table.py:103-129 | `_binary_search_crossing` returns `CrossingInstant`, the right end after 50 steps |
| SolarTerms.DegreeOfEntry | tools/generate_jieqi_table.py:32-57 | entry i of the table sits at (285 + 15 i) mod 360 |
| SolarTerms.EntryClosed | tools/generate_jieqi_table.py:32-57 | the first five entries are 285 + 15 i degrees, and entry i from the sixth on is 15 i - 75 degrees |
| SolarTerms.TableDegrees | tools/generate_jieqi_table.py:32-57 | the table has 24 entries, the first at 285 degrees, and entry i at (285 + 15 i) mod 360 |
| SolarTerms.TableSteps | tools/generate_jieqi_table.py:32-57 | each entry is 15 degrees past the previous one, modulo 360 |
| SolarTerms.TermIndexInverts | tools/generate_jieqi_table.py:32-57 | every degree is a multiple of 15 in [0, 345], and the entry's position can be read back from its degree |
| SolarTerms.EveryMultipleOf15Listed | tools/generate_jieqi_table.py:32-57 | every multiple of 15 in [0, 345] is the degree of some entry |
| SolarTerms.DegreesDistinct | tools/generate_jieqi_table.py:32-57 | no degree occurs twice |
| SolarTerms.NamesDistinct | tools/generate_jieqi_table.py:32-57 | no name occurs twice |
| JieqiYear.YearLength | tools/generate_jieqi_table.py:140-141 | 1 January of the next year is 365 or 366 days after 1 January of the year, in the proleptic Gregorian calendar |
| JieqiYear.Grid | tools/generate_jieqi_table.py:143-148 | the sampling instants are non-empty exactly when start is not after end |
| JieqiYear.GridShape | tools/generate_jieqi_table.py:143-148 | the sampling instants start at the window's start, stay within the window, advance by exactly the step, and the last one is less than a step before the end |
| JieqiYear.GridIncreasing | tools/generate_jieqi_table.py:143-148 | the sampling instants strictly increase |
| JieqiYear.SampleTimes | tools/generate_jieqi_table.py:143-148 | the `while cur <= end` loop collects exactly `Grid` |
| JieqiYear.Sample | tools/generate_jieqi_table.py:151 | one longitude in [0, 360) per instant, each the Sun's longitude at that instant |
| JieqiYear.FirstBracketFrom | tools/generate_jieqi_table.py:165-169 | a found index brackets the target and no earlier index does; when none is found, no index brackets it |
| JieqiYear.FindBracket | tools/generate_jieqi_table.py:165-169 | the search loop with `break` returns the first bracketing index, or None exactly when no index brackets the target |
| JieqiYear.BracketExistsIff | tools/generate_jieqi_table.py:160-172 | on a non-decreasing track of at least two samples whose first value is not above the lifted target, a bracket exists exactly when the target does not exceed the last sample |
| JieqiYear.Track | tools/generate_jieqi_table.py:151-152 | the unwrapped track has one value per sampling instant |
| JieqiYear.HitFor | tools/generate_jieqi_table.py:158-188 | a term's iteration yields a record with the term's name and degree, or exactly that term's bracket error |
| JieqiYear.HitForCrossing | tools/generate_jieqi_table.py:160-178 | an iteration succeeds exactly when a bracket is found; its instant is the bisected crossing between samples i and i + 1, anchored on sample i |
| JieqiYear.AnchorAtLeftSample | tools/generate_jieqi_table.py:176 | anchoring the left sample's longitude on `base_wrap = lons_u[idx]` gives back `lons_u[idx]` |
| JieqiYear.AnchorAtRightSample | tools/generate_jieqi_table.py:97-98 | anchoring sample i + 1's longitude on `lons_u[i]` gives back `lons_u[i + 1]`, because `lon_unwrapped` lifts by the same loop as `_unwrap_degrees` |
| JieqiYear.HitForPinned | tools/generate_jieqi_table.py:165-178 | a successful iteration's instant lies in its bracketing pair and has reached the lifted target; over samples less than 2^50 microseconds apart, it is within one microsecond of an instant that has not yet passed it |
| JieqiYear.YearSamplesClose | tools/generate_jieqi_table.py:140-148 | a year's samples are ordered, lie inside its window, and are less than 2^50 microseconds apart |
| JieqiYear.Collect | tools/generate_jieqi_table.py:155-188 | a successful term loop yields one record per term |
| JieqiYear.CollectOkIff | tools/generate_jieqi_table.py:158-188 | the term loop succeeds exactly when every term's iteration does, and its k-th record is the k-th iteration's record |
| JieqiYear.CollectFirstError | tools/generate_jieqi_table.py:171-172 | a failed term loop raises the error of the first failing term, and every earlier term succeeded |
| JieqiYear.CollectKeepsError | tools/generate_jieqi_table.py:171-172 | once a prefix of the terms fails, the whole loop fails with that error |
| JieqiYear.YearTimes | tools/generate_jieqi_table.py:140-148 | a year's sampling window always holds at least one instant |
| JieqiYear.LiftedTargetWithinTurn | tools/generate_jieqi_table.py:160-162 | `target_u` lies in [lons_u[0], lons_u[0] + 360), is the term's degree plus whole turns, and reduces back to the degree |
| JieqiYear.YearTermsOutcome | tools/generate_jieqi_table.py:132-193 | a year fails with the range error exactly when its window cannot be built; the count check never fires; any other failure is a term's bracket error; success gives 24 records in the table's order |
| JieqiYear.TermsOverCrossings | tools/generate_jieqi_table.py:158-188 | over ordered samples, each successful record lies in the first bracketing pair for its term, has reached the lifted target (anchored on the pair's first sample), and, over samples less than 2^50 microseconds apart, is within one microsecond of an instant in the pair that has not yet passed it |
| JieqiYear.YearTermsCrossings | tools/generate_jieqi_table.py:120-188 | each record of a successful year lies inside the year's window and the first bracketing pair for its term, has reached the lifted target, and is within one microsecond of an instant in the pair that has not yet passed it |
| JieqiYear.YearSucceedsIff | tools/generate_jieqi_table.py:143-172 | a year in range succeeds exactly when it has at least two samples and every lifted target is at most the last track value |
| JieqiYear.LocateTerm | tools/generate_jieqi_table.py:158-188 | one term-loop iteration returns exactly `HitFor` |
| JieqiYear.GenerateYear | tools/generate_jieqi_table.py:132-193 | `generate_year` returns or raises exactly `YearTerms` |
| JieqiTable.DigitChar | tools/generate_jieqi_table.py:227 | a decimal digit d is written as the character d places after '0', so it lies between '0' and '9' |
| JieqiTable.Digits | tools/generate_jieqi_table.py:227 | the digit string is non-empty, has at least two digits from 10 on, and holds only digits |
| JieqiTable.YearKey | tools/generate_jieqi_table.py:227 | `str(y)` starts with '-' exactly for negative years |
| JieqiTable.DigitsInjective | tools/generate_jieqi_table.py:227 | different numbers have different digit strings |
| JieqiTable.YearKeyInjective | tools/generate_jieqi_table.py:227 | different years have different keys |
| JieqiTable.FailedYearsExact | tools/generate_jieqi_table.py:221-231 | `bad_years` holds exactly the processed years whose generation failed, in strictly increasing order |
| JieqiTable.WrittenAfterEachYear | tools/generate_jieqi_table.py:233-236 | one table is written per processed year, the i-th holding the merge of the first i + 1 years |
| JieqiTable.ExitCodeIff | tools/generate_jieqi_table.py:238-240 | the run exits non-zero exactly when some year of the range failed |
| JieqiTable.MergedOtherKeys | tools/generate_jieqi_table.py:218-227 | keys of no processed year keep exactly what the table loaded at start-up held |
| JieqiTable.MergedSucceeded | tools/generate_jieqi_table.py:226-227 | a year that succeeded is stored under its key with the records it produced |
| JieqiTable.MergedFailed | tools/generate_jieqi_table.py:229-231 | a year that failed leaves its key as the table loaded at start-up held it |
| JieqiTable.MergedSplit | tools/generate_jieqi_table.py:223 | processing a range in two consecutive parts equals processing it at once |
| JieqiTable.ProcessYear | tools/generate_jieqi_table.py:225-231 | one iteration calls `generate_year` for the year; it either sets the year's key to its records and leaves `bad_years` alone, or leaves the table alone and appends the year |
| JieqiTable.Generate | tools/generate_jieqi_table.py:196-242 | with each year's outcome that of `generate_year`, the year loop yields `Merged`, `FailedYears` and `Written` over the range in increasing order; the exit status is 1 exactly when `bad_years` is not empty |
| JieqiTable.GenerateTable | tools/generate_jieqi_table.py:196-242 | `generate` with every year's outcome computed by `generate_year`: the final table, `bad_years` and the dumps are `Merged`, `FailedYears` and `Written` of that run, and the exit status is 0 exactly when every year of the range succeeded |

## Left out

- The ephemeris is left out: the `de421.bsp` file lookup, Skyfield's astronomy and the timescale. The Sun's raw longitude is a parameter function. Only the `% 360.0` reduction is modelled.
- `_ensure_dir`, `_load_existing` and the JSON dump are file I/O and are left out.
  - The table loaded at start-up is a parameter.
  - The tables written after each year are returned as the sequence `written`.
- The environment variables are parameters: `START_YEAR`, `END_YEAR`, `STEP_HOURS` and `APPEND` (through the loaded table). `OUTPUT_PATH` only names a file.
- The model requires a `STEP_HOURS` above 0.
  - With 0, the sampling loop of the script never ends.
  - With a negative step, the loop walks backwards until `datetime` raises an overflow error below year 1. `generate` then records every year in `bad_years`. This path is not modelled.
- Formatting of the ISO strings is not modelled: UTC with a `Z` suffix, and KST at +09:00. Each record carries the crossing instant instead of the two strings.
- Floating point: longitudes and degrees are exact reals, so the rounding of Python floats is not modelled.
- `datetime` addition overflow past year 9999 is not modelled. It can only occur when a step longer than the rest of the representable range is added.
- The progress and summary `print` calls are console output and are left out.
- `main.py` is not part of this model. It is a web health check that returns a fixed status and does not involve the generator.
- Crossing.Bisect: the width component in its decreases clause only stops the verifier from unrolling the 50 literal steps. It does not change the function.
- JieqiYear.Collect: the second decreases component serves the same purpose for the literal term table.
- JieqiYear.YearTermsOutcome: the ephemeris is a total function, so a failing ephemeris call is not modelled. Skyfield raises outside the coverage interval of `de421.bsp`. `generate` would catch that exception and add the year to `bad_years`, like any other failure. The claim that every failure other than the range error is a term's bracket error holds only for a total ephemeris.
- Crossing.SunLongitude: for the same reason, this always returns a degree and never raises.
- Crossing.CrossingBracketed: this does not state that the longitude track crosses the target inside the bracket. The ephemeris is an arbitrary function, so its continuity is not assumed. What does hold is stated by `Crossing.CrossingPinned` and `JieqiYear.YearTermsCrossings`: the target is reached at the returned instant, and not yet passed at most one microsecond earlier.
