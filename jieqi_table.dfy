/**
 * `generate`: run `generate_year` for every year of the configured range in
 * increasing order, store each successful year's records under the year's
 * decimal key in the table read at start-up, collect the years that failed,
 * write the table out after every year, and exit with status 1 when any year
 * failed.
 */
module JieqiTable {
  import opened Wrappers
  import opened Crossing
  import opened JieqiYear

  /** The JSON table: year keys (`str(y)`) to that year's records. */
  type Table = map<string, seq<TermHit>>

  /** For each year, what `generate_year` returns or raises. */
  type YearRun = int -> Result<seq<TermHit>, YearError>

  /**
   * `run` yields, for every year, exactly what `generate_year` returns or
   * raises with this ephemeris and sampling step.
   */
  ghost predicate IsRunOf(run: YearRun, eph: Ephemeris, stepHours: int)
    requires stepHours > 0
  {
    forall y {:trigger YearTerms(eph, y, stepHours)} :: run(y) == YearTerms(eph, y, stepHours)
  }

  /**
   * The run of `generate_year` with a given ephemeris and sampling step, the
   * one `GenerateTable` hands to `Generate`.
   */
  function RunWith(eph: Ephemeris, stepHours: int): (run: YearRun)
    requires stepHours > 0
    ensures IsRunOf(run, eph, stepHours)
  {
    y => YearTerms(eph, y, stepHours)
  }

  /** The character of a decimal digit; digits d and e give the same character only when d == e. */
  function DigitChar(d: int): (c: char)
    requires 0 <= d < 10
    ensures '0' <= c <= '9' && c as int - '0' as int == d
  {
    ('0' as int + d) as char
  }

  /** The decimal digits of n, without leading zeros. */
  function Digits(n: nat): (s: string)
    ensures 0 < |s| && (n >= 10 ==> 2 <= |s|)
    ensures forall i :: 0 <= i < |s| ==> '0' <= s[i] <= '9'
  {
    if n < 10 then [DigitChar(n)] else Digits(n / 10) + [DigitChar(n % 10)]
  }

  /** `str(y)`: an optional minus sign followed by the digits of |y|. */
  function YearKey(y: int): (s: string)
    ensures 0 < |s| && (s[0] == '-' <==> y < 0)
  {
    if y < 0 then "-" + Digits(-y) else Digits(y)
  }

  /** Different numbers have different digit strings. */
  lemma {:induction false} DigitsInjective(a: nat, b: nat)
    requires Digits(a) == Digits(b)
    ensures a == b
    decreases a
  {
    var s := Digits(a);
    if a >= 10 && b >= 10 {
      assert Digits(a / 10) == s[..|s| - 1] == Digits(b / 10);
      DigitsInjective(a / 10, b / 10);
      assert DigitChar(a % 10) == s[|s| - 1] == DigitChar(b % 10);
    } else if a < 10 && b < 10 {
      assert DigitChar(a) == s[0] == DigitChar(b);
    }
  }

  /** Different years have different keys, so storing one year never touches another's entry. */
  lemma YearKeyInjective(a: int, b: int)
    requires YearKey(a) == YearKey(b)
    ensures a == b
  {
    if a < 0 && b < 0 {
      var s := YearKey(a);
      assert s == "-" + Digits(-a) && s == "-" + Digits(-b);
      assert s[1..] == Digits(-a);
      assert s[1..] == Digits(-b);
      DigitsInjective(-a, -b);
    } else if 0 <= a && 0 <= b {
      DigitsInjective(a, b);
    }
  }

  /** The table after the years first, ..., stop - 1 have been processed. */
  function Merged(existing: Table, run: YearRun, first: int, stop: int): Table
    decreases stop - first
  {
    if stop <= first then existing
    else
      var before := Merged(existing, run, first, stop - 1);
      match run(stop - 1)
      case Ok(items) => before[YearKey(stop - 1) := items]
      case Err(_) => before
  }

  /** `bad_years` after the years first, ..., stop - 1 have been processed. */
  function FailedYears(run: YearRun, first: int, stop: int): seq<int>
    decreases stop - first
  {
    if stop <= first then []
    else
      var before := FailedYears(run, first, stop - 1);
      if run(stop - 1).Err? then before + [stop - 1] else before
  }

  /**
   * `bad_years` holds exactly the years of the processed range whose
   * generation fails, in increasing order.
   */
  lemma {:induction false} FailedYearsExact(run: YearRun, first: int, stop: int)
    ensures var bad := FailedYears(run, first, stop);
      && (forall z :: z in bad <==> first <= z < stop && run(z).Err?)
      && (forall i, j :: 0 <= i < j < |bad| ==> bad[i] < bad[j])
    decreases stop - first
  {
    if first < stop {
      FailedYearsExact(run, first, stop - 1);
      var before := FailedYears(run, first, stop - 1);
      assert forall i :: 0 <= i < |before| ==> before[i] in before;
    }
  }

  /** The tables written out after each of the years first, ..., stop - 1. */
  function Written(existing: Table, run: YearRun, first: int, stop: int): seq<Table>
    decreases stop - first
  {
    if stop <= first then []
    else Written(existing, run, first, stop - 1) + [Merged(existing, run, first, stop)]
  }

  /**
   * One table is written per processed year, and the i-th one holds every
   * year processed so far: a run that stops early leaves the merge of the
   * years before it on disk.
   */
  lemma {:induction false} WrittenAfterEachYear(existing: Table, run: YearRun, first: int, stop: int)
    ensures var w := Written(existing, run, first, stop);
      && |w| == (if first <= stop then stop - first else 0)
      && forall i :: 0 <= i < |w| ==> w[i] == Merged(existing, run, first, first + i + 1)
    decreases stop - first
  {
    if first < stop {
      WrittenAfterEachYear(existing, run, first, stop - 1);
      var w := Written(existing, run, first, stop);
      var before := Written(existing, run, first, stop - 1);
      assert w == before + [Merged(existing, run, first, stop)];
      forall i | 0 <= i < |w|
        ensures w[i] == Merged(existing, run, first, first + i + 1)
      {
        if i < |before| {
          assert w[i] == before[i];
        }
      }
    }
  }

  /** The run exits non-zero exactly when some year of the range failed. */
  lemma ExitCodeIff(run: YearRun, startYear: int, endYear: int)
    ensures FailedYears(run, startYear, endYear + 1) != []
        <==> exists y :: startYear <= y <= endYear && run(y).Err?
  {
    var bad := FailedYears(run, startYear, endYear + 1);
    FailedYearsExact(run, startYear, endYear + 1);
    if bad != [] {
      assert bad[0] in bad;
    }
  }

  /** One more year processed: the merge and the bad-year list each take one step. */
  lemma StepYear(existing: Table, run: YearRun, first: int, y: int)
    requires first <= y
    ensures Merged(existing, run, first, y + 1)
         == (if run(y).Ok? then Merged(existing, run, first, y)[YearKey(y) := run(y).value]
             else Merged(existing, run, first, y))
    ensures FailedYears(run, first, y + 1)
         == (if run(y).Ok? then FailedYears(run, first, y) else FailedYears(run, first, y) + [y])
    ensures Written(existing, run, first, y + 1)
         == Written(existing, run, first, y) + [Merged(existing, run, first, y + 1)]
  {
  }

  /** Keys of no processed year keep whatever the table held at start-up. */
  lemma {:induction false} MergedOtherKeys(existing: Table, run: YearRun, first: int, stop: int,
                                           key: string)
    requires forall y :: first <= y < stop ==> key != YearKey(y)
    ensures var m := Merged(existing, run, first, stop);
      (key in m <==> key in existing) && (key in existing ==> m[key] == existing[key])
    decreases stop - first
  {
    if first < stop {
      MergedOtherKeys(existing, run, first, stop - 1, key);
    }
  }

  /** A year that succeeded ends up stored under its key with the records it produced. */
  lemma MergedSucceeded(existing: Table, run: YearRun, first: int, stop: int, y: int)
    requires first <= y < stop
    requires run(y).Ok?
    ensures var m := Merged(existing, run, first, stop);
      YearKey(y) in m && m[YearKey(y)] == run(y).value
  {
    forall z | y + 1 <= z < stop
      ensures YearKey(y) != YearKey(z)
    {
      if YearKey(y) == YearKey(z) {
        YearKeyInjective(y, z);
      }
    }
    MergedOtherKeys(Merged(existing, run, first, y + 1), run, y + 1, stop, YearKey(y));
    MergedSplit(existing, run, first, y + 1, stop);
  }

  /** A year that failed leaves its key as the table held it at start-up. */
  lemma MergedFailed(existing: Table, run: YearRun, first: int, stop: int, y: int)
    requires first <= y < stop
    requires run(y).Err?
    ensures var m := Merged(existing, run, first, stop);
      (YearKey(y) in m <==> YearKey(y) in existing)
      && (YearKey(y) in existing ==> m[YearKey(y)] == existing[YearKey(y)])
  {
    forall z | first <= z < stop && z != y
      ensures YearKey(y) != YearKey(z)
    {
      if YearKey(y) == YearKey(z) {
        YearKeyInjective(y, z);
      }
    }
    var upTo := Merged(existing, run, first, y);
    MergedOtherKeys(existing, run, first, y, YearKey(y));
    assert Merged(existing, run, first, y + 1) == upTo;
    MergedOtherKeys(upTo, run, y + 1, stop, YearKey(y));
    MergedSplit(existing, run, first, y + 1, stop);
  }

  /** Processing a range in two parts is processing it at once. */
  lemma {:induction false} MergedSplit(existing: Table, run: YearRun, first: int, mid: int, stop: int)
    requires first <= mid <= stop
    ensures Merged(Merged(existing, run, first, mid), run, mid, stop)
         == Merged(existing, run, first, stop)
    decreases stop - mid
  {
    if mid < stop {
      MergedSplit(existing, run, first, mid, stop - 1);
    }
  }

  /**
   * One iteration of the year loop of `generate`: run `generate_year` and
   * either store its records under the year's key or note the year as bad.
   * The ghost `run` stands for what `generate_year` yields for each year.
   */
  method ProcessYear(eph: Ephemeris, stepHours: int, ghost run: YearRun, y: int, result: Table, badYears: seq<int>)
    returns (result': Table, badYears': seq<int>)
    requires stepHours > 0 && IsRunOf(run, eph, stepHours)
    ensures result' == (if run(y).Ok? then result[YearKey(y) := run(y).value] else result)
    ensures badYears' == (if run(y).Ok? then badYears else badYears + [y])
  {
    var items := GenerateYear(eph, y, stepHours);
    match items {
      case Ok(records) =>
        result', badYears' := result[YearKey(y) := records], badYears;
      case Err(_) =>
        result', badYears' := result, badYears + [y];
    }
  }

  /** The state of the year loop once the years first, ..., y - 1 have been processed. */
  ghost predicate Processed(existing: Table, run: YearRun, first: int, y: int,
                            result: Table, badYears: seq<int>, written: seq<Table>) {
    && result == Merged(existing, run, first, y)
    && badYears == FailedYears(run, first, y)
    && written == Written(existing, run, first, y)
  }

  /** The year loop's state carried across one call of `ProcessYear`. */
  lemma LoopStep(existing: Table, run: YearRun, first: int, y: int,
                 result: Table, badYears: seq<int>, written: seq<Table>, result': Table, badYears': seq<int>)
    requires first <= y
    requires Processed(existing, run, first, y, result, badYears, written)
    requires result' == (if run(y).Ok? then result[YearKey(y) := run(y).value] else result)
    requires badYears' == (if run(y).Ok? then badYears else badYears + [y])
    ensures Processed(existing, run, first, y + 1, result', badYears', written + [result'])
  {
    StepYear(existing, run, first, y);
  }

  /**
   * `generate`: returns the final table, `bad_years`, the table as written
   * after each year, and the exit status (0, or 1 for `SystemExit(1)`). The
   * ghost `run` stands for what `generate_year` yields for each year;
   * `GenerateTable` passes `RunWith(eph, stepHours)`.
   */
  method Generate(eph: Ephemeris, ghost run: YearRun, existing: Table, startYear: int, endYear: int, stepHours: int)
    returns (result: Table, badYears: seq<int>, written: seq<Table>, exitCode: int)
    requires stepHours > 0 && IsRunOf(run, eph, stepHours)
    ensures result == Merged(existing, run, startYear, endYear + 1)
    ensures badYears == FailedYears(run, startYear, endYear + 1)
    ensures written == Written(existing, run, startYear, endYear + 1)
    ensures exitCode == (if badYears == [] then 0 else 1)
  {
    result := existing;
    badYears := [];
    written := [];
    var y := startYear;
    while y <= endYear
      invariant startYear <= y && (y <= endYear + 1 || y == startYear)
      invariant Processed(existing, run, startYear, y, result, badYears, written)
      decreases endYear - y
    {
      var result', badYears' := ProcessYear(eph, stepHours, run, y, result, badYears);
      LoopStep(existing, run, startYear, y, result, badYears, written, result', badYears');
      result, badYears, written := result', badYears', written + [result'];
      y := y + 1;
    }
    if badYears == [] {
      exitCode := 0;
    } else {
      exitCode := 1;
    }
  }

  /**
   * `generate` as the script runs it: each year's outcome is what
   * `generate_year` returns or raises, and the run exits with status 0
   * exactly when every year of the range succeeded.
   */
  method GenerateTable(eph: Ephemeris, existing: Table, startYear: int, endYear: int, stepHours: int)
    returns (result: Table, badYears: seq<int>, written: seq<Table>, exitCode: int)
    requires stepHours > 0
    ensures result == Merged(existing, RunWith(eph, stepHours), startYear, endYear + 1)
    ensures badYears == FailedYears(RunWith(eph, stepHours), startYear, endYear + 1)
    ensures written == Written(existing, RunWith(eph, stepHours), startYear, endYear + 1)
    ensures exitCode == 0 <==> forall y :: startYear <= y <= endYear ==> YearTerms(eph, y, stepHours).Ok?
  {
    ghost var run := RunWith(eph, stepHours);
    result, badYears, written, exitCode := Generate(eph, run, existing, startYear, endYear, stepHours);
    ExitCodeIff(run, startYear, endYear);
  }
}
