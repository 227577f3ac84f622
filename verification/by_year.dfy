/**
 * The fourth script: the first 41 rows of each submission year from 2020 to 2025,
 * in year order, then the guarded extractor on each, with the row's year attached to
 * every record it keeps.
 */
module ByYear {
  import opened Wrappers
  import opened Text
  import opened Features
  import opened Collect

  /** A table row: the URL and the year of its submission time, `None` for a time
      that did not parse (`NaT`). */
  datatype SubmissionRow = SubmissionRow(url: AsciiString, year: Option<int>)

  const Years: seq<int> := [2020, 2021, 2022, 2023, 2024, 2025]
  const RowsPerYear: nat := 41

  /** `df[df.year.isin(years)]`: the rows whose year is one of `ys`, in table order. */
  function InYears(rows: seq<SubmissionRow>, ys: seq<int>): (r: seq<SubmissionRow>)
    ensures |r| <= |rows|
    ensures forall k | 0 <= k < |r| :: r[k] in rows && r[k].year.Some? && r[k].year.value in ys
  {
    if rows == [] then []
    else
      var last := rows[|rows| - 1];
      var r := InYears(rows[..|rows| - 1], ys) + (if last.year.Some? && last.year.value in ys then [last] else []);
      assert forall x | x in rows[..|rows| - 1] :: x in rows;
      r
  }

  /** `df[df.year == y]`: the rows of year `y`, in table order. */
  function RowsOfYear(rows: seq<SubmissionRow>, y: int): (r: seq<SubmissionRow>)
    ensures |r| <= |rows|
    ensures forall k | 0 <= k < |r| :: r[k] in rows && r[k].year == Some(y)
  {
    if rows == [] then []
    else
      var last := rows[|rows| - 1];
      var r := RowsOfYear(rows[..|rows| - 1], y) + (if last.year == Some(y) then [last] else []);
      assert forall x | x in rows[..|rows| - 1] :: x in rows;
      r
  }

  /** `pd.concat(dfs)`: the tables one after the other. */
  function Concat(dfs: seq<seq<SubmissionRow>>): seq<SubmissionRow> {
    if dfs == [] then [] else Concat(dfs[..|dfs| - 1]) + dfs[|dfs| - 1]
  }

  /** The sample the loop builds: for each year of `ys` in turn, the first 41 rows of
      that year. */
  function Stratified(filtered: seq<SubmissionRow>, ys: seq<int>): seq<SubmissionRow> {
    if ys == [] then []
    else Stratified(filtered, ys[..|ys| - 1]) + Take(RowsOfYear(filtered, ys[|ys| - 1]), RowsPerYear)
  }

  /** The sampling loop: a per-year head of the filtered table, appended year by
      year, then concatenated. */
  method SampleByYear(rows: seq<SubmissionRow>) returns (sample: seq<SubmissionRow>)
    ensures sample == Stratified(InYears(rows, Years), Years)
  {
    var filtered := InYears(rows, Years);
    var sampledDfs: seq<seq<SubmissionRow>> := [];
    for k := 0 to |Years|
      invariant Concat(sampledDfs) == Stratified(filtered, Years[..k])
    {
      var dfYear := RowsOfYear(filtered, Years[k]);
      var sampled := Take(dfYear, RowsPerYear);
      assert (sampledDfs + [sampled])[..|sampledDfs|] == sampledDfs;
      assert Years[..k + 1][..k] == Years[..k];
      sampledDfs := sampledDfs + [sampled];
    }
    assert Years[..|Years|] == Years;
    sample := Concat(sampledDfs);
  }

  /** At most 41 rows per year: 246 in all. */
  lemma {:induction false} StratifiedSize(filtered: seq<SubmissionRow>, ys: seq<int>)
    ensures |Stratified(filtered, ys)| <= RowsPerYear * |ys|
  {
    if ys != [] {
      StratifiedSize(filtered, ys[..|ys| - 1]);
    }
  }

  lemma SampleSize(rows: seq<SubmissionRow>)
    ensures |Stratified(InYears(rows, Years), Years)| <= 246
  {
    StratifiedSize(InYears(rows, Years), Years);
  }

  lemma {:induction false} RowsOfYearAppend(a: seq<SubmissionRow>, b: seq<SubmissionRow>, y: int)
    ensures RowsOfYear(a + b, y) == RowsOfYear(a, y) + RowsOfYear(b, y)
    decreases |b|
  {
    if b == [] {
      assert a + b == a;
    } else {
      var b' := b[..|b| - 1];
      assert (a + b)[..|a + b| - 1] == a + b';
      RowsOfYearAppend(a, b', y);
    }
  }

  /** The year filter works row by row, so it keeps the table order: filtering a
      concatenation filters each part. */
  lemma {:induction false} InYearsAppend(a: seq<SubmissionRow>, b: seq<SubmissionRow>, ys: seq<int>)
    ensures InYears(a + b, ys) == InYears(a, ys) + InYears(b, ys)
    decreases |b|
  {
    if b == [] {
      assert a + b == a;
    } else {
      var b' := b[..|b| - 1];
      assert (a + b)[..|a + b| - 1] == a + b';
      InYearsAppend(a, b', ys);
    }
  }

  /** A table of year-`y` rows is its own year-`y` selection, and has none of another year. */
  lemma {:induction false} RowsOfYearOfOneYear(s: seq<SubmissionRow>, y: int, z: int)
    requires forall k | 0 <= k < |s| :: s[k].year == Some(y)
    ensures RowsOfYear(s, z) == if z == y then s else []
  {
    if s != [] {
      RowsOfYearOfOneYear(s[..|s| - 1], y, z);
      assert s == s[..|s| - 1] + [s[|s| - 1]];
    }
  }

  /** Selecting a year already among `ys` sees the same rows before and after the
      years filter. */
  lemma {:induction false} RowsOfYearInYears(rows: seq<SubmissionRow>, ys: seq<int>, y: int)
    requires y in ys
    ensures RowsOfYear(InYears(rows, ys), y) == RowsOfYear(rows, y)
  {
    if rows != [] {
      var init := rows[..|rows| - 1];
      var last := rows[|rows| - 1];
      RowsOfYearInYears(init, ys, y);
      var tail := if last.year.Some? && last.year.value in ys then [last] else [];
      RowsOfYearAppend(InYears(init, ys), tail, y);
    }
  }

  /** Each year of a list without repeats gets exactly its first 41 rows; any other
      year gets none. */
  lemma {:induction false} StratifiedPerYear(filtered: seq<SubmissionRow>, ys: seq<int>, y: int)
    requires forall i, j | 0 <= i < j < |ys| :: ys[i] != ys[j]
    ensures RowsOfYear(Stratified(filtered, ys), y) ==
            if y in ys then Take(RowsOfYear(filtered, y), RowsPerYear) else []
  {
    if ys != [] {
      var init := ys[..|ys| - 1];
      var last := ys[|ys| - 1];
      var chunk := Take(RowsOfYear(filtered, last), RowsPerYear);
      DistinctInit(ys);
      StratifiedPerYear(filtered, init, y);
      RowsOfYearAppend(Stratified(filtered, init), chunk, y);
      ChunkOfYear(filtered, last);
      RowsOfYearOfOneYear(chunk, last, y);
    }
  }

  /** Dropping the last year of a list without repeats leaves a list without
      repeats that lacks that year. */
  lemma DistinctInit(ys: seq<int>)
    requires ys != [] && forall i, j | 0 <= i < j < |ys| :: ys[i] != ys[j]
    ensures var init := ys[..|ys| - 1];
            && (forall i, j | 0 <= i < j < |init| :: init[i] != init[j])
            && ys[|ys| - 1] !in init
            && forall y :: y in ys <==> y in init || y == ys[|ys| - 1]
  {
    assert ys == ys[..|ys| - 1] + [ys[|ys| - 1]];
  }

  /** Every row of a year's head has that year. */
  lemma ChunkOfYear(filtered: seq<SubmissionRow>, y: int)
    ensures var chunk := Take(RowsOfYear(filtered, y), RowsPerYear);
            forall k | 0 <= k < |chunk| :: chunk[k].year == Some(y)
  {
  }

  /** The years are 2020 onwards, one per position. */
  lemma YearsFromIndex()
    ensures forall i | 0 <= i < |Years| :: Years[i] == 2020 + i
  {
  }

  /** Per year of 2020..2025, the sample holds exactly the first 41 rows of that year,
      in table order; rows of other years or without a year are not sampled. */
  lemma SamplePerYear(rows: seq<SubmissionRow>, y: int)
    ensures RowsOfYear(Stratified(InYears(rows, Years), Years), y) ==
            if y in Years then Take(RowsOfYear(rows, y), RowsPerYear) else []
  {
    YearsFromIndex();
    StratifiedPerYear(InYears(rows, Years), Years, y);
    if y in Years {
      RowsOfYearInYears(rows, Years, y);
    }
  }

  /** The year, for comparing rows. */
  function YearKey(row: SubmissionRow): int {
    if row.year.Some? then row.year.value else 0
  }

  /** Every row has a year, and it is one of `ys`. */
  predicate YearsWithin(s: seq<SubmissionRow>, ys: seq<int>) {
    forall k | 0 <= k < |s| :: s[k].year.Some? && s[k].year.value in ys
  }

  /** The rows run through the years in order. */
  predicate InYearOrder(s: seq<SubmissionRow>) {
    forall i, j | 0 <= i < j < |s| :: YearKey(s[i]) <= YearKey(s[j])
  }

  /** For increasing `ys`, the sample runs through the years in order. */
  lemma {:induction false} StratifiedSorted(filtered: seq<SubmissionRow>, ys: seq<int>)
    requires forall i, j | 0 <= i < j < |ys| :: ys[i] < ys[j]
    ensures YearsWithin(Stratified(filtered, ys), ys)
    ensures InYearOrder(Stratified(filtered, ys))
  {
    if ys != [] {
      var init := ys[..|ys| - 1];
      var last := ys[|ys| - 1];
      var chunk := Take(RowsOfYear(filtered, last), RowsPerYear);
      var prev := Stratified(filtered, init);
      StratifiedSorted(filtered, init);
      var s := prev + chunk;
      assert s == Stratified(filtered, ys);
      forall k | 0 <= k < |prev|
        ensures s[k].year.Some? && s[k].year.value in ys && YearKey(s[k]) < last
      {
        var y := prev[k].year.value;
        var m :| 0 <= m < |init| && init[m] == y;
        assert ys[m] == y;
      }
      assert forall k | |prev| <= k < |s| :: s[k].year == Some(last);
    }
  }

  lemma SampleSorted(rows: seq<SubmissionRow>)
    ensures YearsWithin(Stratified(InYears(rows, Years), Years), Years)
    ensures InYearOrder(Stratified(InYears(rows, Years), Years))
  {
    StratifiedSorted(InYears(rows, Years), Years);
  }

  /** A record with the year of the row it came from (`features["submission_year"]`). */
  datatype YearRecord = YearRecord(features: FeatureRecord, submissionYear: Option<int>)

  /** One step of the collection loop: extract, and if a record comes back, attach
      the row's year to it. */
  function TagWithYear(row: SubmissionRow): (r: Option<YearRecord>)
    ensures r.Some? <==> Guarded(row.url, "phishing").Some?
    ensures r.Some? ==> r.value.features == Guarded(row.url, "phishing").value &&
                        r.value.submissionYear == row.year
  {
    match Guarded(row.url, "phishing")
    case None => None
    case Some(features) => Some(YearRecord(features, row.year))
  }

  /** The collection loop over the sample. */
  method CollectWithYears(sample: seq<SubmissionRow>) returns (records: seq<YearRecord>)
    ensures records == FilterMap(sample, TagWithYear)
  {
    records := CollectAll(sample, TagWithYear);
  }

  /** The whole script on a submission table. */
  method ExtractByYear(rows: seq<SubmissionRow>) returns (records: seq<YearRecord>)
    ensures records == FilterMap(Stratified(InYears(rows, Years), Years), TagWithYear)
  {
    var sample := SampleByYear(rows);
    records := CollectWithYears(sample);
  }

  /** Each record holds the extraction of a sampled row and that row's year, one of
      2020..2025; there are at most 246. */
  lemma RecordsCarryRowYears(rows: seq<SubmissionRow>, r: YearRecord)
    requires r in FilterMap(Stratified(InYears(rows, Years), Years), TagWithYear)
    ensures exists row | row in Stratified(InYears(rows, Years), Years) ::
              Guarded(row.url, "phishing") == Some(r.features) && r.submissionYear == row.year
    ensures r.submissionYear.Some? && r.submissionYear.value in Years
    ensures |FilterMap(Stratified(InYears(rows, Years), Years), TagWithYear)| <= 246
  {
    var sample := Stratified(InYears(rows, Years), Years);
    SampleSize(rows);
    SampleSorted(rows);
    FilterMapFrom(sample, TagWithYear, r);
    var row :| row in sample && TagWithYear(row) == Some(r);
  }

  /** The year of a record, for comparing records. */
  function RecordYear(r: YearRecord): int {
    if r.submissionYear.Some? then r.submissionYear.value else 0
  }

  /** The script's output follows the sample's order, so the years of its records
      never decrease. */
  lemma OutputInYearOrder(rows: seq<SubmissionRow>)
    ensures var out := FilterMap(Stratified(InYears(rows, Years), Years), TagWithYear);
            forall i, j | 0 <= i < j < |out| :: RecordYear(out[i]) <= RecordYear(out[j])
  {
    SampleSorted(rows);
    var sample := Stratified(InYears(rows, Years), Years);
    forall x | x in sample && TagWithYear(x).Some?
      ensures RecordYear(TagWithYear(x).value) == YearKey(x)
    {
    }
    FilterMapOrdered(sample, TagWithYear, YearKey, RecordYear);
  }
}
