/**
 * The second script: the guarded extractor over the first 200 rows, keeping the
 * records that come back and stopping as soon as 100 are kept.
 */
module CleanCollector {
  import opened Wrappers
  import opened Text
  import opened Features
  import opened Collect

  /** `df_raw.head(200)`: rows read to make up for the ones that are dropped. */
  const ConsideredRows: nat := 200

  /** The number of clean records the loop stops at. */
  const Wanted: nat := 100

  /** The guarded extractor with the label this script uses. */
  function PhishingRecord(url: AsciiString): Option<FeatureRecord> {
    Guarded(url, "phishing")
  }

  /**
   * The collection loop over the first 200 rows. `examined` is the number of rows it
   * visited. The records are those of the visited rows, in row order, failures
   * skipped; the loop stops early only on reaching 100 records, and then right at the
   * row that gave the 100th. So the result is the first 100 records of the considered
   * rows, or all of them when there are fewer.
   */
  method CollectClean(rows: seq<AsciiString>) returns (records: seq<FeatureRecord>, examined: nat)
    ensures examined <= |Take(rows, ConsideredRows)|
    ensures records == FilterMap(Take(rows, ConsideredRows)[..examined], PhishingRecord)
    ensures |records| <= Wanted
    ensures examined < |Take(rows, ConsideredRows)| ==> |records| == Wanted
    ensures 0 < examined ==> |FilterMap(Take(rows, ConsideredRows)[..examined - 1], PhishingRecord)| < Wanted
    ensures records == Take(FilterMap(Take(rows, ConsideredRows), PhishingRecord), Wanted)
  {
    records, examined := CollectUpTo(Take(rows, ConsideredRows), PhishingRecord, Wanted);
  }

  /** With fewer than 100 successes among the considered rows, every one is kept. */
  lemma FewSuccessesAllKept(rows: seq<AsciiString>)
    requires |FilterMap(Take(rows, ConsideredRows), PhishingRecord)| < Wanted
    ensures Take(FilterMap(Take(rows, ConsideredRows), PhishingRecord), Wanted) ==
            FilterMap(Take(rows, ConsideredRows), PhishingRecord)
  {
  }

  /** Rows after the 200th never matter. */
  lemma LaterRowsIgnored(rows: seq<AsciiString>, more: seq<AsciiString>)
    requires |rows| >= ConsideredRows
    ensures Take(rows + more, ConsideredRows) == Take(rows, ConsideredRows)
  {
    assert (rows + more)[..ConsideredRows] == rows[..ConsideredRows];
  }

  /** Every kept record is the well-formed, "phishing"-labelled record of one of the
      considered rows. */
  lemma CleanRecordsFromRows(rows: seq<AsciiString>, r: FeatureRecord)
    requires r in FilterMap(Take(rows, ConsideredRows), PhishingRecord)
    ensures r.url in Take(rows, ConsideredRows)
    ensures WellFormed(r, r.url, "phishing")
  {
    FilterMapFrom(Take(rows, ConsideredRows), PhishingRecord, r);
    var url :| url in Take(rows, ConsideredRows) && PhishingRecord(url) == Some(r);
  }
}
