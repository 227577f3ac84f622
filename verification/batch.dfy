/**
 * The first script: the unguarded extractor applied to each of the first 100 URLs by
 * one list comprehension. Nothing catches the `ValueError` of `urlparse`, so one bad
 * URL ends the whole run.
 */
module Batch {
  import opened Wrappers
  import opened Text
  import opened UrlSplit
  import opened Features
  import opened Collect

  const RowLimit: nat := 100

  /** The unguarded extractor with the label this script uses; `None` stands for the
      exception, since this version never returns `None` itself. */
  function Unguarded(url: AsciiString): (r: Option<FeatureRecord>)
    ensures r.None? <==> UrlParse(url).None?
    ensures r.Some? ==> Extract(url, "phishing", false) == Extracted(r.value)
  {
    match Extract(url, "phishing", false)
    case Extracted(record) => Some(record)
    case _ => None
  }

  /** `df_raw.head(100)`: the only rows the script reads. */
  function Head(rows: seq<AsciiString>): (urls: seq<AsciiString>)
    ensures |urls| == if |rows| < RowLimit then |rows| else RowLimit
    ensures forall i | 0 <= i < |urls| :: urls[i] == rows[i]
  {
    Take(rows, RowLimit)
  }

  /**
   * The script's table, `[extract_features(url) for url in df_raw.head(100)]`: one
   * record per row, in order, or the position of the first row whose URL raises.
   */
  function FeatureTable(rows: seq<AsciiString>): (r: Result<seq<FeatureRecord>, nat>)
    ensures r.Success? <==> forall i | 0 <= i < |Head(rows)| :: Unguarded(Head(rows)[i]).Some?
    ensures r.Success? ==> |r.value| == |Head(rows)| == if |rows| < RowLimit then |rows| else RowLimit
    ensures r.Success? ==> forall i | 0 <= i < |r.value| :: Unguarded(Head(rows)[i]) == Some(r.value[i])
    ensures r.Failure? ==> r.error < |Head(rows)| && Unguarded(Head(rows)[r.error]).None? &&
                           forall j | 0 <= j < r.error :: Unguarded(Head(rows)[j]).Some?
  {
    MapAll(Head(rows), Unguarded)
  }

  /** A successful table holds, row for row, the record of each URL with the label
      "phishing". */
  lemma TableRecords(rows: seq<AsciiString>)
    requires FeatureTable(rows).Success?
    ensures var t := FeatureTable(rows).value;
            forall i | 0 <= i < |t| :: t[i].url == rows[i] && t[i].urlLength == |rows[i]| &&
                                       t[i].classLabel == "phishing"
  {
    var t := FeatureTable(rows).value;
    forall i | 0 <= i < |t|
      ensures t[i].url == rows[i] && t[i].urlLength == |rows[i]| && t[i].classLabel == "phishing"
    {
      assert Unguarded(Head(rows)[i]) == Some(t[i]);
    }
  }

  /** Only a bracket in some URL can make the run fail: otherwise every one of the
      first 100 rows yields a record, even one with an empty host. */
  lemma BracketFreeTableSucceeds(rows: seq<AsciiString>)
    requires forall i | 0 <= i < |rows| :: '[' !in rows[i] && ']' !in rows[i]
    ensures FeatureTable(rows).Success?
  {
    forall i | 0 <= i < |Head(rows)|
      ensures Unguarded(Head(rows)[i]).Some?
    {
      NoBracketsNoRaise(rows[i]);
    }
  }
}
