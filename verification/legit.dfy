/**
 * The third script: `https://` URLs built from the first 250 domains of a popularity
 * list, run through the guarded extractor with the label "legit".
 */
module Legit {
  import opened Wrappers
  import opened Text
  import opened UrlSplit
  import opened Features
  import opened Collect

  /** `head(250)` of the domain column. */
  const DomainLimit: nat := 250

  /** `f"https://{domain}"`. */
  function HttpsUrl(d: AsciiString): (url: AsciiString)
    ensures url == "https://" + d
  {
    HttpsAscii(d);
    "https://" + d
  }

  /** The URL list: one URL per domain among the first 250, in domain order. */
  function LegitUrls(domains: seq<AsciiString>): (urls: seq<AsciiString>)
    ensures |urls| == |Take(domains, DomainLimit)| <= DomainLimit
    ensures forall i | 0 <= i < |urls| :: urls[i] == "https://" + domains[i]
  {
    var top := Take(domains, DomainLimit);
    seq(|top|, i requires 0 <= i < |top| => HttpsUrl(top[i]))
  }

  /** The guarded extractor with the label this script uses. */
  function LegitRecord(url: AsciiString): Option<FeatureRecord> {
    Guarded(url, "legit")
  }

  /** The collection loop: the records of the URLs that extract, in URL order. */
  method CollectLegit(urls: seq<AsciiString>) returns (records: seq<FeatureRecord>)
    ensures records == FilterMap(urls, LegitRecord)
  {
    records := CollectAll(urls, LegitRecord);
  }

  /** The whole script on a domain column. */
  method LegitFeatures(domains: seq<AsciiString>) returns (records: seq<FeatureRecord>)
    ensures records == FilterMap(LegitUrls(domains), LegitRecord)
  {
    var urls := LegitUrls(domains);
    records := CollectLegit(urls);
  }

  /** Every record comes from one of the first 250 domains, carries the label "legit"
      and has `has_https` set, because its URL starts with "https". */
  lemma LegitRecordShape(domains: seq<AsciiString>, r: FeatureRecord)
    requires r in FilterMap(LegitUrls(domains), LegitRecord)
    ensures exists i | 0 <= i < |Take(domains, DomainLimit)| :: r.url == "https://" + domains[i]
    ensures r.classLabel == "legit" && r.hasHttps == 1
  {
    var i := SourceOf(domains, r);
    var url := LegitUrls(domains)[i];
    HttpsPrefix(domains[i]);
    GuardedRecord(url, "legit");
  }

  /** The position of the URL a record came from. */
  lemma SourceOf(domains: seq<AsciiString>, r: FeatureRecord) returns (i: nat)
    requires r in FilterMap(LegitUrls(domains), LegitRecord)
    ensures i < |LegitUrls(domains)| && LegitRecord(LegitUrls(domains)[i]) == Some(r)
  {
    var urls := LegitUrls(domains);
    FilterMapFrom(urls, LegitRecord, r);
    var url :| url in urls && LegitRecord(url) == Some(r);
    i :| 0 <= i < |urls| && urls[i] == url;
  }

  lemma HttpsPrefix(d: string)
    ensures IsPrefix("https", "https://" + d)
  {
    assert ("https://" + d)[..5] == "https";
  }

  /** At most 250 records. */
  lemma LegitCount(domains: seq<AsciiString>)
    ensures |FilterMap(LegitUrls(domains), LegitRecord)| <= DomainLimit
  {
  }

  /** When each of the first 250 domains is a plain host name, no domain is dropped:
      record `i` is the record of domain `i`. */
  lemma PlainDomainsAllKept(domains: seq<AsciiString>)
    requires forall i | 0 <= i < |domains| && i < DomainLimit :: PlainHost(domains[i])
    ensures var records := FilterMap(LegitUrls(domains), LegitRecord);
            |records| == |Take(domains, DomainLimit)| &&
            forall i | 0 <= i < |records| :: records[i].url == "https://" + domains[i]
  {
    var urls := LegitUrls(domains);
    forall i | 0 <= i < |urls|
      ensures LegitRecord(urls[i]).Some? && LegitRecord(urls[i]).value.url == urls[i]
    {
      HttpsDomain(domains[i]);
    }
    FilterMapAllPresent(urls, LegitRecord);
  }

  /** A domain that holds "t.co" anywhere is flagged as a shortener, like
      "microsoft.com": the test is a plain substring search on the URL. */
  lemma ShortenerFalsePositive(d: AsciiString)
    requires PlainHost(d) && IsInfix("t.co", d)
    ensures LegitRecord(HttpsUrl(d)).Some? && LegitRecord(HttpsUrl(d)).value.urlShortener == 1
  {
    var url := HttpsUrl(d);
    HttpsDomain(d);
    UrlHoldsTco(d);
    ShortenerFeature(url, "legit");
  }

  lemma UrlHoldsTco(d: string)
    requires IsInfix("t.co", d)
    ensures ContainsAny("https://" + d, Shorteners)
  {
    var url := "https://" + d;
    var i :| 0 <= i <= |d| && IsPrefix("t.co", d[i..]);
    assert url[8 + i..] == d[i..];
    assert IsPrefix(Shorteners[4], url[8 + i..]);
  }

  /** "microsoft.com" is such a domain. */
  lemma MicrosoftHoldsTco()
    ensures IsAscii("microsoft.com") && PlainHost("microsoft.com") && IsInfix("t.co", "microsoft.com")
  {
    var d := "microsoft.com";
    assert d[8..][..4] == "t.co";
    assert IsPrefix("t.co", d[8..]);
  }
}
