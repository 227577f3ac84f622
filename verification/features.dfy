/**
 * `extract_features(url)`: the feature record computed from a URL and the parts
 * `urlparse` gives it. The four scripts share this code; they differ only in the label
 * and in whether a guard turns an empty host or an exception into `None`.
 */
module Features {
  import opened Wrappers
  import opened Text
  import opened UrlSplit
  import opened Histograms
  import opened Patterns

  const SuspiciousWords: seq<string> := ["login", "verify", "bank", "secure", "account", "update", "password"]
  const Shorteners: seq<string> := ["bit.ly", "tinyurl", "goo.gl", "ow.ly", "t.co"]
  const KnownBrands: seq<string> := ["paypal", "facebook", "google", "amazon", "netflix", "microsoft", "instagram"]

  /** The suffixes `is_top_level_domain` looks for, compared case-sensitively. */
  const GovEduSuffixes: seq<string> := [".gov", ".edu"]

  /** `1 if cond else 0`. */
  function Flag(b: bool): int {
    if b then 1 else 0
  }

  /** `round(shannon_entropy(url), 3)`, kept symbolic: the value is a function of the
      character counts of `Counter(url)` alone. */
  datatype Entropy = RoundedShannon(counts: seq<(char, nat)>)

  /** One row of the feature table. */
  datatype FeatureRecord = FeatureRecord(
    url: string,
    urlLength: int,
    hasHttps: int,
    hasAtSymbol: int,
    numDots: int,
    hasIpAddress: int,
    hasHyphen: int,
    numSubdomains: int,
    urlShortener: int,
    hasSuspiciousWords: int,
    isTopLevelDomain: int,
    domainAgeDays: int,
    urlHasPort: int,
    pathLength: int,
    numQueryParams: int,
    hasMultipleSlashes: int,
    endsWithFileExtension: int,
    hasEmailInPath: int,
    urlEntropy: Entropy,
    usesKnownBrand: int,
    classLabel: string)

  /** `len(parts) - 2 if len(parts) > 2 else 0` for `parts = host.split(".")`:
      one less than the number of dots, and never negative. */
  function NumSubdomains(host: string): (n: int)
    ensures n == if Count(host, '.') >= 2 then Count(host, '.') - 1 else 0
  {
    var parts := Split(host, '.');
    if |parts| > 2 then |parts| - 2 else 0
  }

  /** `len(query.split("&")) if query else 0`: one more than the number of '&'. */
  function NumQueryParams(query: string): (n: int)
    ensures n == if query == [] then 0 else Count(query, '&') + 1
  {
    if query != [] then |Split(query, '&')| else 0
  }

  /** `":" in host and host.split(":")[-1].isdigit()`. */
  predicate HasPort(host: string) {
    var parts := Split(host, ':');
    ':' in host && IsDigits(parts[|parts| - 1])
  }

  /** A port is reported exactly when some ':' is followed by nothing but one or more
      digits to the end of the host; "host:" has none. */
  lemma PortMeaning(host: string)
    ensures HasPort(host) <==> exists i | 0 <= i < |host| :: host[i] == ':' && IsDigits(host[i + 1..])
  {
    if HasPort(host) {
      var i := PortColon(host);
    }
    if exists i | 0 <= i < |host| :: host[i] == ':' && IsDigits(host[i + 1..]) {
      var i :| 0 <= i < |host| && host[i] == ':' && IsDigits(host[i + 1..]);
      ColonPort(host, i);
    }
  }

  /** A reported port sits after the last ':'. */
  lemma PortColon(host: string) returns (i: nat)
    requires HasPort(host)
    ensures i < |host| && host[i] == ':' && IsDigits(host[i + 1..])
  {
    var parts := Split(host, ':');
    var p := parts[|parts| - 1];
    SplitLast(host, ':');
    i := |host| - |p| - 1;
    assert host[i + 1..] == p;
  }

  /** A ':' followed only by digits makes the port test hold. */
  lemma ColonPort(host: string, i: nat)
    requires i < |host| && host[i] == ':' && IsDigits(host[i + 1..])
    ensures HasPort(host)
  {
    var parts := Split(host, ':');
    SplitLast(host, ':');
    DigitsAfterColon(host, parts[|parts| - 1], i);
  }

  /** The last piece after a ':' that only digits follow is that run of digits. */
  lemma DigitsAfterColon(host: string, p: string, i: nat)
    requires IsSuffix(p, host) && ':' !in p
    requires ':' in host ==> |p| < |host| && host[|host| - |p| - 1] == ':'
    requires i < |host| && host[i] == ':' && IsDigits(host[i + 1..])
    ensures ':' in host && IsDigits(p)
  {
    assert host[i] in host;
    LastColon(host, p, i);
  }

  /** A ':' followed only by digits is the last ':', so what follows it is the last
      piece of the split. */
  lemma LastColon(host: string, p: string, i: nat)
    requires IsSuffix(p, host) && ':' !in p && |p| < |host| && host[|host| - |p| - 1] == ':'
    requires i < |host| && host[i] == ':' && IsDigits(host[i + 1..])
    ensures host[i + 1..] == p
  {
  }

  /** The record `extract_features` builds once `urlparse` has succeeded. */
  function FeaturesOf(url: AsciiString, parsed: ParseResult, classLabel: string): FeatureRecord {
    var host := parsed.netloc;
    var path := parsed.path;
    FeatureRecord(
      url := url,
      urlLength := |url|,
      hasHttps := Flag(IsPrefix("https", url)),
      hasAtSymbol := Flag('@' in url),
      numDots := Count(url, '.'),
      hasIpAddress := Flag(HasIpPrefix(url)),
      hasHyphen := Flag('-' in host),
      numSubdomains := NumSubdomains(host),
      urlShortener := Flag(ContainsAny(url, Shorteners)),
      hasSuspiciousWords := Flag(ContainsAny(Lower(url), SuspiciousWords)),
      isTopLevelDomain := Flag(EndsWithAny(host, GovEduSuffixes)),
      domainAgeDays := 0,
      urlHasPort := Flag(HasPort(host)),
      pathLength := |path|,
      numQueryParams := NumQueryParams(parsed.query),
      hasMultipleSlashes := Flag(Count(path, '/') > 3),
      endsWithFileExtension := Flag(EndsWithExtension(path)),
      hasEmailInPath := Flag(HasEmail(url)),
      urlEntropy := RoundedShannon(Histogram(url)),
      usesKnownBrand := Flag(ContainsAny(Lower(url), KnownBrands)),
      classLabel := classLabel)
  }

  /** What one call of `extract_features` does: a record, `None` from a guarded
      version, or the exception an unguarded version lets through. */
  datatype Extraction = Extracted(record: FeatureRecord) | Skipped | Raised

  /** Each indicator is 0 or 1. */
  predicate IndicatorsAreBits(r: FeatureRecord) {
    && r.hasHttps in {0, 1} && r.hasAtSymbol in {0, 1} && r.hasIpAddress in {0, 1}
    && r.hasHyphen in {0, 1} && r.urlShortener in {0, 1} && r.hasSuspiciousWords in {0, 1}
    && r.isTopLevelDomain in {0, 1} && r.urlHasPort in {0, 1} && r.hasMultipleSlashes in {0, 1}
    && r.endsWithFileExtension in {0, 1} && r.hasEmailInPath in {0, 1} && r.usesKnownBrand in {0, 1}
  }

  /** The shape every record has, whatever the URL: it names its URL and length,
      carries the label, a zero domain age, 0/1 indicators, non-negative counts and
      the character counts of the URL. */
  ghost predicate WellFormed(r: FeatureRecord, url: string, classLabel: string) {
    && r.url == url && r.urlLength == |url| && r.classLabel == classLabel
    && r.domainAgeDays == 0
    && IndicatorsAreBits(r)
    && r.numDots >= 0 && r.numSubdomains >= 0 && r.pathLength >= 0 && r.numQueryParams >= 0
    && IsHistogramOf(r.urlEntropy.counts, url)
  }

  /**
   * `extract_features(url)`. `guarded` selects the version with the empty-host check
   * inside `try ... except Exception: return None`; without it, the `ValueError` of
   * `urlparse` escapes and an empty host still yields a record.
   */
  function Extract(url: AsciiString, classLabel: string, guarded: bool): (r: Extraction)
    ensures r.Raised? <==> !guarded && UrlParse(url).None?
    ensures r.Skipped? <==> guarded && (UrlParse(url).None? || UrlParse(url).value.netloc == [])
    ensures r.Extracted? ==> WellFormed(r.record, url, classLabel)
    ensures r.Extracted? ==> UrlParse(url).Some? && r.record == FeaturesOf(url, UrlParse(url).value, classLabel)
  {
    match UrlParse(url)
    case None => if guarded then Skipped else Raised
    case Some(parsed) =>
      if guarded && parsed.netloc == [] then Skipped
      else Extracted(FeaturesOf(url, parsed, classLabel))
  }

  /** The guarded `extract_features` as the collectors see it: a record or `None`. */
  function Guarded(url: AsciiString, classLabel: string): (r: Option<FeatureRecord>)
    ensures r.Some? <==> Extract(url, classLabel, true).Extracted?
    ensures r.Some? ==> r.value == Extract(url, classLabel, true).record
  {
    match Extract(url, classLabel, true)
    case Extracted(record) => Some(record)
    case _ => None
  }

  /** `has_ip_address` is set exactly when the IP pattern matches at the start. */
  lemma IpFeature(url: AsciiString, parsed: ParseResult, classLabel: string)
    ensures FeaturesOf(url, parsed, classLabel).hasIpAddress == 1 <==> IpPatternMatches(url)
  {
    IpMatcherCorrect(url);
  }

  /** `has_email_in_path` is set exactly when the e-mail pattern occurs anywhere in the
      URL, the path or not. */
  lemma EmailFeature(url: AsciiString, parsed: ParseResult, classLabel: string)
    ensures FeaturesOf(url, parsed, classLabel).hasEmailInPath == 1 <==> EmailPatternFound(url)
  {
    EmailMatcherCorrect(url);
  }

  /** On a parsed path, `ends_with_file_extension` follows the pattern, and since
      `urlparse` leaves no newline in a path, it is a plain suffix test. */
  lemma ExtensionFeature(url: AsciiString, classLabel: string)
    requires UrlParse(url).Some?
    ensures var parsed := UrlParse(url).value;
            var r := FeaturesOf(url, parsed, classLabel);
            && (r.endsWithFileExtension == 1 <==> ExtensionPatternFound(parsed.path))
            && (r.endsWithFileExtension == 1 <==> EndsWithAny(parsed.path, DottedExtensions))
  {
    var parsed := UrlParse(url).value;
    assert '\n' !in parsed.path by {
      assert parsed.path == Decompose(url).tail.path;
    }
    ExtensionMatcherCorrect(parsed.path);
    ExtensionWithoutNewline(parsed.path);
  }

  /** `url_has_port` is set exactly when the host ends in ':' and one or more digits. */
  lemma PortFeature(url: AsciiString, parsed: ParseResult, classLabel: string)
    ensures FeaturesOf(url, parsed, classLabel).urlHasPort == 1 <==>
            exists i | 0 <= i < |parsed.netloc| :: parsed.netloc[i] == ':' && IsDigits(parsed.netloc[i + 1..])
  {
    PortMeaning(parsed.netloc);
  }

  /** An empty host (possible only without the guard) gives no subdomains, hyphen,
      government suffix or port. */
  lemma EmptyHostZeros(url: AsciiString, classLabel: string)
    requires UrlParse(url).Some? && UrlParse(url).value.netloc == []
    ensures var r := Extract(url, classLabel, false);
            r.Extracted? &&
            r.record.numSubdomains == 0 && r.record.hasHyphen == 0 &&
            r.record.isTopLevelDomain == 0 && r.record.urlHasPort == 0
  {
    EmptyHostFeatures(url, UrlParse(url).value, classLabel);
  }

  lemma EmptyHostFeatures(url: AsciiString, parsed: ParseResult, classLabel: string)
    requires parsed.netloc == []
    ensures var r := FeaturesOf(url, parsed, classLabel);
            r.numSubdomains == 0 && r.hasHyphen == 0 && r.isTopLevelDomain == 0 && r.urlHasPort == 0
  {
    assert !HasPort(parsed.netloc);
    assert !EndsWithAny(parsed.netloc, GovEduSuffixes);
  }

  /** The brand and word lists are matched against the lower-cased URL, so the case of
      the URL does not matter. */
  lemma CaseInsensitiveWords(url: AsciiString, other: AsciiString, classLabel: string, guarded: bool)
    requires Lower(url) == Lower(other)
    requires Extract(url, classLabel, guarded).Extracted? && Extract(other, classLabel, guarded).Extracted?
    ensures Extract(url, classLabel, guarded).record.hasSuspiciousWords == Extract(other, classLabel, guarded).record.hasSuspiciousWords
    ensures Extract(url, classLabel, guarded).record.usesKnownBrand == Extract(other, classLabel, guarded).record.usesKnownBrand
  {
  }

  /** With a host, the guarded extractor yields a record whose `url_shortener` is the
      substring test on the URL as written. */
  lemma ShortenerFeature(url: AsciiString, classLabel: string)
    requires UrlParse(url).Some? && UrlParse(url).value.netloc != []
    ensures var r := Extract(url, classLabel, true);
            r.Extracted? && (r.record.urlShortener == 1 <==> ContainsAny(url, Shorteners))
  {
  }

  /** Whatever the guard keeps carries the label, its URL, and `has_https` set exactly
      when the URL starts with "https". */
  lemma GuardedRecord(url: AsciiString, classLabel: string)
    requires Guarded(url, classLabel).Some?
    ensures var r := Guarded(url, classLabel).value;
            r.url == url && r.classLabel == classLabel && (r.hasHttps == 1 <==> IsPrefix("https", url))
  {
  }
}
