# Phishing URL feature extraction, modelled in Dafny

The repository builds tables of hand-crafted features for phishing and legitimate
URLs. Four scripts share one feature extractor, `extract_features(url)`. It calls
`urlparse(url)` and takes the host (`netloc`), path and query. From these it builds a
record of twenty-one fields:

- lengths and character counts;
- 0/1 indicators from substring, prefix and suffix tests;
- the results of three regular expressions;
- the Shannon entropy of the URL's character counts;
- a class label.

The scripts differ in how they drive the extractor:

- `extract.py` runs the extractor with no guard over the first 100 rows, in one list
  comprehension.
- `new_extract.py` runs the guarded extractor (`try`, and `None` for an empty host)
  over the first 200 rows. It keeps the records that come back and stops at 100.
- `legitimate_extract.py` builds `https://` URLs from the first 250 domains of a list.
  It keeps the guarded records, labelled "legit".
- `phishing_extract_by_year.py` takes the first 41 rows of each submission year from
  2020 to 2025. It extracts each one and attaches the row's year to every kept record.

The model, module by module:

- `Text`: ASCII string operations, `str.split`/`count`/`lower`/`isdigit` and the `in`
  and `startswith`/`endswith` tests.
- `UrlSplit`: `urllib.parse.urlparse`, following CPython 3.12. Steps:
  - strip leading C0 controls and spaces, then delete tab, CR and LF;
  - the scheme is the text before the first ':', if that text is a valid scheme;
  - the authority follows `//` and runs to the first of `/ ? #`;
  - the fragment starts at the first `#`, the query at the first `?`;
  - `;params` is split off the last path segment;
  - unbalanced square brackets in the authority raise `ValueError`, modelled as `None`.
- `Histograms`: `Counter(url)` as a list of (character, count) entries in
  first-occurrence order.
- `Patterns`: the three regular expressions. Each has a hand-written matcher and a
  declarative reading of the pattern, and a lemma proves the two equivalent.
- `Features`: the record and the shared extractor. `Extract(url, label, guarded)`
  returns one of three outcomes:
  - `Extracted` with a record;
  - `Skipped`, the guarded version's `None`;
  - `Raised`, the unguarded version's uncaught `ValueError`.
- `Collect`: `head(n)`, the append-if-present loop and the list comprehension. Each is
  a generic specification function with lemmas about order and membership. The loops
  are methods proved equal to those functions.
- `Batch`, `CleanCollector`, `Legit`, `ByYear`: the four scripts.

URLs are of type `AsciiString`. Python's Unicode-aware `lower`, `isdigit` and `\d`
agree with their ASCII versions on such text. `urlparse`'s NFKC check on the host does
nothing for ASCII text.

## Model

| member | source | states |
|---|---|---|
| Text.Split | phishing_extract_by_year.py:44 | `str.split` with one separator gives one more piece than there are separators. No piece holds the separator, and joining the pieces with it gives back the string. |
| Text.SplitLast | phishing_extract_by_year.py:60 | The last piece of `split(sep)` is the separator-free tail of the string. When the string holds a separator, that tail is preceded by one. |
| UrlSplit.LStrip | phishing_extract_by_year.py:36 | The stripped URL is a suffix of the input. It does not start with a C0 control or space, and everything removed was one. |
| UrlSplit.RemoveUnsafe | phishing_extract_by_year.py:36 | Tab, CR and LF are gone, and every other character keeps its number of occurrences. |
| UrlSplit.RemoveUnsafeAppend | phishing_extract_by_year.py:36 | The clean-up works character by character: cleaning a concatenation cleans each part. With `RemoveUnsafeKeeps`, this means the kept characters stay in their original order. |
| UrlSplit.SplitScheme | phishing_extract_by_year.py:36 | A scheme is split off exactly when the text before the first ':' is a valid scheme. Scheme, ':' and rest give back the text. |
| UrlSplit.SplitAuthority | phishing_extract_by_year.py:36 | An authority exists exactly when the text starts with "//". It holds none of `/ ? #`, the rest starts with one of them or is empty, and "//" + authority + rest is the text. |
| UrlSplit.SplitParams | phishing_extract_by_year.py:36 | `_splitparams`: the cut is at the first ';' after the last '/', or at the first ';' when there is no '/'. So the text before it has no ';', or none after its last '/'. The params hold no '/'. There are none exactly when the path has a '/' and no ';' follows the last one. Nothing is lost. |
| UrlSplit.PathAndParams | phishing_extract_by_year.py:36 | `;params` leaves the path exactly when the scheme is in `uses_params` and a ';' follows the last '/' (or there is a ';' and no '/'). The params hold no '/', the path keeps no ';' after its last '/', and nothing is lost. |
| UrlSplit.SplitTail | phishing_extract_by_year.py:36-39 | Fragment at the first '#', query at the first '?' before it, and params. Path and params hold no '?' or '#', and the query no '#'. Params are split off only for a scheme in `uses_params`, and hold no '/'. For such a scheme the path has no ';', or none after its last '/', so a `;params` after the last '/' is always split off, at its first ';'. Putting the delimiters back gives the input. |
| UrlSplit.Decompose | phishing_extract_by_year.py:36-39 | Scheme, authority and tail together give back the cleaned URL. The authority has no `/ ? #`, and the path has no '?', '#', tab, CR or LF. |
| UrlSplit.UrlParse | phishing_extract_by_year.py:36-39 | On an ASCII URL, `urlparse` raises (`None`) exactly when there is an authority with unbalanced square brackets. |
| UrlSplit.NoBracketsNoRaise | extract.py:25 | An ASCII URL without '[' or ']' never makes `urlparse` raise. |
| UrlSplit.HttpsDomain | legitimate_extract.py:14 | For a plain ASCII domain `d`, `"https://" + d` is ASCII and `urlparse` of it has scheme "https", host `d` and every other part empty. |
| Histograms.Histogram | extract.py:18-21 | `Counter(s)`: one positive entry per distinct character, each holding its number of occurrences, with counts that sum to `len(s)`. |
| Histograms.HistogramStep | extract.py:19 | Counting one more character keeps a histogram a histogram. |
| Histograms.HistogramOfRun | extract.py:18-21 | A string of one repeated character has a single entry, so its entropy is 0. |
| Histograms.HistogramOfDistinct | extract.py:18-21 | A string of distinct characters has one entry of count 1 per character, in order. |
| Histograms.EntriesAtMostLength | extract.py:19 | There are never more entries than characters. The empty string has none, so nothing is divided by `len("")`. |
| Patterns.GroupsCorrect | new_extract.py:44 | Greedy digit runs decide `\d{1,3}(\.\d{1,3}){n-1}` exactly as a backtracking match does. |
| Patterns.IpMatcherCorrect | new_extract.py:44 | `has_ip_address` holds exactly when `^(http\|https)://\d{1,3}(\.\d{1,3}){3}` matches at the start of the URL. |
| Patterns.IpPrefixOnly | new_extract.py:44 | The test is on a prefix only: appending anything to a matching URL keeps it matching. |
| Patterns.ExtensionMatcherCorrect | new_extract.py:57 | The matcher holds exactly when `\.(html\|htm\|php\|exe\|asp\|jsp)$` is found, where `$` also matches before a final newline. |
| Patterns.ExtensionWithoutNewline | new_extract.py:57 | On text without a newline, the pattern is found exactly when the text ends with one of the dotted extensions. |
| Patterns.EmailMatcherCorrect | extract.py:53 | The matcher holds exactly when `[a-zA-Z0-9_.+-]+@[a-zA-Z0-9-]+\.[a-zA-Z0-9-.]+` occurs somewhere in the text. |
| Features.NumSubdomains | phishing_extract_by_year.py:44-45 | `num_subdomains` is the number of '.' in the host minus 1, and 0 below two dots. |
| Features.NumQueryParams | phishing_extract_by_year.py:62 | `num_query_params` is 0 for an empty query, otherwise the number of '&' plus 1. |
| Features.PortMeaning | phishing_extract_by_year.py:60 | `url_has_port` holds exactly when some ':' of the host is followed by one or more digits up to the end, so "host:" has none. |
| Features.Extract | phishing_extract_by_year.py:34-71 | Unguarded, it raises exactly when `urlparse` does. Guarded, it returns `None` exactly when `urlparse` raises or the host is empty. A record names its URL and length and carries the label. Its domain age is 0, every indicator is 0 or 1, and the entropy is taken over the URL's character counts. |
| Features.Guarded | new_extract.py:24-64 | The guarded extractor as a record or `None`, `None` exactly when `Extract` skips. |
| Features.IpFeature | phishing_extract_by_year.py:53 | The record's `has_ip_address` is 1 exactly when the IP pattern matches the URL. |
| Features.EmailFeature | phishing_extract_by_year.py:65 | `has_email_in_path` is 1 exactly when the e-mail pattern occurs anywhere in the URL, not only in the path. |
| Features.ExtensionFeature | phishing_extract_by_year.py:64 | `ends_with_file_extension` follows the pattern on the parsed path. Since the path has no newline, that is a plain suffix test. |
| Features.PortFeature | phishing_extract_by_year.py:60 | The record's `url_has_port` is 1 exactly when the host ends in ':' and one or more digits. |
| Features.EmptyHostZeros | extract.py:30-48 | With an empty host, the unguarded record has no subdomains, hyphen, .gov/.edu suffix or port. |
| Features.CaseInsensitiveWords | legitimate_extract.py:49-59 | Suspicious words and brands are looked up in the lower-cased URL, so URLs equal up to case agree on both. |
| Features.ShortenerFeature | legitimate_extract.py:48 | With a host, `url_shortener` is the case-sensitive substring test on the URL as written. |
| Features.GuardedRecord | legitimate_extract.py:39-60 | A kept record carries its URL and the label, and `has_https` is 1 exactly when the URL starts with "https". |
| Collect.Take | new_extract.py:10 | `head(n)`: the first `n` elements, or all of them when there are fewer. |
| Collect.FilterMapAppend | new_extract.py:67-71 | Collecting over a concatenation gives the two collections one after the other. |
| Collect.FilterMapPrefix | new_extract.py:67-71 | The collection over a prefix of the input is a prefix of the collection, so records keep row order. |
| Collect.FilterMapFrom | legitimate_extract.py:66-70 | Every collected record is the result of some input element. |
| Collect.FilterMapKeeps | legitimate_extract.py:66-70 | Every element with a result contributes it. |
| Collect.FilterMapAllPresent | legitimate_extract.py:66-70 | When no element fails, there is one record per element, in order. |
| Collect.FilterMapOrdered | phishing_extract_by_year.py:73-78 | If inputs are ordered by a key that each result carries over, the outputs are ordered by it too. |
| Collect.MapAll | extract.py:60 | The list comprehension gives every result in order, or stops at the first element that raises. Nothing before that element raises. |
| Collect.CollectUpTo | new_extract.py:67-73 | The capped loop returns the results of the rows it visited, in order. It stops early only on reaching the cap, at the row that gave the last result. Its list is the first `cap` results. |
| Collect.CollectAll | legitimate_extract.py:66-70 | The append-if-present loop builds exactly the collection of its input. |
| Batch.Unguarded | extract.py:24-57 | The unguarded extractor never returns `None`: it gives a record or raises, and raises exactly when `urlparse` does. |
| Batch.Head | extract.py:10 | `head(100)`: exactly the first min(100, n) rows, unchanged and in order. |
| Batch.FeatureTable | extract.py:60 | The table has one record per row among the first 100, in order, and at most 100. Otherwise the run fails at the first row whose URL raises. |
| Batch.TableRecords | extract.py:34-56 | Row `i` of a successful table is the record of URL `i`, with its length and the label "phishing". |
| Batch.BracketFreeTableSucceeds | extract.py:60 | Without square brackets in any URL, the run succeeds. Empty hosts still give records. |
| CleanCollector.CollectClean | new_extract.py:67-73 | Only the first 200 rows are considered. At most 100 records are kept, in row order, with failures skipped. The loop stops right at the 100th record and not before, so the result is the first 100 records. |
| CleanCollector.FewSuccessesAllKept | new_extract.py:67-73 | With fewer than 100 successes among the considered rows, every one is kept. |
| CleanCollector.LaterRowsIgnored | new_extract.py:10 | Rows after the 200th never change what is considered. |
| CleanCollector.CleanRecordsFromRows | new_extract.py:68-71 | Every kept record is the well-formed "phishing" record of a considered row. |
| Legit.HttpsUrl | legitimate_extract.py:14 | `f"https://{domain}"` stays ASCII. |
| Legit.LegitUrls | legitimate_extract.py:11-14 | URL `i` is "https://" + domain `i`, for the first 250 domains, in order. |
| Legit.CollectLegit | legitimate_extract.py:66-70 | The loop keeps the guarded records of the URLs, in URL order. |
| Legit.LegitFeatures | legitimate_extract.py:11-70 | The whole script is the collection over the constructed URLs. |
| Legit.LegitRecordShape | legitimate_extract.py:39-60 | Every record comes from one of the first 250 domains, is labelled "legit" and has `has_https` set to 1. |
| Legit.LegitCount | legitimate_extract.py:11 | There are at most 250 records. |
| Legit.PlainDomainsAllKept | legitimate_extract.py:66-70 | When each of the first 250 domains is a plain host name, none is dropped, and record `i` is that of domain `i`. |
| Legit.ShortenerFalsePositive | legitimate_extract.py:48 | A domain holding "t.co" anywhere is flagged as a URL shortener. |
| Legit.MicrosoftHoldsTco | legitimate_extract.py:18 | "microsoft.com" is such a domain, so it is flagged as a shortener. |
| ByYear.InYears | phishing_extract_by_year.py:14 | The years filter keeps only rows whose year is one of the list. |
| ByYear.InYearsAppend | phishing_extract_by_year.py:14 | The filter works row by row: filtering a concatenation filters each part, so the kept rows stay in table order. |
| ByYear.RowsOfYear | phishing_extract_by_year.py:18 | The per-year selection keeps only rows of that year. |
| ByYear.SampleByYear | phishing_extract_by_year.py:16-22 | The sampling loop builds the year-by-year concatenation of per-year heads. |
| ByYear.SampleSize | phishing_extract_by_year.py:11-12 | The sample has at most 41 × 6 = 246 rows. |
| ByYear.StratifiedPerYear | phishing_extract_by_year.py:17-20 | For years without repeats, each year gets exactly its first 41 rows, and any other year none. |
| ByYear.SamplePerYear | phishing_extract_by_year.py:14-22 | For each year from 2020 to 2025, the sample holds exactly that year's first 41 rows, in table order. Other years and rows without a year are not sampled. |
| ByYear.SampleSorted | phishing_extract_by_year.py:17-22 | Every sampled row has a year from 2020 to 2025, and the sample runs through the years in order. |
| ByYear.TagWithYear | phishing_extract_by_year.py:75-77 | A record comes back exactly when the guarded extractor keeps the URL. It gets the row's own year. |
| ByYear.CollectWithYears | phishing_extract_by_year.py:73-78 | The loop keeps, in sample order, the tagged records of the rows that extract. |
| ByYear.ExtractByYear | phishing_extract_by_year.py:16-78 | The whole script is the collection over the sample. |
| ByYear.RecordsCarryRowYears | phishing_extract_by_year.py:73-78 | Each record holds the extraction of a sampled row and that row's year, which is one of 2020 to 2025. There are at most 246 records. |
| ByYear.OutputInYearOrder | phishing_extract_by_year.py:73-78 | The output follows the sample's order, so record years never decrease. |

## Left out

- Reading the CSV files from the network and from disk, `DataFrame` construction,
  `to_csv`, and the `print`/`head` previews. These are I/O. The scripts' inputs are
  parameters: a sequence of URLs, of domains, or of (URL, year) rows.
- `pd.to_datetime(..., errors='coerce')` and `.dt.year`. A row's year is given
  directly as an optional integer, with `None` standing for an unparsable time.
- The floating-point part of `shannon_entropy` (`math.log2`, the sum, `round(..., 3)`).
  `url_entropy` is kept as `RoundedShannon(counts)`, determined by the character
  counts alone.
- Non-string cells such as pandas `NaN`, and URLs with non-ASCII characters.
  In the guarded scripts a `NaN` URL simply becomes `None`.
- UrlSplit.UrlParse: does not model `_check_bracketed_netloc`, the IPv6 and IPvFuture
  literal validation that CPython 3.12 runs when the authority holds both '[' and ']'.
  A URL it rejects is parsed here. So for such URLs `Features.Extract` gives a record
  where Python would raise (unguarded) or return `None` (guarded).
- The `;params` split follows CPython's `uses_params` list, which includes the empty
  scheme and fifteen others, not only `http` and `https`. This matters only for the
  path of a URL whose last segment holds a ';'.
- `urllib.parse` itself is not part of this model's source. The decomposition follows
  the CPython 3.12 implementation.
