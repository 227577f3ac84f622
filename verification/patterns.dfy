/**
 * The three regular expressions of the feature extractor, each as a hand-written
 * matcher beside a declarative reading of the pattern, with a lemma that the two agree.
 * On ASCII text `\d` is exactly '0'..'9'.
 */
module Patterns {
  import opened Text

  /** The length of the longest run of characters satisfying `P` that starts at `i`. */
  function Run(s: string, i: nat, P: char -> bool): (n: nat)
    requires i <= |s|
    ensures i + n <= |s|
    ensures forall m | i <= m < i + n :: P(s[m])
    ensures i + n == |s| || !P(s[i + n])
    decreases |s| - i
  {
    if i == |s| || !P(s[i]) then 0 else 1 + Run(s, i + 1, P)
  }

  // ---------------------------------------------------------------------------
  // has_ip_address: re.match(r"^(http|https)://\d{1,3}(\.\d{1,3}){3}", url)
  // ---------------------------------------------------------------------------

  /** The two prefixes `(http|https)://` accepts. */
  const IpSchemes: seq<string> := ["http://", "https://"]

  /**
   * The pattern's reading: from `i` there are `n` groups of one to three digits,
   * separated by '.'; each group may take any length the pattern allows
   * (backtracking), and nothing is required after the last group.
   */
  ghost predicate GroupsSpec(s: string, i: nat, n: nat)
    requires n >= 1
    decreases n, 1
  {
    exists k | 1 <= k <= 3 :: GroupOf(s, i, k, n)
  }

  /** The first of the `n` groups from `i` takes exactly `k` digits. */
  ghost predicate GroupOf(s: string, i: nat, k: nat, n: nat)
    requires n >= 1
    decreases n, 0
  {
    && i + k <= |s|
    && (forall m | i <= m < i + k :: IsAsciiDigit(s[m]))
    && (n == 1 || (i + k < |s| && s[i + k] == '.' && GroupsSpec(s, i + k + 1, n - 1)))
  }

  /** What the regex engine checks, group by group: every group but the last is the
      whole digit run there (one to three digits) and is followed by '.'; the last
      group needs one digit. */
  predicate Groups(s: string, i: nat, n: nat)
    requires i <= |s| && n >= 1
    decreases n
  {
    var m := Run(s, i, IsAsciiDigit);
    if n == 1 then m >= 1
    else 1 <= m <= 3 && i + m < |s| && s[i + m] == '.' && Groups(s, i + m + 1, n - 1)
  }

  /** `has_ip_address`: "http://" or "https://" followed by four dotted digit groups. */
  predicate HasIpPrefix(url: string) {
    (IsPrefix("http://", url) && Groups(url, 7, 4)) ||
    (IsPrefix("https://", url) && Groups(url, 8, 4))
  }

  /** The pattern matches at the start of `url`. */
  ghost predicate IpPatternMatches(url: string) {
    exists j | 0 <= j < |IpSchemes| :: IsPrefix(IpSchemes[j], url) && GroupsSpec(url, |IpSchemes[j]|, 4)
  }

  /** Greedy runs lose nothing: a group ends where the digits end, because the next
      character must be '.', so the only choice the engine has is the last group's. */
  lemma {:induction false} GroupsCorrect(s: string, i: nat, n: nat)
    requires i <= |s| && n >= 1
    ensures Groups(s, i, n) <==> GroupsSpec(s, i, n)
    decreases n
  {
    var m := Run(s, i, IsAsciiDigit);
    if n > 1 && i + m < |s| && s[i + m] == '.' {
      GroupsCorrect(s, i + m + 1, n - 1);
    }
    if Groups(s, i, n) {
      var k := if n == 1 then 1 else m;
      assert GroupOf(s, i, k, n);
    }
    if GroupsSpec(s, i, n) {
      var k := GroupLength(s, i, n);
      if n > 1 {
        assert k == m;
      }
    }
  }

  /** The length the first group takes in a match. */
  lemma GroupLength(s: string, i: nat, n: nat) returns (k: nat)
    requires n >= 1 && GroupsSpec(s, i, n)
    ensures 1 <= k <= 3 && GroupOf(s, i, k, n)
  {
    k :| 1 <= k <= 3 && GroupOf(s, i, k, n);
  }

  lemma IpMatcherCorrect(url: string)
    ensures HasIpPrefix(url) <==> IpPatternMatches(url)
  {
    if |url| >= 7 {
      GroupsCorrect(url, 7, 4);
    }
    if |url| >= 8 {
      GroupsCorrect(url, 8, 4);
    }
    assert IsPrefix(IpSchemes[0], url) <==> IsPrefix("http://", url);
    assert IsPrefix(IpSchemes[1], url) <==> IsPrefix("https://", url);
  }

  /** The groups only look forward as far as they reach: more text does not change them. */
  lemma {:induction false} GroupsExtend(s: string, t: string, i: nat, n: nat)
    requires i <= |s| && n >= 1
    requires Groups(s, i, n)
    ensures Groups(s + t, i, n)
    decreases n
  {
    var m := Run(s, i, IsAsciiDigit);
    var m' := Run(s + t, i, IsAsciiDigit);
    assert forall q | i <= q < |s| :: (s + t)[q] == s[q];
    if n == 1 {
      assert IsAsciiDigit((s + t)[i]);
    } else {
      assert m' == m by {
        assert !IsAsciiDigit((s + t)[i + m]);
      }
      GroupsExtend(s, t, i + m + 1, n - 1);
    }
  }

  /** A prefix test only: whatever follows the fourth group, the feature is unchanged. */
  lemma IpPrefixOnly(url: string, more: string)
    requires HasIpPrefix(url)
    ensures HasIpPrefix(url + more)
  {
    if IsPrefix("http://", url) && Groups(url, 7, 4) {
      PrefixExtend("http://", url, more);
      GroupsExtend(url, more, 7, 4);
    } else {
      PrefixExtend("https://", url, more);
      GroupsExtend(url, more, 8, 4);
    }
  }

  lemma PrefixExtend(p: string, s: string, t: string)
    requires IsPrefix(p, s)
    ensures IsPrefix(p, s + t)
  {
    assert (s + t)[..|p|] == s[..|p|];
  }

  // ---------------------------------------------------------------------------
  // ends_with_file_extension: re.search(r"\.(html|htm|php|exe|asp|jsp)$", path)
  // ---------------------------------------------------------------------------

  const Extensions: seq<string> := ["html", "htm", "php", "exe", "asp", "jsp"]

  /** ".html", ".htm", ... */
  const DottedExtensions: seq<string> := [".html", ".htm", ".php", ".exe", ".asp", ".jsp"]

  /** The pattern's reading: '.' and an extension, then the end of the text or a
      final newline (where Python's `$` also matches). */
  ghost predicate ExtensionPatternFound(path: string) {
    exists k | 0 <= k < |Extensions| ::
      IsSuffix("." + Extensions[k], path) || IsSuffix("." + Extensions[k] + "\n", path)
  }

  /** The matcher: a dotted extension at the end, or just before a final newline. */
  predicate EndsWithExtension(path: string) {
    EndsWithAny(path, DottedExtensions) ||
    (|path| > 0 && path[|path| - 1] == '\n' && EndsWithAny(path[..|path| - 1], DottedExtensions))
  }

  lemma ExtensionSuffixNewline(e: string, path: string)
    requires |path| > 0 && path[|path| - 1] == '\n'
    ensures IsSuffix(e + "\n", path) <==> IsSuffix(e, path[..|path| - 1])
  {
    if IsSuffix(e + "\n", path) {
      assert path[|path| - |e| - 1..] == e + "\n";
      assert path[..|path| - 1][|path| - 1 - |e|..] == path[|path| - |e| - 1..|path| - 1];
    }
    if IsSuffix(e, path[..|path| - 1]) {
      assert path[|path| - |e| - 1..] == path[..|path| - 1][|path| - 1 - |e|..] + "\n";
    }
  }

  lemma ExtensionMatcherCorrect(path: string)
    ensures EndsWithExtension(path) <==> ExtensionPatternFound(path)
  {
    assert forall k | 0 <= k < |Extensions| :: DottedExtensions[k] == "." + Extensions[k];
    if |path| > 0 && path[|path| - 1] == '\n' {
      forall k | 0 <= k < |Extensions|
        ensures IsSuffix("." + Extensions[k] + "\n", path) <==> IsSuffix(DottedExtensions[k], path[..|path| - 1])
      {
        ExtensionSuffixNewline(DottedExtensions[k], path);
      }
    } else {
      forall k | 0 <= k < |Extensions|
        ensures !IsSuffix("." + Extensions[k] + "\n", path)
      {
        var e := "." + Extensions[k] + "\n";
        assert e[|e| - 1] == '\n';
      }
    }
  }

  /** A path with no newline (every path `urlparse` returns) matches exactly when it
      ends with one of the dotted extensions. */
  lemma ExtensionWithoutNewline(path: string)
    requires '\n' !in path
    ensures ExtensionPatternFound(path) <==> EndsWithAny(path, DottedExtensions)
  {
    ExtensionMatcherCorrect(path);
    assert |path| > 0 ==> path[|path| - 1] in path;
  }

  // ---------------------------------------------------------------------------
  // has_email_in_path: re.search(r"[a-zA-Z0-9_.+-]+@[a-zA-Z0-9-]+\.[a-zA-Z0-9-.]+", url)
  // ---------------------------------------------------------------------------

  /** `[a-zA-Z0-9_.+-]`, the characters before '@'. */
  predicate IsLocalChar(c: char) { IsAsciiAlnum(c) || c == '_' || c == '.' || c == '+' || c == '-' }

  /** `[a-zA-Z0-9-]`, the characters between '@' and '.'; '.' is not one of them. */
  predicate IsDomainChar(c: char) { IsAsciiAlnum(c) || c == '-' }

  /** `[a-zA-Z0-9-.]`, the characters after the '.'. */
  predicate IsTailChar(c: char) { IsAsciiAlnum(c) || c == '-' || c == '.' }

  /**
   * The pattern matched at `i`: local characters on `[i, at)`, '@' at `at`, domain
   * characters on `(at, d)` (at least one), '.' at `d`, and at least one tail
   * character after it.
   */
  ghost predicate EmailMatchAt(s: string, i: int, at: int, d: int) {
    && 0 <= i < at < d < |s| - 1
    && (forall m | i <= m < at :: IsLocalChar(s[m]))
    && s[at] == '@'
    && at + 1 < d
    && (forall m | at < m < d :: IsDomainChar(s[m]))
    && s[d] == '.'
    && IsTailChar(s[d + 1])
  }

  /** `re.search` finds the pattern somewhere in `s`. */
  ghost predicate EmailPatternFound(s: string) {
    exists i, at, d :: EmailMatchAt(s, i, at, d)
  }

  /** The matcher's test at an '@': a local character before it, then the whole run of
      domain characters after it, then '.' and a tail character. */
  predicate EmailAt(s: string, at: nat)
    requires at < |s|
  {
    && s[at] == '@'
    && at > 0 && IsLocalChar(s[at - 1])
    && var n := Run(s, at + 1, IsDomainChar);
       var d := at + 1 + n;
       n >= 1 && d + 1 < |s| && s[d] == '.' && IsTailChar(s[d + 1])
  }

  /** Some position from `j` on passes `EmailAt`. */
  predicate HasEmailFrom(s: string, j: nat)
    requires j <= |s|
    decreases |s| - j
  {
    j < |s| && (EmailAt(s, j) || HasEmailFrom(s, j + 1))
  }

  predicate HasEmail(s: string) {
    HasEmailFrom(s, 0)
  }

  lemma {:induction false} HasEmailFromReaches(s: string, j: nat, at: nat)
    requires j <= at < |s| && EmailAt(s, at)
    ensures HasEmailFrom(s, j)
    decreases at - j
  {
    if j < at {
      HasEmailFromReaches(s, j + 1, at);
    }
  }

  lemma {:induction false} HasEmailFromWitness(s: string, j: nat) returns (at: nat)
    requires j <= |s| && HasEmailFrom(s, j)
    ensures j <= at < |s| && EmailAt(s, at)
    decreases |s| - j
  {
    if EmailAt(s, j) {
      at := j;
    } else {
      at := HasEmailFromWitness(s, j + 1);
    }
  }

  /** The matcher agrees with the pattern: shortening the local part to one character
      and the domain part to its full run loses no match. */
  lemma EmailMatcherCorrect(s: string)
    ensures HasEmail(s) <==> EmailPatternFound(s)
  {
    if HasEmail(s) {
      var at := HasEmailFromWitness(s, 0);
      var d := at + 1 + Run(s, at + 1, IsDomainChar);
      assert EmailMatchAt(s, at - 1, at, d);
    }
    if EmailPatternFound(s) {
      var i, at, d :| EmailMatchAt(s, i, at, d);
      var n := Run(s, at + 1, IsDomainChar);
      assert IsLocalChar(s[at - 1]);
      assert n == d - at - 1 by {
        assert !IsDomainChar(s[d]);
      }
      assert EmailAt(s, at);
      HasEmailFromReaches(s, 0, at);
    }
  }
}
