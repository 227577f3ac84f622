/**
 * The string operations the feature extractor relies on, restricted to ASCII text:
 * `str.count`, `str.split`, `startswith`/`endswith`, the `in` substring test,
 * `str.lower` and `str.isdigit`.
 */
module Text {

  /** Every character lies in the 7-bit ASCII range. */
  predicate IsAscii(s: string) {
    forall i | 0 <= i < |s| :: s[i] as int < 128
  }

  /** The URLs the model covers: on ASCII text, Python's Unicode-aware `lower`,
      `isdigit` and `\d` coincide with their ASCII versions below. */
  type AsciiString = s: string | IsAscii(s)

  predicate IsAsciiDigit(c: char) { '0' <= c <= '9' }
  predicate IsAsciiUpper(c: char) { 'A' <= c <= 'Z' }
  predicate IsAsciiLower(c: char) { 'a' <= c <= 'z' }
  predicate IsAsciiAlpha(c: char) { IsAsciiUpper(c) || IsAsciiLower(c) }
  predicate IsAsciiAlnum(c: char) { IsAsciiAlpha(c) || IsAsciiDigit(c) }

  /** `str.isdigit()`: false on the empty string, otherwise every character is a digit. */
  predicate IsDigits(s: string) {
    |s| > 0 && forall i | 0 <= i < |s| :: IsAsciiDigit(s[i])
  }

  function LowerChar(c: char): char {
    if IsAsciiUpper(c) then (c as int + 32) as char else c
  }

  /** `str.lower()` on ASCII text. */
  function Lower(s: string): string {
    seq(|s|, i requires 0 <= i < |s| => LowerChar(s[i]))
  }

  /** `s.startswith(p)`. */
  predicate IsPrefix(p: string, s: string) {
    |p| <= |s| && s[..|p|] == p
  }

  /** `s.endswith(p)`. */
  predicate IsSuffix(p: string, s: string) {
    |p| <= |s| && s[|s| - |p|..] == p
  }

  /** `w in s` for strings: `w` occurs at some position of `s`. */
  predicate IsInfix(w: string, s: string) {
    exists i | 0 <= i <= |s| :: IsPrefix(w, s[i..])
  }

  /** `any(w in s for w in words)`. */
  predicate ContainsAny(s: string, words: seq<string>) {
    exists k | 0 <= k < |words| :: IsInfix(words[k], s)
  }

  /** `s.endswith(tuple(suffixes))`. */
  predicate EndsWithAny(s: string, suffixes: seq<string>) {
    exists k | 0 <= k < |suffixes| :: IsSuffix(suffixes[k], s)
  }

  /** `s.count(c)` for a one-character argument. */
  function Count(s: string, c: char): nat {
    if s == [] then 0 else (if s[0] == c then 1 else 0) + Count(s[1..], c)
  }

  lemma {:induction false} CountAppend(a: string, b: string, c: char)
    ensures Count(a + b, c) == Count(a, c) + Count(b, c)
  {
    if a != [] {
      assert (a + b)[1..] == a[1..] + b;
      CountAppend(a[1..], b, c);
    } else {
      assert a + b == b;
    }
  }

  lemma {:induction false} CountAbsent(s: string, c: char)
    ensures Count(s, c) == 0 <==> c !in s
  {
    if s != [] {
      CountAbsent(s[1..], c);
      assert c in s <==> s[0] == c || c in s[1..];
    }
  }

  /** `sep.join(parts)`. */
  function Join(parts: seq<string>, sep: char): string
    requires |parts| > 0
  {
    if |parts| == 1 then parts[0] else parts[0] + [sep] + Join(parts[1..], sep)
  }

  /**
   * `s.split(sep)` for a one-character separator: the maximal separator-free pieces,
   * one more than there are separators, which join back to `s`.
   */
  function Split(s: string, sep: char): (parts: seq<string>)
    ensures |parts| == Count(s, sep) + 1
    ensures forall k | 0 <= k < |parts| :: sep !in parts[k]
    ensures Join(parts, sep) == s
  {
    if s == [] then [""]
    else
      var rest := Split(s[1..], sep);
      if s[0] == sep then
        var parts := [""] + rest;
        assert parts[1..] == rest;
        assert Join(parts, sep) == [sep] + s[1..];
        parts
      else
        var parts := [[s[0]] + rest[0]] + rest[1..];
        assert |rest| > 1 ==> Join(rest, sep) == rest[0] + [sep] + Join(rest[1..], sep);
        assert |rest| > 1 ==> parts[1..] == rest[1..];
        assert Join(parts, sep) == [s[0]] + Join(rest, sep);
        assert [s[0]] + s[1..] == s;
        parts
  }

  /**
   * The last piece of `s.split(sep)` is the text after the last separator:
   * a separator-free suffix of `s`, preceded by `sep` whenever `s` holds one.
   */
  lemma SplitLast(s: string, sep: char)
    ensures var parts := Split(s, sep);
            var p := parts[|parts| - 1];
            IsSuffix(p, s) && sep !in p &&
            (sep in s ==> |p| < |s| && s[|s| - |p| - 1] == sep)
  {
    JoinEnd(Split(s, sep), sep);
    CountAbsent(s, sep);
  }

  /** The joined text ends with the last part, after a separator when there are
      several parts. */
  lemma {:induction false} JoinEnd(parts: seq<string>, sep: char)
    requires |parts| > 0
    ensures var j := Join(parts, sep);
            var p := parts[|parts| - 1];
            IsSuffix(p, j) && (|parts| > 1 ==> |p| < |j| && j[|j| - |p| - 1] == sep)
  {
    if |parts| > 1 {
      var rest := parts[1..];
      var p := parts[|parts| - 1];
      assert rest[|rest| - 1] == p;
      JoinEnd(rest, sep);
      var a := parts[0] + [sep];
      var jr := Join(rest, sep);
      var j := Join(parts, sep);
      assert j == a + jr;
      assert j[|j| - |p|..] == jr[|jr| - |p|..];
      if |rest| == 1 {
        assert jr == p;
        assert j[|j| - |p| - 1] == a[|a| - 1];
      } else {
        assert j[|j| - |p| - 1] == jr[|jr| - |p| - 1];
      }
    }
  }
}
