/**
 * The URL decomposer: `urllib.parse.urlparse` as the extractor calls it (default
 * scheme '', fragments allowed), following the generic syntax of RFC 3986
 * (section 3 and Appendix B) the way CPython's `urlsplit` implements it.
 */
module UrlSplit {
  import opened Wrappers
  import opened Text

  /** `s.find(c)`: the index of the first `c`, or -1. */
  function Find(s: string, c: char): (r: int)
    ensures -1 <= r < |s|
    ensures r == -1 <==> c !in s
    ensures r >= 0 ==> s[r] == c && c !in s[..r]
  {
    if s == [] then -1
    else if s[0] == c then 0
    else
      var k := Find(s[1..], c);
      assert k >= 0 ==> s[..k + 1] == [s[0]] + s[1..][..k];
      if k == -1 then -1 else k + 1
  }

  /** `s.rfind(c)`: the index of the last `c`, or -1. */
  function RFind(s: string, c: char): (r: int)
    ensures -1 <= r < |s|
    ensures r == -1 <==> c !in s
    ensures r >= 0 ==> s[r] == c && c !in s[r + 1..]
  {
    if s == [] then -1
    else if s[|s| - 1] == c then |s| - 1
    else
      var k := RFind(s[..|s| - 1], c);
      LastSplit(s, k);
      k
  }

  /** `s` is its init and its last character. */
  lemma LastSplit(s: string, k: int)
    requires s != [] && -1 <= k < |s| - 1
    ensures s[k + 1..] == s[..|s| - 1][k + 1..] + [s[|s| - 1]]
    ensures forall c :: c in s <==> c in s[..|s| - 1] || c == s[|s| - 1]
  {
    assert s == s[..|s| - 1] + [s[|s| - 1]];
  }

  /** The position of the first character of `s` that is in `stops`, or `|s|` if none is. */
  function FirstOf(s: string, stops: set<char>): (r: nat)
    ensures r <= |s|
    ensures forall c | c in stops :: c !in s[..r]
    ensures r < |s| ==> s[r] in stops
    ensures (forall c | c in stops :: c !in s) ==> r == |s|
  {
    if s == [] || s[0] in stops then 0
    else
      var k := FirstOf(s[1..], stops);
      assert s[..k + 1] == [s[0]] + s[1..][..k];
      k + 1
  }

  /** The characters `urlsplit` strips from the front of a URL: C0 controls and space. */
  predicate IsC0OrSpace(c: char) { c as int <= 0x20 }

  /** The characters `urlsplit` deletes anywhere in a URL. */
  predicate IsUnsafe(c: char) { c == '\t' || c == '\r' || c == '\n' }

  /** `url.lstrip(C0 controls and space)`. */
  function LStrip(s: string): (r: string)
    ensures |r| <= |s| && r == s[|s| - |r|..]
    ensures r == [] || !IsC0OrSpace(r[0])
    ensures forall k | 0 <= k < |s| - |r| :: IsC0OrSpace(s[k])
  {
    if s != [] && IsC0OrSpace(s[0]) then LStrip(s[1..]) else s
  }

  /** Deleting tab, CR and LF: every other character keeps its number of occurrences. */
  function RemoveUnsafe(s: string): (r: string)
    ensures '\t' !in r && '\r' !in r && '\n' !in r
    ensures forall c :: Count(r, c) == if IsUnsafe(c) then 0 else Count(s, c)
  {
    if s == [] then []
    else
      var head := if IsUnsafe(s[0]) then [] else [s[0]];
      var tail := RemoveUnsafe(s[1..]);
      assert forall c :: Count(head + tail, c) == Count(head, c) + Count(tail, c) by {
        forall c { CountAppend(head, tail, c); }
      }
      head + tail
  }

  /** The text `urlsplit` actually decomposes. */
  function Clean(url: string): string {
    RemoveUnsafe(LStrip(url))
  }

  predicate IsSchemeChar(c: char) {
    IsAsciiAlnum(c) || c == '+' || c == '-' || c == '.'
  }

  /** A scheme token: starts with an ASCII letter and holds only scheme characters. */
  predicate ValidScheme(t: string) {
    |t| > 0 && IsAsciiAlpha(t[0]) && forall k | 0 <= k < |t| :: IsSchemeChar(t[k])
  }

  /** The scheme is the text before the first ':' when that text is a scheme token. */
  function SplitScheme(s: string): (r: (Option<string>, string))
    ensures r.0.Some? ==> ValidScheme(r.0.value) && s == r.0.value + ":" + r.1
    ensures r.0.Some? <==> ':' in s && ValidScheme(s[..Find(s, ':')])
    ensures r.0.None? ==> r.1 == s
  {
    var i := Find(s, ':');
    if i >= 0 && ValidScheme(s[..i]) then
      assert s == s[..i] + ":" + s[i + 1..];
      (Some(s[..i]), s[i + 1..])
    else (None, s)
  }

  /** The characters that end the authority. */
  const AuthorityEnd: set<char> := {'/', '?', '#'}

  /** The authority is present only after a leading "//", and runs to the first '/', '?' or '#'. */
  function SplitAuthority(s: string): (r: (Option<string>, string))
    ensures r.0.Some? <==> IsPrefix("//", s)
    ensures r.0.Some? ==> s == "//" + r.0.value + r.1
    ensures r.0.Some? ==> forall c | c in AuthorityEnd :: c !in r.0.value
    ensures r.0.Some? ==> r.1 == [] || r.1[0] in AuthorityEnd
    ensures r.0.None? ==> r.1 == s
  {
    if |s| >= 2 && s[..2] == "//" then
      var d := 2 + FirstOf(s[2..], AuthorityEnd);
      assert s[2..][..d - 2] == s[2..d];
      assert s == "//" + s[2..d] + s[d..];
      (Some(s[2..d]), s[d..])
    else (None, s)
  }

  /** `s.split(c, 1)` when `c in s`, with the absent case kept apart. */
  function SplitFirst(s: string, c: char): (r: (string, Option<string>))
    ensures c !in r.0
    ensures r.1.None? <==> c !in s
    ensures s == r.0 + (if r.1.Some? then [c] + r.1.value else [])
  {
    var i := Find(s, c);
    if i < 0 then (s, None)
    else
      assert s == s[..i] + [c] + s[i + 1..];
      (s[..i], Some(s[i + 1..]))
  }

  /** No ';' follows the last '/', so `_splitparams` finds no parameters. */
  predicate NoParams(p: string) {
    '/' in p && ';' !in p[RFind(p, '/')..]
  }

  /** What precedes the cut: no ';' at all, or none after its last '/'; so the cut is
      at the first ';' after the last '/'. */
  predicate CutAtFirst(head: string) {
    ';' !in head || NoParams(head)
  }

  /**
   * Where `_splitparams` cuts: the first ';' after the last '/' (or the first ';' when
   * there is no '/'), -1 when no ';' follows the last '/'.
   */
  function ParamsStart(p: string): (i: int)
    requires ';' in p
    ensures -1 <= i < |p|
    ensures i >= 0 ==> p[i] == ';' && '/' !in p[i + 1..]
    ensures i >= 0 ==> CutAtFirst(p[..i])
    ensures i < 0 <==> NoParams(p)
  {
    if '/' in p then
      var j := RFind(p, '/');
      var k := Find(p[j..], ';');
      if k < 0 then -1
      else
        SlashCut(p, j, k);
        j + k
    else
      var i := Find(p, ';');
      FirstCut(p, i);
      i
  }

  /** With a '/', the cut is the first ';' after the last one. */
  lemma SlashCut(p: string, j: nat, k: nat)
    requires j == RFind(p, '/') && k == Find(p[j..], ';')
    ensures j + k < |p| && p[j + k] == ';' && '/' !in p[j + k + 1..] && CutAtFirst(p[..j + k])
  {
    AfterLastSlash(p, j, k);
    CutAfterSlash(p, j, k);
  }

  /** Without a '/', the cut is the first ';'. */
  lemma FirstCut(p: string, i: nat)
    requires '/' !in p && i == Find(p, ';')
    ensures i < |p| && p[i] == ';' && '/' !in p[i + 1..] && CutAtFirst(p[..i])
  {
    NoSlashAfter(p, i);
  }

  /** `_splitparams`: the parameters hold no '/'; nothing is lost. */
  function SplitParams(p: string): (r: (string, Option<string>))
    requires ';' in p
    ensures p == r.0 + (if r.1.Some? then ";" + r.1.value else "")
    ensures r.1.Some? ==> '/' !in r.1.value
    ensures r.1.Some? ==> CutAtFirst(r.0)
    ensures r.1.None? <==> NoParams(p)
  {
    var i := ParamsStart(p);
    if i < 0 then
      assert p + "" == p;
      (p, None)
    else
      CutAt(p, i);
      var r := (p[..i], Some(p[i + 1..]));
      ParamsOfCut(p, i, r);
      r
  }

  lemma ParamsOfCut(p: string, i: nat, r: (string, Option<string>))
    requires i < |p| && p == p[..i] + ";" + p[i + 1..]
    requires '/' !in p[i + 1..] && CutAtFirst(p[..i])
    requires r == (p[..i], Some(p[i + 1..]))
    ensures p == r.0 + (if r.1.Some? then ";" + r.1.value else "")
    ensures r.1.Some? && '/' !in r.1.value && CutAtFirst(r.0)
  {
  }

  /** Without a '/' in `p`, there is none after any position. */
  lemma NoSlashAfter(p: string, i: nat)
    requires '/' !in p && i < |p|
    ensures '/' !in p[i + 1..]
  {
    assert forall x | x in p[i + 1..] :: x in p;
  }

  /** Up to the first ';' after the last '/', that '/' is still the last one and no
      ';' follows it. */
  lemma CutAfterSlash(p: string, j: nat, k: nat)
    requires j < |p| && p[j] == '/' && '/' !in p[j + 1..]
    requires 0 < k && j + k <= |p| && ';' !in p[j..][..k]
    ensures CutAtFirst(p[..j + k])
  {
    var q := p[..j + k];
    assert q[j] == '/';
    assert q[j..] == p[j..][..k];
  }

  /** The first ';' after the last '/' has no '/' after it. */
  lemma AfterLastSlash(p: string, j: nat, k: nat)
    requires j < |p| && p[j] == '/' && '/' !in p[j + 1..]
    requires k < |p[j..]| && p[j..][k] == ';'
    ensures j + k < |p| && p[j + k] == ';' && '/' !in p[j + k + 1..]
  {
    assert p[j + k + 1..] == p[j + 1..][k..];
  }

  /** Cutting `p` at a ';' loses nothing, and the text after it comes from `p`. */
  lemma CutAt(p: string, i: nat)
    requires i < |p| && p[i] == ';'
    ensures p == p[..i] + ";" + p[i + 1..]
  {
    assert p == p[..i] + [p[i]] + p[i + 1..];
  }

  /** The schemes for which `urlparse` splits off `;params` (`uses_params`). */
  const UsesParams: seq<string> :=
    ["", "ftp", "hdl", "prospero", "http", "imap", "https", "shttp", "rtsp", "rtsps",
     "rtspu", "sip", "sips", "mms", "sftp", "tel"]

  /** What follows the authority, each part marked absent when its delimiter does not occur. */
  datatype Tail = Tail(path: string, params: Option<string>, query: Option<string>, fragment: Option<string>)

  function RenderTail(t: Tail): string {
    t.path
    + (if t.params.Some? then ";" + t.params.value else "")
    + (if t.query.Some? then "?" + t.query.value else "")
    + (if t.fragment.Some? then "#" + t.fragment.value else "")
  }

  /** For a scheme in `UsesParams` whose path holds a ';', the `;params` part leaves the path. */
  function PathAndParams(s: string, scheme: string): (r: (string, Option<string>))
    ensures s == r.0 + (if r.1.Some? then ";" + r.1.value else "")
    ensures r.1.Some? ==> scheme in UsesParams && '/' !in r.1.value
    ensures r.1.None? <==> scheme !in UsesParams || ';' !in s || NoParams(s)
    ensures scheme in UsesParams ==> CutAtFirst(r.0)
  {
    if scheme in UsesParams && ';' in s then SplitParams(s) else (s, None)
  }

  /**
   * The text after the authority: the first '#' starts the fragment, then the first '?'
   * starts the query, then `;params` may leave the path.
   */
  function SplitTail(rest: string, scheme: string): (t: Tail)
    ensures RenderTail(t) == rest
    ensures '?' !in t.path && '#' !in t.path
    ensures t.query.Some? ==> '#' !in t.query.value
    ensures t.params.Some? ==> '?' !in t.params.value && '#' !in t.params.value
    ensures t.params.Some? ==> scheme in UsesParams && '/' !in t.params.value
    ensures scheme in UsesParams ==> CutAtFirst(t.path)
    ensures forall c | c in t.path :: c in rest
  {
    var f := SplitFirst(rest, '#');
    var q := SplitFirst(f.0, '?');
    var pp := PathAndParams(q.0, scheme);
    var t := Tail(pp.0, pp.1, q.1, f.1);
    assert RenderTail(t) == rest by {
      assert q.0 == pp.0 + (if pp.1.Some? then ";" + pp.1.value else "");
      assert f.0 == q.0 + (if q.1.Some? then "?" + q.1.value else "");
    }
    t
  }

  /** The pieces of a URL: the raw scheme text (absent without a valid scheme), the
      authority (absent without "//") and the rest. */
  datatype Pieces = Pieces(schemeText: Option<string>, netloc: Option<string>, tail: Tail)

  /** "scheme:" when there is a scheme. */
  function SchemePrefix(schemeText: Option<string>): string {
    if schemeText.Some? then schemeText.value + ":" else ""
  }

  /** "//authority" when there is an authority. */
  function AuthorityPrefix(netloc: Option<string>): string {
    if netloc.Some? then "//" + netloc.value else ""
  }

  /** The text the pieces came from, delimiters put back. */
  function Render(p: Pieces): string {
    SchemePrefix(p.schemeText) + AuthorityPrefix(p.netloc) + RenderTail(p.tail)
  }

  lemma SchemeRejoin(s: string)
    ensures SchemePrefix(SplitScheme(s).0) + SplitScheme(s).1 == s
  {
  }

  lemma AuthorityRejoin(s: string)
    ensures AuthorityPrefix(SplitAuthority(s).0) + SplitAuthority(s).1 == s
  {
  }

  /** The scheme as `urlparse` reports it: lower-cased, empty when absent. */
  function SchemeOf(schemeText: Option<string>): string {
    if schemeText.Some? then Lower(schemeText.value) else ""
  }

  /**
   * The decomposition `urlsplit`/`urlparse` perform on the cleaned URL. Nothing is lost:
   * putting the delimiters back gives the cleaned URL. The authority holds no '/', '?'
   * or '#'; the path holds no '?' or '#', and no tab, CR or LF.
   */
  function Decompose(url: string): (p: Pieces)
    ensures Render(p) == Clean(url)
    ensures p.netloc.Some? ==> forall c | c in AuthorityEnd :: c !in p.netloc.value
    ensures '?' !in p.tail.path && '#' !in p.tail.path
    ensures p.tail.query.Some? ==> '#' !in p.tail.query.value
    ensures '\t' !in p.tail.path && '\r' !in p.tail.path && '\n' !in p.tail.path
  {
    var s := Clean(url);
    var sc := SplitScheme(s);
    var au := SplitAuthority(sc.1);
    var p := Pieces(sc.0, au.0, SplitTail(au.1, SchemeOf(sc.0)));
    SchemeRejoin(s);
    AuthorityRejoin(sc.1);
    PiecesRender(s, p, sc.1, au.1);
    p
  }

  /** Putting the scheme, the authority and the tail back together. */
  lemma PiecesRender(s: string, p: Pieces, mid: string, rest: string)
    requires s == SchemePrefix(p.schemeText) + mid && mid == AuthorityPrefix(p.netloc) + rest
    requires RenderTail(p.tail) == rest
    requires forall c | c in p.tail.path :: c in rest
    ensures Render(p) == s
    ensures forall c | c in p.tail.path :: c in s
  {
    InSuffix(AuthorityPrefix(p.netloc), rest);
    InSuffix(SchemePrefix(p.schemeText), mid);
  }

  lemma InSuffix(a: string, b: string)
    ensures forall c | c in b :: c in a + b
  {
  }

  /** The six components `urlparse` returns, absent ones as empty strings. */
  datatype ParseResult = ParseResult(
    scheme: string, netloc: string, path: string, params: string, query: string, fragment: string)

  function OrEmpty(o: Option<string>): string {
    if o.Some? then o.value else ""
  }

  /** An authority with a '[' but no ']', or a ']' but no '['. */
  predicate UnbalancedBrackets(n: string) {
    ('[' in n) != (']' in n)
  }

  /**
   * `urlparse(url)`: None stands for the ValueError "Invalid IPv6 URL", raised exactly
   * when the authority has unbalanced square brackets.
   */
  function UrlParse(url: AsciiString): (r: Option<ParseResult>)
    ensures r.None? <==> Decompose(url).netloc.Some? && UnbalancedBrackets(Decompose(url).netloc.value)
  {
    var p := Decompose(url);
    if p.netloc.Some? && UnbalancedBrackets(p.netloc.value) then None
    else
      Some(ParseResult(SchemeOf(p.schemeText), OrEmpty(p.netloc), p.tail.path,
                       OrEmpty(p.tail.params), OrEmpty(p.tail.query), OrEmpty(p.tail.fragment)))
  }

  /** The clean-up only deletes characters: whatever it keeps was in the URL. */
  lemma CleanKeeps(url: string, c: char)
    requires c in Clean(url)
    ensures c in url
  {
    var t := LStrip(url);
    CountAbsent(Clean(url), c);
    CountAbsent(t, c);
    assert c in t;
    assert t == url[|url| - |t|..];
  }

  /** A URL without square brackets never makes `urlparse` raise. */
  lemma NoBracketsNoRaise(url: AsciiString)
    requires '[' !in url && ']' !in url
    ensures UrlParse(url).Some?
  {
    var p := Decompose(url);
    if p.netloc.Some? {
      var n := p.netloc.value;
      assert Render(p) == SchemePrefix(p.schemeText) + ("//" + n) + RenderTail(p.tail);
      if '[' in n {
        CleanKeeps(url, '[');
      }
      if ']' in n {
        CleanKeeps(url, ']');
      }
    }
  }

  /** A domain that `"https://" + d` keeps intact as the authority. */
  predicate PlainHost(d: string) {
    d != [] && !UnbalancedBrackets(d) &&
    (forall c | c in AuthorityEnd :: c !in d) &&
    '\t' !in d && '\r' !in d && '\n' !in d
  }

  /** `urlparse("https://" + d)` for a plain domain: the domain is the whole authority. */
  lemma HttpsDomain(d: AsciiString)
    requires PlainHost(d)
    ensures IsAscii("https://" + d) &&
            UrlParse("https://" + d) == Some(ParseResult("https", d, "", "", "", ""))
  {
    HttpsAscii(d);
    HttpsDomainPieces(d);
    ParseOfAuthorityOnly("https://" + d, "https", d);
    HttpsLower();
  }

  /** "https://" before ASCII text keeps it ASCII. */
  lemma HttpsAscii(d: AsciiString)
    ensures IsAscii("https://" + d)
  {
    var url := "https://" + d;
    assert forall i | 0 <= i < 8 :: url[i] as int < 128 by {
      assert url[..8] == "https://";
    }
    assert forall i | 8 <= i < |url| :: url[i] == d[i - 8];
  }

  /** The parse of a URL that is a scheme and an authority and nothing else. */
  lemma ParseOfAuthorityOnly(url: AsciiString, sch: string, d: string)
    requires Decompose(url) == Pieces(Some(sch), Some(d), Tail([], None, None, None))
    requires !UnbalancedBrackets(d)
    ensures UrlParse(url) == Some(ParseResult(SchemeOf(Some(sch)), d, [], [], [], []))
  {
  }

  lemma HttpsLower()
    ensures SchemeOf(Some("https")) == "https"
  {
    assert Lower("https") == "https";
  }

  lemma HttpsDomainPieces(d: string)
    requires PlainHost(d)
    ensures Decompose("https://" + d) == Pieces(Some("https"), Some(d), Tail([], None, None, None))
  {
    var url := "https://" + d;
    HttpsDomainClean(d);
    HttpsDomainScheme(d);
    PlainAuthority(d);
    DecomposeOf(url, Some("https"), Some(d), []);
    EmptyTail(SchemeOf(Some("https")));
  }

  /** Nothing after the authority: empty path, and no params, query or fragment. */
  lemma EmptyTail(scheme: string)
    ensures SplitTail([], scheme) == Tail([], None, None, None)
  {
  }

  lemma HttpsDomainClean(d: string)
    requires PlainHost(d)
    ensures Clean("https://" + d) == "https://" + d
  {
    var url := "https://" + d;
    assert url[0] == 'h';
    assert LStrip(url) == url;
    RemoveUnsafeKeeps(url);
  }

  lemma HttpsDomainScheme(d: string)
    ensures SplitScheme("https://" + d) == (Some("https"), "//" + d)
  {
    var url := "https://" + d;
    assert url == "https" + ":" + ("//" + d);
    FindAfter("https", ':', "//" + d);
    assert ValidScheme("https") by {
      assert "https"[0] == 'h' && "https"[1] == 't' && "https"[2] == 't' && "https"[3] == 'p' && "https"[4] == 's';
    }
    assert url[..5] == "https" && url[6..] == "//" + d;
  }

  lemma PlainAuthority(d: string)
    requires PlainHost(d)
    ensures SplitAuthority("//" + d) == (Some(d), "")
  {
    var s := "//" + d;
    assert s[..2] == "//" && s[2..] == d;
    assert s[2..2 + |d|] == d;
    assert s[2 + |d|..] == "";
  }

  lemma DecomposeOf(url: string, schemeText: Option<string>, netloc: Option<string>, rest: string)
    requires SplitScheme(Clean(url)).0 == schemeText
    requires SplitAuthority(SplitScheme(Clean(url)).1) == (netloc, rest)
    ensures Decompose(url) == Pieces(schemeText, netloc, SplitTail(rest, SchemeOf(schemeText)))
  {
  }

  /** The first `c` of `a + [c] + b` is the one after `a` when `a` holds none. */
  lemma {:induction false} FindAfter(a: string, c: char, b: string)
    requires c !in a
    ensures Find(a + [c] + b, c) == |a|
  {
    if a != [] {
      assert (a + [c] + b)[1..] == a[1..] + [c] + b;
      FindAfter(a[1..], c, b);
    }
  }

  /** The clean-up works character by character, so it keeps the order of what it
      keeps: cleaning a concatenation cleans each part. */
  lemma {:induction false} RemoveUnsafeAppend(a: string, b: string)
    ensures RemoveUnsafe(a + b) == RemoveUnsafe(a) + RemoveUnsafe(b)
  {
    if a != [] {
      var head := if IsUnsafe(a[0]) then [] else [a[0]];
      RemoveUnsafeFirst(a);
      RemoveUnsafeFirst(a + b);
      assert (a + b)[1..] == a[1..] + b;
      RemoveUnsafeAppend(a[1..], b);
      Associative(head, RemoveUnsafe(a[1..]), RemoveUnsafe(b));
    } else {
      assert a + b == b;
    }
  }

  lemma Associative(x: string, y: string, z: string)
    ensures x + (y + z) == (x + y) + z
  {
  }

  /** The clean-up keeps or drops the first character, then cleans the rest. */
  lemma RemoveUnsafeFirst(s: string)
    requires s != []
    ensures RemoveUnsafe(s) == (if IsUnsafe(s[0]) then [] else [s[0]]) + RemoveUnsafe(s[1..])
  {
  }

  /** Text with no tab, CR or LF is left unchanged by the clean-up. */
  lemma {:induction false} RemoveUnsafeKeeps(s: string)
    requires '\t' !in s && '\r' !in s && '\n' !in s
    ensures RemoveUnsafe(s) == s
  {
    if s != [] {
      assert s[0] in s;
      RemoveUnsafeKeeps(s[1..]);
      assert [s[0]] + s[1..] == s;
    }
  }
}
