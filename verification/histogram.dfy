/**
 * `Counter(string).items()` as `shannon_entropy` reads it: one entry per distinct
 * character, in order of first occurrence, each with its number of occurrences.
 * The entropy itself, `-sum(p * log2(p))` rounded to three decimals, is floating
 * point and stays outside the model.
 */
module Histograms {
  import opened Text

  /** The characters that have an entry, in entry order. */
  function Keys(h: seq<(char, nat)>): (ks: seq<char>)
    ensures |ks| == |h| && forall i | 0 <= i < |h| :: ks[i] == h[i].0
  {
    if h == [] then [] else [h[0].0] + Keys(h[1..])
  }

  /** No character has two entries. */
  predicate DistinctKeys(h: seq<(char, nat)>) {
    h == [] || (h[0].0 !in Keys(h[1..]) && DistinctKeys(h[1..]))
  }

  /** Every entry counts at least one occurrence. */
  predicate AllPositive(h: seq<(char, nat)>) {
    forall i | 0 <= i < |h| :: h[i].1 > 0
  }

  /** The count recorded for `c`, 0 when it has no entry (`Counter`'s missing-key value). */
  function CountOf(h: seq<(char, nat)>, c: char): nat {
    if h == [] then 0 else if h[0].0 == c then h[0].1 else CountOf(h[1..], c)
  }

  /** The sum of the counts, the denominator `len(string)` of every probability. */
  function Total(h: seq<(char, nat)>): nat {
    if h == [] then 0 else h[0].1 + Total(h[1..])
  }

  /** Counting one more occurrence of `c`: its entry goes up by one, or a new entry
      `(c, 1)` is appended; every other entry stays where it was. */
  function Bump(h: seq<(char, nat)>, c: char): seq<(char, nat)> {
    if h == [] then [(c, 1)]
    else if h[0].0 == c then [(c, h[0].1 + 1)] + h[1..]
    else [h[0]] + Bump(h[1..], c)
  }

  /** A character without an entry gets a new one, at the end. */
  lemma {:induction false} BumpFresh(h: seq<(char, nat)>, c: char)
    requires c !in Keys(h)
    ensures Bump(h, c) == h + [(c, 1)]
  {
    if h != [] {
      assert c != Keys(h)[0];
      assert c !in Keys(h[1..]) by {
        assert Keys(h) == [h[0].0] + Keys(h[1..]);
      }
      BumpFresh(h[1..], c);
      assert h + [(c, 1)] == [h[0]] + (h[1..] + [(c, 1)]);
    }
  }

  /** The keys stay as they were, plus `c` at the end when it is new. */
  lemma {:induction false} BumpKeys(h: seq<(char, nat)>, c: char)
    ensures Keys(Bump(h, c)) == if c in Keys(h) then Keys(h) else Keys(h) + [c]
  {
    if h != [] && h[0].0 != c {
      BumpKeys(h[1..], c);
      assert Keys(h) == [h[0].0] + Keys(h[1..]);
      assert Keys(Bump(h, c)) == [h[0].0] + Keys(Bump(h[1..], c));
    } else if h != [] {
      assert Keys(Bump(h, c)) == [c] + Keys(h[1..]);
      assert Keys(h) == [c] + Keys(h[1..]);
    }
  }

  lemma {:induction false} BumpCounts(h: seq<(char, nat)>, c: char, k: char)
    ensures CountOf(Bump(h, c), k) == CountOf(h, k) + (if k == c then 1 else 0)
  {
    if h != [] && h[0].0 != c {
      BumpCounts(h[1..], c, k);
    }
  }

  lemma {:induction false} BumpTotal(h: seq<(char, nat)>, c: char)
    ensures Total(Bump(h, c)) == Total(h) + 1
  {
    if h != [] && h[0].0 != c {
      BumpTotal(h[1..], c);
    } else if h != [] {
      assert Bump(h, c)[1..] == h[1..];
    }
  }

  lemma {:induction false} BumpShape(h: seq<(char, nat)>, c: char)
    ensures DistinctKeys(h) ==> DistinctKeys(Bump(h, c))
    ensures AllPositive(h) ==> AllPositive(Bump(h, c))
  {
    if h != [] && h[0].0 != c {
      BumpShape(h[1..], c);
      BumpKeys(h[1..], c);
      assert Bump(h, c)[1..] == Bump(h[1..], c);
    } else if h != [] {
      assert Bump(h, c)[1..] == h[1..];
    }
  }

  /** What `Counter(s)` holds, stated without saying how it is built: one positive
      entry per distinct character of `s`, holding its number of occurrences; the
      counts add up to `|s|`. */
  ghost predicate IsHistogramOf(h: seq<(char, nat)>, s: string) {
    && DistinctKeys(h)
    && AllPositive(h)
    && (forall c :: c in Keys(h) <==> c in s)
    && (forall c :: CountOf(h, c) == Count(s, c))
    && Total(h) == |s|
  }

  /** `Counter(s)`, built one character at a time as `Counter.update` does. */
  function Histogram(s: string): (h: seq<(char, nat)>)
    ensures IsHistogramOf(h, s)
  {
    if s == [] then []
    else
      var h0 := Histogram(s[..|s| - 1]);
      HistogramStep(s[..|s| - 1], s[|s| - 1], h0);
      assert s[..|s| - 1] + [s[|s| - 1]] == s;
      Bump(h0, s[|s| - 1])
  }

  /** Counting one more character keeps a histogram a histogram. */
  lemma HistogramStep(prefix: string, c: char, h0: seq<(char, nat)>)
    requires IsHistogramOf(h0, prefix)
    ensures IsHistogramOf(Bump(h0, c), prefix + [c])
  {
    var s := prefix + [c];
    BumpTotal(h0, c);
    BumpShape(h0, c);
    BumpKeys(h0, c);
    forall k
      ensures CountOf(Bump(h0, c), k) == CountOf(h0, k) + (if k == c then 1 else 0)
    {
      BumpCounts(h0, c, k);
    }
    forall k
      ensures Count(s, k) == Count(prefix, k) + (if k == c then 1 else 0)
    {
      CountAppend(prefix, [c], k);
    }
  }

  /** A string of one repeated character has a single entry: its entropy is 0. */
  lemma {:induction false} HistogramOfRun(c: char, n: nat)
    requires n > 0
    ensures Histogram(seq(n, _ => c)) == [(c, n)]
  {
    var s := seq(n, _ => c);
    if n > 1 {
      HistogramOfRun(c, n - 1);
      assert s[..n - 1] == seq(n - 1, _ => c);
    }
  }

  /** A string of distinct characters has one entry of count 1 per character, in
      order: its entropy is `log2(|s|)`. */
  lemma {:induction false} HistogramOfDistinct(s: string)
    requires forall i, j | 0 <= i < j < |s| :: s[i] != s[j]
    ensures Histogram(s) == seq(|s|, i requires 0 <= i < |s| => (s[i], 1))
  {
    if s != [] {
      var prefix := s[..|s| - 1];
      var c := s[|s| - 1];
      assert c !in prefix by {
        forall i | 0 <= i < |prefix|
          ensures prefix[i] != c
        {
          assert prefix[i] == s[i];
        }
      }
      HistogramOfDistinct(prefix);
      var h0 := Histogram(prefix);
      HistogramSnoc(s);
      FreshKey(h0, prefix, c);
      BumpFresh(h0, c);
      OnesSnoc(h0, s);
    }
  }

  /** The table of ones for `s` is that of all but its last character, plus one. */
  lemma OnesSnoc(h: seq<(char, nat)>, s: string)
    requires s != [] && |h| == |s| - 1 && forall i | 0 <= i < |h| :: h[i] == (s[i], 1)
    ensures h + [(s[|s| - 1], 1)] == seq(|s|, i requires 0 <= i < |s| => (s[i], 1))
  {
  }

  /** Unfolding `Histogram` once at the last character. */
  lemma HistogramSnoc(s: string)
    requires s != []
    ensures Histogram(s) == Bump(Histogram(s[..|s| - 1]), s[|s| - 1])
  {
  }

  /** A character missing from `prefix` has no entry in a table listing `prefix`'s
      characters. */
  lemma FreshKey(h: seq<(char, nat)>, prefix: string, c: char)
    requires |h| == |prefix| && forall i | 0 <= i < |h| :: h[i] == (prefix[i], 1)
    requires c !in prefix
    ensures c !in Keys(h)
  {
    forall i | 0 <= i < |h|
      ensures Keys(h)[i] != c
    {
      assert Keys(h)[i] == prefix[i];
    }
  }

  /** Positive counts add up to at least the number of entries. */
  lemma {:induction false} TotalCoversEntries(h: seq<(char, nat)>)
    requires AllPositive(h)
    ensures |h| <= Total(h)
  {
    if h != [] {
      assert AllPositive(h[1..]) by {
        assert forall i | 0 <= i < |h[1..]| :: h[1..][i] == h[i + 1];
      }
      TotalCoversEntries(h[1..]);
    }
  }

  /** There are never more entries than characters: the empty string has none, so
      `shannon_entropy("")` sums an empty list and never divides by `len("")`. */
  lemma EntriesAtMostLength(s: string)
    ensures |Histogram(s)| <= |s|
    ensures s == [] ==> Histogram(s) == []
  {
    TotalCoversEntries(Histogram(s));
  }
}
