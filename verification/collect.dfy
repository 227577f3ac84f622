/**
 * The sequence operations the collectors are specified with: `head(n)` and the
 * append-if-not-None loop, read as a function over the rows seen so far.
 */
module Collect {
  import opened Wrappers

  /** `df.head(n)`: the first `n` elements, or all of them when there are fewer. */
  function Take<T>(s: seq<T>, n: nat): (r: seq<T>)
    ensures |r| <= n && |r| <= |s|
    ensures |r| == n || |r| == |s|
    ensures forall i | 0 <= i < |r| :: r[i] == s[i]
  {
    if |s| <= n then s else s[..n]
  }

  /**
   * The list a loop `for x in s: y = f(x); if y: out.append(y)` builds: the results
   * that are present, in the order of their elements. Defined on the last element,
   * as the loop extends its list.
   */
  function FilterMap<A, B>(s: seq<A>, f: A -> Option<B>): (r: seq<B>)
    ensures |r| <= |s|
  {
    if s == [] then []
    else
      var x := s[|s| - 1];
      FilterMap(s[..|s| - 1], f) + (if f(x).Some? then [f(x).value] else [])
  }

  /** One more element: its result, if any, goes at the end. */
  lemma FilterMapSnoc<A, B>(s: seq<A>, x: A, f: A -> Option<B>)
    ensures FilterMap(s + [x], f) == FilterMap(s, f) + (if f(x).Some? then [f(x).value] else [])
  {
    assert (s + [x])[..|s|] == s;
  }

  /** Filtering distributes over concatenation, keeping order. */
  lemma {:induction false} FilterMapAppend<A, B>(a: seq<A>, b: seq<A>, f: A -> Option<B>)
    ensures FilterMap(a + b, f) == FilterMap(a, f) + FilterMap(b, f)
    decreases |b|
  {
    if b == [] {
      assert a + b == a;
    } else {
      var b' := b[..|b| - 1];
      var x := b[|b| - 1];
      assert a + b == (a + b') + [x];
      assert b == b' + [x];
      FilterMapAppend(a, b', f);
      FilterMapSnoc(a + b', x, f);
      FilterMapSnoc(b', x, f);
    }
  }

  /** What earlier elements produce comes first: the output for a prefix of the input
      is a prefix of the output. */
  lemma FilterMapPrefix<A, B>(s: seq<A>, i: nat, f: A -> Option<B>)
    requires i <= |s|
    ensures |FilterMap(s[..i], f)| <= |FilterMap(s, f)|
    ensures FilterMap(s[..i], f) == FilterMap(s, f)[..|FilterMap(s[..i], f)|]
  {
    assert s == s[..i] + s[i..];
    FilterMapAppend(s[..i], s[i..], f);
  }

  /** Every output is the result of some input element. */
  lemma {:induction false} FilterMapFrom<A, B>(s: seq<A>, f: A -> Option<B>, y: B)
    requires y in FilterMap(s, f)
    ensures exists x | x in s :: f(x) == Some(y)
    decreases |s|
  {
    var s' := s[..|s| - 1];
    var x := s[|s| - 1];
    if y in FilterMap(s', f) {
      FilterMapFrom(s', f, y);
      var x' :| x' in s' && f(x') == Some(y);
      assert x' in s;
    } else {
      assert f(x) == Some(y);
    }
  }

  /** The outputs keep the order of their inputs: if the inputs are ordered by a key
      that each result carries over, so are the outputs. */
  lemma {:induction false} FilterMapOrdered<A, B>(s: seq<A>, f: A -> Option<B>, ka: A -> int, kb: B -> int)
    requires forall x | x in s && f(x).Some? :: kb(f(x).value) == ka(x)
    requires forall i, j | 0 <= i < j < |s| :: ka(s[i]) <= ka(s[j])
    ensures forall i, j | 0 <= i < j < |FilterMap(s, f)| :: kb(FilterMap(s, f)[i]) <= kb(FilterMap(s, f)[j])
    decreases |s|
  {
    if s != [] {
      var init := s[..|s| - 1];
      var x := s[|s| - 1];
      assert forall y | y in init :: y in s;
      FilterMapOrdered(init, f, ka, kb);
      var prev := FilterMap(init, f);
      if f(x).Some? {
        forall k | 0 <= k < |prev|
          ensures kb(prev[k]) <= ka(x)
        {
          FilterMapFrom(init, f, prev[k]);
          var y :| y in init && f(y) == Some(prev[k]);
          var m :| 0 <= m < |init| && init[m] == y;
          assert s[m] == y;
        }
      }
    }
  }

  /** Every element with a result contributes it. */
  lemma {:induction false} FilterMapKeeps<A, B>(s: seq<A>, f: A -> Option<B>, x: A)
    requires x in s && f(x).Some?
    ensures f(x).value in FilterMap(s, f)
    decreases |s|
  {
    var s' := s[..|s| - 1];
    if x != s[|s| - 1] {
      assert s == s' + [s[|s| - 1]];
      FilterMapKeeps(s', f, x);
    }
  }

  /** When no element fails, nothing is dropped: one result per element, in order. */
  lemma {:induction false} FilterMapAllPresent<A, B>(s: seq<A>, f: A -> Option<B>)
    requires forall i | 0 <= i < |s| :: f(s[i]).Some?
    ensures |FilterMap(s, f)| == |s|
    ensures forall i | 0 <= i < |s| :: FilterMap(s, f)[i] == f(s[i]).value
    decreases |s|
  {
    if s != [] {
      FilterMapAllPresent(s[..|s| - 1], f);
    }
  }

  /**
   * `[f(x) for x in s]` where `f` may raise (`None` here): every result in order, or
   * the position of the first element that raised, where the comprehension stops.
   */
  function MapAll<A, B>(s: seq<A>, f: A -> Option<B>): (r: Result<seq<B>, nat>)
    ensures r.Success? <==> forall i | 0 <= i < |s| :: f(s[i]).Some?
    ensures r.Success? ==> |r.value| == |s| && forall i | 0 <= i < |s| :: f(s[i]) == Some(r.value[i])
    ensures r.Failure? ==> r.error < |s| && f(s[r.error]).None? &&
                           forall j | 0 <= j < r.error :: f(s[j]).Some?
  {
    if s == [] then Success([])
    else if f(s[0]).None? then Failure(0)
    else
      var rest := MapAll(s[1..], f);
      assert forall j | 1 <= j < |s| :: s[j] == s[1..][j - 1];
      if rest.Failure? then Failure(rest.error + 1)
      else Success([f(s[0]).value] + rest.value)
  }

  /**
   * `for x in s: y = f(x); if y: out.append(y); if len(out) >= cap: break`.
   * `examined` counts the elements visited. The list is the results of the visited
   * elements; the loop stops early only when the list reaches `cap`, and then at the
   * element that supplied the last result. So the list is the first `cap` results.
   */
  method CollectUpTo<A, B>(s: seq<A>, f: A -> Option<B>, cap: nat) returns (out: seq<B>, examined: nat)
    requires cap > 0
    ensures examined <= |s|
    ensures out == FilterMap(s[..examined], f)
    ensures |out| <= cap
    ensures examined < |s| ==> |out| == cap
    ensures 0 < examined ==> |FilterMap(s[..examined - 1], f)| < cap
    ensures out == Take(FilterMap(s, f), cap)
  {
    out := [];
    examined := 0;
    while examined < |s|
      invariant examined <= |s|
      invariant out == FilterMap(s[..examined], f)
      invariant |out| < cap
      invariant 0 < examined ==> |FilterMap(s[..examined - 1], f)| < cap
    {
      var y := f(s[examined]);
      FilterMapStep(s, examined, f);
      if y.Some? {
        out := out + [y.value];
      }
      examined := examined + 1;
      if |out| >= cap {
        break;
      }
    }
    CappedIsTake(s, f, cap, examined);
  }

  /** The loop's next element: its result, if any, extends the list. */
  lemma FilterMapStep<A, B>(s: seq<A>, i: nat, f: A -> Option<B>)
    requires i < |s|
    ensures FilterMap(s[..i + 1], f) == FilterMap(s[..i], f) + (if f(s[i]).Some? then [f(s[i]).value] else [])
  {
    assert s[..i + 1] == s[..i] + [s[i]];
    FilterMapSnoc(s[..i], s[i], f);
  }

  /** Stopping at the cap, or at the end below it, yields the first `cap` results. */
  lemma CappedIsTake<A, B>(s: seq<A>, f: A -> Option<B>, cap: nat, e: nat)
    requires e <= |s| && |FilterMap(s[..e], f)| <= cap
    requires e < |s| ==> |FilterMap(s[..e], f)| == cap
    ensures FilterMap(s[..e], f) == Take(FilterMap(s, f), cap)
  {
    FilterMapPrefix(s, e, f);
    if e == |s| {
      assert s[..e] == s;
    }
  }

  /** `for x in s: y = f(x); if y: out.append(y)`: the loop builds `FilterMap(s, f)`. */
  method CollectAll<A, B>(s: seq<A>, f: A -> Option<B>) returns (out: seq<B>)
    ensures out == FilterMap(s, f)
  {
    out := [];
    for i := 0 to |s|
      invariant out == FilterMap(s[..i], f)
    {
      var y := f(s[i]);
      FilterMapStep(s, i, f);
      if y.Some? {
        out := out + [y.value];
      }
    }
    assert s[..|s|] == s;
  }
}
