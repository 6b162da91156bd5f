/**
 The tokenizer `get_words` of the TF-IDF ranker.

 It works in three stages on the text:
  1. every run of two or more hyphens becomes one space (`CollapseHyphens`);
  2. the maximal runs of word characters, apostrophes and hyphens are found
     (`FindRuns`, positions given by `RunSpans`);
  3. each run is stripped of apostrophes, hyphens and underscores at both ends,
     dropped if nothing is left, and lower-cased (`Keep`).
 `GetWords` is the loop of the source that appends the kept tokens one by one;
 `Tokenize` is the function it is proved to compute.
 */
module Tokenizer {
  import opened Chars

  /** A character of the class `[\w'-]`. */
  predicate IsRunChar(c: char) { IsWordChar(c) || c == '\'' || c == '-' }

  /** A character that `strip("'-_")` removes. */
  predicate IsEdgeChar(c: char) { c == '\'' || c == '-' || c == '_' }

  predicate NoDoubleHyphen(s: string)
  {
    forall i :: 0 <= i < |s| - 1 ==> !(s[i] == '-' && s[i + 1] == '-')
  }

  /** What a token is: non-empty, drawn from `[\w'-]` without upper case,
      no `'`, `-` or `_` at either end, and no two hyphens in a row. */
  predicate IsToken(w: string)
  {
    && |w| > 0
    && (forall i :: 0 <= i < |w| ==> IsRunChar(w[i]) && !IsUpper(w[i]))
    && !IsEdgeChar(w[0]) && !IsEdgeChar(w[|w| - 1])
    && NoDoubleHyphen(w)
  }

  // ---------------------------------------------------------------------------
  // Stage 1: re.sub(r"--+", " ", s)

  /** The number of hyphens at the start of `s`. */
  function HyphenRun(s: string): (n: nat)
    ensures n <= |s|
    ensures forall i :: 0 <= i < n ==> s[i] == '-'
    ensures n == |s| || s[n] != '-'
  {
    if s != [] && s[0] == '-' then 1 + HyphenRun(s[1..]) else 0
  }

  /** Replaces each maximal run of at least two hyphens by a single space. */
  function CollapseHyphens(s: string): (r: string)
    ensures |r| <= |s|
    decreases |s|
  {
    if s == [] then []
    else if s[0] == '-' then
      var n := HyphenRun(s);
      if n >= 2 then [' '] + CollapseHyphens(s[n..]) else ['-'] + CollapseHyphens(s[1..])
    else [s[0]] + CollapseHyphens(s[1..])
  }

  /** The collapsed text starts with a hyphen exactly when the text starts with a lone hyphen. */
  lemma {:induction false} CollapseStart(s: string)
    ensures |CollapseHyphens(s)| > 0 <==> |s| > 0
    ensures |s| > 0 ==> (CollapseHyphens(s)[0] == '-' <==> HyphenRun(s) == 1)
  {
  }

  lemma {:induction false} CollapseNoDoubleHyphen(s: string)
    ensures NoDoubleHyphen(CollapseHyphens(s))
    decreases |s|
  {
    if s == [] {
    } else if s[0] == '-' {
      var n := HyphenRun(s);
      if n >= 2 {
        CollapseNoDoubleHyphen(s[n..]);
        var rest := CollapseHyphens(s[n..]);
        assert CollapseHyphens(s) == [' '] + rest;
      } else {
        CollapseNoDoubleHyphen(s[1..]);
        var rest := CollapseHyphens(s[1..]);
        assert CollapseHyphens(s) == ['-'] + rest;
        if |s| > 1 {
          CollapseStart(s[1..]);
          assert rest[0] != '-';
        }
      }
    } else {
      CollapseNoDoubleHyphen(s[1..]);
      assert CollapseHyphens(s) == [s[0]] + CollapseHyphens(s[1..]);
    }
  }

  /** Text with no double hyphen is left as it is. */
  lemma {:induction false} CollapseKeeps(s: string)
    requires NoDoubleHyphen(s)
    ensures CollapseHyphens(s) == s
    decreases |s|
  {
    if s != [] {
      if s[0] == '-' {
        assert HyphenRun(s) == 1 by {
          if |s| > 1 { assert !(s[0] == '-' && s[1] == '-'); }
        }
      }
      assert NoDoubleHyphen(s[1..]) by {
        forall i | 0 <= i < |s[1..]| - 1 ensures !(s[1..][i] == '-' && s[1..][i + 1] == '-') {
          assert s[1..][i] == s[i + 1] && s[1..][i + 1] == s[i + 2];
        }
      }
      CollapseKeeps(s[1..]);
    }
  }

  /** `k` hyphens. */
  function Hyphens(k: nat): (r: string)
    ensures |r| == k && forall i :: 0 <= i < k ==> r[i] == '-'
  {
    if k == 0 then [] else ['-'] + Hyphens(k - 1)
  }

  /** The hyphen run at the start of `u + w` stays inside `u` when `u` ends in another character. */
  lemma {:induction false} HyphenRunAppend(u: string, w: string)
    requires u != [] && u[|u| - 1] != '-'
    ensures HyphenRun(u + w) == HyphenRun(u) < |u|
  {
    if u[0] == '-' {
      assert (u + w)[1..] == u[1..] + w;
      HyphenRunAppend(u[1..], w);
    }
  }

  /** The substitution works piecewise across a split point that is not inside a hyphen run. */
  lemma {:induction false} CollapseAppend(u: string, w: string)
    requires u == [] || u[|u| - 1] != '-'
    ensures CollapseHyphens(u + w) == CollapseHyphens(u) + CollapseHyphens(w)
    decreases |u|
  {
    if u == [] {
      assert u + w == w;
    } else {
      var m, c := CollapseFirstStep(u, w);
      CollapseAppend(u[m..], w);
      assert c + (CollapseHyphens(u[m..]) + CollapseHyphens(w)) == (c + CollapseHyphens(u[m..])) + CollapseHyphens(w);
    }
  }

  /** One step of the substitution consumes the same prefix of `u` and of `u + w`. */
  lemma CollapseFirstStep(u: string, w: string) returns (m: nat, c: string)
    requires u != [] && u[|u| - 1] != '-'
    ensures 1 <= m <= |u|
    ensures u[m..] == [] || u[m..][|u[m..]| - 1] != '-'
    ensures CollapseHyphens(u) == c + CollapseHyphens(u[m..])
    ensures CollapseHyphens(u + w) == c + CollapseHyphens(u[m..] + w)
  {
    assert (u + w)[0] == u[0];
    if u[0] == '-' {
      HyphenRunAppend(u, w);
      var n := HyphenRun(u);
      m := if n >= 2 then n else 1;
      c := if n >= 2 then [' '] else ['-'];
      assert (u + w)[m..] == u[m..] + w;
    } else {
      m, c := 1, [u[0]];
      assert (u + w)[1..] == u[1..] + w;
    }
    assert u[m..] == [] || u[m..][|u[m..]| - 1] == u[|u| - 1];
  }

  /** A run of two or more hyphens followed by text that does not start with one becomes
      a single space. */
  lemma {:induction false} CollapseHyphenRun(k: nat, v: string)
    requires k >= 2 && (v == [] || v[0] != '-')
    ensures CollapseHyphens(Hyphens(k) + v) == [' '] + CollapseHyphens(v)
  {
    var s := Hyphens(k) + v;
    assert HyphenRun(s) == k by {
      HyphenRunOf(k, v);
    }
    assert s[k..] == v;
  }

  lemma {:induction false} HyphenRunOf(k: nat, v: string)
    requires v == [] || v[0] != '-'
    ensures HyphenRun(Hyphens(k) + v) == k
  {
    if k > 0 {
      assert (Hyphens(k) + v)[1..] == Hyphens(k - 1) + v;
      HyphenRunOf(k - 1, v);
    } else {
      assert Hyphens(k) + v == v;
    }
  }

  /** `re.sub(r"--+", " ", s)` replaces each maximal run of two or more hyphens by
      exactly one space and leaves the text on either side as the substitution makes it. */
  lemma CollapseReplacesRun(u: string, k: nat, v: string)
    requires k >= 2
    requires u == [] || u[|u| - 1] != '-'
    requires v == [] || v[0] != '-'
    ensures CollapseHyphens(u + Hyphens(k) + v) == CollapseHyphens(u) + [' '] + CollapseHyphens(v)
  {
    assert u + Hyphens(k) + v == u + (Hyphens(k) + v);
    CollapseAppend(u, Hyphens(k) + v);
    CollapseHyphenRun(k, v);
  }

  // ---------------------------------------------------------------------------
  // Stage 2: re.findall(r"[\w'-]+", t)

  /** A half-open interval `[lo, hi)` of positions of the text. */
  datatype Span = Span(lo: nat, hi: nat)

  /** The end of the run of `[\w'-]` characters that starts at `i`. */
  function RunEnd(t: string, i: nat): (j: nat)
    requires i <= |t|
    ensures i <= j <= |t|
    ensures forall p :: i <= p < j ==> IsRunChar(t[p])
    ensures j == |t| || !IsRunChar(t[j])
    decreases |t| - i
  {
    if i < |t| && IsRunChar(t[i]) then RunEnd(t, i + 1) else i
  }

  /** The spans of the maximal runs that start at or after `i`, left to right. */
  function SpansFrom(t: string, i: nat): (r: seq<Span>)
    requires i <= |t|
    ensures forall k :: 0 <= k < |r| ==> i <= r[k].lo < r[k].hi <= |t|
    decreases |t| - i
  {
    if i == |t| then []
    else if !IsRunChar(t[i]) then SpansFrom(t, i + 1)
    else
      var j := RunEnd(t, i);
      [Span(i, j)] + (if j < |t| then SpansFrom(t, j + 1) else [])
  }

  function RunSpans(t: string): (r: seq<Span>)
    ensures forall k :: 0 <= k < |r| ==> r[k].lo < r[k].hi <= |t|
  {
    SpansFrom(t, 0)
  }

  /** The strings `re.findall` returns: the text of each span, in order. */
  function FindRuns(t: string): (r: seq<string>)
    ensures |r| == |RunSpans(t)|
    ensures forall k :: 0 <= k < |r| ==> r[k] == t[RunSpans(t)[k].lo..RunSpans(t)[k].hi]
  {
    var sp := RunSpans(t);
    seq(|sp|, k requires 0 <= k < |sp| => t[sp[k].lo..sp[k].hi])
  }

  /** A span of `t` that holds a maximal run of `[\w'-]`. */
  predicate IsMaximalRun(t: string, s: Span)
  {
    && s.lo < s.hi <= |t|
    && (forall p :: s.lo <= p < s.hi ==> IsRunChar(t[p]))
    && (s.lo == 0 || !IsRunChar(t[s.lo - 1]))
    && (s.hi == |t| || !IsRunChar(t[s.hi]))
  }

  /** Unfolding `SpansFrom` at a run character: the run `[i, RunEnd(t, i))`, then the rest. */
  lemma SpansFromRun(t: string, i: nat)
    requires i < |t| && IsRunChar(t[i])
    ensures SpansFrom(t, i) == [Span(i, RunEnd(t, i))] + SpansAfter(t, RunEnd(t, i))
  {
  }

  /** The spans after a run that ends at `j`. */
  function SpansAfter(t: string, j: nat): (r: seq<Span>)
    requires j <= |t|
    ensures forall k :: 0 <= k < |r| ==> j < r[k].lo < r[k].hi <= |t|
  {
    if j < |t| then SpansFrom(t, j + 1) else []
  }

  /** Every span `re.findall` reports is a maximal run of `[\w'-]`. */
  lemma {:induction false} SpansMaximal(t: string, i: nat)
    requires i <= |t|
    requires i == 0 || !IsRunChar(t[i - 1])
    ensures forall k :: 0 <= k < |SpansFrom(t, i)| ==> IsMaximalRun(t, SpansFrom(t, i)[k])
    decreases |t| - i
  {
    if i == |t| {
    } else if !IsRunChar(t[i]) {
      SpansMaximal(t, i + 1);
    } else {
      var j := RunEnd(t, i);
      var rest := SpansAfter(t, j);
      SpansFromRun(t, i);
      if j < |t| { SpansMaximal(t, j + 1); }
      forall k | 0 <= k < |SpansFrom(t, i)| ensures IsMaximalRun(t, SpansFrom(t, i)[k]) {
        if k > 0 { assert SpansFrom(t, i)[k] == rest[k - 1]; }
      }
    }
  }

  /** Consecutive spans are separated by at least one character. */
  lemma {:induction false} SpansAdjacent(t: string, i: nat)
    requires i <= |t|
    ensures forall k :: 0 <= k < |SpansFrom(t, i)| - 1 ==> SpansFrom(t, i)[k].hi < SpansFrom(t, i)[k + 1].lo
    decreases |t| - i
  {
    if i == |t| {
    } else if !IsRunChar(t[i]) {
      SpansAdjacent(t, i + 1);
    } else {
      var j := RunEnd(t, i);
      var rest := SpansAfter(t, j);
      var r := SpansFrom(t, i);
      SpansFromRun(t, i);
      if j < |t| { SpansAdjacent(t, j + 1); }
      forall k | 0 <= k < |r| - 1 ensures r[k].hi < r[k + 1].lo {
        assert r[k + 1] == rest[k];
        if k > 0 { assert r[k] == rest[k - 1]; }
      }
    }
  }

  /** The spans come in text order and never touch. */
  lemma SpansOrdered(t: string, i: nat)
    requires i <= |t|
    ensures forall k, k' :: 0 <= k < k' < |SpansFrom(t, i)| ==> SpansFrom(t, i)[k].hi < SpansFrom(t, i)[k'].lo
  {
    var r := SpansFrom(t, i);
    SpansAdjacent(t, i);
    forall k, k' | 0 <= k < k' < |r| ensures r[k].hi < r[k'].lo {
      var m := k + 1;
      while m < k'
        invariant k < m <= k' && r[k].hi < r[m].lo
      {
        m := m + 1;
      }
    }
  }

  /** Every run character at or after `i` lies inside one of the spans. */
  lemma {:induction false} SpansCover(t: string, i: nat, p: nat)
    requires i <= p < |t| && IsRunChar(t[p])
    ensures exists k :: 0 <= k < |SpansFrom(t, i)| && SpansFrom(t, i)[k].lo <= p < SpansFrom(t, i)[k].hi
    decreases |t| - i
  {
    if !IsRunChar(t[i]) {
      assert SpansFrom(t, i) == SpansFrom(t, i + 1);
      SpansCover(t, i + 1, p);
    } else {
      var j := RunEnd(t, i);
      var rest := SpansAfter(t, j);
      var r := [Span(i, j)] + rest;
      SpansFromRun(t, i);
      if p < j {
        assert r[0].lo <= p < r[0].hi;
      } else {
        SpansCover(t, j + 1, p);
        var k :| 0 <= k < |rest| && rest[k].lo <= p < rest[k].hi;
        assert r[k + 1] == rest[k];
        assert r[k + 1].lo <= p < r[k + 1].hi;
      }
    }
  }

  lemma RunSpansSpec(t: string)
    ensures forall k :: 0 <= k < |RunSpans(t)| ==> IsMaximalRun(t, RunSpans(t)[k])
    ensures forall k, k' :: 0 <= k < k' < |RunSpans(t)| ==> RunSpans(t)[k].hi < RunSpans(t)[k'].lo
    ensures forall p :: 0 <= p < |t| && IsRunChar(t[p]) ==>
              exists k :: 0 <= k < |RunSpans(t)| && RunSpans(t)[k].lo <= p < RunSpans(t)[k].hi
  {
    assert RunSpans(t) == SpansFrom(t, 0);
    SpansMaximal(t, 0);
    SpansOrdered(t, 0);
    forall p | 0 <= p < |t| && IsRunChar(t[p])
      ensures exists k :: 0 <= k < |RunSpans(t)| && RunSpans(t)[k].lo <= p < RunSpans(t)[k].hi
    {
      SpansCover(t, 0, p);
    }
  }

  // ---------------------------------------------------------------------------
  // Stage 3: word.strip("'-_"), the empty check and word.lower()

  function StripLeft(w: string): (r: string)
    ensures |r| <= |w| && r == w[|w| - |r|..]
    ensures forall i :: 0 <= i < |w| - |r| ==> IsEdgeChar(w[i])
    ensures r == [] || !IsEdgeChar(r[0])
  {
    if w != [] && IsEdgeChar(w[0]) then StripLeft(w[1..]) else w
  }

  function StripRight(w: string): (r: string)
    ensures |r| <= |w| && r == w[..|r|]
    ensures forall i :: |r| <= i < |w| ==> IsEdgeChar(w[i])
    ensures r == [] || !IsEdgeChar(r[|r| - 1])
  {
    if w != [] && IsEdgeChar(w[|w| - 1]) then StripRight(w[..|w| - 1]) else w
  }

  /** `strip("'-_")`: the infix `w[StripStart(w)..StripStop(w)]` that is left once the
      edge characters are removed from both ends; everything removed is an edge character. */
  function Strip(w: string): (r: string)
    ensures r == [] || (!IsEdgeChar(r[0]) && !IsEdgeChar(r[|r| - 1]))
  {
    StripRight(StripLeft(w))
  }

  function StripStart(w: string): nat { |w| - |StripLeft(w)| }

  function StripStop(w: string): nat { StripStart(w) + |Strip(w)| }

  lemma StripInfix(w: string)
    ensures 0 <= StripStart(w) <= StripStop(w) <= |w|
    ensures Strip(w) == w[StripStart(w)..StripStop(w)]
    ensures forall i :: 0 <= i < StripStart(w) ==> IsEdgeChar(w[i])
    ensures forall i :: StripStop(w) <= i < |w| ==> IsEdgeChar(w[i])
  {
    var l := StripLeft(w);
    var r := StripRight(l);
    var a := |w| - |l|;
    assert l == w[a..];
    assert r == l[..|r|];
    assert r == w[a..a + |r|];
    forall i | a + |r| <= i < |w| ensures IsEdgeChar(w[i]) {
      assert w[i] == l[i - a];
      assert IsEdgeChar(l[i - a]);
    }
  }

  /** What the loop body does with one run: `Some(token)` when it is kept. */
  function Normalize(run: string): (r: Option<string>)
    ensures r.None? <==> Strip(run) == []
  {
    var w := Strip(run);
    if |w| > 0 then Some(Lower(w)) else None
  }

  /** Applies `f` to every element and keeps the `Some` values, in order. */
  function FilterMap<T, U>(xs: seq<T>, f: T -> Option<U>): (r: seq<U>)
    ensures |r| <= |xs|
  {
    if xs == [] then []
    else FilterMap(xs[..|xs| - 1], f) + (match f(xs[|xs| - 1]) case Some(y) => [y] case None => [])
  }

  /** The tokens kept from a sequence of runs, in the order of the runs. */
  function Keep(runs: seq<string>): seq<string>
  {
    FilterMap(runs, Normalize)
  }

  /** The tokenizer as a function of the text. */
  function Tokenize(s: string): seq<string>
  {
    Keep(FindRuns(CollapseHyphens(s)))
  }

  /** `get_words`: the loop over the runs that appends every kept token. */
  method GetWords(s: string) returns (words: seq<string>)
    ensures words == Tokenize(s)
  {
    words := [];
    var t := CollapseHyphens(s);
    var runs := FindRuns(t);
    for i := 0 to |runs|
      invariant words == Keep(runs[..i])
    {
      var word := Strip(runs[i]);
      if |word| > 0 {
        words := words + [Lower(word)];
      }
      FilterMapStep(runs, Normalize, i);
    }
    assert runs[..|runs|] == runs;
  }

  /** One more element adds its image, if any, at the end. */
  lemma FilterMapStep<T, U>(xs: seq<T>, f: T -> Option<U>, i: nat)
    requires i < |xs|
    ensures FilterMap(xs[..i + 1], f) == FilterMap(xs[..i], f) + (match f(xs[i]) case Some(y) => [y] case None => [])
  {
    assert xs[..i + 1][..i] == xs[..i];
  }

  // ---------------------------------------------------------------------------
  // FilterMap keeps order

  /** The indices of the elements whose images `FilterMap` keeps. */
  ghost function Origins<T, U>(xs: seq<T>, f: T -> Option<U>): (r: seq<nat>)
  {
    if xs == [] then []
    else Origins(xs[..|xs| - 1], f) + (if f(xs[|xs| - 1]).Some? then [|xs| - 1] else [])
  }

  lemma {:induction false} OriginsShape<T, U>(xs: seq<T>, f: T -> Option<U>)
    ensures |Origins(xs, f)| == |FilterMap(xs, f)|
    ensures forall k :: 0 <= k < |Origins(xs, f)| ==> Origins(xs, f)[k] < |xs|
    ensures forall k, k' :: 0 <= k < k' < |Origins(xs, f)| ==> Origins(xs, f)[k] < Origins(xs, f)[k']
  {
    if xs != [] {
      OriginsShape(xs[..|xs| - 1], f);
    }
  }

  lemma {:induction false} OriginsValues<T, U>(xs: seq<T>, f: T -> Option<U>)
    ensures |Origins(xs, f)| == |FilterMap(xs, f)|
    ensures forall k :: 0 <= k < |Origins(xs, f)| ==>
              Origins(xs, f)[k] < |xs| && f(xs[Origins(xs, f)[k]]) == Some(FilterMap(xs, f)[k])
  {
    if xs != [] {
      var init := xs[..|xs| - 1];
      OriginsValues(init, f);
      var o, o' := Origins(xs, f), Origins(init, f);
      var ys, ys' := FilterMap(xs, f), FilterMap(init, f);
      forall k | 0 <= k < |o|
        ensures o[k] < |xs| && f(xs[o[k]]) == Some(ys[k])
      {
        if k < |o'| {
          assert o[k] == o'[k] && ys[k] == ys'[k];
          assert xs[o[k]] == init[o'[k]];
        }
      }
    }
  }

  lemma {:induction false} OriginsComplete<T, U>(xs: seq<T>, f: T -> Option<U>, i: nat)
    requires i < |xs| && f(xs[i]).Some?
    ensures exists k :: 0 <= k < |Origins(xs, f)| && Origins(xs, f)[k] == i
  {
    var init := xs[..|xs| - 1];
    var o := Origins(xs, f);
    if i == |xs| - 1 {
      assert o[|o| - 1] == i;
    } else {
      assert xs[i] == init[i];
      OriginsComplete(init, f, i);
      var k :| 0 <= k < |Origins(init, f)| && Origins(init, f)[k] == i;
      assert o[k] == i;
    }
  }

  /** `FilterMap` is an order-preserving filter: output `k` is the image of element
      `Origins(xs, f)[k]`, the origins increase, and every element with an image is an origin. */
  lemma FilterMapOrigins<T, U>(xs: seq<T>, f: T -> Option<U>)
    ensures |Origins(xs, f)| == |FilterMap(xs, f)|
    ensures forall k :: 0 <= k < |Origins(xs, f)| ==>
              Origins(xs, f)[k] < |xs| && f(xs[Origins(xs, f)[k]]) == Some(FilterMap(xs, f)[k])
    ensures forall k, k' :: 0 <= k < k' < |Origins(xs, f)| ==> Origins(xs, f)[k] < Origins(xs, f)[k']
    ensures forall i :: 0 <= i < |xs| && f(xs[i]).Some? ==>
              exists k :: 0 <= k < |Origins(xs, f)| && Origins(xs, f)[k] == i
  {
    OriginsShape(xs, f);
    OriginsValues(xs, f);
    forall i | 0 <= i < |xs| && f(xs[i]).Some?
      ensures exists k :: 0 <= k < |Origins(xs, f)| && Origins(xs, f)[k] == i
    {
      OriginsComplete(xs, f, i);
    }
  }

  // ---------------------------------------------------------------------------
  // Properties of the tokens

  /** The text of a maximal run of a text without double hyphens normalizes to a token, if to anything. */
  lemma RunNormalizesToToken(t: string, span: Span)
    requires IsMaximalRun(t, span) && NoDoubleHyphen(t)
    requires Normalize(t[span.lo..span.hi]).Some?
    ensures IsToken(Normalize(t[span.lo..span.hi]).value)
  {
    InfixNoDoubleHyphen(t, span.lo, span.hi);
    InfixRunChars(t, span);
    NormalizeIsToken(t[span.lo..span.hi]);
  }

  lemma InfixRunChars(t: string, span: Span)
    requires IsMaximalRun(t, span)
    ensures forall i :: 0 <= i < |t[span.lo..span.hi]| ==> IsRunChar(t[span.lo..span.hi][i])
  {
    var run := t[span.lo..span.hi];
    forall i | 0 <= i < |run| ensures IsRunChar(run[i]) {
      assert run[i] == t[span.lo + i];
    }
  }

  lemma InfixNoDoubleHyphen(t: string, lo: nat, hi: nat)
    requires lo <= hi <= |t| && NoDoubleHyphen(t)
    ensures NoDoubleHyphen(t[lo..hi])
  {
    var u := t[lo..hi];
    forall i | 0 <= i < |u| - 1 ensures !(u[i] == '-' && u[i + 1] == '-') {
      assert u[i] == t[lo + i] && u[i + 1] == t[lo + i + 1];
    }
  }

  /** Lower-casing the stripped text of a hyphen-sparse run of `[\w'-]` gives a token. */
  lemma NormalizeIsToken(run: string)
    requires forall i :: 0 <= i < |run| ==> IsRunChar(run[i])
    requires NoDoubleHyphen(run)
    requires Normalize(run).Some?
    ensures IsToken(Normalize(run).value)
  {
    var w := Strip(run);
    StripInfix(run);
    var a := StripStart(run);
    var tok := Lower(w);
    InfixNoDoubleHyphen(run, a, StripStop(run));
    assert forall i :: 0 <= i < |w| ==> w[i] == run[a + i];
    forall i | 0 <= i < |tok| - 1 ensures !(tok[i] == '-' && tok[i + 1] == '-') {
      assert !(w[i] == '-' && w[i + 1] == '-');
    }
  }

  /** The span of the run each token comes from, in the hyphen-collapsed text. */
  ghost function TokenSpans(s: string): (r: seq<Span>)
    ensures |r| == |Tokenize(s)|
  {
    var t := CollapseHyphens(s);
    var sp := RunSpans(t);
    var o := Origins(FindRuns(t), Normalize);
    OriginsShape(FindRuns(t), Normalize);
    seq(|o|, k requires 0 <= k < |o| => sp[o[k]])
  }

  /** Token `k` is the normalized text of a maximal run of the hyphen-collapsed text. */
  lemma TokensFromRuns(s: string)
    ensures forall k :: 0 <= k < |Tokenize(s)| ==>
              && IsMaximalRun(CollapseHyphens(s), TokenSpans(s)[k])
              && Normalize(CollapseHyphens(s)[TokenSpans(s)[k].lo..TokenSpans(s)[k].hi]) == Some(Tokenize(s)[k])
  {
    var t := CollapseHyphens(s);
    RunSpansSpec(t);
    OriginsValues(FindRuns(t), Normalize);
  }

  /** The tokens appear in the order of their runs: later tokens come from runs further right. */
  lemma TokensInTextOrder(s: string)
    ensures forall k, k' :: 0 <= k < k' < |Tokenize(s)| ==> TokenSpans(s)[k].hi < TokenSpans(s)[k'].lo
  {
    var t := CollapseHyphens(s);
    var sp := RunSpans(t);
    var o := Origins(FindRuns(t), Normalize);
    assert sp == SpansFrom(t, 0);
    SpansOrdered(t, 0);
    OriginsShape(FindRuns(t), Normalize);
    var ts := TokenSpans(s);
    forall k, k' | 0 <= k < k' < |Tokenize(s)| ensures ts[k].hi < ts[k'].lo {
      assert o[k] < o[k'] < |sp|;
      assert ts[k] == sp[o[k]] && ts[k'] == sp[o[k']];
    }
  }

  /** No run is lost: every run that is not all edge characters gives a token. */
  lemma TokensCoverRuns(s: string, j: nat)
    requires j < |RunSpans(CollapseHyphens(s))|
    requires var sp := RunSpans(CollapseHyphens(s)); Strip(CollapseHyphens(s)[sp[j].lo..sp[j].hi]) != []
    ensures exists k :: 0 <= k < |Tokenize(s)| && TokenSpans(s)[k] == RunSpans(CollapseHyphens(s))[j]
  {
    var t := CollapseHyphens(s);
    OriginsComplete(FindRuns(t), Normalize, j);
    var k :| 0 <= k < |Origins(FindRuns(t), Normalize)| && Origins(FindRuns(t), Normalize)[k] == j;
    assert TokenSpans(s)[k] == RunSpans(t)[j];
  }

  /** Every token of `get_words` is well formed. */
  lemma TokensAreTokens(s: string)
    ensures forall k :: 0 <= k < |Tokenize(s)| ==> IsToken(Tokenize(s)[k])
  {
    var t := CollapseHyphens(s);
    CollapseNoDoubleHyphen(s);
    TokensFromRuns(s);
    forall k | 0 <= k < |Tokenize(s)| ensures IsToken(Tokenize(s)[k]) {
      RunNormalizesToToken(t, TokenSpans(s)[k]);
    }
  }
}
