/**
 The ranking of `important_words`: one TF-IDF score per key of the document's
 table, a stable sort by descending score, and the `[:num_words]` slice.

 The score is `(tf / total) * ln(total_docs / df)` in exact real arithmetic; the
 natural logarithm is a parameter `ln`, so every property below holds for any
 choice of it.
 */
module Ranking {
  import opened Chars
  import opened Counting

  datatype Scored = Scored(word: string, score: real)

  /** A table the scores can be computed for: distinct keys with positive counts,
      and a positive document frequency for every key. */
  predicate Rankable(table: Counter, df: Frequencies)
  {
    && WellFormed(table)
    && (forall i :: 0 <= i < |table| ==> DfOf(df, table[i].word) >= 1)
  }

  /** The TF-IDF score of a word counted `count` times in a document of `total` words,
      in a corpus of `docs` documents of which `dfw` contain the word. */
  function Score(count: nat, total: nat, docs: nat, dfw: nat, ln: real -> real): real
    requires total > 0 && dfw > 0
  {
    (count as real / total as real) * ln(docs as real / dfw as real)
  }

  /** The dictionary of scores, one per key, in the table's order. */
  function Scores(table: Counter, docs: nat, df: Frequencies, ln: real -> real): (r: seq<Scored>)
    requires Rankable(table, df)
    ensures |r| == |table|
    ensures forall i :: 0 <= i < |r| ==> r[i].word == table[i].word
  {
    if table == [] then []
    else
      TotalPositive(table);
      var total := Total(table);
      seq(|table|, i requires 0 <= i < |table| =>
        Scored(table[i].word, Score(table[i].count, total, docs, DfOf(df, table[i].word), ln)))
  }

  // ---------------------------------------------------------------------------
  // sorted(..., reverse=True): stable, by descending score

  predicate Descending(s: seq<Scored>)
  {
    forall i, j :: 0 <= i < j < |s| ==> s[i].score >= s[j].score
  }

  /** The entries of `s` with score `v`, in their order in `s`. */
  function WithScore(s: seq<Scored>, v: real): seq<Scored>
  {
    if s == [] then []
    else (if s[0].score == v then [s[0]] else []) + WithScore(s[1..], v)
  }

  /** Puts `x` after every entry whose score is at least its own. */
  function Insert(x: Scored, t: seq<Scored>): seq<Scored>
  {
    if t == [] then [x]
    else if t[0].score >= x.score then [t[0]] + Insert(x, t[1..])
    else [x] + t
  }

  /** Insertion sort, taking the entries from left to right. */
  function SortDescending(s: seq<Scored>): seq<Scored>
  {
    if s == [] then [] else Insert(s[|s| - 1], SortDescending(s[..|s| - 1]))
  }

  lemma {:induction false} InsertPermutes(x: Scored, t: seq<Scored>)
    ensures multiset(Insert(x, t)) == multiset(t) + multiset{x}
  {
    if t != [] && t[0].score >= x.score {
      InsertPermutes(x, t[1..]);
      assert t == [t[0]] + t[1..];
    }
  }

  lemma {:induction false} InsertDescending(x: Scored, t: seq<Scored>)
    requires Descending(t)
    ensures Descending(Insert(x, t))
  {
    if t != [] && t[0].score >= x.score {
      var rest := Insert(x, t[1..]);
      InsertDescending(x, t[1..]);
      InsertPermutes(x, t[1..]);
      forall j | 0 <= j < |rest| ensures t[0].score >= rest[j].score {
        assert rest[j] in multiset(rest);
        assert rest[j] == x || rest[j] in multiset(t[1..]);
        if rest[j] != x {
          var m :| 0 <= m < |t[1..]| && t[1..][m] == rest[j];
          assert t[m + 1] == rest[j];
        }
      }
    }
  }

  lemma {:induction false} WithScoreAppend(a: seq<Scored>, b: seq<Scored>, v: real)
    ensures WithScore(a + b, v) == WithScore(a, v) + WithScore(b, v)
  {
    if a == [] {
      assert a + b == b;
    } else {
      var h := if a[0].score == v then [a[0]] else [];
      assert (a + b)[0] == a[0];
      assert (a + b)[1..] == a[1..] + b;
      assert WithScore(a + b, v) == h + WithScore(a[1..] + b, v);
      WithScoreAppend(a[1..], b, v);
      assert h + (WithScore(a[1..], v) + WithScore(b, v)) == (h + WithScore(a[1..], v)) + WithScore(b, v);
    }
  }

  /** A descending sequence headed by a lower score has no entry of score `v`. */
  lemma {:induction false} WithScoreBelow(t: seq<Scored>, v: real)
    requires Descending(t) && t != [] && t[0].score < v
    ensures WithScore(t, v) == []
  {
    if |t| > 1 {
      assert t[1].score <= t[0].score;
      WithScoreBelow(t[1..], v);
    }
  }

  /** Inserting `x` puts it after every entry of equal score. */
  lemma {:induction false} InsertWithScore(x: Scored, t: seq<Scored>, v: real)
    requires Descending(t)
    ensures WithScore(Insert(x, t), v) == WithScore(t, v) + (if x.score == v then [x] else [])
  {
    if t == [] {
    } else if t[0].score >= x.score {
      InsertWithScore(x, t[1..], v);
      WithScoreAppend([t[0]], Insert(x, t[1..]), v);
    } else {
      WithScoreAppend([x], t, v);
      if x.score == v { WithScoreBelow(t, v); }
    }
  }

  /** The sort is a permutation of its input. */
  lemma {:induction false} SortPermutes(s: seq<Scored>)
    ensures multiset(SortDescending(s)) == multiset(s)
  {
    if s != [] {
      var init := s[..|s| - 1];
      assert s == init + [s[|s| - 1]];
      SortPermutes(init);
      InsertPermutes(s[|s| - 1], SortDescending(init));
    }
  }

  /** The sort orders by descending score. */
  lemma {:induction false} SortIsDescending(s: seq<Scored>)
    ensures Descending(SortDescending(s))
  {
    if s != [] {
      SortIsDescending(s[..|s| - 1]);
      InsertDescending(s[|s| - 1], SortDescending(s[..|s| - 1]));
    }
  }

  /** The sort is stable: the entries of any one score keep their relative order. */
  lemma {:induction false} SortIsStable(s: seq<Scored>, v: real)
    ensures WithScore(SortDescending(s), v) == WithScore(s, v)
  {
    if s != [] {
      var init, last := s[..|s| - 1], s[|s| - 1];
      assert s == init + [last];
      SortIsStable(init, v);
      SortIsDescending(init);
      InsertWithScore(last, SortDescending(init), v);
      WithScoreAppend(init, [last], v);
    }
  }

  // ---------------------------------------------------------------------------
  // The ranking and the slice

  /** `sorted_words[:n]` with Python's slice semantics, a negative `n` counting from the end. */
  function SliceTo<T>(s: seq<T>, n: int): seq<T>
  {
    if n >= 0 then (if n <= |s| then s[..n] else s)
    else if |s| + n >= 0 then s[..|s| + n]
    else []
  }

  /** Every score of the document, best first. */
  function Ranked(table: Counter, docs: nat, df: Frequencies, ln: real -> real): (r: seq<Scored>)
    requires Rankable(table, df)
    ensures |r| == |table|
  {
    SortPermutes(Scores(table, docs, df, ln));
    assert |multiset(SortDescending(Scores(table, docs, df, ln)))| == |multiset(Scores(table, docs, df, ln))|;
    SortDescending(Scores(table, docs, df, ln))
  }

  /** The result of `important_words` for a known document: all of the ranking when
      `num_words` is `None`, else its `[:num_words]` slice. */
  function Rank(table: Counter, docs: nat, df: Frequencies, ln: real -> real, numWords: Option<int>): seq<Scored>
    requires Rankable(table, df)
  {
    var ranked := Ranked(table, docs, df, ln);
    match numWords
    case None => ranked
    case Some(n) => SliceTo(ranked, n)
  }

  lemma ScoresWords(table: Counter, docs: nat, df: Frequencies, ln: real -> real, e: Scored)
    requires Rankable(table, df) && table != []
    requires e in Scores(table, docs, df, ln)
    ensures Has(table, e.word)
    ensures Total(table) > 0 && DfOf(df, e.word) >= 1
    ensures e.score == Score(CountOf(table, e.word), Total(table), docs, DfOf(df, e.word), ln)
  {
    var sc := Scores(table, docs, df, ln);
    var i :| 0 <= i < |sc| && sc[i] == e;
    CountOfEntry(table, i);
    TotalPositive(table);
  }

  /** The ranking holds exactly the scores of the document's words, each once. */
  lemma RankedPermutesScores(table: Counter, docs: nat, df: Frequencies, ln: real -> real)
    requires Rankable(table, df)
    ensures multiset(Ranked(table, docs, df, ln)) == multiset(Scores(table, docs, df, ln))
    ensures |Ranked(table, docs, df, ln)| == |table|
  {
    SortPermutes(Scores(table, docs, df, ln));
  }

  /** Every entry of the result is a word of the document with its TF-IDF score. */
  lemma RankEntries(table: Counter, docs: nat, df: Frequencies, ln: real -> real, numWords: Option<int>)
    requires Rankable(table, df)
    ensures forall e :: e in Rank(table, docs, df, ln, numWords) ==>
              && Has(table, e.word) && Total(table) > 0 && DfOf(df, e.word) >= 1
              && e.score == Score(CountOf(table, e.word), Total(table), docs, DfOf(df, e.word), ln)
  {
    var ranked := Ranked(table, docs, df, ln);
    var r := Rank(table, docs, df, ln, numWords);
    RankedPermutesScores(table, docs, df, ln);
    assert forall e :: e in r ==> e in ranked;
    forall e | e in r
      ensures && Has(table, e.word) && Total(table) > 0 && DfOf(df, e.word) >= 1
              && e.score == Score(CountOf(table, e.word), Total(table), docs, DfOf(df, e.word), ln)
    {
      assert e in multiset(ranked);
      assert e in Scores(table, docs, df, ln);
      ScoresWords(table, docs, df, ln, e);
    }
  }

  /** Scores never increase along the result. */
  lemma RankDescending(table: Counter, docs: nat, df: Frequencies, ln: real -> real, numWords: Option<int>)
    requires Rankable(table, df)
    ensures Descending(Rank(table, docs, df, ln, numWords))
  {
    SortIsDescending(Scores(table, docs, df, ln));
  }

  /** Words of equal score keep the table's order, which is the order of their first
      occurrences in the document. */
  lemma RankStable(table: Counter, docs: nat, df: Frequencies, ln: real -> real, v: real)
    requires Rankable(table, df)
    ensures WithScore(Ranked(table, docs, df, ln), v) == WithScore(Scores(table, docs, df, ln), v)
  {
    SortIsStable(Scores(table, docs, df, ln), v);
  }

  /** With `num_words=None` every distinct word of the document is returned, once. */
  lemma RankAll(table: Counter, docs: nat, df: Frequencies, ln: real -> real)
    requires Rankable(table, df)
    ensures |Rank(table, docs, df, ln, None)| == |table|
    ensures forall i :: 0 <= i < |table| ==>
              exists j :: 0 <= j < |table| && Rank(table, docs, df, ln, None)[j].word == table[i].word
  {
    var sc := Scores(table, docs, df, ln);
    var r := Rank(table, docs, df, ln, None);
    RankedPermutesScores(table, docs, df, ln);
    forall i | 0 <= i < |table| ensures exists j :: 0 <= j < |table| && r[j].word == table[i].word {
      assert sc[i] in multiset(r);
      var j :| 0 <= j < |r| && r[j] == sc[i];
    }
  }

  /** With `num_words=n` the result is the first `n` entries of the ranking (all of it
      when there are fewer words), or all but the last `-n` when `n` is negative. */
  lemma RankTruncates(table: Counter, docs: nat, df: Frequencies, ln: real -> real, n: int)
    requires Rankable(table, df)
    ensures |Ranked(table, docs, df, ln)| == |table|
    ensures n >= 0 ==>
              Rank(table, docs, df, ln, Some(n)) == Ranked(table, docs, df, ln)[..if n <= |table| then n else |table|]
    ensures n < 0 ==>
              Rank(table, docs, df, ln, Some(n)) == Ranked(table, docs, df, ln)[..if |table| + n >= 0 then |table| + n else 0]
  {
    RankedPermutesScores(table, docs, df, ln);
  }

  /** Everything `important_words` promises about the result for a known document. */
  lemma RankSpec(table: Counter, docs: nat, df: Frequencies, ln: real -> real, numWords: Option<int>)
    requires Rankable(table, df)
    ensures forall e :: e in Rank(table, docs, df, ln, numWords) ==>
              && Has(table, e.word) && Total(table) > 0 && DfOf(df, e.word) >= 1
              && e.score == Score(CountOf(table, e.word), Total(table), docs, DfOf(df, e.word), ln)
    ensures Descending(Rank(table, docs, df, ln, numWords))
    ensures numWords.None? ==> Rank(table, docs, df, ln, numWords) == Ranked(table, docs, df, ln)
    ensures numWords.None? ==> forall i :: 0 <= i < |table| ==>
              exists e :: e in Rank(table, docs, df, ln, numWords) && e.word == table[i].word
    ensures numWords.Some? && numWords.value >= 0 ==>
              Rank(table, docs, df, ln, numWords) ==
              Ranked(table, docs, df, ln)[..if numWords.value <= |table| then numWords.value else |table|]
    ensures numWords.Some? && numWords.value < 0 ==>
              Rank(table, docs, df, ln, numWords) ==
              Ranked(table, docs, df, ln)[..if |table| + numWords.value >= 0 then |table| + numWords.value else 0]
  {
    RankEntries(table, docs, df, ln, numWords);
    RankDescending(table, docs, df, ln, numWords);
    if numWords.None? {
      RankAllWords(table, docs, df, ln);
    } else {
      RankTruncates(table, docs, df, ln, numWords.value);
    }
  }

  /** With `num_words=None` each key of the table is the word of some entry of the result. */
  lemma RankAllWords(table: Counter, docs: nat, df: Frequencies, ln: real -> real)
    requires Rankable(table, df)
    ensures forall i :: 0 <= i < |table| ==>
              exists e :: e in Rank(table, docs, df, ln, None) && e.word == table[i].word
  {
    var r := Rank(table, docs, df, ln, None);
    RankAll(table, docs, df, ln);
    forall i | 0 <= i < |table| ensures exists e :: e in r && e.word == table[i].word {
      var j :| 0 <= j < |table| && r[j].word == table[i].word;
      assert r[j] in r;
    }
  }

  /** A document without words ranks to nothing; no division is made. */
  lemma RankEmpty(docs: nat, df: Frequencies, ln: real -> real, numWords: Option<int>)
    ensures Rank([], docs, df, ln, numWords) == []
  {
  }
}
