/**
 `TfidfCalculator`: the object that ingests documents and ranks their words.

 `tf` maps each document key to the `Counter` of its words; `df` counts, per
 word, the documents that contain it. `ReadFile` updates both in place;
 `ImportantWords` only reads them. Reading the file is left to the caller: a
 document arrives as its key and its text.
 */
module Tfidf {
  import opened Chars
  import opened Tokenizer
  import opened Counting
  import opened Ranking

  datatype Error = KeyError(key: string)

  /** The keys of `tf` whose table contains `w`. */
  function DocsWith(tf: map<string, Counter>, w: string): set<string>
  {
    set k | k in tf && Has(tf[k], w)
  }

  /** Every document frequency is the number of documents containing the word.
      This holds as long as no key has been read twice. */
  ghost predicate Consistent(tf: map<string, Counter>, df: Frequencies)
  {
    forall w :: DfOf(df, w) == |DocsWith(tf, w)|
  }

  /** What holds however the documents were read: each table is well formed and
      each of its words has a positive document frequency. */
  ghost predicate Covered(tf: map<string, Counter>, df: Frequencies)
  {
    forall k :: k in tf ==> Rankable(tf[k], df)
  }

  /** The state after `read_file(key)` on a text whose words are `words`. */
  function NewTf(tf: map<string, Counter>, key: string, words: seq<string>): map<string, Counter>
  {
    tf[key := Tally(words)]
  }

  function NewDf(df: Frequencies, words: seq<string>): Frequencies
  {
    AddOnce(df, set w | w in words)
  }

  class TfidfCalculator {
    var tf: map<string, Counter>
    var df: Frequencies

    ghost predicate Valid()
      reads this
    {
      Covered(tf, df)
    }

    constructor ()
      ensures Valid() && Consistent(tf, df)
      ensures tf == map[] && df == map[]
    {
      tf := map[];
      df := map[];
    }

    /** `read_file`, without the file: tokenizes `text`, stores its counter under `key`
        (replacing any earlier one) and adds one to the document frequency of each
        distinct word. */
    method ReadFile(key: string, text: string)
      requires Valid()
      modifies this
      ensures Valid()
      ensures tf == NewTf(old(tf), key, Tokenize(text))
      ensures df == NewDf(old(df), Tokenize(text))
      ensures key !in old(tf) && old(Consistent(tf, df)) ==> Consistent(tf, df)
    {
      var words := GetWords(text);
      IngestCovered(tf, df, key, words);
      if key !in tf && Consistent(tf, df) {
        IngestConsistent(tf, df, key, words);
      }
      tf := tf[key := Tally(words)];
      df := AddOnce(df, set w | w in words);
    }

    /** `important_words(key, num_words)` with the logarithm `ln`; `num_words` is 10 unless
        given, and an unknown key is a `KeyError`. */
    function ImportantWords(key: string, ln: real -> real, numWords: Option<int> := Some(10)): (r: Result<seq<Scored>, Error>)
      reads this
      requires Valid()
      ensures r.Err? <==> key !in tf
      ensures r.Err? ==> r.error == KeyError(key)
      ensures r.Ok? ==> forall e :: e in r.value ==> Has(tf[key], e.word)
      ensures r.Ok? ==> Descending(r.value)
      ensures r.Ok? && numWords.None? ==> |r.value| == |tf[key]|
      ensures r.Ok? && numWords.None? ==>
                forall i :: 0 <= i < |tf[key]| ==> exists e :: e in r.value && e.word == tf[key][i].word
      ensures r.Ok? && numWords.Some? && numWords.value >= 0 ==>
                |r.value| == if numWords.value <= |tf[key]| then numWords.value else |tf[key]|
      ensures r.Ok? ==> forall e :: e in r.value ==>
                && Total(tf[key]) > 0 && DfOf(df, e.word) >= 1
                && e.score == Score(CountOf(tf[key], e.word), Total(tf[key]), |tf|, DfOf(df, e.word), ln)
      ensures r.Ok? && numWords.None? ==> r.value == Ranked(tf[key], |tf|, df, ln)
      ensures r.Ok? && numWords.Some? && numWords.value >= 0 ==>
                r.value == Ranked(tf[key], |tf|, df, ln)[..if numWords.value <= |tf[key]| then numWords.value else |tf[key]|]
      ensures r.Ok? && numWords.Some? && numWords.value < 0 ==>
                r.value == Ranked(tf[key], |tf|, df, ln)[..if |tf[key]| + numWords.value >= 0 then |tf[key]| + numWords.value else 0]
    {
      if key !in tf then Err(KeyError(key))
      else
        RankSpec(tf[key], |tf|, df, ln, numWords);
        Ok(Rank(tf[key], |tf|, df, ln, numWords))
    }
  }

  /** Called without `num_words`, `important_words` returns the ten best words, or all of
      them when the document has fewer. */
  lemma DefaultTopTen(ranker: TfidfCalculator, key: string, ln: real -> real)
    requires ranker.Valid() && key in ranker.tf
    ensures var r := ranker.ImportantWords(key, ln);
            r.Ok? && |r.value| == (if |ranker.tf[key]| < 10 then |ranker.tf[key]| else 10)
  {
  }

  // ---------------------------------------------------------------------------
  // Ingestion

  /** Reading a document keeps every table rankable, even when the key was read before. */
  lemma IngestCovered(tf: map<string, Counter>, df: Frequencies, key: string, words: seq<string>)
    requires Covered(tf, df)
    ensures Covered(NewTf(tf, key, words), NewDf(df, words))
  {
    var tf', df' := NewTf(tf, key, words), NewDf(df, words);
    forall k | k in tf' ensures Rankable(tf'[k], df') {
      if k == key {
        var c := Tally(words);
        TallyWellFormed(words);
        forall i | 0 <= i < |c| ensures DfOf(df', c[i].word) >= 1 {
          assert Has(c, c[i].word);
          TallyHas(words, c[i].word);
        }
      } else {
        assert forall i :: 0 <= i < |tf[k]| ==> DfOf(df', tf[k][i].word) >= DfOf(df, tf[k][i].word);
      }
    }
  }

  /** Reading a new key keeps every document frequency equal to the number of documents
      that contain the word. */
  lemma IngestConsistent(tf: map<string, Counter>, df: Frequencies, key: string, words: seq<string>)
    requires key !in tf && Consistent(tf, df)
    ensures Consistent(NewTf(tf, key, words), NewDf(df, words))
  {
    var tf', df' := NewTf(tf, key, words), NewDf(df, words);
    forall w ensures DfOf(df', w) == |DocsWith(tf', w)| {
      IngestDocs(tf, key, words, w);
      assert key !in DocsWith(tf, w);
    }
  }

  /** The documents containing `w` after reading a new key: the same, plus the new one
      if its words contain `w`. */
  lemma IngestDocs(tf: map<string, Counter>, key: string, words: seq<string>, w: string)
    requires key !in tf
    ensures DocsWith(NewTf(tf, key, words), w) == DocsWith(tf, w) + (if w in words then {key} else {})
  {
    TallyHas(words, w);
    var tf' := NewTf(tf, key, words);
    forall k | k in tf' && k != key ensures tf'[k] == tf[k] {}
  }

  /** After reading `key` with words `ws`, its table counts each word's occurrences,
      holds exactly the distinct words in first-occurrence order, and sums to `|ws|`. */
  lemma IngestTable(tf: map<string, Counter>, key: string, ws: seq<string>)
    ensures var c := NewTf(tf, key, ws)[key];
            && (forall w :: CountOf(c, w) == multiset(ws)[w])
            && (forall w :: Has(c, w) <==> w in ws)
            && Total(c) == |ws|
    ensures var c := NewTf(tf, key, ws)[key];
            forall i, j :: 0 <= i < j < |c| ==>
              c[i].word in ws && c[j].word in ws && FirstIndex(ws, c[i].word) < FirstIndex(ws, c[j].word)
    ensures forall k :: k in tf && k != key ==> NewTf(tf, key, ws)[k] == tf[k]
  {
    TallyKeyOrder(ws);
    forall w ensures CountOf(Tally(ws), w) == multiset(ws)[w] && (Has(Tally(ws), w) <==> w in ws) {
      TallyCount(ws, w);
      TallyHas(ws, w);
    }
    TallyTotal(ws);
  }

  /** Reading a document adds exactly one to the document frequency of each distinct word
      in it, however often it occurs, and leaves every other frequency as it was. */
  lemma IngestFrequencies(df: Frequencies, ws: seq<string>, w: string)
    ensures DfOf(NewDf(df, ws), w) == DfOf(df, w) + (if w in ws then 1 else 0)
  {
  }

  /** When every key was read once, each word of a document has a document frequency
      between 1 and the number of documents, so the argument of the logarithm is at least 1. */
  lemma FrequencyBounds(tf: map<string, Counter>, df: Frequencies, k: string, w: string)
    requires Consistent(tf, df)
    requires k in tf && Has(tf[k], w)
    ensures 1 <= DfOf(df, w) <= |tf|
    ensures |tf| as real / DfOf(df, w) as real >= 1.0
  {
    var docs := DocsWith(tf, w);
    assert k in docs;
    assert docs <= tf.Keys;
    SubsetSize(docs, tf.Keys);
    assert DfOf(df, w) == |docs| && |tf.Keys| == |tf|;
    RatioAtLeastOne(|tf|, DfOf(df, w));
  }

  lemma RatioAtLeastOne(n: nat, d: nat)
    requires 1 <= d <= n
    ensures n as real / d as real >= 1.0
  {
  }

  lemma {:induction false} SubsetSize(a: set<string>, b: set<string>)
    requires a <= b
    ensures |a| <= |b|
  {
    if a != {} {
      var x :| x in a;
      SubsetSize(a - {x}, b - {x});
    }
  }

  /** Reading the same key twice is not refused; the second reading counts its words
      again, so a word of a single-document corpus can have document frequency 2. */
  lemma RereadCountsTwice(key: string, ws: seq<string>, w: string)
    requires w in ws
    ensures var tf := NewTf(NewTf(map[], key, ws), key, ws);
            var df := NewDf(NewDf(map[], ws), ws);
            |tf| == 1 && DfOf(df, w) == 2 && !Consistent(tf, df)
  {
    var tf := NewTf(NewTf(map[], key, ws), key, ws);
    var df := NewDf(NewDf(map[], ws), ws);
    assert tf.Keys == {key};
    assert DocsWith(tf, w) <= {key};
    SubsetSize(DocsWith(tf, w), {key});
  }

  /** Two documents, A = "sun sun moon" and B = "moon star star": the best word of A is
      "sun", scored (2/3) * ln(2), while "moon", in both documents, scores 0. */
  lemma TwoDocumentExample(ln: real -> real)
    requires ln(1.0) == 0.0 && ln(2.0) > 0.0
    ensures var a, b := ["sun", "sun", "moon"], ["moon", "star", "star"];
            var tf := NewTf(NewTf(map[], "A", a), "B", b);
            var df := NewDf(NewDf(map[], a), b);
            && Covered(tf, df)
            && Rank(tf["A"], |tf|, df, ln, Some(1)) == [Scored("sun", (2.0 / 3.0) * ln(2.0))]
            && Rank(tf["A"], |tf|, df, ln, None) == [Scored("sun", (2.0 / 3.0) * ln(2.0)), Scored("moon", 0.0)]
  {
    var a, b := ["sun", "sun", "moon"], ["moon", "star", "star"];
    var tf := NewTf(NewTf(map[], "A", a), "B", b);
    var df := NewDf(NewDf(map[], a), b);
    ExampleState(a, b);
    ExampleFrequencies();
    ExampleRanking(tf["A"], df, ln);
  }

  lemma ExampleState(a: seq<string>, b: seq<string>)
    requires a == ["sun", "sun", "moon"]
    ensures var tf := NewTf(NewTf(map[], "A", a), "B", b);
            var df := NewDf(NewDf(map[], a), b);
            && Covered(tf, df) && |tf| == 2 && tf["A"] == [Entry("sun", 2), Entry("moon", 1)]
  {
    IngestCovered(map[], map[], "A", a);
    IngestCovered(NewTf(map[], "A", a), NewDf(map[], a), "B", b);
    ExampleTable();
    var tf := NewTf(NewTf(map[], "A", a), "B", b);
    assert tf.Keys == {"A", "B"};
  }

  lemma ExampleRanking(table: Counter, df: Frequencies, ln: real -> real)
    requires ln(1.0) == 0.0 && ln(2.0) > 0.0
    requires table == [Entry("sun", 2), Entry("moon", 1)] && Rankable(table, df)
    requires DfOf(df, "sun") == 1 && DfOf(df, "moon") == 2
    ensures Rank(table, 2, df, ln, Some(1)) == [Scored("sun", (2.0 / 3.0) * ln(2.0))]
    ensures Rank(table, 2, df, ln, None) == [Scored("sun", (2.0 / 3.0) * ln(2.0)), Scored("moon", 0.0)]
  {
    var sun, moon := Scored("sun", (2.0 / 3.0) * ln(2.0)), Scored("moon", 0.0);
    ExampleTable();
    var sc := Scores(table, 2, df, ln);
    assert sc[0] == sun;
    assert 2 as real / 2 as real == 1.0;
    assert sc[1] == moon;
    assert sc == [sun, moon];
    assert SortDescending(sc) == Insert(moon, Insert(sun, [])) by {
      assert sc[..1] == [sun] && sc[..1][..0] == [];
      assert SortDescending(sc[..1]) == [sun];
    }
    assert sun.score > 0.0;
    assert Insert(moon, [sun]) == [sun, moon];
  }

  lemma ExampleTable()
    ensures Tally(["sun", "sun", "moon"]) == [Entry("sun", 2), Entry("moon", 1)]
    ensures Total([Entry("sun", 2), Entry("moon", 1)]) == 3
  {
    var a: seq<string> := ["sun", "sun", "moon"];
    assert a[..1][..0] == [];
    assert Tally(a[..1]) == [Entry("sun", 1)];
    assert a[..2][..1] == a[..1];
    assert Tally(a[..2]) == [Entry("sun", 2)];
    assert a[..|a| - 1] == a[..2];
    assert Bump([Entry("sun", 2)], "moon") == [Entry("sun", 2)] + Bump([], "moon");
  }

  lemma ExampleFrequencies()
    ensures var df := NewDf(NewDf(map[], ["sun", "sun", "moon"]), ["moon", "star", "star"]);
            DfOf(df, "sun") == 1 && DfOf(df, "moon") == 2
  {
    var a, b: seq<string> := ["sun", "sun", "moon"], ["moon", "star", "star"];
    assert "sun" in a && "sun" !in b;
    assert "moon" in a && "moon" in b;
    IngestFrequencies(map[], a, "sun");
    IngestFrequencies(NewDf(map[], a), b, "sun");
    IngestFrequencies(map[], a, "moon");
    IngestFrequencies(NewDf(map[], a), b, "moon");
  }
}
