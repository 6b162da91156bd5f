/**
 The counting part of the TF-IDF ranker: `Counter(words)`, the per-document
 term-frequency table, and `Counter.update(set(words))`, the corpus-wide
 document-frequency table.

 A `Counter` built from a list is a dictionary whose keys are in first-occurrence
 order; it is modelled as a sequence of entries in that order. The document
 frequencies are only looked up, so they are a `map` in which a missing word
 counts 0, as a `Counter` does.
 */
module Counting {

  datatype Entry = Entry(word: string, count: nat)

  type Counter = seq<Entry>

  /** The keys of a counter, in its iteration order. */
  function Words(c: Counter): (r: seq<string>)
    ensures |r| == |c|
    ensures forall i :: 0 <= i < |c| ==> r[i] == c[i].word
  {
    if c == [] then [] else [c[0].word] + Words(c[1..])
  }

  predicate Has(c: Counter, w: string)
  {
    exists i :: 0 <= i < |c| && c[i].word == w
  }

  /** `c[w]`, 0 for a missing word. */
  function CountOf(c: Counter, w: string): nat
  {
    if c == [] then 0 else if c[0].word == w then c[0].count else CountOf(c[1..], w)
  }

  /** `sum(c.values())`. */
  function Total(c: Counter): nat
  {
    if c == [] then 0 else c[0].count + Total(c[1..])
  }

  /** Keys are distinct and every stored count is positive. */
  predicate WellFormed(c: Counter)
  {
    && (forall i, j :: 0 <= i < j < |c| ==> c[i].word != c[j].word)
    && (forall i :: 0 <= i < |c| ==> c[i].count >= 1)
  }

  /** One more occurrence of `w`: the existing entry goes up by one, or a new entry is appended. */
  function Bump(c: Counter, w: string): (r: Counter)
    ensures |r| == if Has(c, w) then |c| else |c| + 1
  {
    if c == [] then [Entry(w, 1)]
    else if c[0].word == w then [Entry(w, c[0].count + 1)] + c[1..]
    else
      assert Has(c, w) <==> Has(c[1..], w) by {
        if Has(c[1..], w) { var i :| 0 <= i < |c[1..]| && c[1..][i].word == w; assert c[i + 1].word == w; }
        if Has(c, w) { var i :| 0 <= i < |c| && c[i].word == w; assert c[1..][i - 1].word == w; }
      }
      [c[0]] + Bump(c[1..], w)
  }

  /** `Counter(words)`: one `Bump` per word, from left to right. */
  function Tally(ws: seq<string>): Counter
  {
    if ws == [] then [] else Bump(Tally(ws[..|ws| - 1]), ws[|ws| - 1])
  }

  /** The position of the first occurrence of `w` in `ws`. */
  function FirstIndex(ws: seq<string>, w: string): (i: nat)
    requires w in ws
    ensures i < |ws| && ws[i] == w && w !in ws[..i]
  {
    if ws[0] == w then 0 else 1 + FirstIndex(ws[1..], w)
  }

  // ---------------------------------------------------------------------------
  // Bump

  lemma {:induction false} BumpCount(c: Counter, w: string, v: string)
    ensures CountOf(Bump(c, w), v) == CountOf(c, v) + (if v == w then 1 else 0)
  {
    if c != [] && c[0].word != w {
      BumpCount(c[1..], w, v);
      assert Bump(c, w)[1..] == Bump(c[1..], w);
    }
  }

  lemma {:induction false} BumpTotal(c: Counter, w: string)
    ensures Total(Bump(c, w)) == Total(c) + 1
  {
    if c != [] && c[0].word != w {
      BumpTotal(c[1..], w);
      assert Bump(c, w)[1..] == Bump(c[1..], w);
    } else if c != [] {
      assert Bump(c, w)[1..] == c[1..];
    }
  }

  /** The keys stay where they are; a new word goes to the end. */
  lemma {:induction false} BumpWords(c: Counter, w: string)
    ensures Words(Bump(c, w)) == if w in Words(c) then Words(c) else Words(c) + [w]
  {
    if c != [] {
      if c[0].word == w {
        assert Words(Bump(c, w)) == Words(c);
      } else {
        BumpWords(c[1..], w);
        assert Bump(c, w) == [c[0]] + Bump(c[1..], w);
        assert Words(Bump(c, w)) == [c[0].word] + Words(Bump(c[1..], w));
        assert Words(c) == [c[0].word] + Words(c[1..]);
      }
    }
  }

  lemma {:induction false} BumpWellFormed(c: Counter, w: string)
    requires WellFormed(c)
    ensures WellFormed(Bump(c, w))
  {
    var r := Bump(c, w);
    BumpWords(c, w);
    assert Words(r) == if w in Words(c) then Words(c) else Words(c) + [w];
    forall i | 0 <= i < |r| ensures r[i].count >= 1 {
      BumpEntry(c, w, i);
    }
  }

  /** Each entry of `Bump(c, w)` is the old entry at that index, possibly incremented, or the new one. */
  lemma {:induction false} BumpEntry(c: Counter, w: string, i: nat)
    requires i < |Bump(c, w)|
    ensures i < |c| ==> Bump(c, w)[i].word == c[i].word && Bump(c, w)[i].count >= c[i].count
    ensures i == |c| ==> Bump(c, w)[i] == Entry(w, 1)
  {
    if c != [] && c[0].word != w && i > 0 {
      BumpEntry(c[1..], w, i - 1);
    }
  }

  lemma HasWords(c: Counter, w: string)
    ensures Has(c, w) <==> w in Words(c)
  {
    if Has(c, w) {
      var i :| 0 <= i < |c| && c[i].word == w;
      assert Words(c)[i] == w;
    }
  }

  // ---------------------------------------------------------------------------
  // Tally: what Counter(words) holds

  /** `tf[k][w]` is the number of occurrences of `w` in the words. */
  lemma {:induction false} TallyCount(ws: seq<string>, w: string)
    ensures CountOf(Tally(ws), w) == multiset(ws)[w]
  {
    if ws != [] {
      var init, last := ws[..|ws| - 1], ws[|ws| - 1];
      assert ws == init + [last];
      TallyCount(init, w);
      BumpCount(Tally(init), last, w);
    }
  }

  /** The counts add up to the number of words. */
  lemma {:induction false} TallyTotal(ws: seq<string>)
    ensures Total(Tally(ws)) == |ws|
  {
    if ws != [] {
      TallyTotal(ws[..|ws| - 1]);
      BumpTotal(Tally(ws[..|ws| - 1]), ws[|ws| - 1]);
    }
  }

  lemma {:induction false} TallyWellFormed(ws: seq<string>)
    ensures WellFormed(Tally(ws))
  {
    if ws != [] {
      TallyWellFormed(ws[..|ws| - 1]);
      BumpWellFormed(Tally(ws[..|ws| - 1]), ws[|ws| - 1]);
    }
  }

  /** The keys are exactly the distinct words ... */
  lemma {:induction false} TallyKeySet(ws: seq<string>)
    ensures forall w :: w in Words(Tally(ws)) <==> w in ws
  {
    if ws != [] {
      var init, last := ws[..|ws| - 1], ws[|ws| - 1];
      assert ws == init + [last];
      TallyKeySet(init);
      BumpWords(Tally(init), last);
    }
  }

  /** `keys` holds exactly the words of `ws`, in the order of their first occurrences. */
  ghost predicate FirstOccurrenceOrder(keys: seq<string>, ws: seq<string>)
  {
    && (forall w :: w in keys <==> w in ws)
    && (forall i, j :: 0 <= i < j < |keys| ==>
          && keys[i] in ws && keys[j] in ws
          && FirstIndex(ws, keys[i]) < FirstIndex(ws, keys[j]))
  }

  /** ... in the order of their first occurrences. */
  lemma {:induction false} TallyKeyOrder(ws: seq<string>)
    ensures FirstOccurrenceOrder(Words(Tally(ws)), ws)
  {
    if ws != [] {
      var init, last := ws[..|ws| - 1], ws[|ws| - 1];
      assert ws == init + [last];
      TallyKeyOrder(init);
      BumpWords(Tally(init), last);
      KeyOrderAppend(init, last, Words(Tally(init)));
    }
  }

  /** Appending a word keeps the keys in first-occurrence order. */
  lemma KeyOrderAppend(init: seq<string>, last: string, keys: seq<string>)
    requires FirstOccurrenceOrder(keys, init)
    ensures FirstOccurrenceOrder(if last in keys then keys else keys + [last], init + [last])
  {
    var keys' := if last in keys then keys else keys + [last];
    var ws := init + [last];
    forall i, j | 0 <= i < j < |keys'|
      ensures keys'[i] in ws && keys'[j] in ws && FirstIndex(ws, keys'[i]) < FirstIndex(ws, keys'[j])
    {
      assert keys'[i] == keys[i];
      FirstIndexPrefix(init, last, keys[i]);
      if j < |keys| {
        assert keys'[j] == keys[j];
        FirstIndexPrefix(init, last, keys[j]);
      } else {
        assert keys'[j] == last && last !in init;
        FirstIndexLast(init, last);
      }
    }
  }

  lemma {:induction false} FirstIndexPrefix(init: seq<string>, last: string, w: string)
    requires w in init
    ensures w in init + [last] && FirstIndex(init + [last], w) == FirstIndex(init, w)
  {
    if init[0] != w {
      assert (init + [last])[1..] == init[1..] + [last];
      FirstIndexPrefix(init[1..], last, w);
    }
  }

  lemma {:induction false} FirstIndexLast(init: seq<string>, last: string)
    requires last !in init
    ensures FirstIndex(init + [last], last) == |init|
  {
    if init != [] {
      assert (init + [last])[1..] == init[1..] + [last];
      FirstIndexLast(init[1..], last);
    }
  }

  /** `Has` on a tally agrees with membership in the words. */
  lemma TallyHas(ws: seq<string>, w: string)
    ensures Has(Tally(ws), w) <==> w in ws
  {
    TallyKeySet(ws);
    HasWords(Tally(ws), w);
  }

  /** In a well-formed counter, `CountOf` reads the entry of that word. */
  lemma {:induction false} CountOfEntry(c: Counter, i: nat)
    requires WellFormed(c) && i < |c|
    ensures CountOf(c, c[i].word) == c[i].count
  {
    if i > 0 {
      assert c[0].word != c[i].word;
      CountOfEntry(c[1..], i - 1);
    }
  }

  /** A non-empty well-formed counter has a positive total. */
  lemma {:induction false} TotalPositive(c: Counter)
    requires WellFormed(c) && c != []
    ensures Total(c) >= |c|
  {
    if |c| > 1 {
      TotalPositive(c[1..]);
    }
  }

  // ---------------------------------------------------------------------------
  // Document frequencies: Counter.update(set(words))

  type Frequencies = map<string, nat>

  /** `df[w]`, 0 for a missing word. */
  function DfOf(df: Frequencies, w: string): nat
  {
    if w in df then df[w] else 0
  }

  /** `df.update(words)` for a set of words: each of them goes up by exactly one. */
  function AddOnce(df: Frequencies, words: set<string>): (r: Frequencies)
    ensures r.Keys == df.Keys + words
    ensures forall w :: DfOf(r, w) == DfOf(df, w) + (if w in words then 1 else 0)
  {
    map w | w in df.Keys + words :: DfOf(df, w) + (if w in words then 1 else 0)
  }
}
