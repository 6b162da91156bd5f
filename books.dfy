/**
 Sorting books by Library of Congress call number: `Book`, the call-number
 parser `parse_call_number` and the comparison `__lt__`.

 The parser is one anchored match of the pattern `([A-Z]+)(\d+(\.\d+)?)(.*)`;
 `.` stops at a newline. The numeric comparison is made on the exact decimal
 value of the numerals, with an empty numeral worth 0.
 */
module Books {
  import opened Chars

  /** A book; its fields are set once, by the constructor. */
  datatype Book = Book(callnum: string, title: string, author: string)

  /** The parsed components: class, initial number and cutter. */
  datatype CallNumber = CallNumber(cls: string, initial: string, cutter: string)

  /** The groups of a successful match that are used: 1, 2 and 4. */
  datatype Groups = Groups(cls: string, initial: string, rest: string)

  predicate AllUpper(s: string) { forall i :: 0 <= i < |s| ==> IsUpper(s[i]) }

  predicate AllDigits(s: string) { forall i :: 0 <= i < |s| ==> IsDigit(s[i]) }

  /** Where the run of capitals starting at `i` ends. */
  function UpperEnd(s: string, i: nat): (j: nat)
    requires i <= |s|
    ensures i <= j <= |s|
    ensures forall k :: i <= k < j ==> IsUpper(s[k])
    ensures j < |s| ==> !IsUpper(s[j])
    decreases |s| - i
  {
    if i == |s| || !IsUpper(s[i]) then i else UpperEnd(s, i + 1)
  }

  /** Where the run of digits starting at `i` ends. */
  function DigitEnd(s: string, i: nat): (j: nat)
    requires i <= |s|
    ensures i <= j <= |s|
    ensures forall k :: i <= k < j ==> IsDigit(s[k])
    ensures j < |s| ==> !IsDigit(s[j])
    decreases |s| - i
  {
    if i == |s| || !IsDigit(s[i]) then i else DigitEnd(s, i + 1)
  }

  /** Where the line containing position `i` ends: at the next newline or at the end. */
  function LineEnd(s: string, i: nat): (j: nat)
    requires i <= |s|
    ensures i <= j <= |s|
    ensures forall k :: i <= k < j ==> s[k] != '\n'
    ensures j < |s| ==> s[j] == '\n'
    decreases |s| - i
  {
    if i == |s| || s[i] == '\n' then i else LineEnd(s, i + 1)
  }

  /** Where the white space starting at `i` ends. */
  function SpaceEnd(s: string, i: nat): (j: nat)
    requires i <= |s|
    ensures i <= j <= |s|
    ensures forall k :: i <= k < j ==> IsSpace(s[k])
    ensures j < |s| ==> !IsSpace(s[j])
    decreases |s| - i
  {
    if i == |s| || !IsSpace(s[i]) then i else SpaceEnd(s, i + 1)
  }

  /** Where the white space ending at `j` begins, looking no further back than `lo`. */
  function SpaceBegin(s: string, lo: nat, j: nat): (i: nat)
    requires lo <= j <= |s|
    ensures lo <= i <= j
    ensures forall k :: i <= k < j ==> IsSpace(s[k])
    ensures lo < i ==> !IsSpace(s[i - 1])
    decreases j - lo
  {
    if j == lo || !IsSpace(s[j - 1]) then j else SpaceBegin(s, lo, j - 1)
  }

  /** `\d+(\.\d+)?` */
  predicate IsNumeral(d: string)
  {
    var k := DigitEnd(d, 0);
    k > 0 && (k == |d| || (d[k] == '.' && k + 1 < |d| && DigitEnd(d, k + 1) == |d|))
  }

  /** Where the optional group `(\.\d+)?` ends when tried, greedily, at `i`. */
  function FractionEnd(s: string, i: nat): (j: nat)
    requires i <= |s|
    ensures i <= j <= |s|
  {
    if i + 1 < |s| && s[i] == '.' && IsDigit(s[i + 1]) then DigitEnd(s, i + 1) else i
  }

  /** `re.match(r"([A-Z]+)(\d+(\.\d+)?)(.*)", s)`: anchored at the start, every
      repetition greedy. */
  function MatchCallNumber(s: string): Option<Groups>
  {
    var a := UpperEnd(s, 0);
    if a == 0 || a == |s| || !IsDigit(s[a]) then None
    else
      var c := FractionEnd(s, DigitEnd(s, a));
      Some(Groups(s[..a], s[a..c], s[c..LineEnd(s, c)]))
  }

  /** `str.strip()`: the infix of `s` left once the white space at both ends is removed. */
  function StripSpace(s: string): (r: string)
    ensures SpaceEnd(s, 0) + |r| <= |s|
    ensures r == s[SpaceEnd(s, 0)..SpaceEnd(s, 0) + |r|]
    ensures forall k :: SpaceEnd(s, 0) + |r| <= k < |s| ==> IsSpace(s[k])
    ensures r == [] || (!IsSpace(r[0]) && !IsSpace(r[|r| - 1]))
  {
    var i := SpaceEnd(s, 0);
    s[i..SpaceBegin(s, i, |s|)]
  }

  /** `parse_call_number`: the components of a matching call number, or three empty
      strings. */
  function ParseCallNumber(callnum: string): (r: CallNumber)
    ensures r.cls == [] <==> r.initial == []
    ensures r.initial == [] || IsNumeral(r.initial)
    ensures r.cls == [] ==> r == CallNumber("", "", "")
  {
    match MatchCallNumber(callnum)
    case None => CallNumber("", "", "")
    case Some(g) =>
      MatchShape(callnum);
      CallNumber(g.cls, g.initial, StripSpace(g.rest))
  }

  // ---------------------------------------------------------------------------
  // What the match finds

  /** A match exists exactly when the call number starts with one or more capitals
      followed by a digit. */
  lemma MatchExists(s: string)
    ensures MatchCallNumber(s).Some? <==> exists n :: 0 < n < |s| && AllUpper(s[..n]) && IsDigit(s[n])
  {
    var a := UpperEnd(s, 0);
    if MatchCallNumber(s).Some? {
      assert AllUpper(s[..a]);
    }
    if n :| 0 < n < |s| && AllUpper(s[..n]) && IsDigit(s[n]) {
      assert forall i :: 0 <= i < n ==> IsUpper(s[..n][i]);
      assert a == n;
    }
  }

  /** `s[a..c]` is a numeral when it is digits up to `b` and, if anything follows,
      a `.` and more digits. */
  lemma NumeralSlice(s: string, a: nat, b: nat, c: nat)
    requires a < b <= c <= |s|
    requires forall k :: a <= k < b ==> IsDigit(s[k])
    requires b == c || (s[b] == '.' && b + 1 < c && forall k :: b < k < c ==> IsDigit(s[k]))
    ensures IsNumeral(s[a..c])
  {
    var d := s[a..c];
    assert forall k :: 0 <= k < |d| ==> d[k] == s[a + k];
    assert DigitEnd(d, 0) == b - a by {
      if b < c { assert d[b - a] == '.'; }
    }
  }

  /** The parts of a numeral `s[a..c]`: digits up to `b`, then possibly a `.` and digits. */
  lemma NumeralParts(s: string, a: nat, c: nat) returns (b: nat)
    requires a <= c <= |s| && IsNumeral(s[a..c])
    ensures a < b <= c
    ensures forall k :: a <= k < b ==> IsDigit(s[k])
    ensures b == c || (s[b] == '.' && b + 1 < c && forall k :: b < k < c ==> IsDigit(s[k]))
    ensures b == c <==> '.' !in s[a..c]
  {
    var d := s[a..c];
    assert forall k :: 0 <= k < |d| ==> d[k] == s[a + k];
    b := a + DigitEnd(d, 0);
    if b < c {
      assert d[b - a] == '.';
      forall k | b < k < c ensures IsDigit(s[k]) {
        assert s[k] == d[k - a];
      }
    } else {
      assert forall k :: 0 <= k < |d| ==> IsDigit(d[k]);
    }
  }

  /** A call number that does not start with capitals followed by a digit parses to
      three empty strings. */
  lemma ParseFailure(s: string)
    requires forall n :: 0 < n < |s| && AllUpper(s[..n]) ==> !IsDigit(s[n])
    ensures ParseCallNumber(s) == CallNumber("", "", "")
  {
    MatchExists(s);
  }

  /** A successful match splits a prefix of the call number into a maximal run of
      capitals, a numeral, and the rest of the first line. */
  lemma MatchShape(s: string)
    requires MatchCallNumber(s).Some?
    ensures var g := MatchCallNumber(s).value;
            var n := |g.cls| + |g.initial| + |g.rest|;
            && n <= |s| && s[..n] == g.cls + g.initial + g.rest
            && g.cls != [] && AllUpper(g.cls) && !IsUpper(s[|g.cls|])
            && IsNumeral(g.initial)
            && (forall i :: 0 <= i < |g.rest| ==> g.rest[i] != '\n')
            && (n < |s| ==> s[n] == '\n')
  {
    var a := UpperEnd(s, 0);
    var c := FractionEnd(s, DigitEnd(s, a));
    var e := LineEnd(s, c);
    assert MatchCallNumber(s).value == Groups(s[..a], s[a..c], s[c..e]);
    assert s[..e] == s[..a] + s[a..c] + s[c..e];
    NumeralAt(s, a);
  }

  /** What `parse_call_number` returns for a matching call number: its maximal leading run
      of capitals, the greedy numeral after it, and the rest of that line with the white
      space stripped from both ends. */
  lemma ParseMatch(s: string)
    requires MatchCallNumber(s).Some?
    ensures |ParseCallNumber(s).cls| + |ParseCallNumber(s).initial| <= |s|
    ensures var r := ParseCallNumber(s);
            s[..|r.cls| + |r.initial|] == r.cls + r.initial
    ensures var r := ParseCallNumber(s);
            r.cls != [] && AllUpper(r.cls) && !IsUpper(s[|r.cls|])
    ensures IsNumeral(ParseCallNumber(s).initial)
    ensures var r := ParseCallNumber(s);
            var n := |r.cls| + |r.initial|;
            && !(n < |s| && IsDigit(s[n]))
            && !('.' !in r.initial && n + 1 < |s| && s[n] == '.' && IsDigit(s[n + 1]))
    ensures var r := ParseCallNumber(s);
            var n := |r.cls| + |r.initial|;
            r.cutter == StripSpace(s[n..LineEnd(s, n)])
  {
    var a, c := ParseGroups(s);
    var r := ParseCallNumber(s);
    assert |r.cls| + |r.initial| == c;
    assert s[..c] == r.cls + r.initial;
    assert AllUpper(r.cls) && IsDigit(s[a]);
    NumeralAt(s, a);
    MatchGreedy(s);
  }

  /** The parse of a matching call number in terms of the positions where the class and
      the numeral end. */
  lemma ParseGroups(s: string) returns (a: nat, c: nat)
    requires MatchCallNumber(s).Some?
    ensures 0 < a < c <= |s| && a == UpperEnd(s, 0) && c == FractionEnd(s, DigitEnd(s, a))
    ensures MatchCallNumber(s).value == Groups(s[..a], s[a..c], s[c..LineEnd(s, c)])
    ensures ParseCallNumber(s) == CallNumber(s[..a], s[a..c], StripSpace(s[c..LineEnd(s, c)]))
  {
    a := UpperEnd(s, 0);
    c := FractionEnd(s, DigitEnd(s, a));
  }

  /** The digits starting at `a`, with the fraction the pattern takes after them, form a numeral. */
  lemma NumeralAt(s: string, a: nat)
    requires a < |s| && IsDigit(s[a])
    ensures IsNumeral(s[a..FractionEnd(s, DigitEnd(s, a))])
  {
    var b := DigitEnd(s, a);
    NumeralSlice(s, a, b, FractionEnd(s, b));
  }

  /** The numeral of a match stops where the greedy pattern stops: no digit follows it,
      nor, when it has no fraction, a `.` and a digit. */
  lemma MatchGreedy(s: string)
    requires MatchCallNumber(s).Some?
    ensures var g := MatchCallNumber(s).value;
            var c := |g.cls| + |g.initial|;
            && c <= |s|
            && !(c < |s| && IsDigit(s[c]))
            && !('.' !in g.initial && c + 1 < |s| && s[c] == '.' && IsDigit(s[c + 1]))
  {
    var a := UpperEnd(s, 0);
    var b := DigitEnd(s, a);
    var c := FractionEnd(s, b);
    var d := s[a..c];
    if c == b {
      assert forall k :: 0 <= k < |d| ==> IsDigit(d[k]) by {
        assert forall k :: 0 <= k < |d| ==> d[k] == s[a + k];
      }
    } else {
      assert d[b - a] == '.';
    }
  }

  /** Conversely, a call number that starts with a run of capitals `s[..a]`, then a
      numeral `s[a..c]` that the next characters do not extend, then the line `s[c..e]`,
      matches with exactly those groups. */
  lemma MatchOf(s: string, a: nat, c: nat, e: nat)
    requires 0 < a <= c <= e <= |s|
    requires forall k :: 0 <= k < a ==> IsUpper(s[k])
    requires IsNumeral(s[a..c])
    requires forall k :: c <= k < e ==> s[k] != '\n'
    requires e < |s| ==> s[e] == '\n'
    requires !(c < |s| && IsDigit(s[c]))
    requires !('.' !in s[a..c] && c + 1 < |s| && s[c] == '.' && IsDigit(s[c + 1]))
    ensures MatchCallNumber(s) == Some(Groups(s[..a], s[a..c], s[c..e]))
  {
    assert s[a] == s[a..c][0];
    assert UpperEnd(s, 0) == a;
    NumeralEndAt(s, a, c);
    assert LineEnd(s, c) == e;
  }

  /** A numeral at `s[a..c]` that the next characters do not extend is what the
      pattern's second group takes. */
  lemma NumeralEndAt(s: string, a: nat, c: nat)
    requires a <= c <= |s|
    requires IsNumeral(s[a..c])
    requires !(c < |s| && IsDigit(s[c]))
    requires !('.' !in s[a..c] && c + 1 < |s| && s[c] == '.' && IsDigit(s[c + 1]))
    ensures FractionEnd(s, DigitEnd(s, a)) == c
  {
    var b := NumeralParts(s, a, c);
    assert DigitEnd(s, a) == b;
    if b < c {
      assert DigitEnd(s, b + 1) == c;
    }
  }

  // ---------------------------------------------------------------------------
  // The value of a numeral

  function DigitValue(c: char): nat
    requires IsDigit(c)
  {
    c as int - '0' as int
  }

  /** The value of a string of decimal digits, 0 for the empty string. */
  function DigitsValue(ds: string): nat
    requires AllDigits(ds)
  {
    if ds == [] then 0 else 10 * DigitsValue(ds[..|ds| - 1]) + DigitValue(ds[|ds| - 1])
  }

  function Pow10(n: nat): (r: nat)
    ensures r >= 1
  {
    if n == 0 then 1 else 10 * Pow10(n - 1)
  }

  /** `float(d or 0)`, exactly: the whole part plus the fraction. */
  function NumeralValue(d: string): real
    requires d == [] || IsNumeral(d)
  {
    var k := DigitEnd(d, 0);
    var whole := DigitsValue(d[..k]) as real;
    if k == |d| then whole
    else whole + DigitsValue(d[k + 1..]) as real / Pow10(|d| - k - 1) as real
  }

  lemma {:induction false} DigitsBound(ds: string)
    requires AllDigits(ds)
    ensures DigitsValue(ds) < Pow10(|ds|)
  {
    if ds != [] {
      DigitsBound(ds[..|ds| - 1]);
    }
  }

  lemma FractionBelowOne(x: nat, y: nat)
    requires x < y
    ensures 0.0 <= x as real / y as real < 1.0
  {
  }

  /** The value of a numeral lies between its whole part and the next integer. */
  lemma NumeralValueBounds(d: string)
    requires IsNumeral(d)
    ensures var whole := DigitsValue(d[..DigitEnd(d, 0)]) as real;
            whole <= NumeralValue(d) < whole + 1.0
  {
    var k := DigitEnd(d, 0);
    if k < |d| {
      var f := d[k + 1..];
      DigitsBound(f);
      FractionBelowOne(DigitsValue(f), Pow10(|f|));
    }
  }

  // ---------------------------------------------------------------------------
  // The ordering

  /** `Book.__lt__`: by class, then by the value of the initial number when the numerals
      differ as strings, then by cutter. */
  predicate Less(a: Book, b: Book)
  {
    var p, q := ParseCallNumber(a.callnum), ParseCallNumber(b.callnum);
    if p.cls != q.cls then LexLess(p.cls, q.cls)
    else if p.initial != q.initial then NumeralValue(p.initial) < NumeralValue(q.initial)
    else LexLess(p.cutter, q.cutter)
  }

  /** Which comparison decides. The three implications only unfold `Less` case by case;
      what needs proof is that of two different classes one always precedes. */
  lemma LessCases(a: Book, b: Book)
    ensures var p, q := ParseCallNumber(a.callnum), ParseCallNumber(b.callnum);
            && (p.cls != q.cls ==> (Less(a, b) <==> LexLess(p.cls, q.cls)) && (Less(a, b) || Less(b, a)))
            && (p.cls == q.cls && p.initial != q.initial ==>
                  (Less(a, b) <==> NumeralValue(p.initial) < NumeralValue(q.initial)))
            && (p.cls == q.cls && p.initial == q.initial ==>
                  (Less(a, b) <==> LexLess(p.cutter, q.cutter)))
  {
    var p, q := ParseCallNumber(a.callnum), ParseCallNumber(b.callnum);
    if p.cls != q.cls { LexLessTotal(p.cls, q.cls); }
  }

  /** Numerals equal in value but not in spelling, as `76` and `76.0`, make the two books
      incomparable whatever their cutters. */
  lemma EqualValuesIncomparable(a: Book, b: Book)
    requires var p, q := ParseCallNumber(a.callnum), ParseCallNumber(b.callnum);
             p.cls == q.cls && p.initial != q.initial && NumeralValue(p.initial) == NumeralValue(q.initial)
    ensures !Less(a, b) && !Less(b, a)
  {
  }

  lemma LessIrreflexive(a: Book)
    ensures !Less(a, a)
  {
    LexLessIrreflexive(ParseCallNumber(a.callnum).cutter);
  }

  lemma LessAsymmetric(a: Book, b: Book)
    ensures !(Less(a, b) && Less(b, a))
  {
    var p, q := ParseCallNumber(a.callnum), ParseCallNumber(b.callnum);
    LexLessAsymmetric(p.cls, q.cls);
    LexLessAsymmetric(p.cutter, q.cutter);
  }

  /** `<` itself is transitive. */
  lemma LessTransitive(a: Book, b: Book, c: Book)
    requires Less(a, b) && Less(b, c)
    ensures Less(a, c)
  {
    var p, q, r := ParseCallNumber(a.callnum), ParseCallNumber(b.callnum), ParseCallNumber(c.callnum);
    if p.cls != q.cls && q.cls != r.cls {
      LexLessTransitive(p.cls, q.cls, r.cls);
      if p.cls == r.cls { LexLessAsymmetric(p.cls, q.cls); }
    } else if p.cls == q.cls && q.cls == r.cls && p.initial == q.initial && q.initial == r.initial {
      LexLessTransitive(p.cutter, q.cutter, r.cutter);
    }
  }

  /** Two books are incomparable exactly when their classes are equal, their numerals
      have the same value, and, if the numerals are spelled alike, their cutters are
      equal too. */
  lemma Incomparable(a: Book, b: Book)
    ensures var p, q := ParseCallNumber(a.callnum), ParseCallNumber(b.callnum);
            (!Less(a, b) && !Less(b, a)) <==>
              && p.cls == q.cls && NumeralValue(p.initial) == NumeralValue(q.initial)
              && (p.initial == q.initial ==> p.cutter == q.cutter)
  {
    var p, q := ParseCallNumber(a.callnum), ParseCallNumber(b.callnum);
    if p.cls != q.cls {
      LexLessTotal(p.cls, q.cls);
    } else if p.initial == q.initial {
      if p.cutter != q.cutter { LexLessTotal(p.cutter, q.cutter); }
      else { LexLessIrreflexive(p.cutter); }
    }
  }

  /** The title and the author never affect the order. */
  lemma LessIgnoresTitleAndAuthor(a: Book, b: Book, a': Book, b': Book)
    requires a.callnum == a'.callnum && b.callnum == b'.callnum
    ensures Less(a, b) == Less(a', b')
  {
  }

  /** Incomparability is not transitive: `A76 z` and `A76.0` are incomparable, so are
      `A76.0` and `A76 a`, yet `A76 a` sorts before `A76 z`. So `<` is not a strict weak
      order, and a sort by it may leave `A76 z` before `A76 a`. */
  lemma IncomparabilityNotTransitive()
    ensures var x, y, z := Book("A76 z", "", ""), Book("A76.0", "", ""), Book("A76 a", "", "");
            && !Less(x, y) && !Less(y, x)
            && !Less(y, z) && !Less(z, y)
            && Less(z, x)
  {
    var x, y, z := Book("A76 z", "", ""), Book("A76.0", "", ""), Book("A76 a", "", "");
    ExampleParse(x.callnum);
    ExampleParse(z.callnum);
    ExampleParseFraction();
    ExampleValues();
    assert x.callnum[4..] == "z" && z.callnum[4..] == "a";
    EqualValuesIncomparable(x, y);
    EqualValuesIncomparable(z, y);
    assert LexLess("a", "z");
  }

  lemma ExampleValues()
    ensures NumeralValue("76") == 76.0 && NumeralValue("76.0") == 76.0
  {
    ExampleDigits();
    assert "76"[..2] == "76" && "76.0"[..2] == "76" && "76.0"[3..] == "0";
  }

  /** `A76` followed by a space and a one-letter cutter. */
  lemma ExampleParse(s: string)
    requires |s| == 5 && s[..3] == "A76" && s[3] == ' ' && !IsSpace(s[4])
    ensures ParseCallNumber(s) == CallNumber("A", "76", s[4..])
  {
    ExampleDigits();
    assert s[1..3] == "76";
    MatchOf(s, 1, 3, 5);
    var t := s[3..5];
    assert SpaceEnd(t, 0) == 1 && SpaceBegin(t, 1, 2) == 2;
    assert t[1..2] == s[4..];
  }

  lemma ExampleParseFraction()
    ensures ParseCallNumber("A76.0") == CallNumber("A", "76.0", "")
  {
    var s := "A76.0";
    ExampleDigits();
    assert s[1..5] == "76.0";
    MatchOf(s, 1, 5, 5);
  }

  lemma ExampleDigits()
    ensures IsNumeral("76") && IsNumeral("76.0")
    ensures DigitEnd("76", 0) == 2 && DigitEnd("76.0", 0) == 2
    ensures DigitsValue("76") == 76 && DigitsValue("0") == 0
  {
    assert "76"[..1] == "7" && "7"[..0] == "";
    assert DigitEnd("76.0", 3) == 4;
  }
}
