/** Texts parsed without looking at what follows the value: which prefix is read, and when one is. */
module Prefixes {
  import opened Bytes
  import opened JsonTree
  import opened Numbers
  import opened Grammar
  import opened Layout
  import opened Reading
  import opened Accepting
  import opened Documents
  import Numerals
  import Strings

  /** No longer numeral stands at `i`. */
  ghost predicate LongestNumeral(s: bytes, i: nat, digits: bytes) {
    IsNumeral(digits) && At(s, i, digits) && forall t :: IsNumeral(t) && At(s, i, t) ==> |t| <= |digits|
  }

  // ----- What strtod makes of a prefix -----

  lemma DigitsEndCut(t: bytes, k: nat, i: nat)
    requires i <= k <= |t|
    ensures DigitsEnd(t[..k], i) == if DigitsEnd(t, i) <= k then DigitsEnd(t, i) else k
  {
    hide DigitsEnd, IsDigit;
    var e := if DigitsEnd(t, i) <= k then DigitsEnd(t, i) else k;
    Numerals.DigitsEndIs(t[..k], i, e);
  }

  lemma ScaleCut(t: bytes, k: nat, p: nat, mantissa: real, other: real)
    requires p <= k <= |t| && Scale(t[..k], p, mantissa).used == k
    ensures Scale(t, p, other).used >= k
  {
    hide DigitsEnd, DigitsValue, Pow10;
    if p < k {
      DigitsEndCut(t, k, AfterSign(t[..k], p + 1));
    }
  }

  /** What the parts of a used prefix say about those of the whole. */
  lemma PrefixParts(t: bytes, k: nat, from: nat, j: nat)
    requires 0 < k <= |t| && Strtod(t[..k]).used == k && from == AfterSign(t[..k], 0) && j == DigitsEnd(t[..k], from)
    ensures AfterSign(t, 0) == from <= j <= k
            && (if j < k then DigitsEnd(t, from) == j else DigitsEnd(t, from) >= k > from)
    ensures j < k && t[j] == DOT ==>
              var p := DigitsEnd(t[..k], j + 1);
              && j < p <= k && (j > from || p > j + 1) && t[..k][j] == t[j]
              && (if p < k then DigitsEnd(t, j + 1) == p else DigitsEnd(t, j + 1) >= k)
    ensures j < k && t[j] != DOT ==> j > from && t[..k][j] == t[j]
  {
    hide DigitsEnd, DigitsValue, Pow10, Scale;
    DigitsEndCut(t, k, from);
    if j < k && t[j] == DOT { DigitsEndCut(t, k, j + 1); }
  }

  /** A numeral in front of more text does not keep `strtod` from using at least the numeral. */
  lemma UsesPrefix(t: bytes, k: nat)
    requires 0 < k <= |t| && Strtod(t[..k]).used == k
    ensures Strtod(t).used >= k
  {
    hide *;
    var u, from := t[..k], AfterSign(t[..k], 0);
    var j := DigitsEnd(u, from);
    PrefixParts(t, k, from, j);
    Numerals.StrtodIs(u, from, j);
    Numerals.StrtodIs(t, from, DigitsEnd(t, from));
    if j < k {
      var p := if t[j] == DOT then DigitsEnd(u, j + 1) else j;
      if p < k {
        forall x, y | Scale(u, p, x).used == k ensures Scale(t, p, y).used >= k {
          ScaleCut(t, k, p, x, y);
        }
      }
    }
  }

  lemma ScaleSame(t: bytes, u: nat, p: nat, mantissa: real)
    requires p <= u <= |t| && Scale(t, p, mantissa).used == u
    ensures Scale(t[..u], p, mantissa) == Scale(t, p, mantissa)
  {
    hide DigitsEnd, DigitsValue, Pow10;
    if p < u {
      var m := AfterSign(t, p + 1);
      DigitsEndCut(t, u, m);
      assert t[..u][m..u] == t[m..u];
    }
  }

  lemma PrefixSlice(t: bytes, u: nat, i: nat, j: nat)
    requires i <= j <= u <= |t|
    ensures t[..u][i..j] == t[i..j]
  {
  }

  /** Where the parts of a text that is used stand, in the text and in the used part. */
  lemma UsedParts(t: bytes, used: nat, from: nat, j: nat)
    requires used == Strtod(t).used > 0 && from == AfterSign(t, 0) && j == DigitsEnd(t, from)
    ensures AfterSign(t[..used], 0) == from <= j <= used && DigitsEnd(t[..used], from) == j
    ensures j < |t| && t[j] == DOT ==>
              var p := DigitsEnd(t, j + 1);
              j < p <= used && DigitsEnd(t[..used], j + 1) == p && (j > from || p > j + 1)
    ensures !(j < |t| && t[j] == DOT) ==> j > from
  {
    hide DigitsEnd, DigitsValue, Pow10, Scale;
    assert j <= used;
    DigitsEndCut(t, used, from);
    if j < |t| && t[j] == DOT { DigitsEndCut(t, used, j + 1); }
  }

  /** The part that is used converts to the same number by itself. */
  lemma UsedPart(t: bytes)
    requires Strtod(t).used > 0
    ensures Strtod(t[..Strtod(t).used]) == Strtod(t)
  {
    hide *;
    var used, from := Strtod(t).used, AfterSign(t, 0);
    var u, j := t[..used], DigitsEnd(t, from);
    UsedParts(t, used, from, j);
    Numerals.StrtodIs(t, from, j);
    Numerals.StrtodIs(u, from, j);
    PrefixSlice(t, used, from, j);
    assert forall x :: Signed(t, 0, x) == Signed(u, 0, x) by { SameSign(t, used); }
    if j < |t| && t[j] == DOT {
      var p := DigitsEnd(t, j + 1);
      PrefixSlice(t, used, j + 1, p);
      var fraction := DigitsValue(t[j + 1..p]) as real / Pow10(p - j - 1);
      ScaleSame(t, used, p, Signed(t, 0, DigitsValue(t[from..j]) as real + fraction));
    } else {
      ScaleSame(t, used, j, Signed(t, 0, DigitsValue(t[from..j]) as real));
    }
  }

  lemma SameSign(t: bytes, u: nat)
    requires 0 < u <= |t|
    ensures forall x :: Signed(t, 0, x) == Signed(t[..u], 0, x)
  {
  }

  // ----- A number at the end of what is read -----

  /** Every numeral at `i` is a prefix of what is handed to `strtod`. */
  lemma InRun(s: bytes, i: nat, t: bytes)
    requires IsNumeral(t) && At(s, i, t)
    ensures var e := RunEnd(s, i, NUMBER_BUFFER); i + |t| <= e && t == s[i..e][..|t|]
  {
    hide Strtod, RunEnd;
    AtIs(s, i, t);
  }

  /** A used prefix of number bytes is a numeral. */
  lemma UsedIsNumeral(s: bytes, i: nat, e: nat, used: nat)
    requires i + used <= e <= |s| && e <= i + NUMBER_BUFFER && (forall k | i <= k < e :: IsNumberByte(s[k]))
    requires used > 0 && (s[i] == MINUS || IsDigit(s[i])) && Strtod(s[i..i + used]).used == used
    ensures IsNumeral(s[i..i + used]) && At(s, i, s[i..i + used])
  {
    hide Strtod, IsNumberByte;
  }

  lemma SliceOfSlice(s: bytes, i: nat, e: nat, n: nat)
    requires i + n <= e <= |s|
    ensures s[i..e][..n] == s[i..i + n]
  {
  }

  lemma LongestRead(s: bytes, i: nat) returns (digits: bytes)
    requires i < |s| && (s[i] == MINUS || IsDigit(s[i])) && ParseNumber(s, i).Ok?
    ensures IsNumeral(digits) && LongestNumeral(s, i, digits) && At(s, i, digits)
    ensures ParseNumber(s, i) == Ok(Number(Strtod(digits).value), i + |digits|)
  {
    hide Strtod, RunEnd, IsNumeral, At, IsNumberByte, IsDigit;
    var e := RunEnd(s, i, NUMBER_BUFFER);
    var run := s[i..e];
    var used := Strtod(run).used;
    UsedPart(run);
    digits := s[i..i + used];
    SliceOfSlice(s, i, e, used);
    UsedIsNumeral(s, i, e, used);
    forall t | IsNumeral(t) && At(s, i, t) ensures |t| <= |digits| {
      InRun(s, i, t);
      assert |t| > 0 && Strtod(t).used == |t| by { NumeralUsed(t); }
      UsesPrefix(run, |t|);
    }
  }

  lemma NumeralUsed(t: bytes)
    requires IsNumeral(t)
    ensures |t| > 0 && Strtod(t).used == |t|
  {
    hide Strtod;
  }

  /** A number is read exactly when a numeral stands there, and then the longest one is. */
  lemma ReadLongest(s: bytes, i: nat, digits: bytes)
    requires LongestNumeral(s, i, digits)
    ensures ParseNumber(s, i) == Ok(Number(Strtod(digits).value), i + |digits|)
  {
    hide Strtod, RunEnd;
    var run := s[i..RunEnd(s, i, NUMBER_BUFFER)];
    InRun(s, i, digits);
    UsesPrefix(run, |digits|);
    AtIs(s, i, digits);
    var same := LongestRead(s, i);
    assert same == digits;
  }

  // ----- The prefix that is read -----

  /** A value behind an optional mark and a gap; a number goes on as long as it can. */
  ghost predicate Opens(text: bytes, d: Document) {
    && DocumentWf(d) && d.after == [] && At(text, 0, DocumentText(d))
    && (d.body.NumberDoc? ==> LongestNumeral(text, |Mark(d.marked)| + |d.before|, d.body.digits))
  }

  /** The terminator is no part of a numeral. */
  lemma NumeralsInText(text: bytes, i: nat, digits: bytes)
    ensures LongestNumeral(text + [NUL], i, digits) <==> LongestNumeral(text, i, digits)
  {
    hide Strtod, LongestNumeral;
    forall t | IsNumeral(t) ensures At(text + [NUL], i, t) <==> At(text, i, t) {
      NumeralInText(text, i, t);
    }
    SameLongest(text, text + [NUL], i, digits);
  }

  lemma SameLongest(a: bytes, b: bytes, i: nat, digits: bytes)
    requires forall t | IsNumeral(t) :: At(b, i, t) <==> At(a, i, t)
    ensures LongestNumeral(b, i, digits) <==> LongestNumeral(a, i, digits)
  {
    hide At, IsNumeral;
  }

  lemma NumeralInText(text: bytes, i: nat, t: bytes)
    requires IsNumeral(t)
    ensures At(text + [NUL], i, t) <==> At(text, i, t)
  {
    hide Strtod;
    var s := text + [NUL];
    if At(s, i, t) {
      AtIs(s, i, t);
      assert IsNumberByte(t[|t| - 1]);
      assert i + |t| - 1 != |text|;
    }
    if i + |t| <= |text| { assert s[i..i + |t|] == text[i..i + |t|]; }
  }

  /** The value at the start of a text is found, to its end. */
  lemma FindRoot(s: bytes, i: nat) returns (c: Doc)
    requires Terminated(s) && i < |s| && ParseValue(s, i, 0).Ok?
    ensures var r := ParseValue(s, i, 0); Explains(s, i, 0, c, r.value, r.next)
    ensures c.NumberDoc? ==> LongestNumeral(s, i, c.digits)
  {
    hide ParseArray, ParseObject, ParseNumber, At, LongestNumeral, Nesting, Strings.ParseString;
    WordStarts(s, i);
    if s[i] == MINUS || IsDigit(s[i]) {
      var digits := LongestRead(s, i);
      c := NumberDoc(digits);
      Leaf(c);
    } else {
      c := FindDoc(s, i, 0);
      if c.NumberDoc? { TextStarts(s, i, c); }
    }
  }

  lemma Leaf(c: Doc)
    requires Wf(c) && c.NumberDoc?
    ensures Value(c) == Number(Strtod(c.digits).value) && Nesting(Value(c)) == 0 && Text(c) == c.digits
  {
  }

  lemma ReadRoot(s: bytes, i: nat, c: Doc)
    requires Terminated(s) && Wf(c) && At(s, i, Text(c))
    requires c.NumberDoc? ==> LongestNumeral(s, i, c.digits)
    ensures i < |s| && ReadsDoc(s, i, c, 0)
  {
    hide ParseArray, ParseObject, ParseNumber, At, LongestNumeral, Nesting, Strings.ParseString;
    TextStarts(s, i, c);
    if c.NumberDoc? {
      WordStarts(s, i);
      Leaf(c);
      ReadLongest(s, i, c.digits);
    } else {
      ReadDoc(s, i, c, 0);
    }
  }

  lemma OpeningFound(text: bytes) returns (d: Document)
    requires NulFree(text) && ParseText(text, false).Ok?
    ensures Opens(text, d) && ParseText(text, false) == Ok(Value(d.body), |DocumentText(d)|)
    ensures Nesting(Value(d.body)) <= NESTING_LIMIT
  {
    hide ParseValue, Text, At, Skip, BomEnd, DocumentText, Wf, Value, LongestNumeral;
    var s := text + [NUL];
    TextInBuffer(text);
    var before := SkippedGap(s, BomEnd(s));
    var i := BomEnd(s) + |before|;
    var next := ParseValue(s, i, 0).next;
    var body := FindRoot(s, i);
    d := Document(BomEnd(s) == 3, before, body, []);
    AtNothing(s, next);
    JoinDocument(s, d, i, next);
    InText(text, DocumentText(d));
    MarkStands(s);
    if body.NumberDoc? { NumeralsInText(text, i, body.digits); }
  }

  lemma AtNothing(s: bytes, i: nat)
    ensures i <= |s| ==> At(s, i, [])
    ensures Gap([])
  {
  }

  lemma InText(text: bytes, t: bytes)
    requires |t| <= |text|
    ensures At(text + [NUL], 0, t) <==> At(text, 0, t)
    ensures At(text + [NUL], 0, t) <==> (text + [NUL])[0..|t|] == t
  {
    assert (text + [NUL])[0..|t|] == text[0..|t|];
  }

  lemma OpeningIsRead(text: bytes, d: Document)
    requires NulFree(text) && Opens(text, d)
    ensures var r := ParseText(text, false);
            if Nesting(Value(d.body)) <= NESTING_LIMIT then r == Ok(Value(d.body), |DocumentText(d)|) else r.Err?
  {
    hide ParseValue, Text, At, Skip, BomEnd, DocumentText, Wf, Value, LongestNumeral;
    var s := text + [NUL];
    TextInBuffer(text);
    assert |DocumentText(d)| <= |text| by { AtIs(text, 0, DocumentText(d)); }
    InText(text, DocumentText(d));
    FindStart(s, d);
    Lengths(d);
    assert Text(d.body) + d.after == Text(d.body);
    var i := BomEnd(s) + |d.before|;
    SkipToDoc(s, BomEnd(s), d.before, d.body);
    if d.body.NumberDoc? { NumeralsInText(text, i, d.body.digits); }
    ReadRoot(s, i, d.body);
  }

  /**
   * Parsing without a required end: a tree and an index are returned if and only if the text up to that index is a
   * value behind an optional mark and white space, a number being the longest numeral that stands there, with at most
   * 1000 nested containers.
   */
  lemma AcceptedPrefix(text: bytes, tree: Json, next: nat)
    requires NulFree(text)
    ensures ParseText(text, false) == Ok(tree, next)
            <==> Nesting(tree) <= NESTING_LIMIT
                 && exists d: Document :: Opens(text, d) && Value(d.body) == tree && |DocumentText(d)| == next
  {
    hide LongestNumeral, At, Gap, Nesting, Value, DocumentText, ParseText, Wf;
    if ParseText(text, false) == Ok(tree, next) {
      var d := OpeningFound(text);
    }
    if d: Document :| Opens(text, d) && Value(d.body) == tree && |DocumentText(d)| == next {
      OpeningIsRead(text, d);
    }
  }
}
