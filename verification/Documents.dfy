/** Whole documents: the exact set of texts the parser accepts when it is told to require the end of the text. */
module Documents {
  import opened Bytes
  import opened JsonTree
  import opened Grammar
  import opened Layout
  import opened Reading
  import opened Accepting

  /** A value between two gaps, behind an optional byte order mark. */
  datatype Document = Document(marked: bool, before: bytes, body: Doc, after: bytes)

  function Mark(marked: bool): bytes { if marked then BOM else [] }

  function DocumentText(d: Document): bytes {
    Mark(d.marked) + (d.before + (Text(d.body) + d.after))
  }

  predicate DocumentWf(d: Document) {
    Gap(d.before) && Wf(d.body) && Gap(d.after)
  }

  /** White space up to the terminator is skipped up to the terminator. */
  lemma SkipToEnd(s: bytes, i: nat, gap: bytes)
    requires Terminated(s) && At(s, i, gap) && Gap(gap) && i + |gap| == |s| - 1
    ensures Skip(s, i) == |s| - 1
  {
    AtIs(s, i, gap);
    SpaceEndIs(s, i, |s|);
  }

  /** The start of a document is found, with or without the mark. */
  lemma FindStart(s: bytes, d: Document)
    requires Terminated(s) && DocumentWf(d) && At(s, 0, DocumentText(d)) && |DocumentText(d)| < |s|
    ensures BomEnd(s) == |Mark(d.marked)|
    ensures At(s, BomEnd(s), d.before) && At(s, BomEnd(s) + |d.before|, Text(d.body) + d.after)
  {
    hide Text, At, Wf, Gap;
    var rest := d.before + (Text(d.body) + d.after);
    var p := |Mark(d.marked)|;
    AtSplit(s, 0, Mark(d.marked), rest);
    AtSplit(s, p, d.before, Text(d.body) + d.after);
    if d.marked {
      assert |s| > 4 by { Lengths(d); MarkIsNoToken(d.body); }
    } else {
      AtIs(s, 0, rest);
      StartsWithoutMark(d);
      NoMark(s);
    }
  }

  lemma StartsWithoutMark(d: Document)
    requires DocumentWf(d)
    ensures var rest := d.before + (Text(d.body) + d.after); rest != [] && rest[0] != BOM[0]
  {
    hide Text, Wf;
    MarkIsNoToken(d.body);
    assert d.before == [] ==> (d.before + (Text(d.body) + d.after))[0] == Text(d.body)[0];
  }

  lemma NoMark(s: bytes)
    requires s != [] && s[0] != BOM[0]
    ensures !At(s, 0, BOM)
  {
    if |s| >= 3 { assert s[0..3][0] == s[0]; }
  }

  lemma MarkIsNoToken(c: Doc)
    requires Wf(c)
    ensures |Text(c)| > 0 && Text(c)[0] != BOM[0]
  {
  }

  /** Layout independence: every document is read to its value, whatever its white space, up to the nesting limit. */
  lemma DocumentIsRead(text: bytes, d: Document)
    requires DocumentWf(d) && text == DocumentText(d)
    ensures var r := ParseText(text, true);
            if Nesting(Value(d.body)) <= NESTING_LIMIT then r == Ok(Value(d.body), |text|) else r.Err?
    ensures var r := ParseText(text, false);
            if Nesting(Value(d.body)) <= NESTING_LIMIT then r == Ok(Value(d.body), |text| - |d.after|) else r.Err?
  {
    hide ParseValue, Text, At, Skip, Value, Wf, BomEnd, DocumentText;
    var s := text + [NUL];
    TextInBuffer(text);
    FindStart(s, d);
    var i := BomEnd(s) + |d.before|;
    var next := i + |Text(d.body)|;
    assert next + |d.after| == |text| by { Lengths(d); }
    BodyIsRead(s, d);
  }

  lemma Lengths(d: Document)
    ensures |DocumentText(d)| == |Mark(d.marked)| + |d.before| + |Text(d.body)| + |d.after|
  {
  }

  lemma BodyIsRead(s: bytes, d: Document)
    requires Terminated(s) && DocumentWf(d)
    requires At(s, BomEnd(s), d.before) && At(s, BomEnd(s) + |d.before|, Text(d.body) + d.after)
    requires BomEnd(s) + |d.before| + |Text(d.body)| + |d.after| == |s| - 1
    ensures Skip(s, BomEnd(s)) == BomEnd(s) + |d.before|
    ensures ReadsDoc(s, BomEnd(s) + |d.before|, d.body, 0)
    ensures Skip(s, BomEnd(s) + |d.before| + |Text(d.body)|) == |s| - 1
  {
    hide ParseValue, Text, At, Skip, Value, Wf, BomEnd;
    var i := BomEnd(s) + |d.before|;
    var next := i + |Text(d.body)|;
    AtSplit(s, i, Text(d.body), d.after);
    SkipToDoc(s, BomEnd(s), d.before, d.body);
    GapEnds(s, next, d.after);
    ReadDoc(s, i, d.body, 0);
    SkipToEnd(s, next, d.after);
  }

  lemma TextInBuffer(text: bytes)
    ensures Terminated(text + [NUL]) && At(text + [NUL], 0, text)
  {
    assert (text + [NUL])[..|text|] == text;
  }

  /** Every accepted C string is a document. */
  lemma AcceptedIsDocument(text: bytes) returns (d: Document)
    requires NulFree(text) && ParseText(text, true).Ok?
    ensures DocumentWf(d) && text == DocumentText(d)
    ensures ParseText(text, true) == Ok(Value(d.body), |text|) && Nesting(Value(d.body)) <= NESTING_LIMIT
  {
    hide ParseValue, Text, At, Skip, BomEnd, DocumentText, Wf, Value;
    var s := text + [NUL];
    TextInBuffer(text);
    var before := SkippedGap(s, BomEnd(s));
    var i := BomEnd(s) + |before|;
    var next := ParseValue(s, i, 0).next;
    EndsBeforeGap(s, next);
    var body := FindDoc(s, i, 0);
    var after := SkippedGap(s, next);
    assert Skip(s, next) == |text| by { assert forall k | 0 <= k < |text| :: s[k] == text[k]; }
    d := Document(BomEnd(s) == 3, before, body, after);
    JoinDocument(s, d, i, next);
    assert s[0..|text|] == text;
  }

  lemma JoinDocument(s: bytes, d: Document, i: nat, next: nat)
    requires d.marked == (BomEnd(s) == 3) && At(s, BomEnd(s), d.before) && i == BomEnd(s) + |d.before|
    requires At(s, i, Text(d.body)) && next == i + |Text(d.body)| && At(s, next, d.after)
    ensures |DocumentText(d)| <= |s| && s[0..|DocumentText(d)|] == DocumentText(d)
    ensures |DocumentText(d)| == next + |d.after|
  {
    hide Text, At, BomEnd;
    assert At(s, 0, Mark(d.marked)) && BomEnd(s) == |Mark(d.marked)| by { MarkStands(s); }
    AtJoin(s, i, Text(d.body), d.after);
    AtJoin(s, BomEnd(s), d.before, Text(d.body) + d.after);
    AtJoin(s, 0, Mark(d.marked), d.before + (Text(d.body) + d.after));
    AtIs(s, 0, DocumentText(d));
  }

  lemma MarkStands(s: bytes)
    ensures At(s, 0, Mark(BomEnd(s) == 3)) && BomEnd(s) == |Mark(BomEnd(s) == 3)|
  {
    if BomEnd(s) == 0 { assert s[0..0] == []; }
  }

  /**
   * The accepted language: a C string parses to a tree with nothing but white space behind it if and only if it is
   * the text of a well-formed document with that value and at most 1000 nested containers.
   */
  lemma AcceptedExactly(text: bytes, tree: Json)
    requires NulFree(text)
    ensures ParseText(text, true) == Ok(tree, |text|)
            <==> Nesting(tree) <= NESTING_LIMIT
                 && exists d: Document :: DocumentWf(d) && DocumentText(d) == text && Value(d.body) == tree
  {
    if ParseText(text, true) == Ok(tree, |text|) {
      var d := AcceptedIsDocument(text);
    }
    if d: Document :| DocumentWf(d) && DocumentText(d) == text && Value(d.body) == tree {
      DocumentIsRead(text, d);
    }
  }
}
