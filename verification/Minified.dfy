/** What minifying does to the meaning of a document. */
module Minified {
  import opened Bytes
  import opened Strings
  import opened Grammar
  import opened Layout
  import opened Minify

  /** The white space the minifier leaves alone: control bytes other than tab, line feed and carriage return. */
  function StripGap(gap: bytes): (r: bytes)
    ensures |r| <= |gap|
  {
    if gap == [] then []
    else if IsBlank(gap[0]) then StripGap(gap[1..])
    else [gap[0]] + StripGap(gap[1..])
  }

  /** The raw text of a string does not end in a backslash, so no backslash stands in front of the closing quote. */
  predicate Calm(raw: bytes) { raw != [] ==> raw[|raw| - 1] != BACKSLASH }

  predicate CalmDoc(c: Doc) {
    match c
    case StringDoc(raw) => Calm(raw)
    case FullArray(cells) => CalmCells(cells)
    case FullObject(fields) => CalmFields(fields)
    case _ => true
  }

  predicate CalmCells(cells: Cells) {
    CalmDoc(cells.doc) && (cells.MoreCells? ==> CalmCells(cells.rest))
  }

  predicate CalmFields(fields: Fields) {
    Calm(fields.key.raw) && CalmDoc(fields.doc) && (fields.MoreFields? ==> CalmFields(fields.rest))
  }

  /** The document without the white space the minifier removes. */
  function Strip(c: Doc): Doc {
    match c
    case EmptyArray(gap) => EmptyArray(StripGap(gap))
    case FullArray(cells) => FullArray(StripCells(cells))
    case EmptyObject(gap) => EmptyObject(StripGap(gap))
    case FullObject(fields) => FullObject(StripFields(fields))
    case _ => c
  }

  function StripCells(cells: Cells): Cells {
    match cells
    case LastCell(before, doc, after) => LastCell(StripGap(before), Strip(doc), StripGap(after))
    case MoreCells(before, doc, after, rest) =>
      MoreCells(StripGap(before), Strip(doc), StripGap(after), StripCells(rest))
  }

  function StripKey(key: Key): Key {
    Key(StripGap(key.before), key.raw, StripGap(key.after), StripGap(key.gap))
  }

  function StripFields(fields: Fields): Fields {
    match fields
    case LastField(key, doc, after) => LastField(StripKey(key), Strip(doc), StripGap(after))
    case MoreFields(key, doc, after, rest) =>
      MoreFields(StripKey(key), Strip(doc), StripGap(after), StripFields(rest))
  }

  lemma StripGapIsGap(gap: bytes)
    requires Gap(gap)
    ensures Gap(StripGap(gap))
  {
    if gap != [] { StripGapIsGap(gap[1..]); }
  }

  /** Stripping keeps a document well-formed and its value as it is. */
  lemma {:induction false} StripKeepsValue(c: Doc)
    requires Wf(c)
    ensures Wf(Strip(c)) && Value(Strip(c)) == Value(c)
  {
    hide StripGap, Gap;
    match c
    case EmptyArray(gap) => StripGapIsGap(gap);
    case FullArray(cells) => StripCellsKeepsValue(cells);
    case EmptyObject(gap) => StripGapIsGap(gap);
    case FullObject(fields) => StripFieldsKeepsValue(fields);
    case _ =>
  }

  lemma {:induction false} StripCellsKeepsValue(cells: Cells)
    requires CellsWf(cells)
    ensures CellsWf(StripCells(cells)) && CellsValue(StripCells(cells)) == CellsValue(cells)
  {
    hide StripGap, Gap;
    StripGapIsGap(cells.before);
    StripGapIsGap(cells.after);
    StripKeepsValue(cells.doc);
    if cells.MoreCells? { StripCellsKeepsValue(cells.rest); }
  }

  lemma {:induction false} StripFieldsKeepsValue(fields: Fields)
    requires FieldsWf(fields)
    ensures FieldsWf(StripFields(fields)) && FieldsValue(StripFields(fields)) == FieldsValue(fields)
  {
    hide StripGap, Gap, IsRaw, RawValue;
    StripGapIsGap(fields.key.before);
    StripGapIsGap(fields.key.after);
    StripGapIsGap(fields.key.gap);
    StripGapIsGap(fields.after);
    StripKeepsValue(fields.doc);
    if fields.MoreFields? { StripFieldsKeepsValue(fields.rest); }
  }

  // ----- The filter over the tokens of a document -----

  lemma {:induction false} FilterGap(gap: bytes, rest: bytes)
    requires Gap(gap)
    ensures Outside(gap + rest) == StripGap(gap) + Outside(rest)
  {
    hide Outside, Inside;
    if gap == [] {
      assert gap + rest == rest;
    } else {
      var s := gap + rest;
      OutsideStep(s, 0, |s|);
      assert s[0..|s|] == s && s[1..|s|] == gap[1..] + rest;
      FilterGap(gap[1..], rest);
      assert IsSpace(gap[0]);
    }
  }

  /** Bytes that are neither white space, quote nor slash are copied. */
  lemma {:induction false} FilterCopies(t: bytes, rest: bytes)
    requires forall k | 0 <= k < |t| :: !IsBlank(t[k]) && t[k] != SLASH && t[k] != QUOTE
    ensures Outside(t + rest) == t + Outside(rest)
  {
    hide Outside, Inside;
    if t == [] {
      assert t + rest == rest;
    } else {
      var s := t + rest;
      OutsideStep(s, 0, |s|);
      assert s[0..|s|] == s && s[1..|s|] == t[1..] + rest;
      FilterCopies(t[1..], rest);
      assert t == [t[0]] + t[1..];
    }
  }

  lemma FilterByte(b: byte, rest: bytes)
    requires !IsBlank(b) && b != SLASH && b != QUOTE
    ensures Outside([b] + rest) == [b] + Outside(rest)
  {
    FilterCopies([b], rest);
  }

  /**
   * What the minifier makes of the rest of a string at `p`, where `p` is a place the parser's first pass stops at, or
   * (`lag`) the second byte of a two-byte escape.
   */
  lemma {:induction false} FilterRaw(s: bytes, p: nat, end: nat, n: nat, lag: bool)
    requires p <= end < n <= |s| && s[end] == QUOTE
    requires if lag then p < end && s[p] != QUOTE && ClosingQuote(s, p + 1) == Some(end)
             else ClosingQuote(s, p) == Some(end)
    ensures Inside(s[p..n]) == s[p..end] + [QUOTE]
              + (if (p < end && s[end - 1] == BACKSLASH) then Inside(s[end + 1..n]) else Outside(s[end + 1..n]))
    decreases end - p
  {
    hide Outside, Inside, ClosingQuote;
    InsideStep(s, p, n);
    if p == end {
      assert s[p..end] == [];
    } else if s[p] == BACKSLASH && s[p + 1] == QUOTE {
      if p + 1 == end {
        assert s[p..end] == [BACKSLASH];
      } else {
        FilterPair(s, p, end, lag);
        FilterRaw(s, p + 2, end, n, false);
        Unit(s, p, end);
        assert s[p..p + 2] == [BACKSLASH, QUOTE];
        Cut(s, p, p + 2, end,
            if p + 2 < end && s[end - 1] == BACKSLASH then Inside(s[end + 1..n]) else Outside(s[end + 1..n]));
      }
    } else {
      FilterOne(s, p, end, lag);
      FilterRaw(s, p + 1, end, n, !lag && s[p] == BACKSLASH);
      assert s[p..p + 1] == [s[p]];
      Cut(s, p, p + 1, end,
          if p + 1 < end && s[end - 1] == BACKSLASH then Inside(s[end + 1..n]) else Outside(s[end + 1..n]));
    }
  }

  lemma Cut(s: bytes, p: nat, q: nat, end: nat, rest: bytes)
    requires p <= q <= end <= |s|
    ensures s[p..q] + (s[q..end] + [QUOTE] + rest) == s[p..end] + [QUOTE] + rest
  {
    assert s[p..q] + s[q..end] == s[p..end];
  }

  lemma FilterPair(s: bytes, p: nat, end: nat, lag: bool)
    requires p + 1 < end < |s| && s[p] == BACKSLASH && s[p + 1] == QUOTE
    requires if lag then ClosingQuote(s, p + 1) == Some(end) else ClosingQuote(s, p) == Some(end)
    ensures p + 2 <= end && ClosingQuote(s, p + 2) == Some(end)
  {
  }

  /** A byte that starts no escaped quote is one step for the minifier. */
  lemma FilterOne(s: bytes, p: nat, end: nat, lag: bool)
    requires p < end < |s| && !(s[p] == BACKSLASH && s[p + 1] == QUOTE)
    requires if lag then s[p] != QUOTE && ClosingQuote(s, p + 1) == Some(end) else ClosingQuote(s, p) == Some(end)
    ensures s[p] != QUOTE
    ensures if !lag && s[p] == BACKSLASH then p + 1 < end && s[p + 1] != QUOTE && ClosingQuote(s, p + 2) == Some(end)
            else ClosingQuote(s, p + 1) == Some(end)
    ensures p + 1 == end ==> s[p] != BACKSLASH
  {
  }

  /** Behind an escaped quote the string ends at once only if that quote is in front of the closing one. */
  lemma Unit(s: bytes, p: nat, end: nat)
    requires p + 2 <= end < |s| && s[p + 1] == QUOTE
    ensures p + 2 == end ==> s[end - 1] != BACKSLASH
  {
  }

  /**
   * The minifier's string rule, exactly: it closes a string at the parser's closing quote if and only if the raw text
   * does not end in a backslash. Otherwise it goes on as if still inside the string.
   */
  lemma FilterString(raw: bytes, rest: bytes)
    requires ClosingQuote(raw + [QUOTE], 0) == Some(|raw|)
    ensures Outside(RawText(raw) + rest) == RawText(raw) + (if Calm(raw) then Outside(rest) else Inside(rest))
  {
    hide Outside, Inside, ClosingQuote;
    var s := RawText(raw) + rest;
    var end := 1 + |raw|;
    OutsideStep(s, 0, |s|);
    assert s[0..|s|] == s && s[end + 1..|s|] == rest;
    assert s[1..end] == raw;
    assert At(s, 1, raw + [QUOTE]) by { assert s[1..end + 1] == raw + [QUOTE]; }
    ClosingQuoteLocal(s, 1, raw + [QUOTE], 0);
    FilterRaw(s, 1, end, |s|, false);
    assert raw != [] ==> s[end - 1] == raw[|raw| - 1];
  }

  lemma {:induction false} FilterDoc(c: Doc, rest: bytes)
    requires Wf(c) && CalmDoc(c)
    ensures Outside(Text(c) + rest) == Text(Strip(c)) + Outside(rest)
    decreases c, 1
  {
    hide Outside, RawText, CellsText, FieldsText, CellsWf, FieldsWf, CalmCells, CalmFields, StripCells, StripFields,
      StripGap, Gap;
    match c
    case WordDoc(word) => FilterCopies(word.text, rest);
    case NumberDoc(digits) => FilterCopies(digits, rest);
    case StringDoc(raw) => FilterString(raw, rest);
    case EmptyArray(gap) => FilterEmpty(LBRACKET, gap, RBRACKET, rest);
    case EmptyObject(gap) => FilterEmpty(LBRACE, gap, RBRACE, rest);
    case FullArray(cells) =>
      Bracket(LBRACKET, CellsText(cells), RBRACKET, rest);
      FilterByte(LBRACKET, CellsText(cells) + ([RBRACKET] + rest));
      FilterCells(cells, [RBRACKET] + rest);
      FilterByte(RBRACKET, rest);
      Bracket(LBRACKET, CellsText(StripCells(cells)), RBRACKET, Outside(rest));
    case FullObject(fields) =>
      Bracket(LBRACE, FieldsText(fields), RBRACE, rest);
      FilterByte(LBRACE, FieldsText(fields) + ([RBRACE] + rest));
      FilterFields(fields, [RBRACE] + rest);
      FilterByte(RBRACE, rest);
      Bracket(LBRACE, FieldsText(StripFields(fields)), RBRACE, Outside(rest));
  }

  lemma Bracket(open: byte, body: bytes, close: byte, rest: bytes)
    ensures [open] + (body + [close]) + rest == [open] + (body + ([close] + rest))
  {
  }

  lemma FilterEmpty(open: byte, gap: bytes, close: byte, rest: bytes)
    requires Gap(gap) && open in {LBRACKET, LBRACE} && close in {RBRACKET, RBRACE}
    ensures Outside([open] + (gap + [close]) + rest) == [open] + (StripGap(gap) + [close]) + Outside(rest)
  {
    hide Outside, StripGap, Gap;
    Bracket(open, gap, close, rest);
    FilterByte(open, gap + ([close] + rest));
    FilterGap(gap, [close] + rest);
    FilterByte(close, rest);
    Bracket(open, StripGap(gap), close, Outside(rest));
  }

  /** A value and the gap behind it. */
  lemma {:induction false} FilterElement(doc: Doc, after: bytes, rest: bytes)
    requires Wf(doc) && CalmDoc(doc) && Gap(after)
    ensures Outside(Text(doc) + (after + rest)) == Text(Strip(doc)) + (StripGap(after) + Outside(rest))
    decreases doc, 2
  {
    hide Outside, Text, StripGap, Gap, Strip;
    FilterDoc(doc, after + rest);
    FilterGap(after, rest);
  }

  lemma {:induction false} FilterCells(cells: Cells, rest: bytes)
    requires CellsWf(cells) && CalmCells(cells)
    ensures Outside(CellsText(cells) + rest) == CellsText(StripCells(cells)) + Outside(rest)
    decreases cells, 0
  {
    hide Outside, Text, Strip, StripGap, Gap, Wf, CalmDoc;
    var before, doc, after := cells.before, cells.doc, cells.after;
    match cells
    case LastCell(_, _, _) =>
      Chain(before, Text(doc), after, [], rest);
      FilterGap(before, Text(doc) + (after + rest));
      FilterElement(doc, after, rest);
      Chain(StripGap(before), Text(Strip(doc)), StripGap(after), [], Outside(rest));
    case MoreCells(_, _, _, more) =>
      var tail := [COMMA] + CellsText(more);
      Chain(before, Text(doc), after, tail, rest);
      FilterGap(before, Text(doc) + (after + (tail + rest)));
      FilterElement(doc, after, tail + rest);
      assert tail + rest == [COMMA] + (CellsText(more) + rest);
      FilterByte(COMMA, CellsText(more) + rest);
      FilterCells(more, rest);
      var stripped := [COMMA] + CellsText(StripCells(more));
      assert stripped + Outside(rest) == [COMMA] + (CellsText(StripCells(more)) + Outside(rest));
      Chain(StripGap(before), Text(Strip(doc)), StripGap(after), stripped, Outside(rest));
  }

  lemma Chain(a: bytes, b: bytes, c: bytes, d: bytes, rest: bytes)
    ensures a + (b + (c + d)) + rest == a + (b + (c + (d + rest)))
    ensures d == [] ==> c + d == c && d + rest == rest
  {
  }

  lemma FilterKey(key: Key, rest: bytes)
    requires IsKey(key) && Calm(key.raw)
    ensures Outside(KeyText(key) + rest) == KeyText(StripKey(key)) + Outside(rest)
  {
    hide Outside, StripGap, Gap, RawText, ClosingQuote, Unescape;
    KeyChain(key, rest);
    FilterGap(key.before, RawText(key.raw) + (key.after + ([COLON] + (key.gap + rest))));
    FilterString(key.raw, key.after + ([COLON] + (key.gap + rest)));
    FilterGap(key.after, [COLON] + (key.gap + rest));
    FilterByte(COLON, key.gap + rest);
    FilterGap(key.gap, rest);
    KeyChain(StripKey(key), Outside(rest));
  }

  lemma KeyChain(key: Key, rest: bytes)
    ensures KeyText(key) + rest == key.before + (RawText(key.raw) + (key.after + ([COLON] + (key.gap + rest))))
  {
    hide RawText;
  }

  lemma {:induction false} FilterFields(fields: Fields, rest: bytes)
    requires FieldsWf(fields) && CalmFields(fields)
    ensures Outside(FieldsText(fields) + rest) == FieldsText(StripFields(fields)) + Outside(rest)
    decreases fields, 0
  {
    hide Outside, Text, Strip, StripGap, StripKey, KeyText, IsKey, Calm, Gap, Wf, CalmDoc;
    var key, doc, after := fields.key, fields.doc, fields.after;
    match fields
    case LastField(_, _, _) =>
      Chain(KeyText(key), Text(doc), after, [], rest);
      FilterKey(key, Text(doc) + (after + rest));
      FilterElement(doc, after, rest);
      Chain(KeyText(StripKey(key)), Text(Strip(doc)), StripGap(after), [], Outside(rest));
    case MoreFields(_, _, _, more) =>
      var tail := [COMMA] + FieldsText(more);
      Chain(KeyText(key), Text(doc), after, tail, rest);
      FilterKey(key, Text(doc) + (after + (tail + rest)));
      FilterElement(doc, after, tail + rest);
      assert tail + rest == [COMMA] + (FieldsText(more) + rest);
      FilterByte(COMMA, FieldsText(more) + rest);
      FilterFields(more, rest);
      var stripped := [COMMA] + FieldsText(StripFields(more));
      assert stripped + Outside(rest) == [COMMA] + (FieldsText(StripFields(more)) + Outside(rest));
      Chain(KeyText(StripKey(key)), Text(Strip(doc)), StripGap(after), stripped, Outside(rest));
  }
}
