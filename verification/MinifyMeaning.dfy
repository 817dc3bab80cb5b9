/** Minifying keeps the meaning of a text, turns formatted output into unformatted output, and where it does not. */
module MinifyMeaning {
  import opened Bytes
  import opened JsonTree
  import opened Strings
  import opened Grammar
  import opened Layout
  import opened Reading
  import opened Documents
  import opened Rendering
  import opened Minify
  import opened Minified

  /** Nowhere do two backslashes and a quote stand in a row. */
  predicate NoTriple(s: bytes) {
    forall k | 0 <= k < |s| - 2 :: !(s[k] == BACKSLASH && s[k + 1] == BACKSLASH && s[k + 2] == QUOTE)
  }

  lemma NoTripleExactly(s: bytes)
    ensures NoTriple(s) <==> forall k: nat :: !At(s, k, [92, 92, 34])
  {
    hide At;
    if NoTriple(s) {
      forall k: nat ensures !At(s, k, [92, 92, 34]) { TripleAt(s, k); }
    }
    if forall k: nat :: !At(s, k, [92, 92, 34]) {
      forall k | 0 <= k < |s| - 2 ensures !(s[k] == 92 && s[k + 1] == 92 && s[k + 2] == 34) { TripleAt(s, k); }
    }
  }

  lemma TripleAt(s: bytes, k: nat)
    ensures At(s, k, [92, 92, 34]) <==> k + 2 < |s| && s[k] == 92 && s[k + 1] == 92 && s[k + 2] == 34
  {
    if k + 2 < |s| { assert s[k..k + 3] == [s[k], s[k + 1], s[k + 2]]; }
  }

  /** A raw text that ends in a backslash ends in an escaped one. */
  lemma {:induction false} LastIsEscaped(t: bytes, p: nat)
    requires p < |t| && ClosingQuote(t, p) == Some(|t| - 1) && p + 1 < |t| && t[|t| - 2] == BACKSLASH
    ensures |t| >= 3 && t[|t| - 3] == BACKSLASH
    decreases |t| - p
  {
    if t[p] == BACKSLASH {
      if p + 3 < |t| { LastIsEscaped(t, p + 2); }
    } else {
      LastIsEscaped(t, p + 1);
    }
  }

  lemma RawIsCalm(s: bytes, i: nat, raw: bytes)
    requires NoTriple(s) && IsRaw(raw) && At(s, i, RawText(raw))
    ensures Calm(raw)
  {
    hide IsRaw, RawText, At, NoTriple, Calm;
    if !Calm(raw) { TripleStands(s, i, raw); }
  }

  lemma TripleStands(s: bytes, i: nat, raw: bytes)
    requires IsRaw(raw) && At(s, i, RawText(raw)) && !Calm(raw)
    ensures !NoTriple(s)
  {
    hide Unescape, ClosingQuote;
    var t := raw + [QUOTE];
    LastIsEscaped(t, 0);
    AtIs(s, i, RawText(raw));
    var k := i + |raw| - 1;
    assert RawText(raw)[|raw| - 1] == t[|t| - 3] && RawText(raw)[|raw|] == t[|t| - 2];
    assert s[k] == BACKSLASH && s[k + 1] == BACKSLASH && s[k + 2] == QUOTE;
  }

  lemma {:induction false} DocIsCalm(s: bytes, i: nat, c: Doc)
    requires NoTriple(s) && Wf(c) && At(s, i, Text(c))
    ensures CalmDoc(c)
    decreases c, 1
  {
    hide NoTriple, At, RawText, CellsText, FieldsText, Calm, IsRaw, CellsWf, FieldsWf, CalmCells, CalmFields;
    match c
    case StringDoc(raw) => RawIsCalm(s, i, raw);
    case FullArray(cells) =>
      Bracketed(s, i, LBRACKET, CellsText(cells), RBRACKET);
      CellsAreCalm(s, i + 1, cells);
    case FullObject(fields) =>
      Bracketed(s, i, LBRACE, FieldsText(fields), RBRACE);
      FieldsAreCalm(s, i + 1, fields);
    case _ =>
  }

  lemma {:induction false} CellsAreCalm(s: bytes, j: nat, cells: Cells)
    requires NoTriple(s) && CellsWf(cells) && At(s, j, CellsText(cells))
    ensures CalmCells(cells)
    decreases cells, 0
  {
    hide NoTriple, At, Text, CellsText, Wf, CalmDoc;
    CellsParts(s, j, cells);
    var k := j + |cells.before|;
    AtSplit(s, k, Text(cells.doc), cells.after);
    DocIsCalm(s, k, cells.doc);
    if cells.MoreCells? {
      CellsAreCalm(s, k + |Text(cells.doc) + cells.after| + 1, cells.rest);
    }
  }

  lemma {:induction false} FieldsAreCalm(s: bytes, j: nat, fields: Fields)
    requires NoTriple(s) && FieldsWf(fields) && At(s, j, FieldsText(fields))
    ensures CalmFields(fields)
    decreases fields, 0
  {
    hide NoTriple, At, Text, RawText, FieldsText, Wf, CalmDoc, Calm, IsRaw, KeyText;
    FieldsParts(s, j, fields);
    KeyIsCalm(s, j, fields.key);
    var k := j + |KeyText(fields.key)|;
    AtSplit(s, k, Text(fields.doc), fields.after);
    DocIsCalm(s, k, fields.doc);
    if fields.MoreFields? {
      FieldsAreCalm(s, k + |Text(fields.doc) + fields.after| + 1, fields.rest);
    }
  }

  lemma KeyIsCalm(s: bytes, j: nat, key: Key)
    requires NoTriple(s) && IsKey(key) && At(s, j, KeyText(key))
    ensures Calm(key.raw)
  {
    hide NoTriple, At, RawText, Calm, IsRaw;
    AtSplit(s, j, key.before, RawText(key.raw) + (key.after + ([COLON] + key.gap)));
    AtSplit(s, j + |key.before|, RawText(key.raw), key.after + ([COLON] + key.gap));
    RawIsCalm(s, j + |key.before|, key.raw);
  }

  function StripDocument(d: Document): Document {
    Document(d.marked, StripGap(d.before), Strip(d.body), StripGap(d.after))
  }

  /** The minifier turns a document into its stripped form. */
  lemma FilterDocument(d: Document)
    requires DocumentWf(d) && CalmDoc(d.body)
    ensures Outside(DocumentText(d)) == DocumentText(StripDocument(d)) && DocumentWf(StripDocument(d))
    ensures Value(StripDocument(d).body) == Value(d.body)
  {
    hide Outside, Text, Strip, StripGap, Gap, Wf, Value, CalmDoc;
    var rest := d.before + (Text(d.body) + d.after);
    FilterCopies(Mark(d.marked), rest);
    FilterGap(d.before, Text(d.body) + d.after);
    FilterDoc(d.body, d.after);
    assert d.after + [] == d.after;
    FilterGap(d.after, []);
    assert Outside([]) == [] by { NothingLeft(); }
    assert StripGap(d.after) + [] == StripGap(d.after);
    StripKeepsValue(d.body);
    StripGapIsGap(d.before);
    StripGapIsGap(d.after);
  }

  /**
   * Minifying preserves meaning: a text in which no two backslashes stand in front of a quote parses to the same tree
   * before and after.
   */
  lemma MinifyKeepsMeaning(text: bytes, tree: Json)
    requires NulFree(text) && NoTriple(text) && ParseText(text, true) == Ok(tree, |text|)
    ensures ParseText(Outside(text), true) == Ok(tree, |Outside(text)|)
  {
    hide ParseText, Outside, Text, Strip, Wf, Value, CalmDoc, NoTriple, At, StripDocument, DocumentWf, Gap;
    var d := AcceptedIsDocument(text);
    assert Wf(d.body) && At(text, |Mark(d.marked)| + |d.before|, Text(d.body)) by { BodyStands(d); }
    DocIsCalm(text, |Mark(d.marked)| + |d.before|, d.body);
    FilterDocument(d);
    DocumentIsRead(Outside(text), StripDocument(d));
  }

  lemma BodyStands(d: Document)
    requires DocumentWf(d)
    ensures Wf(d.body) && At(DocumentText(d), |Mark(d.marked)| + |d.before|, Text(d.body))
  {
    hide Text, Wf;
    var head := Mark(d.marked) + d.before;
    assert DocumentText(d) == head + (Text(d.body) + d.after);
    assert DocumentText(d)[|head|..|head| + |Text(d.body)|] == Text(d.body);
  }

  // ----- Formatted and unformatted output -----

  /** No string and no key ends in a backslash. */
  predicate CalmTree(v: Json) {
    match v
    case String(text) => Calm(text)
    case Array(items) => CalmItems(items)
    case Object(members) => CalmMembers(members)
    case _ => true
  }

  predicate CalmItems(items: Items) { items.Item? ==> CalmTree(items.head) && CalmItems(items.tail) }

  predicate CalmMembers(members: Members) {
    members.Member? ==> Calm(members.key) && CalmTree(members.value) && CalmMembers(members.rest)
  }

  lemma {:induction false} EscapeIsCalm(text: bytes)
    requires Calm(text)
    ensures Calm(Escape(text))
  {
    if text != [] {
      EscapeIsCalm(text[1..]);
      if |text| == 1 {
        assert Escape(text) == EscapeByte(text[0]) + [];
      } else {
        EscapeNotEmpty(text[1..]);
      }
    }
  }

  lemma EscapeNotEmpty(text: bytes)
    requires text != []
    ensures Escape(text) != []
  {
  }

  lemma StripTabs(n: nat)
    ensures StripGap([NEWLINE] + Tabs(n)) == [] && StripGap([SPACE]) == [] && StripGap([TAB]) == []
            && StripGap([]) == []
  {
    StripBlanks([NEWLINE] + Tabs(n));
  }

  lemma StripBlanks(gap: bytes)
    requires forall k | 0 <= k < |gap| :: IsBlank(gap[k])
    ensures StripGap(gap) == []
  {
    if gap != [] { StripBlanks(gap[1..]); }
  }

  /** Stripping the formatted layout gives the unformatted one. */
  lemma {:induction false} StripTree(v: Json, depth: nat, flat: nat)
    requires Printable(v) && CalmTree(v)
    ensures Strip(Tree(v, true, depth)) == Tree(v, false, flat) && CalmDoc(Tree(v, true, depth))
    decreases v
  {
    hide StripGap, Tabs, Escape, Calm, CalmItems, CalmMembers, ItemsPrintable, MembersPrintable, TreeCells, TreeFields,
      StripCells, StripFields, CalmCells, CalmFields;
    StripTabs(depth);
    match v
    case String(text) => EscapeIsCalm(text);
    case Array(items) => if items.Item? { StripTreeCells(items, [], depth + 1, flat + 1); }
    case Object(members) => if members.Member? { StripTreeFields(members, depth + 1, flat + 1); }
    case _ =>
  }

  lemma {:induction false} StripTreeCells(items: Items, before: bytes, depth: nat, flat: nat)
    requires items.Item? && ItemsPrintable(items) && CalmItems(items) && StripGap(before) == []
    ensures StripCells(TreeCells(items, before, true, depth)) == TreeCells(items, [], false, flat)
    ensures CalmCells(TreeCells(items, before, true, depth))
    decreases items
  {
    hide StripGap, Tree, CalmDoc, Strip, CalmTree, Printable;
    StripTabs(depth);
    StripTree(items.head, depth, flat);
    if items.tail.Item? { StripTreeCells(items.tail, [SPACE], depth, flat); }
  }

  lemma {:induction false} StripTreeFields(members: Members, depth: nat, flat: nat)
    requires members.Member? && MembersPrintable(members) && CalmMembers(members) && depth > 0 && flat > 0
    ensures StripFields(TreeFields(members, true, depth)) == TreeFields(members, false, flat)
    ensures CalmFields(TreeFields(members, true, depth))
    decreases members
  {
    hide StripGap, Tabs, Escape, Calm, Tree, CalmDoc, Strip, CalmTree, Printable;
    StripTabs(depth);
    StripTabs(depth - 1);
    EscapeIsCalm(members.key);
    StripTree(members.value, depth, flat);
    if members.rest.Member? { StripTreeFields(members.rest, depth, flat); }
  }

  // ----- Where the meaning is lost -----

  /** An array of two strings. */
  function Pair(first: bytes, second: bytes): Doc {
    FullArray(MoreCells([], StringDoc(first), [], LastCell([], StringDoc(second), [])))
  }

  lemma PairIs(first: bytes, second: bytes)
    requires IsRaw(first) && IsRaw(second)
    ensures Wf(Pair(first, second)) && Nesting(Value(Pair(first, second))) == 1
    ensures Value(Pair(first, second)) == Array(Item(String(RawValue(first)), Item(String(RawValue(second)), NoItems)))
    ensures Text(Pair(first, second)) == [LBRACKET] + (RawText(first) + ([COMMA] + RawText(second) + [RBRACKET]))
    ensures CalmDoc(Pair(first, second)) <==> Calm(first) && Calm(second)
  {
    hide IsRaw, RawValue, RawText, Calm;
    var last := LastCell([], StringDoc(second), []);
    var cells := MoreCells([], StringDoc(first), [], last);
    assert CellsWf(last) && CellsWf(cells);
    assert CalmCells(last) <==> Calm(second);
    assert CalmCells(cells) <==> Calm(first) && CalmCells(last);
    assert CellsValue(last) == Item(String(RawValue(second)), NoItems);
    assert CellsValue(cells) == Item(String(RawValue(first)), CellsValue(last));
    assert CellsText(last) == RawText(second);
    assert CellsText(cells) == RawText(first) + ([COMMA] + RawText(second));
    assert ItemsNesting(NoItems) == 0 && ItemsNesting(CellsValue(last)) == 0 && ItemsNesting(CellsValue(cells)) == 0;
    assert Value(Pair(first, second)) == Array(CellsValue(cells));
    assert CellsText(cells) + [RBRACKET] == RawText(first) + ([COMMA] + RawText(second) + [RBRACKET]);
  }

  lemma EscapeOne(b: byte)
    ensures Escape([b]) == EscapeByte(b) && Escape([]) == []
  {
    assert [b][1..] == [];
    assert EscapeByte(b) + [] == EscapeByte(b);
  }

  lemma AloneIsRead(c: Doc)
    requires Wf(c) && Nesting(Value(c)) <= NESTING_LIMIT
    ensures ParseText(Text(c), true) == Ok(Value(c), |Text(c)|)
  {
    hide ParseText, Text;
    var d := Document(false, [], c, []);
    assert DocumentText(d) == Text(c);
    DocumentIsRead(Text(c), d);
  }

  /** The text of the document, minified, still parses to its value. */
  ghost predicate Survives(d: Document)
    requires DocumentWf(d)
  {
    var minified := Outside(DocumentText(d));
    ParseText(minified, true) == Ok(Value(d.body), |minified|)
  }

  /** Apart from strings and keys with the given raw text, none ends in a backslash. */
  predicate CalmBut(c: Doc, raw: bytes) {
    match c
    case StringDoc(r) => Calm(r) || r == raw
    case FullArray(cells) => CellsCalmBut(cells, raw)
    case FullObject(fields) => FieldsCalmBut(fields, raw)
    case _ => true
  }

  predicate CellsCalmBut(cells: Cells, raw: bytes) {
    CalmBut(cells.doc, raw) && (cells.MoreCells? ==> CellsCalmBut(cells.rest, raw))
  }

  predicate FieldsCalmBut(fields: Fields, raw: bytes) {
    && (Calm(fields.key.raw) || fields.key.raw == raw) && CalmBut(fields.doc, raw)
    && (fields.MoreFields? ==> FieldsCalmBut(fields.rest, raw))
  }

  lemma {:induction false} AllCalm(c: Doc, raw: bytes)
    requires CalmBut(c, raw) && Calm(raw)
    ensures CalmDoc(c)
    decreases c
  {
    match c
    case FullArray(cells) => CellsAllCalm(cells, raw);
    case FullObject(fields) => FieldsAllCalm(fields, raw);
    case _ =>
  }

  lemma {:induction false} CellsAllCalm(cells: Cells, raw: bytes)
    requires CellsCalmBut(cells, raw) && Calm(raw)
    ensures CalmCells(cells)
    decreases cells
  {
    AllCalm(cells.doc, raw);
    if cells.MoreCells? { CellsAllCalm(cells.rest, raw); }
  }

  lemma {:induction false} FieldsAllCalm(fields: Fields, raw: bytes)
    requires FieldsCalmBut(fields, raw) && Calm(raw)
    ensures CalmFields(fields)
    decreases fields
  {
    AllCalm(fields.doc, raw);
    if fields.MoreFields? { FieldsAllCalm(fields.rest, raw); }
  }

  /**
   * A string or key is safe to minify wherever it stands, in any document whose other strings are harmless, if and only
   * if its raw text does not end in a backslash, that is, if no two backslashes stand in front of its closing quote.
   */
  lemma MinifySafeExactly(raw: bytes)
    requires IsRaw(raw)
    ensures (forall d: Document | DocumentWf(d) && Nesting(Value(d.body)) <= NESTING_LIMIT && CalmBut(d.body, raw) ::
               Survives(d)) <==> Calm(raw)
  {
    hide IsRaw, Calm, Survives, CalmBut, Nesting, Value, Wf;
    forall d: Document | DocumentWf(d) && Nesting(Value(d.body)) <= NESTING_LIMIT && CalmBut(d.body, raw) && Calm(raw)
      ensures Survives(d)
    {
      AllCalm(d.body, raw);
      CalmSurvives(d);
    }
    if !Calm(raw) {
      SlashIsRaw();
      SlashIsLost(raw);
    }
  }

  lemma CalmSurvives(d: Document)
    requires DocumentWf(d) && Nesting(Value(d.body)) <= NESTING_LIMIT && CalmDoc(d.body)
    ensures Survives(d)
  {
    hide ParseText, Outside, Text, Value, Wf, Strip, StripGap, CalmDoc, Nesting, DocumentWf, DocumentText;
    FilterDocument(d);
    DocumentIsRead(Outside(DocumentText(d)), StripDocument(d));
  }

  /** An array of the string and a slash, and nothing else. */
  function WithSlash(raw: bytes): Document { Document(false, [], Pair(raw, [SLASH]), []) }

  lemma SlashIsRaw()
    ensures IsRaw([SLASH]) && IsRaw([]) && Calm([SLASH])
    ensures RawValue([SLASH]) == [SLASH] && RawValue([]) == []
  {
    hide IsRaw, RawValue;
    assert Escape([SLASH]) == [SLASH] && Escape([]) == [] by { EscapeOne(SLASH); }
    EscapeIsRaw([SLASH]);
    EscapeIsRaw([]);
  }

  /** Behind a raw text that ends in a backslash the minifier drops the slash of the next string. */
  lemma SlashIsLost(raw: bytes)
    requires IsRaw(raw) && !Calm(raw)
    ensures var d := WithSlash(raw);
            DocumentWf(d) && Nesting(Value(d.body)) <= NESTING_LIMIT && CalmBut(d.body, raw) && !Survives(d)
  {
    hide ParseText, Outside, IsRaw, RawValue, Text, Value, Wf, Calm, Pair, CalmBut, Nesting;
    SlashIsRaw();
    PairIs(raw, [SLASH]);
    PairIs(raw, []);
    PairCalmBut(raw);
    SlashFiltered(raw);
    AloneIsRead(Pair(raw, []));
    assert DocumentText(WithSlash(raw)) == Text(Pair(raw, [SLASH]));
  }

  lemma PairCalmBut(raw: bytes)
    requires Calm([SLASH])
    ensures CalmBut(Pair(raw, [SLASH]), raw)
  {
    hide Calm;
    var last := LastCell([], StringDoc([SLASH]), []);
    assert CellsCalmBut(last, raw);
    assert CellsCalmBut(MoreCells([], StringDoc(raw), [], last), raw);
  }

  lemma SlashFiltered(raw: bytes)
    requires IsRaw(raw) && !Calm(raw)
    ensures Outside([LBRACKET] + (RawText(raw) + ([COMMA] + RawText([SLASH]) + [RBRACKET])))
            == [LBRACKET] + (RawText(raw) + ([COMMA] + RawText([]) + [RBRACKET]))
  {
    hide Outside, Inside, ClosingQuote, Calm;
    var rest := [COMMA] + RawText([SLASH]) + [RBRACKET];
    FilterByte(LBRACKET, RawText(raw) + rest);
    FilterString(raw, rest);
    InsideOfRest(rest);
  }

  /** There are such strings: an escaped backslash is one. */
  lemma EscapedBackslashIsUnsafe()
    ensures IsRaw([BACKSLASH, BACKSLASH]) && RawValue([BACKSLASH, BACKSLASH]) == [BACKSLASH]
    ensures DocumentWf(WithSlash([BACKSLASH, BACKSLASH])) && !Survives(WithSlash([BACKSLASH, BACKSLASH]))
  {
    hide IsRaw, RawValue, Survives, WithSlash, DocumentWf;
    assert Escape([BACKSLASH]) == [BACKSLASH, BACKSLASH] by { EscapeOne(BACKSLASH); }
    EscapeIsRaw([BACKSLASH]);
    SlashIsLost([BACKSLASH, BACKSLASH]);
  }

  lemma InsideOfRest(rest: bytes)
    requires rest == [COMMA] + RawText([SLASH]) + [RBRACKET]
    ensures Inside(rest) == [COMMA] + RawText([]) + [RBRACKET]
  {
    hide Outside, Inside;
    var n: nat := |rest|;
    InsideStep(rest, 0, n);
    InsideStep(rest, 1, n);
    OutsideStep(rest, 2, n);
    OutsideStep(rest, 3, n);
    InsideStep(rest, 4, n);
    NothingLeft();
    assert rest[0..n] == rest && rest[n..n] == [];
  }
}
