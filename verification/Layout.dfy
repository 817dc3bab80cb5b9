/**
 * Documents as written: a tree of tokens with the white space between them. A layout has a text and a value, and the
 * parser accepts exactly the texts of the well-formed layouts that are not nested too deeply.
 */
module Layout {
  import opened Bytes
  import opened JsonTree
  import opened Numbers
  import opened Strings
  import opened Grammar

  datatype Doc =
    | WordDoc(word: Word)
    | NumberDoc(digits: bytes)
    | StringDoc(raw: bytes)
    | EmptyArray(gap: bytes)
    | FullArray(cells: Cells)
    | EmptyObject(gap: bytes)
    | FullObject(fields: Fields)

  /** Array elements, each between two gaps, separated by commas. */
  datatype Cells =
    | LastCell(before: bytes, doc: Doc, after: bytes)
    | MoreCells(before: bytes, doc: Doc, after: bytes, rest: Cells)

  /** The key of an object member: its raw text, the gaps around it and the one behind the colon. */
  datatype Key = Key(before: bytes, raw: bytes, after: bytes, gap: bytes)

  datatype Fields =
    | LastField(key: Key, doc: Doc, after: bytes)
    | MoreFields(key: Key, doc: Doc, after: bytes, rest: Fields)

  // ----- Text -----

  function RawText(raw: bytes): bytes { [QUOTE] + raw + [QUOTE] }

  function KeyText(key: Key): bytes {
    key.before + (RawText(key.raw) + (key.after + ([COLON] + key.gap)))
  }

  function Text(c: Doc): (t: bytes)
    decreases c
  {
    match c
    case WordDoc(word) => word.text
    case NumberDoc(digits) => digits
    case StringDoc(raw) => RawText(raw)
    case EmptyArray(gap) => [LBRACKET] + (gap + [RBRACKET])
    case FullArray(cells) => [LBRACKET] + (CellsText(cells) + [RBRACKET])
    case EmptyObject(gap) => [LBRACE] + (gap + [RBRACE])
    case FullObject(fields) => [LBRACE] + (FieldsText(fields) + [RBRACE])
  }

  function CellsText(cells: Cells): bytes
    decreases cells
  {
    match cells
    case LastCell(before, doc, after) => before + (Text(doc) + after)
    case MoreCells(before, doc, after, rest) => before + (Text(doc) + (after + ([COMMA] + CellsText(rest))))
  }

  function FieldsText(fields: Fields): bytes
    decreases fields
  {
    match fields
    case LastField(key, doc, after) => KeyText(key) + (Text(doc) + after)
    case MoreFields(key, doc, after, rest) => KeyText(key) + (Text(doc) + (after + ([COMMA] + FieldsText(rest))))
  }

  // ----- Well-formedness -----

  predicate Gap(t: bytes) { forall k | 0 <= k < |t| :: IsSpace(t[k]) }

  predicate IsWord(word: Word) {
    word in {Word(Null, NULL_WORD), Word(False, FALSE_WORD), Word(True, TRUE_WORD)}
  }

  /** A number token: number bytes that `strtod` uses to the last, not too many for the scratch buffer. */
  predicate IsNumeral(t: bytes) {
    0 < |t| <= NUMBER_BUFFER
    && (t[0] == MINUS || IsDigit(t[0]))
    && (forall k | 0 <= k < |t| :: IsNumberByte(t[k]))
    && Strtod(t).used == |t|
  }

  /** The text between the quotes of a string token: no closing quote inside, and every escape is accepted. */
  predicate IsRaw(raw: bytes) {
    ClosingQuote(raw + [QUOTE], 0) == Some(|raw|) && Unescape(raw + [QUOTE], 0).Plain?
  }

  function RawValue(raw: bytes): bytes
    requires IsRaw(raw)
  {
    CString(Unescape(raw + [QUOTE], 0).text)
  }

  predicate IsKey(key: Key) {
    Gap(key.before) && IsRaw(key.raw) && Gap(key.after) && Gap(key.gap)
  }

  predicate Wf(c: Doc) {
    match c
    case WordDoc(word) => IsWord(word)
    case NumberDoc(digits) => IsNumeral(digits)
    case StringDoc(raw) => IsRaw(raw)
    case EmptyArray(gap) => Gap(gap)
    case FullArray(cells) => CellsWf(cells)
    case EmptyObject(gap) => Gap(gap)
    case FullObject(fields) => FieldsWf(fields)
  }

  predicate CellsWf(cells: Cells) {
    Gap(cells.before) && Wf(cells.doc) && Gap(cells.after) && (cells.MoreCells? ==> CellsWf(cells.rest))
  }

  predicate FieldsWf(fields: Fields) {
    IsKey(fields.key) && Wf(fields.doc) && Gap(fields.after) && (fields.MoreFields? ==> FieldsWf(fields.rest))
  }

  // ----- Value -----

  function Value(c: Doc): Json
    requires Wf(c)
  {
    match c
    case WordDoc(word) => word.value
    case NumberDoc(digits) => Number(Strtod(digits).value)
    case StringDoc(raw) => String(RawValue(raw))
    case EmptyArray(_) => Array(NoItems)
    case FullArray(cells) => Array(CellsValue(cells))
    case EmptyObject(_) => Object(NoMembers)
    case FullObject(fields) => Object(FieldsValue(fields))
  }

  function CellsValue(cells: Cells): Items
    requires CellsWf(cells)
  {
    Item(Value(cells.doc), if cells.MoreCells? then CellsValue(cells.rest) else NoItems)
  }

  function FieldsValue(fields: Fields): Members
    requires FieldsWf(fields)
  {
    Member(RawValue(fields.key.raw), Value(fields.doc),
           if fields.MoreFields? then FieldsValue(fields.rest) else NoMembers)
  }

  // ----- Reading tokens -----

  lemma {:induction false} SpaceEndIs(s: bytes, i: nat, e: nat)
    requires i <= e <= |s| && (forall k | i <= k < e :: IsSpace(s[k]))
    requires e < |s| ==> !IsSpace(s[e])
    ensures SpaceEnd(s, i) == e
    decreases e - i
  {
    if i < e { SpaceEndIs(s, i + 1, e); }
  }

  /** White space in front of a visible byte is skipped up to that byte. */
  lemma SkipGap(s: bytes, i: nat, gap: bytes)
    requires Terminated(s) && At(s, i, gap) && Gap(gap) && i + |gap| < |s| && !IsSpace(s[i + |gap|])
    ensures Skip(s, i) == i + |gap|
  {
    assert forall k | i <= k < i + |gap| :: s[k] == s[i..i + |gap|][k - i];
    SpaceEndIs(s, i, i + |gap|);
  }

  lemma AtByte(s: bytes, i: nat, b: byte)
    ensures At(s, i, [b]) <==> i < |s| && s[i] == b
  {
    if i < |s| { assert s[i..i + 1] == [s[i]]; }
  }

  /** A byte no number token goes on with. */
  predicate Ends(b: byte) { !IsNumberByte(b) }

  lemma {:induction false} RunEndIs(s: bytes, i: nat, room: nat, e: nat)
    requires i <= e < |s| && e <= i + room
    requires forall k | i <= k < e :: IsNumberByte(s[k])
    requires !IsNumberByte(s[e])
    ensures RunEnd(s, i, room) == e
    decreases room
  {
    if i < e { RunEndIs(s, i + 1, room - 1, e); }
  }

  lemma ReadNumber(s: bytes, i: nat, t: bytes)
    requires At(s, i, t) && IsNumeral(t) && i + |t| < |s| && Ends(s[i + |t|])
    ensures ParseNumber(s, i) == Ok(Number(Strtod(t).value), i + |t|)
  {
    assert forall k | i <= k < i + |t| :: s[k] == s[i..i + |t|][k - i];
    RunEndIs(s, i, NUMBER_BUFFER, i + |t|);
  }

  lemma ReadString(s: bytes, i: nat, raw: bytes)
    requires At(s, i, RawText(raw)) && IsRaw(raw)
    ensures ParseString(s, i) == Ok(RawValue(raw), i + |RawText(raw)|)
  {
    hide ClosingQuote, Unescape, At, CString;
    var t := raw + [QUOTE];
    assert RawText(raw) == [QUOTE] + t;
    AtSplit(s, i, [QUOTE], t);
    AtIs(s, i, [QUOTE]);
    AtIs(s, i + 1, t);
    ClosingQuoteLocal(s, i + 1, t, 0);
  }

  /** A token is visible and its first byte tells the kind. */
  lemma FirstByte(c: Doc)
    requires Wf(c)
    ensures |Text(c)| > 0 && !IsSpace(Text(c)[0]) && Text(c)[0] !in {COMMA, COLON, RBRACKET, RBRACE}
    ensures !c.WordDoc? ==> Text(c)[0] !in {NULL_WORD[0], FALSE_WORD[0], TRUE_WORD[0]}
  {
  }
}
