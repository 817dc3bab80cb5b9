/** Completeness: the parser reads every layout, whatever the white space, unless it is nested too deeply. */
module Reading {
  import opened Bytes
  import opened JsonTree
  import opened Strings
  import opened Grammar
  import opened Layout

  lemma WordStarts(s: bytes, i: nat)
    ensures WordAt(s, i).Some? ==> i < |s| && s[i] in {NULL_WORD[0], FALSE_WORD[0], TRUE_WORD[0]}
  {
    if w: Word :| WordAt(s, i) == Some(w) {
      assert s[i..i + |w.text|][0] == s[i];
    }
  }

  lemma ReadWord(s: bytes, i: nat, word: Word)
    requires IsWord(word) && At(s, i, word.text)
    ensures WordAt(s, i) == Some(word)
  {
    assert s[i] == s[i..i + |word.text|][0];
    if At(s, i, NULL_WORD) { assert s[i] == s[i..i + 4][0]; }
    if At(s, i, FALSE_WORD) { assert s[i] == s[i..i + 5][0]; }
  }

  lemma TextStarts(s: bytes, i: nat, c: Doc)
    requires Wf(c) && At(s, i, Text(c))
    ensures i < |s| && s[i] == Text(c)[0] && !IsSpace(s[i])
  {
    FirstByte(c);
    assert s[i] == s[i..i + |Text(c)|][0];
  }

  /** A gap in front of a token is skipped. */
  lemma SkipToDoc(s: bytes, i: nat, gap: bytes, c: Doc)
    requires Terminated(s) && Gap(gap) && Wf(c) && At(s, i, gap) && At(s, i + |gap|, Text(c))
    ensures i < |s| && Skip(s, i) == i + |gap|
  {
    TextStarts(s, i + |gap|, c);
    SkipGap(s, i, gap);
  }

  /** A gap, or the punctuation behind it, ends a number token. */
  lemma GapEnds(s: bytes, i: nat, gap: bytes)
    requires At(s, i, gap) && Gap(gap) && i + |gap| < |s|
    requires s[i + |gap|] in {COMMA, RBRACKET, RBRACE, NUL}
    ensures Ends(s[i])
  {
    if gap != [] { assert s[i] == s[i..i + |gap|][0]; }
  }

  ghost predicate Fits(nesting: nat, depth: nat) { nesting + depth <= NESTING_LIMIT }

  /** The document at `i` is read to its end, or refused because it is nested too deeply. */
  ghost predicate ReadsDoc(s: bytes, i: nat, c: Doc, depth: nat)
    requires Terminated(s) && i < |s| && Wf(c)
  {
    var r := ParseValue(s, i, depth);
    if Fits(Nesting(Value(c)), depth) then r == Ok(Value(c), i + |Text(c)|) else r.Err?
  }

  ghost predicate ReadsCells(s: bytes, j: nat, cells: Cells, depth: nat)
    requires Terminated(s) && j < |s| && CellsWf(cells)
  {
    var r := ParseItems(s, j, depth);
    if Fits(ItemsNesting(CellsValue(cells)), depth) then r == Ok(CellsValue(cells), j + |CellsText(cells)|) else r.Err?
  }

  ghost predicate ReadsFields(s: bytes, j: nat, fields: Fields, depth: nat)
    requires Terminated(s) && j < |s| && FieldsWf(fields)
  {
    var r := ParseMembers(s, j, depth);
    if Fits(MembersNesting(FieldsValue(fields)), depth) then r == Ok(FieldsValue(fields), j + |FieldsText(fields)|)
    else r.Err?
  }

  lemma {:induction false} ReadDoc(s: bytes, i: nat, c: Doc, depth: nat)
    requires Terminated(s) && Wf(c) && At(s, i, Text(c)) && depth <= NESTING_LIMIT
    requires c.NumberDoc? ==> i + |Text(c)| < |s| && Ends(s[i + |Text(c)|])
    ensures i < |s| && ReadsDoc(s, i, c, depth)
    decreases c, 0
  {
    hide ParseArray, ParseObject, ParseString, ParseNumber, CellsText, FieldsText, WordAt, At, Skip, IsRaw, RawValue;
    TextStarts(s, i, c);
    FirstByte(c);
    WordStarts(s, i);
    match c
    case WordDoc(word) => ReadWord(s, i, word);
    case NumberDoc(digits) => ReadNumber(s, i, digits);
    case StringDoc(raw) => ReadString(s, i, raw);
    case EmptyArray(gap) => ReadEmptyArray(s, i, gap, depth);
    case EmptyObject(gap) => ReadEmptyObject(s, i, gap, depth);
    case FullArray(cells) => ReadArray(s, i, cells, depth);
    case FullObject(fields) => ReadObject(s, i, fields, depth);
  }

  lemma ReadEmptyArray(s: bytes, i: nat, gap: bytes, depth: nat)
    requires Terminated(s) && Gap(gap) && At(s, i, [LBRACKET] + (gap + [RBRACKET]))
    ensures i < |s| && s[i] == LBRACKET
    ensures ParseArray(s, i, depth) == if depth < NESTING_LIMIT then Ok(Array(NoItems), i + |gap| + 2) else Err(i)
  {
    hide ParseItems, Skip, At;
    ReadEmpty(s, i, LBRACKET, gap, RBRACKET);
  }

  lemma ReadEmptyObject(s: bytes, i: nat, gap: bytes, depth: nat)
    requires Terminated(s) && Gap(gap) && At(s, i, [LBRACE] + (gap + [RBRACE]))
    ensures i < |s| && s[i] == LBRACE
    ensures ParseObject(s, i, depth) == if depth < NESTING_LIMIT then Ok(Object(NoMembers), i + |gap| + 2) else Err(i)
  {
    hide ParseMembers, Skip, At;
    ReadEmpty(s, i, LBRACE, gap, RBRACE);
  }

  /** The three parts of a bracketed text. */
  lemma Bracketed(s: bytes, i: nat, open: byte, body: bytes, close: byte)
    requires At(s, i, [open] + (body + [close]))
    ensures i + 1 + |body| < |s| && s[i] == open && At(s, i + 1, body) && s[i + 1 + |body|] == close
  {
    AtSplit(s, i, [open], body + [close]);
    AtSplit(s, i + 1, body, [close]);
    AtByte(s, i, open);
    AtByte(s, i + 1 + |body|, close);
  }

  lemma ReadEmpty(s: bytes, i: nat, open: byte, gap: bytes, close: byte)
    requires Terminated(s) && Gap(gap) && At(s, i, [open] + (gap + [close])) && !IsSpace(close)
    ensures i + 1 < |s| && s[i] == open
    ensures Skip(s, i + 1) == i + 1 + |gap| && s[i + 1 + |gap|] == close
  {
    Bracketed(s, i, open, gap, close);
    SkipGap(s, i + 1, gap);
  }

  lemma {:induction false} ReadArray(s: bytes, i: nat, cells: Cells, depth: nat)
    requires Terminated(s) && CellsWf(cells) && At(s, i, [LBRACKET] + (CellsText(cells) + [RBRACKET]))
    requires depth <= NESTING_LIMIT
    ensures i < |s| && s[i] == LBRACKET
    ensures var r := ParseArray(s, i, depth);
            if Fits(1 + ItemsNesting(CellsValue(cells)), depth)
            then r == Ok(Array(CellsValue(cells)), i + |CellsText(cells)| + 2) else r.Err?
    decreases cells, 1
  {
    hide ParseItems, CellsText, CellsValue, CellsWf, ItemsNesting, Skip, At;
    Bracketed(s, i, LBRACKET, CellsText(cells), RBRACKET);
    if depth < NESTING_LIMIT {
      CellsStart(s, i + 1, cells);
      ReadCells(s, i + 1, cells, depth + 1);
      ItemsFromSkip(s, i + 1, depth + 1);
    }
  }

  lemma {:induction false} ReadObject(s: bytes, i: nat, fields: Fields, depth: nat)
    requires Terminated(s) && FieldsWf(fields) && At(s, i, [LBRACE] + (FieldsText(fields) + [RBRACE]))
    requires depth <= NESTING_LIMIT
    ensures i < |s| && s[i] == LBRACE
    ensures var r := ParseObject(s, i, depth);
            if Fits(1 + MembersNesting(FieldsValue(fields)), depth)
            then r == Ok(Object(FieldsValue(fields)), i + |FieldsText(fields)| + 2) else r.Err?
    decreases fields, 1
  {
    hide ParseMembers, FieldsText, FieldsValue, FieldsWf, MembersNesting, Skip, At;
    Bracketed(s, i, LBRACE, FieldsText(fields), RBRACE);
    if depth < NESTING_LIMIT {
      FieldsStart(s, i + 1, fields);
      ReadFields(s, i + 1, fields, depth + 1);
      MembersFromSkip(s, i + 1, depth + 1);
    }
  }

  /** Skipping white space twice is skipping it once. */
  lemma SkipTwice(s: bytes, i: nat)
    requires Terminated(s) && i < |s|
    ensures Skip(s, Skip(s, i)) == Skip(s, i)
  {
    var e := Skip(s, i);
    if e == |s| - 1 && IsSpace(s[e]) {
      SpaceEndIs(s, e, |s|);
    } else {
      SpaceEndIs(s, e, e);
    }
  }

  lemma ItemsFromSkip(s: bytes, i: nat, depth: nat)
    requires Terminated(s) && i < |s|
    ensures ParseItems(s, Skip(s, i), depth) == ParseItems(s, i, depth)
  {
    hide ParseValue, Skip;
    SkipTwice(s, i);
  }

  lemma MembersFromSkip(s: bytes, i: nat, depth: nat)
    requires Terminated(s) && i < |s|
    ensures ParseMembers(s, Skip(s, i), depth) == ParseMembers(s, i, depth)
  {
    hide ParseValue, ParseKey, Skip;
    assert ParseKey(s, Skip(s, i)) == ParseKey(s, i) by { KeyFromSkip(s, i); }
  }

  lemma KeyFromSkip(s: bytes, i: nat)
    requires Terminated(s) && i < |s|
    ensures ParseKey(s, Skip(s, i)) == ParseKey(s, i)
  {
    hide ParseString, Skip;
    SkipTwice(s, i);
  }

  /** A non-empty array is not mistaken for an empty one. */
  lemma CellsStart(s: bytes, i: nat, cells: Cells)
    requires Terminated(s) && CellsWf(cells) && At(s, i, CellsText(cells))
    ensures i < |s| && s[Skip(s, i)] != RBRACKET
  {
    hide CellsText, Text, At, Skip;
    CellsParts(s, i, cells);
    SkipToCell(s, i, cells.before, cells.doc, cells.after);
    AtSplit(s, i + |cells.before|, Text(cells.doc), cells.after);
    TextStarts(s, i + |cells.before|, cells.doc);
    FirstByte(cells.doc);
  }

  lemma FieldsStart(s: bytes, i: nat, fields: Fields)
    requires Terminated(s) && FieldsWf(fields) && At(s, i, FieldsText(fields))
    ensures i < |s| && s[Skip(s, i)] != RBRACE
  {
    hide FieldsText, KeyText, At, Skip;
    FieldsParts(s, i, fields);
    ReadKeyStart(s, i, fields.key);
  }

  lemma ReadKeyStart(s: bytes, i: nat, key: Key)
    requires Terminated(s) && IsKey(key) && At(s, i, KeyText(key))
    ensures i < |s| && Skip(s, i) == i + |key.before| && s[i + |key.before|] == QUOTE
  {
    AtSplit(s, i, key.before, RawText(key.raw) + (key.after + ([COLON] + key.gap)));
    AtSplit(s, i + |key.before|, RawText(key.raw), key.after + ([COLON] + key.gap));
    TextStarts(s, i + |key.before|, StringDoc(key.raw));
    SkipGap(s, i, key.before);
  }

  /** Where the parts of a key stand. */
  lemma KeyPlaces(s: bytes, i: nat, key: Key)
    requires At(s, i, KeyText(key))
    ensures var q := i + |key.before|;
            var m := q + |RawText(key.raw)|;
            var c := m + |key.after|;
            && At(s, q, RawText(key.raw)) && At(s, m, key.after) && c < |s| && s[c] == COLON
            && c + 1 + |key.gap| == i + |KeyText(key)|
  {
    hide At, RawText;
    var q := i + |key.before|;
    var m := q + |RawText(key.raw)|;
    AtSplit(s, i, key.before, RawText(key.raw) + (key.after + ([COLON] + key.gap)));
    AtSplit(s, q, RawText(key.raw), key.after + ([COLON] + key.gap));
    AtSplit(s, m, key.after, [COLON] + key.gap);
    AtSplit(s, m + |key.after|, [COLON], key.gap);
    AtByte(s, m + |key.after|, COLON);
  }

  lemma ReadKey(s: bytes, i: nat, key: Key)
    requires Terminated(s) && IsKey(key) && At(s, i, KeyText(key)) && i + |KeyText(key)| < |s|
    ensures ParseKey(s, i) == Ok(RawValue(key.raw), i + |KeyText(key)| - |key.gap|)
  {
    hide ParseString, Skip, At, RawText, KeyText, IsRaw, RawValue, Gap;
    var q := i + |key.before|;
    var m := q + |RawText(key.raw)|;
    ReadKeyStart(s, i, key);
    KeyPlaces(s, i, key);
    ReadString(s, q, key.raw);
    SkipGap(s, m, key.after);
  }

  /** One element and the white space behind it. */
  lemma {:induction false} ReadElement(s: bytes, j: nat, doc: Doc, after: bytes, depth: nat)
    requires Terminated(s) && Wf(doc) && Gap(after) && At(s, j, Text(doc) + after) && depth <= NESTING_LIMIT
    requires j + |Text(doc) + after| < |s| && s[j + |Text(doc) + after|] in {COMMA, RBRACKET, RBRACE}
    ensures j < |s| && ReadsDoc(s, j, doc, depth)
    ensures j + |Text(doc)| < |s| && Skip(s, j + |Text(doc)|) == j + |Text(doc) + after|
    decreases doc, 1
  {
    hide ParseValue, Text, At, Skip;
    AtSplit(s, j, Text(doc), after);
    GapEnds(s, j + |Text(doc)|, after);
    SkipGap(s, j + |Text(doc)|, after);
    ReadDoc(s, j, doc, depth);
  }

  /** One turn of the loop over the elements. */
  lemma ItemsStep(s: bytes, j: nat, depth: nat, value: Json, next: nat, m: nat)
    requires Terminated(s) && j < |s| && next < |s|
    requires ParseValue(s, Skip(s, j), depth) == Ok(value, next) && Skip(s, next) == m
    ensures s[m] == COMMA ==> m + 1 < |s|
    ensures s[m] != COMMA ==> ParseItems(s, j, depth) == Ok(Item(value, NoItems), m)
    ensures s[m] == COMMA ==> ParseItems(s, j, depth) == ItemFirst(value, ParseItems(s, m + 1, depth))
  {
    hide ParseValue, Skip;
  }

  /** An element put in front of what follows. */
  function ItemFirst(value: Json, r: Parsed<Items>): Parsed<Items> {
    match r
    case Err(at) => Err(at)
    case Ok(items, end) => Ok(Item(value, items), end)
  }

  /** Where the parts of an element list stand. */
  lemma CellsParts(s: bytes, j: nat, cells: Cells)
    requires At(s, j, CellsText(cells))
    ensures var k := j + |cells.before|;
            var m := k + |Text(cells.doc) + cells.after|;
            && At(s, j, cells.before) && At(s, k, Text(cells.doc) + cells.after)
            && (if cells.MoreCells?
                then m < |s| && s[m] == COMMA && At(s, m + 1, CellsText(cells.rest))
                  && m + 1 + |CellsText(cells.rest)| == j + |CellsText(cells)|
                else m == j + |CellsText(cells)|)
  {
    hide *;
    CellsGrouped(cells);
    var before, body := cells.before, Text(cells.doc) + cells.after;
    var tail := if cells.MoreCells? then [COMMA] + CellsText(cells.rest) else [];
    AtSplit(s, j, before, body + tail);
    AtSplit(s, j + |before|, body, tail);
    if cells.MoreCells? {
      Separated(s, j + |before| + |body|, CellsText(cells.rest));
    }
  }

  lemma CellsGrouped(cells: Cells)
    ensures CellsText(cells)
         == cells.before
            + (Text(cells.doc) + cells.after + if cells.MoreCells? then [COMMA] + CellsText(cells.rest) else [])
    ensures |CellsText(cells)|
         == |cells.before| + |Text(cells.doc) + cells.after|
            + if cells.MoreCells? then 1 + |CellsText(cells.rest)| else 0
  {
    hide Text;
    if cells.MoreCells? { Regroup(Text(cells.doc), cells.after, [COMMA] + CellsText(cells.rest)); }
  }

  lemma Separated(s: bytes, m: nat, rest: bytes)
    requires At(s, m, [COMMA] + rest)
    ensures m < |s| && s[m] == COMMA && At(s, m + 1, rest)
  {
    AtSplit(s, m, [COMMA], rest);
    AtByte(s, m, COMMA);
  }

  lemma {:induction false} ReadCells(s: bytes, j: nat, cells: Cells, depth: nat)
    requires Terminated(s) && CellsWf(cells) && At(s, j, CellsText(cells)) && depth <= NESTING_LIMIT
    requires j + |CellsText(cells)| < |s| && s[j + |CellsText(cells)|] == RBRACKET
    ensures j < |s| && ReadsCells(s, j, cells, depth)
    decreases cells, 0
  {
    hide ParseValue, ParseItems, Text, CellsText, At, Skip, Nesting, Value, Wf;
    var doc, after := cells.doc, cells.after;
    var k := j + |cells.before|;
    var m := k + |Text(doc) + after|;
    CellsParts(s, j, cells);
    SkipToCell(s, j, cells.before, doc, after);
    ReadElement(s, k, doc, after, depth);
    if Fits(Nesting(Value(doc)), depth) {
      ItemsStep(s, j, depth, Value(doc), k + |Text(doc)|, m);
      if cells.MoreCells? {
        ReadCells(s, m + 1, cells.rest, depth);
        assert CellsValue(cells) == Item(Value(doc), CellsValue(cells.rest));
      } else {
        assert CellsValue(cells) == Item(Value(doc), NoItems);
        assert ItemsNesting(NoItems) == 0;
      }
    } else {
      ItemsFail(s, j, depth);
    }
  }

  lemma ItemsFail(s: bytes, j: nat, depth: nat)
    requires Terminated(s) && j < |s| && ParseValue(s, Skip(s, j), depth).Err?
    ensures ParseItems(s, j, depth).Err?
  {
    hide ParseValue, Skip;
  }

  lemma SkipToCell(s: bytes, j: nat, before: bytes, doc: Doc, after: bytes)
    requires Terminated(s) && Gap(before) && Wf(doc) && At(s, j, before) && At(s, j + |before|, Text(doc) + after)
    ensures j < |s| && Skip(s, j) == j + |before|
  {
    AtSplit(s, j + |before|, Text(doc), after);
    SkipToDoc(s, j, before, doc);
  }

  /** One turn of the loop over the members. */
  lemma MembersFail(s: bytes, j: nat, depth: nat, key: bytes, colon: nat)
    requires Terminated(s) && j < |s| && colon < |s| && ParseKey(s, j) == Ok(key, colon)
    requires ParseValue(s, Skip(s, colon), depth).Err?
    ensures ParseMembers(s, j, depth).Err?
  {
    hide ParseValue, ParseKey, Skip;
  }

  /** Where the parts of a member list stand. */
  lemma FieldsParts(s: bytes, j: nat, fields: Fields)
    requires At(s, j, FieldsText(fields))
    ensures var k := j + |KeyText(fields.key)|;
            var m := k + |Text(fields.doc) + fields.after|;
            && At(s, j, KeyText(fields.key)) && At(s, k, Text(fields.doc) + fields.after)
            && (if fields.MoreFields?
                then m < |s| && s[m] == COMMA && At(s, m + 1, FieldsText(fields.rest))
                  && m + 1 + |FieldsText(fields.rest)| == j + |FieldsText(fields)|
                else m == j + |FieldsText(fields)|)
  {
    hide At, Text, KeyText;
    var key, body := KeyText(fields.key), Text(fields.doc) + fields.after;
    var tail := if fields.MoreFields? then [COMMA] + FieldsText(fields.rest) else [];
    assert FieldsText(fields) == key + (body + tail);
    AtSplit(s, j, key, body + tail);
    AtSplit(s, j + |key|, body, tail);
    if fields.MoreFields? {
      Separated(s, j + |key| + |body|, FieldsText(fields.rest));
    }
  }

  lemma {:induction false} ReadFields(s: bytes, j: nat, fields: Fields, depth: nat)
    requires Terminated(s) && FieldsWf(fields) && At(s, j, FieldsText(fields)) && depth <= NESTING_LIMIT
    requires j + |FieldsText(fields)| < |s| && s[j + |FieldsText(fields)|] == RBRACE
    ensures j < |s| && ReadsFields(s, j, fields, depth)
    decreases fields, 0
  {
    hide ParseValue, ParseKey, ParseMembers, Text, KeyText, FieldsText, IsKey, RawValue, At, Skip, Nesting, Value, Wf;
    var key, doc, after := fields.key, fields.doc, fields.after;
    var k := j + |KeyText(key)|;
    var m := k + |Text(doc) + after|;
    FieldsParts(s, j, fields);
    KeyParts(key);
    ReadKey(s, j, key);
    SkipToValue(s, j, key, doc, after);
    ReadElement(s, k, doc, after, depth);
    if Fits(Nesting(Value(doc)), depth) {
      if fields.MoreFields? {
        MembersGoOn(s, j, depth, RawValue(key.raw), k - |key.gap|, Value(doc), k + |Text(doc)|, m);
        ReadFields(s, m + 1, fields.rest, depth);
        assert FieldsValue(fields) == Member(RawValue(key.raw), Value(doc), FieldsValue(fields.rest));
      } else {
        MembersStop(s, j, depth, RawValue(key.raw), k - |key.gap|, Value(doc), k + |Text(doc)|, m);
        assert FieldsValue(fields) == Member(RawValue(key.raw), Value(doc), NoMembers);
        assert MembersNesting(NoMembers) == 0;
      }
    } else {
      MembersFail(s, j, depth, RawValue(key.raw), k - |key.gap|);
    }
  }

  lemma KeyParts(key: Key)
    requires IsKey(key)
    ensures IsRaw(key.raw) && |KeyText(key)| > |key.gap|
  {
  }

  lemma SkipToValue(s: bytes, j: nat, key: Key, doc: Doc, after: bytes)
    requires Terminated(s) && IsKey(key) && Wf(doc)
    requires At(s, j, KeyText(key)) && At(s, j + |KeyText(key)|, Text(doc) + after)
    ensures j + |KeyText(key)| - |key.gap| < |s|
    ensures Skip(s, j + |KeyText(key)| - |key.gap|) == j + |KeyText(key)|
  {
    hide At, Text, RawText, IsRaw, Wf, Skip, Gap;
    var head := key.before + RawText(key.raw) + key.after + [COLON];
    assert KeyText(key) == head + key.gap;
    AtSplit(s, j, head, key.gap);
    SkipToCell(s, j + |head|, key.gap, doc, after);
  }
}
