/** Soundness: whatever the parser accepts is the text of a layout with the value returned, nested within the limit. */
module Accepting {
  import opened Bytes
  import opened JsonTree
  import opened Numbers
  import opened Strings
  import opened Grammar
  import opened Layout
  import opened Reading

  /** The document found at `i` explains the outcome of the parse. */
  ghost predicate Explains(s: bytes, i: nat, depth: nat, c: Doc, value: Json, next: nat) {
    Wf(c) && At(s, i, Text(c)) && next == i + |Text(c)| && Value(c) == value && Fits(Nesting(value), depth)
  }

  ghost predicate ExplainsItems(s: bytes, j: nat, depth: nat, cells: Cells, items: Items, m: nat) {
    CellsWf(cells) && At(s, j, CellsText(cells)) && m == j + |CellsText(cells)| && CellsValue(cells) == items
    && Fits(ItemsNesting(items), depth)
  }

  ghost predicate ExplainsMembers(s: bytes, j: nat, depth: nat, fields: Fields, members: Members, m: nat) {
    FieldsWf(fields) && At(s, j, FieldsText(fields)) && m == j + |FieldsText(fields)| && FieldsValue(fields) == members
    && Fits(MembersNesting(members), depth)
  }

  /** What `Skip` passes over is a gap. */
  lemma SkippedGap(s: bytes, i: nat) returns (gap: bytes)
    requires Terminated(s) && i < |s|
    ensures Gap(gap) && At(s, i, gap) && Skip(s, i) == i + |gap|
  {
    gap := s[i..Skip(s, i)];
  }

  /** Behind a value stand white space or punctuation: a number token ends there. */
  lemma EndsBeforeGap(s: bytes, next: nat)
    requires Terminated(s) && next < |s| && s[Skip(s, next)] in {COMMA, RBRACKET, RBRACE, NUL}
    ensures Ends(s[next])
  {
    hide Skip;
    if Skip(s, next) > next { assert IsSpace(s[next]); }
  }

  lemma FoundNumber(s: bytes, i: nat) returns (digits: bytes)
    requires i < |s| && (s[i] == MINUS || IsDigit(s[i])) && ParseNumber(s, i).Ok?
    requires ParseNumber(s, i).next < |s| && Ends(s[ParseNumber(s, i).next])
    ensures IsNumeral(digits) && At(s, i, digits)
    ensures ParseNumber(s, i) == Ok(Number(Strtod(digits).value), i + |digits|)
  {
    hide Strtod;
    digits := s[i..RunEnd(s, i, NUMBER_BUFFER)];
  }

  lemma {:induction false} ClosingQuoteCut(s: bytes, i: nat, end: nat, p: nat)
    requires i + p <= end < |s| && ClosingQuote(s, i + p) == Some(end)
    ensures ClosingQuote(s[i..end + 1], p) == Some(end - i)
    decreases end - p
  {
    var t := s[i..end + 1];
    assert t[p] == s[i + p];
    if s[i + p] == BACKSLASH {
      ClosingQuoteCut(s, i, end, p + 2);
    } else if s[i + p] != QUOTE {
      ClosingQuoteCut(s, i, end, p + 1);
    }
  }

  lemma FoundString(s: bytes, i: nat) returns (raw: bytes)
    requires i < |s| && ParseString(s, i).Ok?
    ensures IsRaw(raw) && At(s, i, RawText(raw))
    ensures ParseString(s, i) == Ok(RawValue(raw), i + |RawText(raw)|)
  {
    hide ClosingQuote, Unescape, CString;
    var end := ClosingQuote(s, i + 1).value;
    raw := s[i + 1..end];
    assert s[i + 1..end + 1] == raw + [QUOTE];
    ClosingQuoteCut(s, i + 1, end, 0);
    assert s[i..i + |RawText(raw)|] == RawText(raw);
  }

  lemma {:induction false} FindDoc(s: bytes, i: nat, depth: nat) returns (c: Doc)
    requires Terminated(s) && i < |s| && depth <= NESTING_LIMIT
    requires ParseValue(s, i, depth).Ok?
    requires s[i] == MINUS || IsDigit(s[i]) ==> Ends(s[ParseValue(s, i, depth).next])
    ensures var r := ParseValue(s, i, depth); Explains(s, i, depth, c, r.value, r.next)
    decreases |s| - i, 1
  {
    hide ParseArray, ParseObject, ParseString, ParseNumber, At;
    var r := ParseValue(s, i, depth);
    if word: Word :| WordAt(s, i) == Some(word) {
      c := WordDoc(word);
    } else if s[i] == QUOTE {
      var raw := FoundString(s, i);
      c := StringDoc(raw);
    } else if s[i] == MINUS || IsDigit(s[i]) {
      var digits := FoundNumber(s, i);
      c := NumberDoc(digits);
    } else if s[i] == LBRACKET {
      c := FindArray(s, i, depth);
    } else {
      c := FindObject(s, i, depth);
    }
  }

  lemma Enclose(s: bytes, i: nat, open: byte, body: bytes, close: byte)
    requires i + 1 + |body| < |s| && s[i] == open && At(s, i + 1, body) && s[i + 1 + |body|] == close
    ensures At(s, i, [open] + (body + [close]))
  {
    hide At;
    AtByte(s, i, open);
    AtByte(s, i + 1 + |body|, close);
    AtJoin(s, i + 1, body, [close]);
    AtJoin(s, i, [open], body + [close]);
  }

  lemma {:induction false} FindArray(s: bytes, i: nat, depth: nat) returns (c: Doc)
    requires Terminated(s) && i < |s| && depth <= NESTING_LIMIT && s[i] == LBRACKET && ParseArray(s, i, depth).Ok?
    ensures var r := ParseArray(s, i, depth); Explains(s, i, depth, c, r.value, r.next)
    decreases |s| - i, 0
  {
    hide ParseItems, At, Skip, CellsText, CellsValue, CellsWf;
    var gap := SkippedGap(s, i + 1);
    if s[Skip(s, i + 1)] == RBRACKET {
      Enclose(s, i, LBRACKET, gap, RBRACKET);
      c := EmptyArray(gap);
    } else {
      ItemsFromSkip(s, i + 1, depth + 1);
      var cells := FindCells(s, i + 1, depth + 1);
      Enclose(s, i, LBRACKET, CellsText(cells), RBRACKET);
      c := FullArray(cells);
    }
  }

  lemma {:induction false} FindObject(s: bytes, i: nat, depth: nat) returns (c: Doc)
    requires Terminated(s) && i < |s| && depth <= NESTING_LIMIT && s[i] == LBRACE && ParseObject(s, i, depth).Ok?
    ensures var r := ParseObject(s, i, depth); Explains(s, i, depth, c, r.value, r.next)
    decreases |s| - i, 0
  {
    hide ParseMembers, At, Skip, FieldsText, FieldsValue, FieldsWf;
    var gap := SkippedGap(s, i + 1);
    if s[Skip(s, i + 1)] == RBRACE {
      Enclose(s, i, LBRACE, gap, RBRACE);
      c := EmptyObject(gap);
    } else {
      MembersFromSkip(s, i + 1, depth + 1);
      var fields := FindFields(s, i + 1, depth + 1);
      Enclose(s, i, LBRACE, FieldsText(fields), RBRACE);
      c := FullObject(fields);
    }
  }

  /** The value at `j` between two gaps, the second of which ends at punctuation. */
  lemma {:induction false} FindElement(s: bytes, j: nat, depth: nat) returns (before: bytes, doc: Doc, after: bytes)
    requires Terminated(s) && j < |s| && depth <= NESTING_LIMIT && ParseValue(s, Skip(s, j), depth).Ok?
    requires s[Skip(s, ParseValue(s, Skip(s, j), depth).next)] in {COMMA, RBRACKET, RBRACE}
    ensures Gap(before) && At(s, j, before) && Skip(s, j) == j + |before|
    ensures var r := ParseValue(s, Skip(s, j), depth);
            && Explains(s, j + |before|, depth, doc, r.value, r.next)
            && Gap(after) && At(s, r.next, after) && Skip(s, r.next) == r.next + |after|
    decreases |s| - j, 2
  {
    hide ParseValue, At, Skip;
    before := SkippedGap(s, j);
    var r := ParseValue(s, Skip(s, j), depth);
    EndsBeforeGap(s, r.next);
    doc := FindDoc(s, Skip(s, j), depth);
    after := SkippedGap(s, r.next);
  }

  /** An element list is made of its parts. */
  lemma JoinCells(s: bytes, j: nat, cells: Cells)
    requires At(s, j, cells.before) && At(s, j + |cells.before|, Text(cells.doc))
    requires At(s, j + |cells.before| + |Text(cells.doc)|, cells.after)
    requires cells.MoreCells? ==>
               var m := j + |cells.before| + |Text(cells.doc)| + |cells.after|;
               m < |s| && s[m] == COMMA && At(s, m + 1, CellsText(cells.rest))
    ensures At(s, j, CellsText(cells))
    ensures |CellsText(cells)| == |cells.before| + |Text(cells.doc)| + |cells.after|
                                  + if cells.MoreCells? then 1 + |CellsText(cells.rest)| else 0
  {
    hide At, Text;
    var k := j + |cells.before|;
    var n := k + |Text(cells.doc)|;
    match cells
    case LastCell(before, doc, after) =>
      AtJoin(s, k, Text(doc), after);
      AtJoin(s, j, before, Text(doc) + after);
    case MoreCells(before, doc, after, rest) =>
      AtByte(s, n + |after|, COMMA);
      AtJoin(s, n + |after|, [COMMA], CellsText(rest));
      AtJoin(s, n, after, [COMMA] + CellsText(rest));
      AtJoin(s, k, Text(doc), after + ([COMMA] + CellsText(rest)));
      AtJoin(s, j, before, Text(doc) + (after + ([COMMA] + CellsText(rest))));
  }

  lemma {:induction false} FindCells(s: bytes, j: nat, depth: nat) returns (cells: Cells)
    requires Terminated(s) && j < |s| && depth <= NESTING_LIMIT && ParseItems(s, j, depth).Ok?
    requires s[ParseItems(s, j, depth).next] == RBRACKET
    ensures var r := ParseItems(s, j, depth); ExplainsItems(s, j, depth, cells, r.value, r.next)
    decreases |s| - j, 3
  {
    hide ParseValue, At, Skip, Text, Value, Wf, Nesting;
    var r := ParseValue(s, Skip(s, j), depth);
    var m := Skip(s, r.next);
    var before, doc, after := FindElement(s, j, depth);
    if s[m] == COMMA {
      var rest := FindCells(s, m + 1, depth);
      cells := MoreCells(before, doc, after, rest);
      JoinCells(s, j, cells);
      assert CellsValue(cells) == Item(r.value, CellsValue(rest));
    } else {
      cells := LastCell(before, doc, after);
      JoinCells(s, j, cells);
      assert CellsValue(cells) == Item(r.value, NoItems);
      assert ItemsNesting(NoItems) == 0;
    }
  }

  lemma FindKey(s: bytes, j: nat) returns (before: bytes, raw: bytes, after: bytes)
    requires Terminated(s) && j < |s| && ParseKey(s, j).Ok?
    ensures Gap(before) && IsRaw(raw) && Gap(after)
    ensures At(s, j, before + (RawText(raw) + (after + [COLON])))
    ensures ParseKey(s, j) == Ok(RawValue(raw), j + |before + (RawText(raw) + (after + [COLON]))|)
  {
    hide ParseString, At, Skip, RawText;
    before := SkippedGap(s, j);
    var q := Skip(s, j);
    raw := FoundString(s, q);
    StringBeforeEnd(s, q + |RawText(raw)|);
    after := SkippedGap(s, q + |RawText(raw)|);
    var m := Skip(s, q + |RawText(raw)|);
    AtByte(s, m, COLON);
    AtJoin(s, q + |RawText(raw)|, after, [COLON]);
    AtJoin(s, q, RawText(raw), after + [COLON]);
    AtJoin(s, j, before, RawText(raw) + (after + [COLON]));
  }

  /** A member list is made of its parts. */
  lemma JoinFields(s: bytes, j: nat, fields: Fields)
    requires At(s, j, KeyText(fields.key)) && At(s, j + |KeyText(fields.key)|, Text(fields.doc))
    requires At(s, j + |KeyText(fields.key)| + |Text(fields.doc)|, fields.after)
    requires fields.MoreFields? ==>
               var m := j + |KeyText(fields.key)| + |Text(fields.doc)| + |fields.after|;
               m < |s| && s[m] == COMMA && At(s, m + 1, FieldsText(fields.rest))
    ensures At(s, j, FieldsText(fields))
    ensures |FieldsText(fields)| == |KeyText(fields.key)| + |Text(fields.doc)| + |fields.after|
                                    + if fields.MoreFields? then 1 + |FieldsText(fields.rest)| else 0
  {
    hide At, Text, KeyText;
    var k := j + |KeyText(fields.key)|;
    var n := k + |Text(fields.doc)|;
    match fields
    case LastField(key, doc, after) =>
      AtJoin(s, k, Text(doc), after);
      AtJoin(s, j, KeyText(key), Text(doc) + after);
    case MoreFields(key, doc, after, rest) =>
      AtByte(s, n + |after|, COMMA);
      AtJoin(s, n + |after|, [COMMA], FieldsText(rest));
      AtJoin(s, n, after, [COMMA] + FieldsText(rest));
      AtJoin(s, k, Text(doc), after + ([COMMA] + FieldsText(rest)));
      AtJoin(s, j, KeyText(key), Text(doc) + (after + ([COMMA] + FieldsText(rest))));
  }

  lemma {:induction false} FindFields(s: bytes, j: nat, depth: nat) returns (fields: Fields)
    requires Terminated(s) && j < |s| && depth <= NESTING_LIMIT && ParseMembers(s, j, depth).Ok?
    requires s[ParseMembers(s, j, depth).next] == RBRACE
    ensures var r := ParseMembers(s, j, depth); ExplainsMembers(s, j, depth, fields, r.value, r.next)
    decreases |s| - j, 3
  {
    hide ParseValue, ParseKey, At, Skip, Text, KeyText, Value, Wf, Nesting, RawText, RawValue, IsRaw;
    var colon := ParseKey(s, j).next;
    var r := ParseValue(s, Skip(s, colon), depth);
    var m := Skip(s, r.next);
    var keyBefore, raw, keyAfter := FindKey(s, j);
    var gap, doc, after := FindElement(s, colon, depth);
    var key := Key(keyBefore, raw, keyAfter, gap);
    JoinKey(s, j, key);
    if s[m] == COMMA {
      var rest := FindFields(s, m + 1, depth);
      fields := MoreFields(key, doc, after, rest);
      JoinFields(s, j, fields);
      assert FieldsValue(fields) == Member(RawValue(raw), r.value, FieldsValue(rest));
    } else {
      fields := LastField(key, doc, after);
      JoinFields(s, j, fields);
      assert FieldsValue(fields) == Member(RawValue(raw), r.value, NoMembers);
      assert MembersNesting(NoMembers) == 0;
    }
  }

  lemma JoinKey(s: bytes, j: nat, key: Key)
    requires At(s, j, key.before + (RawText(key.raw) + (key.after + [COLON])))
    requires At(s, j + |key.before + (RawText(key.raw) + (key.after + [COLON]))|, key.gap)
    ensures At(s, j, KeyText(key))
    ensures |KeyText(key)| == |key.before + (RawText(key.raw) + (key.after + [COLON]))| + |key.gap|
  {
    hide At, RawText;
    var head := key.before + (RawText(key.raw) + (key.after + [COLON]));
    AtJoin(s, j, head, key.gap);
    assert KeyText(key) == head + key.gap;
  }
}
