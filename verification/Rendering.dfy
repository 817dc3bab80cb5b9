/** The text the printer produces, formatted or not, and what the parser makes of it. */
module Rendering {
  import opened Bytes
  import opened JsonTree
  import opened Numbers
  import opened Strings
  import opened Grammar
  import opened Layout
  import opened Documents

  /** The trees of the integer fragment: every number is a C `int`, every string a C string. */
  predicate Printable(v: Json) {
    match v
    case Number(value) => IsInt(value)
    case String(text) => NulFree(text)
    case Array(items) => ItemsPrintable(items)
    case Object(members) => MembersPrintable(members)
    case _ => true
  }

  predicate ItemsPrintable(items: Items) {
    items.Item? ==> Printable(items.head) && ItemsPrintable(items.tail)
  }

  predicate MembersPrintable(members: Members) {
    members.Member? ==> NulFree(members.key) && Printable(members.value) && MembersPrintable(members.rest)
  }

  function Tabs(n: nat): (t: bytes)
    ensures |t| == n && forall k | 0 <= k < n :: t[k] == TAB
  {
    seq(n, _ => TAB)
  }

  /** White space of formatted mode only. */
  function Only(format: bool, t: bytes): bytes { if format then t else [] }

  function Separator(format: bool): bytes { [COMMA] + Only(format, [SPACE]) }

  /** The text of `v` printed inside `depth` containers. */
  function Render(v: Json, format: bool, depth: nat): (t: bytes)
    requires Printable(v)
    ensures t != []
    decreases v
  {
    match v
    case Null => NULL_WORD
    case False => FALSE_WORD
    case True => TRUE_WORD
    case Number(value) => Decimal(Saturate(value))
    case String(text) => Quoted(text)
    case Array(items) => [LBRACKET] + RenderItems(items, format, depth + 1) + [RBRACKET]
    case Object(members) =>
      [LBRACE] + Only(format, [NEWLINE]) + RenderMembers(members, format, depth + 1) + Only(format, Tabs(depth))
        + [RBRACE]
  }

  function RenderItems(items: Items, format: bool, depth: nat): (t: bytes)
    requires ItemsPrintable(items)
    decreases items
  {
    match items
    case NoItems => []
    case Item(head, tail) =>
      Render(head, format, depth) + (if tail.Item? then Separator(format) else []) + RenderItems(tail, format, depth)
  }

  function KeyLine(key: bytes, format: bool, depth: nat): bytes {
    Only(format, Tabs(depth)) + Quoted(key) + [COLON] + Only(format, [TAB])
  }

  function LineEnd(more: bool, format: bool): bytes {
    (if more then [COMMA] else []) + Only(format, [NEWLINE])
  }

  function RenderMembers(members: Members, format: bool, depth: nat): (t: bytes)
    requires MembersPrintable(members)
    decreases members
  {
    match members
    case NoMembers => []
    case Member(key, value, rest) =>
      KeyLine(key, format, depth) + Render(value, format, depth) + LineEnd(rest.Member?, format)
      + RenderMembers(rest, format, depth)
  }

  // ----- The layout behind the text -----

  function Tree(v: Json, format: bool, depth: nat): Doc
    requires Printable(v)
    decreases v
  {
    match v
    case Null => WordDoc(Word(Null, NULL_WORD))
    case False => WordDoc(Word(False, FALSE_WORD))
    case True => WordDoc(Word(True, TRUE_WORD))
    case Number(value) => NumberDoc(Decimal(Saturate(value)))
    case String(text) => StringDoc(Escape(text))
    case Array(items) =>
      if items.Item? then FullArray(TreeCells(items, [], format, depth + 1)) else EmptyArray([])
    case Object(members) =>
      if members.Member? then FullObject(TreeFields(members, format, depth + 1))
      else EmptyObject(Only(format, [NEWLINE] + Tabs(depth)))
  }

  function TreeCells(items: Items, before: bytes, format: bool, depth: nat): Cells
    requires items.Item? && ItemsPrintable(items)
    decreases items
  {
    var doc := Tree(items.head, format, depth);
    if items.tail.Item? then MoreCells(before, doc, [], TreeCells(items.tail, Only(format, [SPACE]), format, depth))
    else LastCell(before, doc, [])
  }

  function TreeKey(key: bytes, format: bool, depth: nat): Key {
    Key(Only(format, [NEWLINE] + Tabs(depth)), Escape(key), [], Only(format, [TAB]))
  }

  function TreeFields(members: Members, format: bool, depth: nat): Fields
    requires members.Member? && MembersPrintable(members) && depth > 0
    decreases members
  {
    var key := TreeKey(members.key, format, depth);
    var doc := Tree(members.value, format, depth);
    if members.rest.Member? then MoreFields(key, doc, [], TreeFields(members.rest, format, depth))
    else LastField(key, doc, Only(format, [NEWLINE] + Tabs(depth - 1)))
  }

  /** The escaped text of a C string is the raw text of a token, and its value is the string. */
  lemma EscapeIsRaw(text: bytes)
    requires NulFree(text)
    ensures IsRaw(Escape(text)) && RawValue(Escape(text)) == text
  {
    hide Escape, ClosingQuote, Unescape;
    var t := Escape(text) + [QUOTE];
    assert t[0..] == t;
    EscapeReadsBackAt(t, 0, text);
  }

  lemma DecimalIsNumeral(n: int)
    requires INT_MIN <= n <= INT_MAX
    ensures IsNumeral(Decimal(n)) && Strtod(Decimal(n)).value == n as real
  {
    hide Strtod, Digits;
    DecimalReadsBack(n);
    DecimalShort(n);
    assert Decimal(n)[0] == MINUS || IsDigit(Decimal(n)[0]);
  }

  lemma {:induction false} TreeIs(v: Json, format: bool, depth: nat)
    requires Printable(v)
    ensures Wf(Tree(v, format, depth)) && Value(Tree(v, format, depth)) == v
    ensures Text(Tree(v, format, depth)) == Render(v, format, depth)
    decreases v
  {
    hide Escape, IsRaw, RawValue, IsNumeral, Decimal, Strtod, RenderItems, RenderMembers, TreeCells, TreeFields,
      CellsText, FieldsText, CellsWf, FieldsWf, CellsValue, FieldsValue, ItemsPrintable, MembersPrintable, Saturate,
      Tabs, Only;
    match v
    case Number(value) => DecimalIsNumeral(Saturate(value));
    case String(text) => EscapeIsRaw(text);
    case Array(items) =>
      if items.Item? { TreeCellsIs(items, [], format, depth + 1); }
      ArrayText(items, format, depth);
    case Object(members) =>
      if members.Member? { TreeFieldsIs(members, format, depth + 1); }
      ObjectText(members, format, depth);
    case _ =>
  }

  lemma ArrayText(items: Items, format: bool, depth: nat)
    requires ItemsPrintable(items)
    requires items.Item? ==>
               CellsText(TreeCells(items, [], format, depth + 1)) == [] + RenderItems(items, format, depth + 1)
    ensures Text(Tree(Array(items), format, depth)) == Render(Array(items), format, depth)
  {
    hide RenderItems, TreeCells, CellsText;
    NoItemsText(format, depth + 1);
  }

  lemma ObjectText(members: Members, format: bool, depth: nat)
    requires MembersPrintable(members)
    requires members.Member? ==>
               FieldsText(TreeFields(members, format, depth + 1))
               == Only(format, [NEWLINE]) + RenderMembers(members, format, depth + 1) + Only(format, Tabs(depth))
    ensures Text(Tree(Object(members), format, depth)) == Render(Object(members), format, depth)
    ensures members.NoMembers? ==> Wf(Tree(Object(members), format, depth))
  {
    hide RenderMembers, TreeFields, FieldsText, Tabs;
    var line, tabs := Only(format, [NEWLINE]), Only(format, Tabs(depth));
    var body := RenderMembers(members, format, depth + 1);
    Braces(line, body, tabs);
    if members.NoMembers? {
      NoMembersText(format, depth + 1);
      assert Only(format, [NEWLINE] + Tabs(depth)) == line + body + tabs;
    }
  }

  lemma Braces(line: bytes, body: bytes, tabs: bytes)
    ensures [LBRACE] + line + body + tabs + [RBRACE] == [LBRACE] + (line + body + tabs + [RBRACE])
  {
  }

  lemma NoItemsText(format: bool, depth: nat)
    ensures RenderItems(NoItems, format, depth) == []
  {
  }

  lemma NoMembersText(format: bool, depth: nat)
    ensures RenderMembers(NoMembers, format, depth) == []
  {
  }

  lemma {:induction false} TreeCellsIs(items: Items, before: bytes, format: bool, depth: nat)
    requires items.Item? && ItemsPrintable(items) && Gap(before)
    ensures var cells := TreeCells(items, before, format, depth);
            && CellsWf(cells) && CellsValue(cells) == items
            && CellsText(cells) == before + RenderItems(items, format, depth)
    decreases items
  {
    hide Render, Text, Tree, Wf, Value;
    var doc := Tree(items.head, format, depth);
    TreeIs(items.head, format, depth);
    if items.tail.Item? {
      var space := Only(format, [SPACE]);
      TreeCellsIs(items.tail, space, format, depth);
      assert [COMMA] + (space + RenderItems(items.tail, format, depth))
          == Separator(format) + RenderItems(items.tail, format, depth);
    } else {
      NoItemsText(format, depth);
    }
  }

  lemma TreeKeyIs(key: bytes, format: bool, depth: nat)
    requires NulFree(key)
    ensures IsKey(TreeKey(key, format, depth)) && RawValue(TreeKey(key, format, depth).raw) == key
    ensures KeyText(TreeKey(key, format, depth)) == Only(format, [NEWLINE]) + KeyLine(key, format, depth)
  {
    hide Escape, IsRaw, RawValue;
    EscapeIsRaw(key);
  }

  lemma {:induction false} TreeFieldsIs(members: Members, format: bool, depth: nat)
    requires members.Member? && MembersPrintable(members) && depth > 0
    ensures var fields := TreeFields(members, format, depth);
            && FieldsWf(fields) && FieldsValue(fields) == members
            && FieldsText(fields)
               == Only(format, [NEWLINE]) + RenderMembers(members, format, depth) + Only(format, Tabs(depth - 1))
    decreases members
  {
    hide Render, Text, Tree, Wf, Value, KeyText, KeyLine, IsKey, RawValue;
    TreeIs(members.value, format, depth);
    TreeKeyIs(members.key, format, depth);
    KeyIsRaw(TreeKey(members.key, format, depth));
    if members.rest.Member? {
      TreeFieldsIs(members.rest, format, depth);
      MoreFieldsText(members, format, depth);
    } else {
      LastFieldText(members, format, depth);
    }
  }

  lemma KeyIsRaw(key: Key)
    requires IsKey(key)
    ensures IsRaw(key.raw)
  {
  }

  lemma LastFieldText(members: Members, format: bool, depth: nat)
    requires members.Member? && members.rest.NoMembers? && MembersPrintable(members) && depth > 0
    requires Text(Tree(members.value, format, depth)) == Render(members.value, format, depth)
    requires KeyText(TreeKey(members.key, format, depth))
          == Only(format, [NEWLINE]) + KeyLine(members.key, format, depth)
    ensures FieldsText(TreeFields(members, format, depth))
            == Only(format, [NEWLINE]) + RenderMembers(members, format, depth) + Only(format, Tabs(depth - 1))
  {
    hide Render, Text, Tree, KeyText, KeyLine;
    NoMembersText(format, depth);
    var key, value := KeyLine(members.key, format, depth), Render(members.value, format, depth);
    assert RenderMembers(members, format, depth) == key + value + Only(format, [NEWLINE]);
  }

  lemma MoreFieldsText(members: Members, format: bool, depth: nat)
    requires members.Member? && members.rest.Member? && MembersPrintable(members) && depth > 0
    requires Text(Tree(members.value, format, depth)) == Render(members.value, format, depth)
    requires KeyText(TreeKey(members.key, format, depth))
          == Only(format, [NEWLINE]) + KeyLine(members.key, format, depth)
    requires FieldsText(TreeFields(members.rest, format, depth))
             == Only(format, [NEWLINE]) + RenderMembers(members.rest, format, depth) + Only(format, Tabs(depth - 1))
    ensures FieldsText(TreeFields(members, format, depth))
            == Only(format, [NEWLINE]) + RenderMembers(members, format, depth) + Only(format, Tabs(depth - 1))
  {
    hide Render, Text, Tree, KeyText, KeyLine, TreeKey, Only, Tabs;
    var line := Only(format, [NEWLINE]);
    var key, value := KeyLine(members.key, format, depth), Render(members.value, format, depth);
    var rest, close := RenderMembers(members.rest, format, depth), Only(format, Tabs(depth - 1));
    assert RenderMembers(members, format, depth) == key + value + ([COMMA] + line) + rest;
    assert FieldsText(TreeFields(members, format, depth))
        == (line + key) + (value + ([] + ([COMMA] + (line + rest + close))));
    MemberRegrouped(line, key, value, rest, close);
  }

  lemma MemberRegrouped(line: bytes, key: bytes, value: bytes, rest: bytes, close: bytes)
    ensures (line + key) + (value + ([] + ([COMMA] + (line + rest + close))))
            == line + (key + value + ([COMMA] + line) + rest) + close
  {
  }

  // ----- Round trip -----

  lemma PunctuationNulFree(format: bool, depth: nat)
    ensures NulFree([LBRACKET]) && NulFree([RBRACKET]) && NulFree([LBRACE]) && NulFree([RBRACE]) && NulFree([COLON])
    ensures NulFree(Separator(format)) && NulFree(Only(format, Tabs(depth))) && NulFree(Only(format, [TAB]))
    ensures NulFree(Only(format, [NEWLINE])) && NulFree(LineEnd(true, format)) && NulFree(LineEnd(false, format))
    ensures NulFree([])
  {
  }

  lemma QuotedNulFree(text: bytes)
    requires NulFree(text)
    ensures NulFree(Quoted(text))
  {
    EscapeNulFree(text);
  }

  lemma DecimalNulFree(n: int)
    ensures NulFree(Decimal(n))
  {
    assert forall k | 0 <= k < |Decimal(n)| :: IsNumberByte(Decimal(n)[k]);
  }

  lemma {:induction false} RenderNulFree(v: Json, format: bool, depth: nat)
    requires Printable(v)
    ensures NulFree(Render(v, format, depth))
    decreases v, 1
  {
    hide RenderItems, RenderMembers, Quoted, Decimal;
    PunctuationNulFree(format, depth);
    match v
    case String(text) => QuotedNulFree(text);
    case Array(items) =>
      ItemsNulFree(items, format, depth + 1);
      Glue([LBRACKET], RenderItems(items, format, depth + 1));
    case Object(members) =>
      MembersNulFree(members, format, depth + 1);
      var body := RenderMembers(members, format, depth + 1);
      Glue([LBRACE] + Only(format, [NEWLINE]), body);
      Glue([LBRACE] + Only(format, [NEWLINE]) + body, Only(format, Tabs(depth)));
    case Number(value) => DecimalNulFree(Saturate(value));
    case _ =>
  }

  lemma {:induction false} ItemsNulFree(items: Items, format: bool, depth: nat)
    requires ItemsPrintable(items)
    ensures NulFree(RenderItems(items, format, depth))
    decreases items, 0
  {
    hide Render, NulFree, Separator;
    PunctuationNulFree(format, depth);
    if items.Item? {
      RenderNulFree(items.head, format, depth);
      ItemsNulFree(items.tail, format, depth);
      var sep := if items.tail.Item? then Separator(format) else [];
      Glue(Render(items.head, format, depth), sep);
      Glue(Render(items.head, format, depth) + sep, RenderItems(items.tail, format, depth));
    }
  }

  lemma {:induction false} MembersNulFree(members: Members, format: bool, depth: nat)
    requires MembersPrintable(members)
    ensures NulFree(RenderMembers(members, format, depth))
    decreases members, 0
  {
    hide Render, NulFree, LineEnd, KeyLine;
    PunctuationNulFree(format, depth);
    if members.Member? {
      KeyLineNulFree(members.key, format, depth);
      RenderNulFree(members.value, format, depth);
      MembersNulFree(members.rest, format, depth);
      var line := KeyLine(members.key, format, depth) + Render(members.value, format, depth);
      var end := LineEnd(members.rest.Member?, format);
      Glue(KeyLine(members.key, format, depth), Render(members.value, format, depth));
      Glue(line, end);
      Glue(line + end, RenderMembers(members.rest, format, depth));
    }
  }

  lemma KeyLineNulFree(key: bytes, format: bool, depth: nat)
    requires NulFree(key)
    ensures NulFree(KeyLine(key, format, depth))
  {
    hide NulFree, Quoted, Tabs;
    PunctuationNulFree(format, depth);
    QuotedNulFree(key);
    var a := Only(format, Tabs(depth)) + Quoted(key);
    Glue(Only(format, Tabs(depth)), Quoted(key));
    Glue(a, [COLON]);
    Glue(a + [COLON], Only(format, [TAB]));
  }

  /**
   * Printing and parsing: what is printed, in either mode, parses back to the same tree when at most 1000 containers
   * are nested, and is refused otherwise.
   */
  lemma PrintThenParse(v: Json, format: bool)
    requires Printable(v)
    ensures var r := ParseText(Render(v, format, 0), true);
            if Nesting(v) <= NESTING_LIMIT then r == Ok(v, |Render(v, format, 0)|) else r.Err?
  {
    hide Text, Render, Tree, Value, Wf;
    var d := Document(false, [], Tree(v, format, 0), []);
    TreeIs(v, format, 0);
    assert DocumentText(d) == Render(v, format, 0);
    DocumentIsRead(Render(v, format, 0), d);
  }
}
