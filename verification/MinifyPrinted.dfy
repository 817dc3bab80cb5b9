/** Minifying formatted output: exactly when it gives the unformatted output. */
module MinifyPrinted {
  import opened Bytes
  import opened JsonTree
  import opened Numbers
  import opened Strings
  import opened Layout
  import opened Rendering
  import opened Minify
  import opened Minified
  import opened MinifyMeaning

  /**
   * Only a string at the very end may end in a backslash: behind it nothing but closing brackets of arrays follows,
   * which the minifier copies even when it believes to be inside the string.
   */
  predicate OpenEnded(v: Json) {
    match v
    case String(_) => true
    case Array(items) => ItemsOpenEnded(items)
    case _ => CalmTree(v)
  }

  predicate ItemsOpenEnded(items: Items) {
    items.Item? ==>
      if items.tail.Item? then CalmTree(items.head) && ItemsOpenEnded(items.tail) else OpenEnded(items.head)
  }

  lemma {:induction false} CalmIsOpenEnded(v: Json)
    requires CalmTree(v)
    ensures OpenEnded(v)
  {
    match v
    case Array(items) => CalmItemsOpenEnded(items);
    case _ =>
  }

  lemma {:induction false} CalmItemsOpenEnded(items: Items)
    requires CalmItems(items)
    ensures ItemsOpenEnded(items)
  {
    if items.Item? {
      CalmIsOpenEnded(items.head);
      CalmItemsOpenEnded(items.tail);
    }
  }

  // ----- Prefixes -----

  lemma Peel(a: bytes, b: bytes, c: bytes)
    ensures a + b <= a + c <==> b <= c
  {
    assert (a + b)[|a|..] == b && (a + c)[|a|..] == c;
    if a + b <= a + c {
      assert forall k | 0 <= k < |b| :: b[k] == (a + b)[|a| + k] == (a + c)[|a| + k] == c[k];
    }
  }

  lemma Front(a: bytes, b: bytes, c: bytes)
    requires a + b <= c
    ensures a <= c
  {
    assert forall k | 0 <= k < |a| :: a[k] == (a + b)[k];
  }

  // ----- What the texts are made of -----

  lemma ItemsText(items: Items, format: bool, depth: nat, rest: bytes)
    requires items.Item? && ItemsPrintable(items)
    ensures RenderItems(items, format, depth) + rest
         == Render(items.head, format, depth)
            + ((if items.tail.Item? then Separator(format) else []) + (RenderItems(items.tail, format, depth) + rest))
  {
    hide Render, Separator;
  }

  lemma MembersText(members: Members, format: bool, depth: nat, rest: bytes)
    requires members.Member? && MembersPrintable(members)
    ensures RenderMembers(members, format, depth) + rest
         == Only(format, Tabs(depth))
            + (Quoted(members.key)
               + ([COLON]
                  + (Only(format, [TAB])
                     + (Render(members.value, format, depth)
                        + (LineEnd(members.rest.Member?, format)
                           + (RenderMembers(members.rest, format, depth) + rest))))))
  {
    hide Render, Only, Tabs, Quoted, LineEnd;
    var a, b, c, d := Only(format, Tabs(depth)), Quoted(members.key), [COLON], Only(format, [TAB]);
    var e, f := Render(members.value, format, depth), LineEnd(members.rest.Member?, format);
    var g := RenderMembers(members.rest, format, depth);
    assert RenderMembers(members, format, depth) == a + b + c + d + e + f + g;
    SevenParts(a, b, c, d, e, f, g, rest);
  }

  lemma SevenParts(a: bytes, b: bytes, c: bytes, d: bytes, e: bytes, f: bytes, g: bytes, h: bytes)
    ensures a + b + c + d + e + f + g + h == a + (b + (c + (d + (e + (f + (g + h))))))
  {
  }

  lemma ArrayText(items: Items, format: bool, depth: nat, rest: bytes)
    requires ItemsPrintable(items)
    ensures Render(Array(items), format, depth) + rest
         == [LBRACKET] + (RenderItems(items, format, depth + 1) + ([RBRACKET] + rest))
  {
    hide RenderItems;
  }

  lemma ObjectText(members: Members, format: bool, depth: nat, rest: bytes)
    requires MembersPrintable(members)
    ensures Render(Object(members), format, depth) + rest
         == [LBRACE] + (Only(format, [NEWLINE]) + (RenderMembers(members, format, depth + 1)
                        + (Only(format, Tabs(depth)) + ([RBRACE] + rest))))
  {
    hide RenderMembers, Only, Tabs;
  }

  lemma RenderStarts(v: Json, depth: nat)
    requires Printable(v)
    ensures Render(v, false, depth)[0] != SPACE && Render(v, false, depth)[0] != TAB
  {
    match v
    case Number(value) => DecimalStarts(Saturate(value));
    case _ =>
  }

  lemma DecimalStarts(n: int)
    ensures Decimal(n)[0] > SPACE
  {
  }

  // ----- A string that ends in a backslash -----

  lemma {:induction false} EscapeEnds(text: bytes)
    ensures Calm(Escape(text)) <==> Calm(text)
  {
    if text != [] {
      var rest := text[1..];
      EscapeEnds(rest);
      assert Escape(text) == EscapeByte(text[0]) + Escape(rest);
      if rest == [] {
        assert Escape(rest) == [];
        LastEscaped(text[0]);
      } else {
        assert Escape(rest) != [] by { assert EscapeByte(rest[0]) != []; }
      }
    }
  }

  lemma LastEscaped(b: byte)
    ensures var e := EscapeByte(b); e != [] && (e[|e| - 1] == BACKSLASH <==> b == BACKSLASH)
  {
  }

  /** What the minifier takes the rest for behind a piece of text. */
  function After(calm: bool, rest: bytes): bytes { if calm then Outside(rest) else Inside(rest) }

  lemma StringFiltered(text: bytes, rest: bytes)
    requires NulFree(text)
    ensures Outside(Quoted(text) + rest) == Quoted(text) + After(Calm(text), rest)
  {
    hide Outside, Inside, Escape, Unescape, ClosingQuote, Calm;
    EscapeIsRaw(text);
    EscapeEnds(text);
    FilterString(Escape(text), rest);
  }

  lemma CalmFiltered(v: Json, depth: nat, rest: bytes)
    requires Printable(v) && CalmTree(v)
    ensures Outside(Render(v, true, depth) + rest) == Render(v, false, depth) + Outside(rest)
  {
    hide *;
    TreeIs(v, true, depth);
    TreeIs(v, false, depth);
    StripTree(v, depth, depth);
    FilterDoc(Tree(v, true, depth), rest);
  }

  lemma InsideByte(b: byte, rest: bytes)
    requires b != QUOTE && b != BACKSLASH
    ensures Inside([b] + rest) == [b] + Inside(rest)
  {
    hide Inside;
    InsideCons(b, rest);
  }

  lemma BlankFiltered(b: byte, rest: bytes)
    requires IsBlank(b)
    ensures Outside([b] + rest) == Outside(rest)
  {
    hide Outside;
    assert [b][1..] == [];
    assert StripGap([]) == [] && StripGap([b]) == [];
    FilterGap([b], rest);
    assert [] + Outside(rest) == Outside(rest);
  }

  lemma TabsFiltered(n: nat, rest: bytes)
    ensures Outside(Tabs(n) + rest) == Outside(rest)
  {
    hide Outside, Tabs;
    TabsGone(n);
    FilterGap(Tabs(n), rest);
    assert [] + Outside(rest) == Outside(rest);
  }

  lemma {:induction false} TabsGone(n: nat)
    ensures Gap(Tabs(n)) && StripGap(Tabs(n)) == []
  {
    if n > 0 {
      TabsGone(n - 1);
      assert Tabs(n)[1..] == Tabs(n - 1);
    }
  }

  lemma SeparatorFiltered(rest: bytes)
    ensures Outside(Separator(true) + rest) == [COMMA] + Outside(rest)
    ensures Inside(Separator(true) + rest) == [COMMA, SPACE] + Inside(rest)
  {
    hide Outside, Inside;
    assert Separator(true) + rest == [COMMA] + ([SPACE] + rest);
    FilterByte(COMMA, [SPACE] + rest);
    BlankFiltered(SPACE, rest);
    InsideByte(COMMA, [SPACE] + rest);
    InsideByte(SPACE, rest);
    assert [COMMA] + ([SPACE] + Inside(rest)) == [COMMA, SPACE] + Inside(rest);
  }

  // ----- Where nothing is lost -----

  /** The minifier's output for an open-ended value, and what it takes the rest for. */
  lemma {:induction false} OpenFiltered(v: Json, depth: nat, rest: bytes)
    requires Printable(v) && OpenEnded(v)
    ensures Outside(Render(v, true, depth) + rest) == Render(v, false, depth) + After(CalmTree(v), rest)
    decreases v, 1
  {
    hide Outside, Inside, Render, Calm, Quoted, ItemsOpenEnded, CalmItems;
    if CalmTree(v) {
      CalmFiltered(v, depth, rest);
    } else {
      match v
      case String(text) =>
        StringText(text, depth);
        StringFiltered(text, rest);
      case Array(items) => ArrayFiltered(items, depth, rest);
      case _ =>
    }
  }

  lemma StringText(text: bytes, depth: nat)
    requires NulFree(text)
    ensures Render(String(text), true, depth) == Quoted(text) == Render(String(text), false, depth)
  {
  }

  lemma {:induction false} ArrayFiltered(items: Items, depth: nat, rest: bytes)
    requires ItemsPrintable(items) && ItemsOpenEnded(items) && !CalmItems(items)
    ensures Outside(Render(Array(items), true, depth) + rest) == Render(Array(items), false, depth) + Inside(rest)
    decreases items, 2
  {
    hide Outside, Inside, Render, RenderItems, ItemsOpenEnded;
    var tail := [RBRACKET] + rest;
    ArrayText(items, true, depth, rest);
    ArrayText(items, false, depth, Inside(rest));
    FilterByte(LBRACKET, RenderItems(items, true, depth + 1) + tail);
    ItemsFiltered(items, depth + 1, tail);
    InsideByte(RBRACKET, rest);
  }

  lemma {:induction false} ItemsFiltered(items: Items, depth: nat, rest: bytes)
    requires ItemsPrintable(items) && ItemsOpenEnded(items) && !CalmItems(items)
    ensures Outside(RenderItems(items, true, depth) + rest) == RenderItems(items, false, depth) + Inside(rest)
    decreases items, 1
  {
    hide Outside, Inside, Render, RenderItems, Separator, OpenEnded, CalmTree;
    var more := RenderItems(items.tail, true, depth) + rest;
    ItemsText(items, true, depth, rest);
    ItemsText(items, false, depth, Inside(rest));
    if items.tail.Item? {
      CalmFiltered(items.head, depth, Separator(true) + more);
      SeparatorFiltered(more);
      ItemsFiltered(items.tail, depth, rest);
      FlatSeparator();
    } else {
      NoItemsText(true, depth);
      NoItemsText(false, depth);
      OpenFiltered(items.head, depth, rest);
      LastItem(Render(items.head, true, depth), rest);
      LastItem(Render(items.head, false, depth), Inside(rest));
    }
  }

  lemma FlatSeparator()
    ensures Separator(false) == [COMMA]
  {
  }

  lemma LastItem(text: bytes, rest: bytes)
    ensures text + ([] + ([] + rest)) == text + rest
  {
  }

  // ----- Where something is left behind -----

  /** Otherwise the output goes wrong before the end of the value. */
  lemma {:induction false} Spoiled(v: Json, depth: nat, rest: bytes)
    requires Printable(v) && !OpenEnded(v)
    ensures !(Render(v, false, depth) <= Outside(Render(v, true, depth) + rest))
    decreases v, 2
  {
    hide Outside, Inside, Render, Calm, ItemsOpenEnded, CalmMembers;
    match v
    case Array(items) => ArraySpoiled(items, depth, rest);
    case Object(members) => ObjectSpoiled(members, depth, rest);
    case _ =>
  }

  lemma {:induction false} ArraySpoiled(items: Items, depth: nat, rest: bytes)
    requires ItemsPrintable(items) && !ItemsOpenEnded(items)
    ensures !(Render(Array(items), false, depth) <= Outside(Render(Array(items), true, depth) + rest))
    decreases items, 3
  {
    hide Outside, Inside, Render, RenderItems, ItemsOpenEnded;
    var tail := [RBRACKET] + rest;
    var flat := RenderItems(items, false, depth + 1);
    var out := Outside(RenderItems(items, true, depth + 1) + tail);
    ArrayText(items, true, depth, rest);
    ArrayText(items, false, depth, []);
    Nothing(Render(Array(items), false, depth));
    Nothing([RBRACKET]);
    FilterByte(LBRACKET, RenderItems(items, true, depth + 1) + tail);
    ItemsSpoiled(items, depth + 1, tail);
    Peel([LBRACKET], flat + [RBRACKET], out);
    if flat + [RBRACKET] <= out { Front(flat, [RBRACKET], out); }
  }

  lemma Nothing(t: bytes)
    ensures t + [] == t
  {
  }

  lemma {:induction false} ItemsSpoiled(items: Items, depth: nat, rest: bytes)
    requires ItemsPrintable(items) && !ItemsOpenEnded(items)
    ensures !(RenderItems(items, false, depth) <= Outside(RenderItems(items, true, depth) + rest))
    decreases items, 2
  {
    hide Outside, Inside, Render, RenderItems, Separator, OpenEnded, CalmTree;
    var more := RenderItems(items.tail, true, depth) + rest;
    var flat, tail := Render(items.head, false, depth), RenderItems(items.tail, false, depth);
    var sep := if items.tail.Item? then [COMMA] else [];
    ItemsText(items, true, depth, rest);
    ItemsText(items, false, depth, []);
    Nothing(RenderItems(items, false, depth));
    Nothing(tail);
    FlatSeparator();
    var text := (if items.tail.Item? then Separator(true) else []) + more;
    var out := Outside(Render(items.head, true, depth) + text);
    if !OpenEnded(items.head) {
      Spoiled(items.head, depth, text);
      if flat + (sep + tail) <= out { Front(flat, sep + tail, out); }
    } else if CalmTree(items.head) {
      CalmFiltered(items.head, depth, text);
      Peel(flat, sep + tail, Outside(text));
      SeparatorFiltered(more);
      Peel([COMMA], tail, Outside(more));
      if items.tail.Item? { ItemsSpoiled(items.tail, depth, rest); }
    } else {
      OpenFiltered(items.head, depth, text);
      Peel(flat, sep + tail, Inside(text));
      SeparatorFiltered(more);
      ItemsStart(items.tail, depth);
      SpaceTooMany(tail, Inside(more));
    }
  }

  lemma ItemsStart(items: Items, depth: nat)
    requires items.Item? && ItemsPrintable(items)
    ensures RenderItems(items, false, depth) != [] && RenderItems(items, false, depth)[0] != SPACE
  {
    hide Render;
    RenderStarts(items.head, depth);
  }

  lemma SpaceTooMany(tail: bytes, rest: bytes)
    requires tail != [] && tail[0] != SPACE
    ensures !([COMMA] + tail <= [COMMA, SPACE] + rest)
  {
    assert ([COMMA] + tail)[1] == tail[0] && ([COMMA, SPACE] + rest)[1] == SPACE;
  }

  lemma {:induction false} ObjectSpoiled(members: Members, depth: nat, rest: bytes)
    requires MembersPrintable(members) && !CalmMembers(members)
    ensures !(Render(Object(members), false, depth) <= Outside(Render(Object(members), true, depth) + rest))
    decreases members, 3
  {
    hide Outside, Inside, Render, RenderMembers, Tabs, CalmMembers;
    var tail := Tabs(depth) + ([RBRACE] + rest);
    var text := RenderMembers(members, true, depth + 1) + tail;
    ObjectText(members, true, depth, rest);
    ObjectText(members, false, depth, []);
    Nothing(Render(Object(members), false, depth));
    Nothing([RBRACE]);
    FilterByte(LBRACE, [NEWLINE] + text);
    BlankFiltered(NEWLINE, text);
    MembersSpoiled(members, depth + 1, tail);
    FlatObject(RenderMembers(members, false, depth + 1));
    Peel([LBRACE], RenderMembers(members, false, depth + 1) + [RBRACE], Outside(text));
  }

  lemma FlatObject(body: bytes)
    ensures [LBRACE] + ([] + (body + ([] + [RBRACE]))) == [LBRACE] + (body + [RBRACE])
  {
  }

  /** A member is followed by another one or by the closing brace. */
  lemma {:induction false} MembersSpoiled(members: Members, depth: nat, rest: bytes)
    requires MembersPrintable(members) && !CalmMembers(members)
    ensures !(RenderMembers(members, false, depth) + [RBRACE] <= Outside(RenderMembers(members, true, depth) + rest))
    decreases members, 2
  {
    hide Outside, Inside, Render, RenderMembers, Tabs, Quoted, Calm, CalmTree, LineEnd;
    var key, flat := Quoted(members.key), Render(members.value, false, depth);
    var end, more := LineEnd(members.rest.Member?, true), RenderMembers(members.rest, true, depth) + rest;
    var after := Render(members.value, true, depth) + (end + more);
    var close := LineEnd(members.rest.Member?, false) + (RenderMembers(members.rest, false, depth) + [RBRACE]);
    MembersText(members, true, depth, rest);
    MembersText(members, false, depth, [RBRACE]);
    FlatMember(key, flat + close);
    TabsFiltered(depth, key + ([COLON] + ([TAB] + after)));
    StringFiltered(members.key, [COLON] + ([TAB] + after));
    Peel(key, [COLON] + (flat + close), After(Calm(members.key), [COLON] + ([TAB] + after)));
    if Calm(members.key) {
      FilterByte(COLON, [TAB] + after);
      BlankFiltered(TAB, after);
      Peel([COLON], flat + close, Outside(after));
      MemberSpoiled(members, depth, rest);
    } else {
      InsideByte(COLON, [TAB] + after);
      InsideByte(TAB, after);
      RenderStarts(members.value, depth);
      TabTooMany(flat, close, Inside(after));
    }
  }

  lemma FlatMember(key: bytes, rest: bytes)
    ensures [] + (key + ([COLON] + ([] + rest))) == key + ([COLON] + rest)
  {
  }

  lemma TabTooMany(flat: bytes, close: bytes, rest: bytes)
    requires flat != [] && flat[0] != TAB
    ensures !([COLON] + (flat + close) <= [COLON] + ([TAB] + rest))
  {
    assert ([COLON] + (flat + close))[1] == flat[0] && ([COLON] + ([TAB] + rest))[1] == TAB;
  }

  /** The value of a member behind a calm key, and what follows it. */
  lemma {:induction false} MemberSpoiled(members: Members, depth: nat, rest: bytes)
    requires members.Member? && MembersPrintable(members) && !(CalmTree(members.value) && CalmMembers(members.rest))
    ensures var close := LineEnd(members.rest.Member?, false) + (RenderMembers(members.rest, false, depth) + [RBRACE]);
            var text := LineEnd(members.rest.Member?, true) + (RenderMembers(members.rest, true, depth) + rest);
            !(Render(members.value, false, depth) + close <= Outside(Render(members.value, true, depth) + text))
    decreases members, 1
  {
    hide Outside, Inside, Render, RenderMembers, OpenEnded, CalmTree, LineEnd;
    var flat, tail := Render(members.value, false, depth), RenderMembers(members.rest, false, depth) + [RBRACE];
    var close := LineEnd(members.rest.Member?, false) + tail;
    var more := RenderMembers(members.rest, true, depth) + rest;
    var text := LineEnd(members.rest.Member?, true) + more;
    var out := Outside(Render(members.value, true, depth) + text);
    if !OpenEnded(members.value) {
      Spoiled(members.value, depth, text);
      if flat + close <= out { Front(flat, close, out); }
    } else if CalmTree(members.value) {
      CalmFiltered(members.value, depth, text);
      Peel(flat, close, Outside(text));
      MembersSpoiled(members.rest, depth, rest);
      LineEndFiltered(more);
      Peel([COMMA], tail, Outside(more));
    } else {
      OpenFiltered(members.value, depth, text);
      Peel(flat, close, Inside(text));
      LineEndFiltered(more);
      MembersStart(members.rest, depth);
      NewlineTooMany(members.rest.Member?, tail, Inside(more));
    }
  }

  lemma LineEndFiltered(rest: bytes)
    ensures Outside(LineEnd(true, true) + rest) == [COMMA] + Outside(rest)
    ensures Inside(LineEnd(true, true) + rest) == [COMMA] + ([NEWLINE] + Inside(rest))
    ensures Inside(LineEnd(false, true) + rest) == [NEWLINE] + Inside(rest)
    ensures LineEnd(true, false) == [COMMA] && LineEnd(false, false) == []
  {
    hide Outside, Inside;
    assert LineEnd(true, true) + rest == [COMMA] + ([NEWLINE] + rest)
           && LineEnd(false, true) + rest == [NEWLINE] + rest;
    FilterByte(COMMA, [NEWLINE] + rest);
    BlankFiltered(NEWLINE, rest);
    InsideByte(COMMA, [NEWLINE] + rest);
    InsideByte(NEWLINE, rest);
  }

  lemma MembersStart(members: Members, depth: nat)
    requires MembersPrintable(members)
    ensures var tail := RenderMembers(members, false, depth) + [RBRACE]; tail != [] && tail[0] != NEWLINE
  {
    hide Render, Escape;
  }

  lemma NewlineTooMany(more: bool, tail: bytes, rest: bytes)
    requires tail != [] && tail[0] != NEWLINE
    ensures if more then !([COMMA] + tail <= [COMMA] + ([NEWLINE] + rest)) else !([] + tail <= [NEWLINE] + rest)
  {
    assert ([COMMA] + tail)[1] == tail[0] && ([COMMA] + ([NEWLINE] + rest))[1] == NEWLINE;
  }

  // ----- Exactly when -----

  /**
   * Minifying formatted output gives the unformatted output if and only if no string or key ends in a backslash, except
   * perhaps a string at the very end.
   */
  lemma MinifyFormattedExactly(v: Json)
    requires Printable(v)
    ensures Outside(Render(v, true, 0)) == Render(v, false, 0) <==> OpenEnded(v)
  {
    hide *;
    Nothing(Render(v, true, 0));
    Nothing(Render(v, false, 0));
    if OpenEnded(v) {
      OpenFiltered(v, 0, []);
      AfterNothing(CalmTree(v));
    } else {
      Spoiled(v, 0, []);
    }
  }

  lemma AfterNothing(calm: bool)
    ensures After(calm, []) == []
  {
    NothingLeft();
  }
}
