/** The recursive-descent parser as it runs: a moving offset and a nesting counter over a buffer, building items. */
module Parser {
  import opened Bytes
  import opened JsonTree
  import opened Numbers
  import opened Bits
  import opened Utf
  import opened Strings
  import Grammar
  import opened LinkedTree
  import opened Ownership

  /**
   * The bytes still to be written fit in what the first pass counted: `o` bytes are written when the read position is
   * `p`, which is a place the first pass stops at, the middle of a two-byte escape, or one past the closing quote.
   */
  ghost predicate Room(s: bytes, p: nat, end: nat, o: nat, units: nat) {
    end < |s|
    && ((p == end + 1 && o <= units)
        || (p <= end && ClosingQuote(s, p) == Some(end) && o + Units(s, p) <= units)
        || (p < end && ClosingQuote(s, p + 1) == Some(end) && o + Units(s, p + 1) + 1 <= units))
  }

  lemma RoomAtStart(s: bytes, p: nat, end: nat)
    requires p <= end < |s| && ClosingQuote(s, p) == Some(end)
    ensures Room(s, p, end, 0, Units(s, p))
  {
  }

  lemma PrependNothing(r: Unescaped)
    ensures Prepend([], r) == r
  {
    if r.Plain? { assert [] + r.text == r.text; }
  }

  /** A step that is no literal passes over as many units as it writes bytes. */
  lemma RoomAfterShortStep(s: bytes, p: nat, end: nat, o: nat, units: nat, width: nat)
    requires Room(s, p, end, o, units) && p < end && s[end] == QUOTE
    requires width == if s[p] == BACKSLASH then 2 else 1
    ensures Room(s, p + width, end, o + 1, units)
  {
  }

  /** Six bytes passed over are at least three units. */
  lemma SixBytes(s: bytes, p: nat, end: nat, o: nat, units: nat)
    requires Room(s, p, end, o, units) && p + 6 <= end
    ensures Room(s, p + 6, end, o + 1, units)
  {
    hide ClosingQuote, Units;
    if ClosingQuote(s, p) == Some(end) && o + Units(s, p) <= units {
      UnitsSkipped(s, p, 6);
    } else {
      UnitsSkipped(s, p + 1, 5);
    }
  }

  /** Four hexadecimal digits are four units. */
  lemma FourDigits(s: bytes, i: nat, end: nat)
    requires i + 4 <= end < |s| && HexAt(s, i)
    requires ClosingQuote(s, i) == Some(end)
    ensures ClosingQuote(s, i + 4) == Some(end) && Units(s, i) == Units(s, i + 4) + 4
  {
    assert ClosingQuote(s, i) == ClosingQuote(s, i + 1) == ClosingQuote(s, i + 2) == ClosingQuote(s, i + 3);
    assert Units(s, i) == Units(s, i + 1) + 1;
    assert Units(s, i + 1) == Units(s, i + 2) + 1;
    assert Units(s, i + 2) == Units(s, i + 3) + 1;
  }

  /** A literal of four digits is at least five units, wherever the first pass stopped. */
  lemma RoomAfterUnit(s: bytes, p: nat, end: nat, o: nat, units: nat)
    requires Room(s, p, end, o, units) && p + 6 <= end && s[p] == BACKSLASH && s[p + 1] == LOWER_U && HexAt(s, p + 2)
    ensures ClosingQuote(s, p + 6) == Some(end) && o + Units(s, p + 6) + 5 <= units
  {
    assert ClosingQuote(s, p) == Some(end) && o + Units(s, p) <= units;
    FourDigits(s, p + 2, end);
  }

  lemma RoomAfterLiteral(s: bytes, p: nat, end: nat, o: nat, units: nat)
    requires Room(s, p, end, o, units) && p + 1 < end && s[p] == BACKSLASH && s[p + 1] == LOWER_U
    requires ReadLiteral(s, p, end).Literal?
    ensures var l := ReadLiteral(s, p, end); Room(s, p + l.width, end, o + Utf8Length(l.codepoint), units)
  {
    hide ClosingQuote, Units, Combine;
    if HexAt(s, p + 2) {
      RoomAfterUnit(s, p, end, o, units);
      if ReadLiteral(s, p, end).width == 12 {
        assert HexAt(s, p + 8);
        assert Room(s, p + 6, end, o + 5, units);
        RoomAfterUnit(s, p + 6, end, o + 5, units);
      }
    } else {
      SixBytes(s, p, end, o, units);
    }
  }

  /** A literal is read the same way in the text of its string and in the whole buffer. */
  lemma LiteralLocal(s: bytes, base: nat, end: nat, p: nat)
    requires base <= p < end < |s|
    ensures var t := s[base..end + 1];
            ReadLiteral(t, p - base, |t| - 1) == ReadLiteral(s, p, end)
  {
    hide Combine, HexDigit;
    var t := s[base..end + 1];
    var q := p - base;
    assert forall k | base <= k <= end :: t[k - base] == s[k];
    if p + 6 <= end {
      assert Hex4(t, q + 2) == Hex4(s, p + 2);
      if p + 12 <= end {
        assert Hex4(t, q + 8) == Hex4(s, p + 8);
      }
    }
  }

  /** One turn of the second pass, seen in the whole buffer. */
  lemma StepInBuffer(s: bytes, base: nat, end: nat, p: nat)
    requires base <= p < end < |s|
    ensures var t := s[base..end + 1];
            UnescapeStep(t, p - base) ==
            if s[p] != BACKSLASH then Step(1, [s[p]])
            else if IsSimpleEscape(s[p + 1]) then Step(2, [SimpleEscape(s[p + 1])])
            else if s[p + 1] == LOWER_U then
              match ReadLiteral(s, p, end)
              case BadLiteral => BadStep
              case Literal(width, codepoint) => Step(width, Encode(codepoint))
            else BadStep
  {
    hide ReadLiteral, Encode;
    LiteralLocal(s, base, end, p);
    var t := s[base..end + 1];
    assert t[p - base] == s[p] && t[p - base + 1] == s[p + 1];
  }

  /** Only a step of at least one byte leads one past the closing quote, never further. */
  lemma StepStaysClose(s: bytes, p: nat, end: nat, o: nat, units: nat)
    requires Room(s, p, end, o, units)
    ensures p <= end + 1 && o <= units
  {
  }

  /** When the read position is `p`, the literal between `from` and `end` has been decoded to `out` so far. */
  ghost predicate Decoded(s: bytes, from: nat, p: nat, end: nat, out: bytes) {
    from <= end && from <= p <= end + 1 <= |s| &&
    var t := s[from..end + 1];
    Unescape(t, 0) == Prepend(out, Unescape(t, p - from))
  }

  lemma DecodedNothing(s: bytes, from: nat, end: nat)
    requires from <= end < |s|
    ensures Decoded(s, from, from, end, [])
  {
    hide Unescape, Prepend;
    PrependNothing(Unescape(s[from..end + 1], 0));
  }

  lemma DecodedStep(s: bytes, from: nat, p: nat, end: nat, out: bytes)
    requires Decoded(s, from, p, end, out) && p < end
    ensures var r := UnescapeStep(s[from..end + 1], p - from);
            r.Step? ==> Decoded(s, from, p + r.width, end, out + r.out)
  {
    hide Unescape, Prepend, UnescapeStep;
    var t := s[from..end + 1];
    var r := UnescapeStep(t, p - from);
    UnescapeUnfold(t, p - from);
    if r.Step? { PrependTwice(out, r.out, Unescape(t, p - from + r.width)); }
  }

  lemma DecodedBad(s: bytes, from: nat, p: nat, end: nat, out: bytes)
    requires Decoded(s, from, p, end, out) && p < end && UnescapeStep(s[from..end + 1], p - from) == BadStep
    ensures Unescape(s[from..end + 1], 0) == Bad(p - from)
  {
    hide Unescape, UnescapeStep;
    UnescapeUnfold(s[from..end + 1], p - from);
  }

  lemma DecodedAll(s: bytes, from: nat, p: nat, end: nat, out: bytes)
    requires Decoded(s, from, p, end, out) && p >= end
    ensures Unescape(s[from..end + 1], 0) == Plain(out)
  {
    hide Unescape, Prepend;
    UnescapeEnds(s[from..end + 1], p - from);
  }

  lemma ArrayIs(s: bytes, i: nat, depth: nat)
    requires Terminated(s) && i < |s| && s[i] == LBRACKET
    ensures i + 1 < |s|
    ensures var r := Grammar.ParseArray(s, i, depth);
            if depth >= NESTING_LIMIT then r == Err(i)
            else
              var k := Grammar.Skip(s, i + 1);
              && k < |s|
              && if s[k] == RBRACKET then r == Parsed.Ok(Array(NoItems), k + 1)
                 else
                   match Grammar.ParseItems(s, k, depth + 1)
                   case Err(at) => r == Err(at)
                   case Ok(items, m) => r == if s[m] == RBRACKET then Parsed.Ok(Array(items), m + 1) else Err(m)
  {
    hide Grammar.ParseItems, Grammar.Skip;
  }

  lemma ObjectIs(s: bytes, i: nat, depth: nat)
    requires Terminated(s) && i < |s| && s[i] == LBRACE
    ensures i + 1 < |s|
    ensures var r := Grammar.ParseObject(s, i, depth);
            if depth >= NESTING_LIMIT then r == Err(i)
            else
              var k := Grammar.Skip(s, i + 1);
              && k < |s|
              && if s[k] == RBRACE then r == Parsed.Ok(Object(NoMembers), k + 1)
                 else
                   match Grammar.ParseMembers(s, k, depth + 1)
                   case Err(at) => r == Err(at)
                   case Ok(members, m) => r == if s[m] == RBRACE then Parsed.Ok(Object(members), m + 1) else Err(m)
  {
    hide Grammar.ParseMembers, Grammar.Skip;
  }

  // ----- The loops over elements and members, against the grammar -----

  function BuiltOn(values: seq<Json>, r: Parsed<Items>): Parsed<Items> {
    match r
    case Err(at) => Err(at)
    case Ok(items, next) => Parsed.Ok(Build(values, items), next)
  }

  lemma BuiltOnNothing(r: Parsed<Items>)
    ensures BuiltOn([], r) == r
  {
  }

  /** One turn of the loop over the elements. */
  lemma ItemsTurn(s: bytes, j: nat, depth: nat, values: seq<Json>, value: Json, next: nat)
    requires Terminated(s) && j < |s| && next < |s|
    requires Grammar.ParseValue(s, Grammar.Skip(s, j), depth) == Parsed.Ok(value, next)
    ensures var m := Grammar.Skip(s, next);
            if s[m] == COMMA then
              BuiltOn(values, Grammar.ParseItems(s, j, depth))
              == BuiltOn(values + [value], Grammar.ParseItems(s, m + 1, depth))
            else BuiltOn(values, Grammar.ParseItems(s, j, depth)) == Parsed.Ok(Build(values + [value], NoItems), m)
  {
    hide Grammar.ParseValue, Grammar.Skip, Build;
    var m := Grammar.Skip(s, next);
    if s[m] == COMMA {
      var r := Grammar.ParseItems(s, m + 1, depth);
      if r.Ok? { BuildSnoc(values, value, r.value); }
    } else {
      BuildSnoc(values, value, NoItems);
    }
  }

  lemma ItemsFail(s: bytes, j: nat, depth: nat, values: seq<Json>)
    requires Terminated(s) && j < |s|
    requires Grammar.ParseValue(s, Grammar.Skip(s, j), depth).Err?
    ensures BuiltOn(values, Grammar.ParseItems(s, j, depth)) == Err(Grammar.ParseValue(s, Grammar.Skip(s, j), depth).at)
  {
    hide Grammar.ParseValue, Grammar.Skip, Build;
  }

  function MembersBuiltOn(keys: seq<bytes>, values: seq<Json>, r: Parsed<Members>): Parsed<Members>
    requires |keys| == |values|
  {
    match r
    case Err(at) => Err(at)
    case Ok(members, next) => Parsed.Ok(BuildMembers(keys, values, members), next)
  }

  lemma MembersBuiltOnNothing(r: Parsed<Members>)
    ensures MembersBuiltOn([], [], r) == r
  {
  }

  /** One turn of the loop over the members; `m` is where the member ends. */
  lemma MembersTurn(s: bytes, j: nat, depth: nat, keys: seq<bytes>, values: seq<Json>,
                    key: bytes, colon: nat, value: Json, next: nat, m: nat)
    requires Terminated(s) && j < |s| && colon < |s| && next < |s| && m == Grammar.Skip(s, next) && |keys| == |values|
    requires Grammar.ParseKey(s, j) == Parsed.Ok(key, colon)
    requires Grammar.ParseValue(s, Grammar.Skip(s, colon), depth) == Parsed.Ok(value, next)
    ensures m < |s| && |keys + [key]| == |values + [value]| && (s[m] == COMMA ==> m + 1 < |s|)
    ensures s[m] == COMMA ==>
              MembersBuiltOn(keys, values, Grammar.ParseMembers(s, j, depth))
              == MembersBuiltOn(keys + [key], values + [value], Grammar.ParseMembers(s, m + 1, depth))
    ensures s[m] != COMMA ==>
              MembersBuiltOn(keys, values, Grammar.ParseMembers(s, j, depth))
              == Parsed.Ok(BuildMembers(keys + [key], values + [value], NoMembers), m)
  {
    hide *;
    CommaInside(s, m);
    if s[m] == COMMA {
      Grammar.MembersGoOn(s, j, depth, key, colon, value, next, m);
      BuiltOnOneMore(keys, values, key, value, Grammar.ParseMembers(s, m + 1, depth));
    } else {
      Grammar.MembersStop(s, j, depth, key, colon, value, next, m);
      BuiltOnLast(keys, values, key, value, m);
    }
  }

  lemma CommaInside(s: bytes, m: nat)
    requires Terminated(s) && m < |s|
    ensures s[m] == COMMA ==> m + 1 < |s|
  {
  }

  lemma BuiltOnOneMore(keys: seq<bytes>, values: seq<Json>, key: bytes, value: Json, r: Parsed<Members>)
    requires |keys| == |values|
    ensures MembersBuiltOn(keys, values, Grammar.Consed(key, value, r))
         == MembersBuiltOn(keys + [key], values + [value], r)
  {
    hide BuildMembers;
    if r.Ok? { BuildMembersSnoc(keys, values, key, value, r.value); }
  }

  lemma BuiltOnLast(keys: seq<bytes>, values: seq<Json>, key: bytes, value: Json, m: nat)
    requires |keys| == |values|
    ensures MembersBuiltOn(keys, values, Parsed.Ok(Member(key, value, NoMembers), m))
            == Parsed.Ok(BuildMembers(keys + [key], values + [value], NoMembers), m)
  {
    hide BuildMembers;
    BuildMembersSnoc(keys, values, key, value, NoMembers);
  }

  lemma KeyFails(s: bytes, j: nat, depth: nat, keys: seq<bytes>, values: seq<Json>)
    requires Terminated(s) && j < |s| && |keys| == |values| && Grammar.ParseKey(s, j).Err?
    ensures MembersBuiltOn(keys, values, Grammar.ParseMembers(s, j, depth)) == Err(Grammar.ParseKey(s, j).at)
  {
    hide Grammar.ParseValue, Grammar.ParseKey, Grammar.Skip, BuildMembers;
  }

  lemma MemberFails(s: bytes, j: nat, depth: nat, keys: seq<bytes>, values: seq<Json>, key: bytes, colon: nat)
    requires Terminated(s) && j < |s| && colon < |s| && |keys| == |values|
    requires Grammar.ParseKey(s, j) == Parsed.Ok(key, colon)
    requires Grammar.ParseValue(s, Grammar.Skip(s, colon), depth).Err?
    ensures MembersBuiltOn(keys, values, Grammar.ParseMembers(s, j, depth))
            == Err(Grammar.ParseValue(s, Grammar.Skip(s, colon), depth).at)
  {
    hide Grammar.ParseValue, Grammar.ParseKey, Grammar.Skip, BuildMembers;
  }

  /** A new item, allocated, to which a value can be given. */
  ghost predicate Blank(item: Node, live: set<Block>)
    reads item`child, item`valuestring, item`isReference, item`keyIsConst, item`key
  {
    && item.child == null && item.valuestring == None && !item.isReference && !item.keyIsConst
    && NodeBlocks(item) <= live && TextBlock(item) !in live
  }

  /** A properly linked tree without references that hangs under the item. */
  ghost predicate Sprouted(s: Shape, item: Node)
    reads item`child, item`isReference, KidsNodes(s.kids)
  {
    s.node == item && Proper(s) && Linked(s) && NoReferences(s)
  }

  /** An item without children is a tree of its own. */
  lemma Leaf(item: Node)
    requires item.child == null && !item.isReference
    ensures var s := Shape(item, []);
            Sprouted(s, item) && Nodes(s) == {item} && KidsNodes(s.kids) == {} && OwnedBy(Nodes(s)) == NodeBlocks(item)
  {
    hide NodeBlocks, OwnedBy;
    OwnedOne(item);
    Single(item);
  }

  lemma BlankBlocks(item: Node, live: set<Block>)
    ensures Blank(item, live) <==>
              && item.child == null && item.valuestring == None && !item.isReference && !item.keyIsConst
              && {ItemBlock(item)} + (if item.key.Some? then {KeyBlock(item)} else {}) <= live
              && TextBlock(item) !in live
    ensures Blank(item, live) ==>
              NodeBlocks(item) == {ItemBlock(item)} + (if item.key.Some? then {KeyBlock(item)} else {})
  {
    hide NodeBlocks;
    BlocksOf(item);
  }

  lemma SproutedParts(s: Shape, item: Node)
    requires Sprouted(s, item)
    ensures s.node == item && Proper(s) && Linked(s) && NoReferences(s)
  {
    hide Proper, Linked, NoReferences;
  }

  /** A member that cannot be read, for its key or for its value. */
  lemma FieldFails(s: bytes, j: nat, depth: nat, keys: seq<bytes>, values: seq<Json>)
    requires Terminated(s) && j < |s| && |keys| == |values|
    requires var k := Grammar.ParseKey(s, j);
             k.Ok? ==> Grammar.ParseValue(s, Grammar.Skip(s, k.next), depth).Err?
    ensures MembersBuiltOn(keys, values, Grammar.ParseMembers(s, j, depth))
         == var k := Grammar.ParseKey(s, j);
            if k.Err? then Err(k.at) else Err(Grammar.ParseValue(s, Grammar.Skip(s, k.next), depth).at)
  {
    hide Grammar.ParseValue, Grammar.ParseKey, Grammar.Skip, Grammar.ParseMembers, BuildMembers;
    var k := Grammar.ParseKey(s, j);
    if k.Err? {
      KeyFails(s, j, depth, keys, values);
    } else {
      MemberFails(s, j, depth, keys, values, k.value, k.next);
    }
  }

  class ParseBuffer {
    const hooks: Hooks
    const content: array<byte>
    ghost const text: bytes
    var offset: nat
    var depth: nat

    /** The buffer holds a terminated text that does not change. */
    ghost predicate Valid()
      reads this, content
    {
      && content.Length == |text|
      && (forall k | 0 <= k < |text| :: content[k] == text[k])
      && Terminated(text)
      && offset <= |text|
    }

    constructor (hooks: Hooks, content: array<byte>)
      requires Terminated(content[..])
      ensures Valid() && this.hooks == hooks && this.content == content && text == content[..]
      ensures offset == 0 && depth == 0
    {
      this.hooks := hooks;
      this.content := content;
      text := content[..];
      offset, depth := 0, 0;
    }

    method SkipWhitespace()
      requires Valid() && offset < |text|
      modifies this`offset
      ensures Valid() && offset == Grammar.Skip(text, old(offset))
    {
      while offset < content.Length && content[offset] <= 32
        invariant Valid() && old(offset) <= offset
        invariant Grammar.SpaceEnd(text, offset) == Grammar.SpaceEnd(text, old(offset))
        decreases |text| - offset
      {
        offset := offset + 1;
      }
      if offset == content.Length {
        offset := offset - 1;
      }
    }

    /** Four hexadecimal digits, or 0. */
    method ParseHex4(i: nat) returns (h: nat)
      requires Valid() && i + 4 <= |text|
      ensures h == Hex4(text, i)
    {
      h := 0;
      var k := 0;
      while k < 4
        invariant 0 <= k <= 4
        invariant forall m | i <= m < i + k :: IsHex(text[m])
        invariant k == 0 ==> h == 0
        invariant k == 1 ==> h == HexDigit(text[i]) * 16
        invariant k == 2 ==> h == (HexDigit(text[i]) * 16 + HexDigit(text[i + 1])) * 16
        invariant k == 3 ==> h == ((HexDigit(text[i]) * 16 + HexDigit(text[i + 1])) * 16 + HexDigit(text[i + 2])) * 16
        invariant k == 4 ==> h == Hex4(text, i)
      {
        var b := content[i + k];
        if 48 <= b <= 57 {
          h := h + b - 48;
        } else if 65 <= b <= 70 {
          h := h + 10 + b - 65;
        } else if 97 <= b <= 102 {
          h := h + 10 + b - 97;
        } else {
          return 0;
        }
        if k < 3 {
          h := h * 16;
        }
        k := k + 1;
      }
    }

    /** Decodes the literal at `p` into `output` at `o`; a width of 0 says that it is refused. */
    method Utf16LiteralToUtf8(p: nat, end: nat, output: array<byte>, o: nat) returns (width: nat, next: nat)
      requires Valid() && p < end < |text| && output != content && o <= output.Length
      requires ReadLiteral(text, p, end).Literal? ==>
                 o + Utf8Length(ReadLiteral(text, p, end).codepoint) <= output.Length
      modifies output
      ensures output[..o] == old(output[..o])
      ensures ReadLiteral(text, p, end).BadLiteral? ==> width == 0
      ensures ReadLiteral(text, p, end).Literal? ==>
                var l := ReadLiteral(text, p, end);
                width == l.width && next == o + Utf8Length(l.codepoint) && output[o..next] == Encode(l.codepoint)
    {
      hide Hex4, Combine, Encode, And, Or;
      width, next := 0, o;
      if end - p < 6 { return; }
      var first := ParseHex4(p + 2);
      var codepoint := first;
      var length := 6;
      if 0xDC00 <= first <= 0xDFFF { return; }
      if 0xD800 <= first <= 0xDBFF {
        var q := p + 6;
        length := 12;
        if end - q < 6 { return; }
        if content[q] != BACKSLASH || content[q + 1] != LOWER_U { return; }
        var second := ParseHex4(q + 2);
        if second < 0xDC00 || second > 0xDFFF { return; }
        codepoint := Combine(first, second);
      }
      assert ReadLiteral(text, p, end) == Literal(length, codepoint);
      EncodeUtf8(codepoint, output, o);
      width, next := length, o + Utf8Length(codepoint);
    }

    /** Writes the UTF-8 form of `c` at `o`, the continuation bytes from last to first. */
    static method EncodeUtf8(c: nat, output: array<byte>, o: nat)
      requires o + Utf8Length(c) <= output.Length
      modifies output
      ensures output[..o] == old(output[..o])
      ensures output[o..o + Utf8Length(c)] == Encode(c)
    {
      var length := Utf8Length(c);
      var rest := c;
      var position := length - 1;
      while position > 0
        invariant 0 <= position <= length - 1
        invariant output[..o] == old(output[..o])
        invariant AfterContinuations(c, length - 1) == AfterContinuations(rest, position)
        invariant Continuations(c, length - 1) == Continuations(rest, position) + output[o + 1 + position..o + length]
      {
        ghost var tail := output[o + 1 + position..o + length];
        output[o + position] := ContinuationByte(rest);
        assert output[o + position..o + length] == [ContinuationByte(rest)] + tail;
        rest := ShiftRight(rest, 6);
        position := position - 1;
      }
      ghost var tail := output[o + 1..o + length];
      output[o] := FirstByte(rest, length);
      assert output[o..o + length] == [FirstByte(rest, length)] + tail;
    }

    /**
     * A string literal: one pass to size the output, one to write it. The output becomes the item's text, or is given
     * back.
     */
    method ParseString(item: Node) returns (ok: bool)
      requires Valid() && offset < |text| && Blank(item, hooks.live)
      modifies this`offset, hooks`live, item`kind, item`isReference, item`keyIsConst, item`valuestring
      ensures Valid() && !item.isReference && !item.keyIsConst
      ensures hooks.live == old(hooks.live) + NodeBlocks(item) && (!ok ==> Blank(item, hooks.live))
      ensures var r := Strings.ParseString(text, old(offset));
              if ok then r.Ok? && offset == r.next && item.kind == StringKind && item.valuestring == Some(r.value)
              else r.Err? && offset == r.at
    {
      hide ClosingQuote, Units, Unescape, CString, NodeBlocks, Blank;
      BlankBlocks(item, hooks.live);
      var inputPointer, inputEnd := offset + 1, offset + 1;
      ghost var base := offset + 1;
      if content[offset] != QUOTE {
        offset := inputPointer;
        return false;
      }
      var skipped := 0;
      inputEnd, skipped := FindClosingQuote(inputEnd);
      if inputEnd >= content.Length || content[inputEnd] != QUOTE {
        offset := inputPointer;
        return false;
      }
      ok := StoreString(item, inputPointer, inputEnd, inputEnd - offset - skipped);
    }

    /** Allots the output with a byte for the terminator, and gives it to the item if the second pass ends well. */
    method StoreString(item: Node, from: nat, end: nat, allocationLength: nat) returns (ok: bool)
      requires Valid() && from <= end < |text| && ClosingQuote(text, from) == Some(end) && Blank(item, hooks.live)
      requires allocationLength == Units(text, from) + 1
      modifies this`offset, hooks`live, item`kind, item`isReference, item`keyIsConst, item`valuestring
      ensures Valid() && !item.isReference && !item.keyIsConst
      ensures hooks.live == old(hooks.live) + NodeBlocks(item) && (!ok ==> Blank(item, hooks.live))
      ensures match Unescape(text[from..end + 1], 0)
              case Bad(at) => !ok && offset == from + at
              case Plain(out) =>
                ok && offset == end + 1 && item.kind == StringKind && item.valuestring == Some(CString(out))
    {
      hide ClosingQuote, Units, Unescape, CString, NodeBlocks, Blank;
      BlankBlocks(item, hooks.live);
      var output := new byte[allocationLength + 1];
      hooks.Allocate(TextBlock(item));
      var inputPointer, o;
      ok, inputPointer, o := WriteString(from, end, output);
      if !ok {
        hooks.Deallocate(TextBlock(item));
        offset := inputPointer;
        BlankBlocks(item, hooks.live);
        return false;
      }
      output[o] := NUL;
      item.kind, item.isReference, item.keyIsConst := StringKind, false, false;
      EndsAtNul(output[..], o);
      assert output[..][..o] == output[..o];
      item.valuestring := Some(CString(output[..]));
      BlocksOf(item);
      offset := end;
      offset := offset + 1;
    }

    /** First pass: finds the closing quote and counts the escapes; gives up at the end of the buffer. */
    method FindClosingQuote(from: nat) returns (end: nat, skipped: nat)
      requires Valid() && from <= |text|
      ensures from <= end <= |text|
      ensures ClosingQuote(text, from) == (if end < |text| && text[end] == QUOTE then Some(end) else None)
      ensures ClosingQuote(text, from).Some? ==> skipped <= end - from && Units(text, from) == end - from - skipped
    {
      end, skipped := from, 0;
      while end < content.Length && content[end] != QUOTE
        invariant from <= end <= |text| && skipped <= end - from
        invariant ClosingQuote(text, end) == ClosingQuote(text, from)
        invariant ClosingQuote(text, from).Some? ==> Units(text, from) == Units(text, end) + (end - from - skipped)
        decreases |text| - end
      {
        if content[end] == BACKSLASH {
          if end + 1 >= content.Length {
            return;
          }
          skipped := skipped + 1;
          end := end + 1;
        }
        end := end + 1;
      }
    }

    /** One unit of a string literal: a plain byte, an escape or a literal. */
    method WriteUnit(from: nat, p: nat, end: nat, output: array<byte>, o: nat, ghost units: nat)
      returns (ok: bool, q: nat, r: nat)
      requires Valid() && from <= p < end < |text| && text[end] == QUOTE
      requires output != content && output.Length == units + 2 && o <= units
      requires Room(text, p, end, o, units) && Decoded(text, from, p, end, output[..o])
      modifies output
      ensures Valid()
      ensures ok ==> p < q <= end + 1 && r <= units
      ensures ok ==> Room(text, q, end, r, units) && Decoded(text, from, q, end, output[..r])
      ensures !ok ==> q == p && Unescape(text[from..end + 1], 0) == Bad(p - from)
    {
      hide ClosingQuote, Units, ReadLiteral, Encode, Unescape, UnescapeStep, Room, Prepend, Decoded, Terminated;
      StepInBuffer(text, from, end, p);
      ghost var done := output[..o];
      ok := true;
      if content[p] != BACKSLASH {
        RoomAfterShortStep(text, p, end, o, units, 1);
        output[o] := content[p];
        q, r := p + 1, o + 1;
        assert output[..r] == done + [text[p]];
        DecodedStep(text, from, p, end, done);
      } else if content[p + 1] == LOWER_U {
        ok, q, r := WriteLiteral(from, p, end, output, o, units);
        return;
      } else if IsSimpleEscape(content[p + 1]) {
        RoomAfterShortStep(text, p, end, o, units, 2);
        output[o] := SimpleEscape(content[p + 1]);
        q, r := p + 2, o + 1;
        assert output[..r] == done + [SimpleEscape(text[p + 1])];
        DecodedStep(text, from, p, end, done);
      } else {
        DecodedBad(text, from, p, end, done);
        return false, p, o;
      }
      StepStaysClose(text, q, end, r, units);
    }

    /** A literal: `\u` and four hexadecimal digits, once or twice. */
    method WriteLiteral(from: nat, p: nat, end: nat, output: array<byte>, o: nat, ghost units: nat)
      returns (ok: bool, q: nat, r: nat)
      requires Valid() && from <= p < end < |text| && text[p] == BACKSLASH && text[p + 1] == LOWER_U
      requires output != content && output.Length == units + 2 && o <= units
      requires Room(text, p, end, o, units) && Decoded(text, from, p, end, output[..o])
      modifies output
      ensures Valid()
      ensures ok ==> p < q <= end + 1 && r <= units
      ensures ok ==> Room(text, q, end, r, units) && Decoded(text, from, q, end, output[..r])
      ensures !ok ==> q == p && Unescape(text[from..end + 1], 0) == Bad(p - from)
    {
      hide ClosingQuote, Units, ReadLiteral, Encode, Unescape, UnescapeStep, Room, Prepend, Decoded, Terminated;
      StepInBuffer(text, from, end, p);
      ghost var done, l := output[..o], ReadLiteral(text, p, end);
      if l.Literal? {
        LiteralIsInside(p, end, l);
        RoomAfterLiteral(text, p, end, o, units);
        StepStaysClose(text, p + l.width, end, o + Utf8Length(l.codepoint), units);
      }
      var width, next := Utf16LiteralToUtf8(p, end, output, o);
      if width == 0 {
        DecodedBad(text, from, p, end, done);
        return false, p, o;
      }
      assert output[..next] == output[..o] + output[o..next];
      DecodedStep(text, from, p, end, done);
      return true, p + width, next;
    }

    /**
     * Second pass. Every write stays inside `output`, whatever the digits of the literals, and the read position
     * passes the closing quote by one byte at most.
     */
    method WriteString(from: nat, end: nat, output: array<byte>) returns (ok: bool, p: nat, o: nat)
      requires Valid() && from <= end < |text| && ClosingQuote(text, from) == Some(end) && output != content
      requires output.Length == Units(text, from) + 2
      modifies output
      ensures Valid() && from <= p <= end + 1
      ensures ok ==> o <= Units(text, from) && Unescape(text[from..end + 1], 0) == Plain(output[..o])
      ensures !ok ==> Unescape(text[from..end + 1], 0) == Bad(p - from)
    {
      hide ClosingQuote, Units, Unescape, Room, Prepend, Decoded, Terminated;
      ghost var units := Units(text, from);
      ok, p, o := true, from, 0;
      RoomAtStart(text, p, end);
      assert output[..0] == [];
      DecodedNothing(text, from, end);
      while p < end
        invariant Valid() && from <= p <= end + 1 && ok
        invariant o <= units && Room(text, p, end, o, units) && Decoded(text, from, p, end, output[..o])
        decreases end + 1 - p
      {
        ok, p, o := WriteUnit(from, p, end, output, o, units);
        if !ok {
          return;
        }
      }
      DecodedAll(text, from, p, end, output[..o]);
    }

    /** Copies the run of number bytes at the offset. */
    method CopyNumber() returns (run: bytes)
      requires Valid()
      ensures run == text[offset..RunEnd(text, offset, NUMBER_BUFFER)]
    {
      hide Terminated, IsNumberByte;
      var i: nat := 0;
      run := [];
      while i < NUMBER_BUFFER && offset + i < content.Length && IsNumberByte(content[offset + i])
        invariant i <= NUMBER_BUFFER && offset + i <= |text|
        invariant run == text[offset..offset + i]
        invariant RunEnd(text, offset, NUMBER_BUFFER) == RunEnd(text, offset + i, NUMBER_BUFFER - i)
      {
        run := run + [content[offset + i]];
        i := i + 1;
      }
    }

    /** A number: the run of number bytes is copied out and given to `strtod`. */
    method ParseNumber(item: Node) returns (ok: bool)
      requires Valid() && !item.isReference && !item.keyIsConst
      modifies this`offset, item`kind, item`isReference, item`keyIsConst, item`valueint, item`valuedouble
      ensures Valid() && !item.isReference && !item.keyIsConst
      ensures var r := Grammar.ParseNumber(text, old(offset));
              if ok then r == Parsed.Ok(Number(item.valuedouble), offset) && item.kind == NumberKind
                         && item.valueint == Saturate(item.valuedouble)
              else r.Err? && offset == r.at
    {
      hide Strtod, Saturate, RunEnd, Terminated;
      var run := CopyNumber();
      var c := Strtod(run);
      if c.used == 0 {
        return false;
      }
      item.valuedouble, item.valueint := c.value, Saturate(c.value);
      item.kind, item.isReference, item.keyIsConst := NumberKind, false, false;
      offset := offset + c.used;
      ok := true;
    }

    /** A word stands at the offset. */
    method LooksAt(word: bytes) returns (b: bool)
      requires Valid()
      ensures b == At(text, offset, word)
    {
      if offset + |word| > content.Length {
        return false;
      }
      b := true;
      var k := 0;
      while k < |word|
        invariant 0 <= k <= |word|
        invariant text[offset..offset + k] == word[..k]
      {
        assert text[offset..offset + k + 1] == text[offset..offset + k] + [text[offset + k]];
        assert word[..k + 1] == word[..k] + [word[k]];
        if content[offset + k] != word[k] {
          Differ(offset, k, word);
          return false;
        }
        k := k + 1;
      }
      assert word[..|word|] == word;
    }

    lemma Differ(i: nat, k: nat, word: bytes)
      requires i + |word| <= |text| && k < |word| && text[i + k] != word[k]
      ensures !At(text, i, word)
    {
      assert text[i..i + |word|][k] == text[i + k];
    }

    /** One of the three words. */
    method ParseWord(item: Node) returns (ok: bool)
      requires Valid() && offset < |text| && Blank(item, hooks.live)
      modifies this`offset, item`kind, item`isReference, item`keyIsConst, item`valueint
      ensures Valid() && Blank(item, hooks.live)
      ensures match Grammar.WordAt(text, old(offset))
              case None => !ok && offset == old(offset)
              case Some(word) =>
                && ok && offset == old(offset) + |word.text| < |text| && Denotes(Shape(item, []), word.value)
                && (word.value.True? ==> item.valueint == 1)
    {
      hide Terminated, At, NodeBlocks, Blank;
      BlankBlocks(item, hooks.live);
      var isNull := LooksAt(NULL_WORD);
      if isNull {
        item.kind, item.isReference, item.keyIsConst := NullKind, false, false;
        BlankBlocks(item, hooks.live);
        WordEnds(offset, NULL_WORD);
        offset := offset + 4;
        return true;
      }
      var isFalse := LooksAt(FALSE_WORD);
      if isFalse {
        item.kind, item.isReference, item.keyIsConst := FalseKind, false, false;
        BlankBlocks(item, hooks.live);
        WordEnds(offset, FALSE_WORD);
        offset := offset + 5;
        return true;
      }
      ok := LooksAt(TRUE_WORD);
      if ok {
        item.kind, item.isReference, item.keyIsConst := TrueKind, false, false;
        item.valueint := 1;
        BlankBlocks(item, hooks.live);
        WordEnds(offset, TRUE_WORD);
        offset := offset + 4;
      }
    }

    /**
     * A value of any kind. On success the offset is behind it, the nesting counter is back, and the item roots a
     * fresh linked tree that holds the value; on failure the offset is where the failure is reported. In either case
     * the blocks allocated on the way and not given back are those of the tree below the item.
     */
    method ParseValue(item: Node) returns (ok: bool, ghost s: Shape)
      requires Valid() && offset < |text| && Blank(item, hooks.live)
      modifies this`offset, this`depth, hooks`live
      modifies item`kind, item`isReference, item`keyIsConst, item`valuestring, item`valueint, item`valuedouble,
               item`child
      ensures Valid()
      ensures Sprouted(s, item) && fresh(KidsNodes(s.kids)) && hooks.live == old(hooks.live) + OwnedBy(Nodes(s))
      ensures !item.keyIsConst
      ensures var r := Grammar.ParseValue(text, old(offset), old(depth));
              if ok then
                && r.Ok? && offset == r.next && depth == old(depth) && Denotes(s, r.value)
                && (r.value.True? ==> item.valueint == 1)
              else r.Err? && offset == r.at
      decreases |text| - offset, 1
    {
      hide Proper, Linked, Grammar.ParseArray, Grammar.ParseObject, Strings.ParseString, Grammar.ParseNumber,
        Terminated, At, NodeBlocks, OwnedBy, Nodes, KidsNodes, Blank, Sprouted, NoReferences;
      s := Shape(item, []);
      var isWord := ParseWord(item);
      BlankBlocks(item, hooks.live);
      Leaf(item);
      if isWord {
        return true, s;
      }
      if content[offset] == QUOTE {
        ok := ParseString(item);
        Leaf(item);
      } else if content[offset] == MINUS || 48 <= content[offset] <= 57 {
        ok := ParseNumber(item);
        Leaf(item);
        BlocksOf(item);
      } else if content[offset] == LBRACKET {
        ok, s := ParseArray(item);
      } else if content[offset] == LBRACE {
        ok, s := ParseObject(item);
      } else {
        ok := false;
      }
    }

    lemma WordEnds(i: nat, word: bytes)
      requires Terminated(text) && At(text, i, word) && NulFree(word) && word != []
      ensures i + |word| < |text|
    {
      Grammar.BeforeEnd(text, i, word);
    }

    /** An empty container: nothing but the kind of the item. */
    method MakeEmpty(item: Node, kind: Kind)
      requires Blank(item, hooks.live)
      modifies item`kind, item`isReference, item`keyIsConst
      ensures !item.keyIsConst && Sprouted(Shape(item, []), item) && KidsNodes([]) == {}
      ensures OwnedBy(Nodes(Shape(item, []))) <= hooks.live
      ensures kind == ArrayKind ==> Denotes(Shape(item, []), Array(NoItems))
      ensures kind == ObjectKind ==> Denotes(Shape(item, []), Object(NoMembers))
    {
      hide NodeBlocks, Blank, OwnedBy, Nodes, KidsNodes, Sprouted;
      BlankBlocks(item, hooks.live);
      item.kind, item.isReference, item.keyIsConst := kind, false, false;
      BlankBlocks(item, hooks.live);
      Leaf(item);
    }

    /** Parses the item last linked to a list and takes it into the list. */
    method ParseElement(item: Node, head: Node?, ghost kids: seq<Shape>, ghost values: seq<Json>)
      returns (ok: bool, ghost s: Shape)
      requires Valid() && offset < |text| && Blank(item, hooks.live) && item !in KidsNodes(kids)
      requires ProperKids(kids) && Made(kids) && Hold(kids, values) && Pending(head, item, kids)
      modifies this`offset, this`depth, hooks`live
      modifies item`kind, item`isReference, item`keyIsConst, item`valuestring, item`valueint, item`valuedouble,
               item`child
      ensures Valid()
      ensures s.node == item && fresh(KidsNodes(s.kids)) && KidsNodes(kids + [s]) == KidsNodes(kids) + Nodes(s)
      ensures ProperKids(kids + [s]) && Made(kids + [s]) && Growing(head, item, kids + [s])
      ensures hooks.live == old(hooks.live) + OwnedBy(Nodes(s)) && !item.keyIsConst
      ensures var r := Grammar.ParseValue(text, old(offset), old(depth));
              if ok then r.Ok? && offset == r.next && depth == old(depth) && Hold(kids + [s], values + [r.value])
              else r.Err? && offset == r.at
      decreases |text| - offset, 2
    {
      hide Proper, Linked, Denotes, Grammar.ParseValue, KidsNodes, Below, Roots, Hold, Growing, Pending, ProperKids,
        Terminated, Made, OwnedBy, Blank, Sprouted, NoReferences;
      KidsNodesSplit(kids);
      assert allocated(KidsNodes(kids));
      ok, s := ParseValue(item);
      SproutedParts(s, item);
      ProperExtended(kids, s);
      MadeExtended(kids, s);
      Settled(head, item, kids, s);
      if ok { Extended(kids, s, values, Grammar.ParseValue(text, old(offset), old(depth)).value); }
    }

    /** Parses the value of the item last linked to a list, up to the byte behind it, and takes it into the list. */
    method ParseItem(item: Node, head: Node?, ghost kids: seq<Shape>, ghost values: seq<Json>)
      returns (ok: bool, ghost s: Shape, ghost value: Json)
      requires Valid() && offset < |text| && Blank(item, hooks.live) && item !in KidsNodes(kids)
      requires ProperKids(kids) && Made(kids) && Hold(kids, values) && Pending(head, item, kids)
      modifies this`offset, this`depth, hooks`live
      modifies item`kind, item`isReference, item`keyIsConst, item`valuestring, item`valueint, item`valuedouble,
               item`child
      ensures Valid()
      ensures s.node == item && fresh(KidsNodes(s.kids)) && KidsNodes(kids + [s]) == KidsNodes(kids) + Nodes(s)
      ensures ProperKids(kids + [s]) && Made(kids + [s]) && Growing(head, item, kids + [s])
      ensures hooks.live == old(hooks.live) + OwnedBy(Nodes(s))
      ensures var r := BuiltOn(values, Grammar.ParseItems(text, old(offset), old(depth)));
              if ok then
                && offset < |text| && depth == old(depth) && old(offset) < offset
                && (if text[offset] == COMMA then
                      offset + 1 < |text| && r == BuiltOn(values + [value], Grammar.ParseItems(text, offset + 1, depth))
                    else r == Parsed.Ok(Build(values + [value], NoItems), offset))
                && Hold(kids + [s], values + [value])
              else r.Err? && offset == r.at
      decreases |text| - offset, 3
    {
      hide Proper, Linked, Denotes, Grammar.ParseItems, Grammar.Skip, Grammar.ParseValue, KidsNodes, Below, Roots, Hold,
        Growing, Pending, ProperKids, Build, BuiltOn, Terminated, Nodes, Last, Made, OwnedBy, Blank;
      ghost var start, d := offset, depth;
      value := Null;
      KidsNodesSplit(kids);
      assert allocated(KidsNodes(kids));
      SkipWhitespace();
      ok, s := ParseElement(item, head, kids, values);
      if !ok {
        ItemsFail(text, start, d, values);
        return;
      }
      value := Grammar.ParseValue(text, Grammar.Skip(text, start), d).value;
      ghost var next := offset;
      KidsNodesSplit(kids + [s]);
      assert allocated(KidsNodes(kids + [s]));
      SkipWhitespace();
      if text[offset] == COMMA { NotLast(offset); }
      ItemsTurn(text, start, d, values, value, next);
    }

    /** One turn of the loop over the elements, from the byte in front of it. */
    method AppendItem(head: Node?, current: Node?, ghost kids: seq<Shape>, ghost values: seq<Json>)
      returns (ok: bool, first: Node, item: Node, more: bool, ghost s: Shape, ghost value: Json)
      requires Valid() && offset + 1 < |text|
      requires ProperKids(kids) && Made(kids) && Hold(kids, values) && Growing(head, current, kids)
      modifies this`offset, this`depth, hooks`live, if kids == [] then {} else {Last(kids)}`next
      ensures Valid()
      ensures fresh(Nodes(s)) && KidsNodes(kids + [s]) == KidsNodes(kids) + Nodes(s)
      ensures ProperKids(kids + [s]) && Made(kids + [s]) && Growing(first, item, kids + [s])
      ensures hooks.live == old(hooks.live) + OwnedBy(Nodes(s)) && old(hooks.live) !! OwnedBy(Nodes(s))
      ensures var r := BuiltOn(values, Grammar.ParseItems(text, old(offset) + 1, old(depth)));
              if ok then
                && offset < |text| && depth == old(depth) && old(offset) + 1 < offset
                && more == (text[offset] == COMMA)
                && (if more then
                      offset + 1 < |text| && r == BuiltOn(values + [value], Grammar.ParseItems(text, offset + 1, depth))
                    else r == Parsed.Ok(Build(values + [value], NoItems), offset))
                && Hold(kids + [s], values + [value])
              else r.Err? && offset == r.at
      decreases |text| - offset - 1, 4
    {
      hide Proper, Linked, Denotes, Grammar.ParseItems, Grammar.Skip, Grammar.ParseValue, KidsNodes, Below, Roots, Hold,
        Growing, Pending, ProperKids, Build, BuiltOn, Terminated, Made, OwnedBy, Blank, NodeBlocks;
      CopiesApart(kids);
      assert allocated(KidsNodes(kids));
      more := false;
      first, item := Attach(head, current, kids);
      hooks.Allocate(ItemBlock(item));
      BlankBlocks(item, hooks.live);
      assert Hold(kids, values) && Made(kids);
      offset := offset + 1;
      ok, s, value := ParseItem(item, first, kids, values);
      FreshlyGrown(s);
      TopBlocks(s);
      forall b | b in OwnedBy(Nodes(s)) ensures b !in old(hooks.live) { OwnedNode(Nodes(s), b); }
      if ok {
        more := content[offset] == COMMA;
      }
    }

    /** The elements up to the byte that is no comma, from the byte in front of the first one. */
    method ParseElements()
      returns (ok: bool, head: Node?, current: Node?, ghost kids: seq<Shape>, ghost values: seq<Json>)
      requires Valid() && offset + 1 < |text|
      modifies this`offset, this`depth, hooks`live
      ensures Valid() && kids != []
      ensures fresh(KidsNodes(kids)) && ProperKids(kids) && Made(kids) && Growing(head, current, kids)
      ensures hooks.live == old(hooks.live) + OwnedBy(KidsNodes(kids)) && old(hooks.live) !! OwnedBy(KidsNodes(kids))
      ensures var r := Grammar.ParseItems(text, old(offset) + 1, old(depth));
              if ok then
                && r == Parsed.Ok(Build(values, NoItems), offset) && offset < |text| && depth == old(depth)
                && Hold(kids, values)
              else r.Err? && offset == r.at
      decreases |text| - offset - 1, 5
    {
      hide Grammar.ParseItems, KidsNodes, Below, Roots, Hold, Growing, ProperKids, Build, BuiltOn, Terminated, Last,
        Made, OwnedBy, Nodes;
      ghost var k, d := offset + 1, depth;
      head, current, kids, values := null, null, [], [];
      BuiltOnNothing(Grammar.ParseItems(text, k, d));
      EmptyList();
      NothingMade();
      OwnedNothing();
      var more := true;
      while more
        invariant Valid() && k - 1 <= offset < |text| && depth == d
        invariant more ==> offset + 1 < |text|
                           && Grammar.ParseItems(text, k, d) == BuiltOn(values, Grammar.ParseItems(text, offset + 1, d))
        invariant !more ==> kids != [] && Grammar.ParseItems(text, k, d) == Parsed.Ok(Build(values, NoItems), offset)
        invariant fresh(KidsNodes(kids)) && ProperKids(kids) && Made(kids) && Growing(head, current, kids)
        invariant Hold(kids, values)
        invariant hooks.live == old(hooks.live) + OwnedBy(KidsNodes(kids))
        invariant old(hooks.live) !! OwnedBy(KidsNodes(kids))
        decreases |text| - offset, more
      {
        if kids != [] { LastInside(kids); }
        assert allocated(KidsNodes(kids));
        ghost var shape, value;
        ok, head, current, more, shape, value := AppendItem(head, current, kids, values);
        OwnedJoin(KidsNodes(kids), Nodes(shape));
        kids, values := kids + [shape], values + [value];
        if !ok {
          return;
        }
      }
      ok := true;
    }

    /** An array: its elements are appended one by one to a list that is closed at the end. */
    method ParseArray(item: Node) returns (ok: bool, ghost s: Shape)
      requires Valid() && offset < |text| && Blank(item, hooks.live) && text[offset] == LBRACKET
      modifies this`offset, this`depth, hooks`live
      modifies item`kind, item`isReference, item`keyIsConst, item`child
      ensures Valid()
      ensures Sprouted(s, item) && fresh(KidsNodes(s.kids)) && hooks.live == old(hooks.live) + OwnedBy(Nodes(s))
      ensures !item.keyIsConst
      ensures var r := Grammar.ParseArray(text, old(offset), old(depth));
              if ok then r.Ok? && offset == r.next && depth == old(depth) && Denotes(s, r.value)
              else r.Err? && offset == r.at
      decreases |text| - offset, 0
    {
      hide Denotes, Grammar.ParseArray, Grammar.ParseItems, Grammar.Skip, KidsNodes, Below, Roots, Hold, Growing,
        ProperKids, Siblings, Build, Terminated, Last, Made, OwnedBy, Blank,
        Sprouted, NodeBlocks, Nodes, Proper, Linked, NoReferences, Chain, AllOwn;
      s := Shape(item, []);
      BlankBlocks(item, hooks.live);
      Leaf(item);
      ArrayIs(text, offset, depth);
      if depth >= NESTING_LIMIT {
        return false, s;
      }
      depth := depth + 1;
      NotLast(offset);
      offset := offset + 1;
      SkipWhitespace();
      if content[offset] == RBRACKET {
        depth := depth - 1;
        NotLast(offset);
        MakeEmpty(item, ArrayKind);
        offset := offset + 1;
        return true, s;
      }
      offset := offset - 1;
      var head, current;
      ghost var kids, values;
      ok, head, current, kids, values := ParseElements();
      ok, s := EndArray(ok, item, head, current, kids, values);
    }

    /** Deletes a list that was begun and cannot be finished. */
    method Discard(head: Node?, current: Node?, ghost kids: seq<Shape>)
      requires ProperKids(kids) && Made(kids) && Growing(head, current, kids) && OwnedBy(KidsNodes(kids)) <= hooks.live
      modifies hooks`live
      ensures hooks.live == old(hooks.live - OwnedBy(KidsNodes(kids)))
    {
      hide *;
      assert allocated(KidsNodes(kids));
      GrowingChain(head, current, kids);
      MadeOwns(kids);
      Delete(hooks, head, kids);
    }

    /** Behind the list there must be the closing bracket; otherwise the list is deleted. */
    method EndArray(parsed: bool, item: Node, head: Node?, current: Node?, ghost kids: seq<Shape>,
                    ghost values: seq<Json>)
      returns (ok: bool, ghost s: Shape)
      requires Valid() && kids != [] && ProperKids(kids) && Made(kids) && Growing(head, current, kids)
      requires parsed ==> offset < |text| && depth > 0 && Hold(kids, values)
      requires item !in KidsNodes(kids) && OwnedBy(KidsNodes(kids)) <= hooks.live
      requires Blank(item, hooks.live - OwnedBy(KidsNodes(kids)))
      modifies this`offset, this`depth, hooks`live
      modifies KidsNodes(kids)`prev, item`kind, item`isReference, item`keyIsConst, item`child
      ensures Valid() && ok == (parsed && text[old(offset)] == RBRACKET)
      ensures Sprouted(s, item) && KidsNodes(s.kids) <= KidsNodes(kids) && !item.keyIsConst
      ensures hooks.live == old(hooks.live - OwnedBy(KidsNodes(kids))) + OwnedBy(Nodes(s))
      ensures if ok then
                && offset == old(offset) + 1 < |text| && depth == old(depth) - 1
                && Denotes(s, Array(Build(values, NoItems)))
              else offset == old(offset)
    {
      hide KidsNodes, Roots, Below, Last, Hold, Growing, ProperKids, Build, Terminated, Made, OwnedBy, Blank, Sprouted,
        NodeBlocks, Nodes, Denotes;
      KidsNodesSplit(kids);
      BlankBlocks(item, hooks.live - OwnedBy(KidsNodes(kids)));
      s := Shape(item, []);
      if !parsed || content[offset] != RBRACKET {
        Discard(head, current, kids);
        Leaf(item);
        BlankBlocks(item, hooks.live);
        return false, s;
      }
      depth := depth - 1;
      NotLast(offset);
      s := FinishArray(item, head, current, kids, values);
      offset := offset + 1;
      ok := true;
    }

    /** Closes the list and hangs it under the item. */
    method FinishArray(item: Node, head: Node?, current: Node?, ghost kids: seq<Shape>, ghost values: seq<Json>)
      returns (ghost s: Shape)
      requires kids != [] && ProperKids(kids) && Hold(kids, values) && Growing(head, current, kids)
      requires item !in KidsNodes(kids) && Made(kids) && !item.isReference && !item.keyIsConst
      modifies KidsNodes(kids)`prev, item`kind, item`isReference, item`keyIsConst, item`child
      ensures Sprouted(s, item) && Denotes(s, Array(Build(values, NoItems))) && s.kids == kids
      ensures OwnedBy(Nodes(s)) == old(NodeBlocks(item) + OwnedBy(KidsNodes(kids))) && !item.keyIsConst
    {
      hide Proper, Linked, Denotes, KidsNodes, Below, Roots, Hold, Growing, ProperKids, Siblings, Build, Made, OwnedBy,
        NodeBlocks, Nodes, NoReferences;
      BlocksOf(item);
      CopiesApart(kids);
      HeadInside(head, current, kids);
      HeadIsRoot(head, current, kids);
      assert allocated(KidsNodes(kids));
      Close(head, current, kids);
      assert Hold(kids, values) && Made(kids);
      item.kind, item.isReference, item.keyIsConst := ArrayKind, false, false;
      item.child := head;
      assert Made(kids);
      BlocksOf(item);
      ArrayBuilt(item, kids, values);
      s := Shape(item, kids);
      Assembled(s);
    }

    /** The key of a member and the colon behind it. */
    method ParseKey(item: Node) returns (ok: bool)
      requires Valid() && offset < |text| && Blank(item, hooks.live)
      requires item.key == None && KeyBlock(item) !in hooks.live
      modifies this`offset, hooks`live, item`kind, item`isReference, item`keyIsConst, item`valuestring, item`key
      ensures Valid() && Blank(item, hooks.live) && hooks.live == old(hooks.live) + NodeBlocks(item)
      ensures var r := Grammar.ParseKey(text, old(offset));
              if ok then r.Ok? && offset == r.next && item.key == Some(r.value)
              else r.Err? && offset == r.at
    {
      hide Strings.ParseString, Grammar.Skip, Blank, NodeBlocks;
      BlankBlocks(item, hooks.live);
      SkipWhitespace();
      ok := ParseString(item);
      if !ok {
        return;
      }
      Grammar.StringBeforeEnd(text, offset);
      SkipWhitespace();
      BlocksOf(item);
      item.key := item.valuestring;
      item.valuestring := None;
      hooks.HandOver(TextBlock(item), KeyBlock(item));
      BlankBlocks(item, hooks.live);
      if content[offset] != COLON {
        return false;
      }
      NotLast(offset);
      offset := offset + 1;
    }

    /** Parses the key and the value of the item last linked to a list, and takes it into the list. */
    method ParseField(item: Node, head: Node?, ghost kids: seq<Shape>, ghost values: seq<Json>)
      returns (ok: bool, ghost s: Shape)
      requires Valid() && offset < |text| && Blank(item, hooks.live) && item !in KidsNodes(kids)
      requires item.key == None && KeyBlock(item) !in hooks.live
      requires ProperKids(kids) && Made(kids) && Hold(kids, values) && Pending(head, item, kids)
      modifies this`offset, this`depth, hooks`live
      modifies item`kind, item`isReference, item`keyIsConst, item`valuestring, item`valueint, item`valuedouble,
               item`child, item`key
      ensures Valid()
      ensures s.node == item && fresh(KidsNodes(s.kids)) && KidsNodes(kids + [s]) == KidsNodes(kids) + Nodes(s)
      ensures ProperKids(kids + [s]) && Made(kids + [s]) && Growing(head, item, kids + [s])
      ensures hooks.live == old(hooks.live) + OwnedBy(Nodes(s))
      ensures var k := Grammar.ParseKey(text, old(offset));
              if k.Err? then !ok && offset == k.at
              else
                var r := Grammar.ParseValue(text, Grammar.Skip(text, k.next), old(depth));
                if ok then
                  && r.Ok? && offset == r.next && depth == old(depth) && item.key == Some(k.value)
                  && Hold(kids + [s], values + [r.value])
                else r.Err? && offset == r.at
      decreases |text| - offset, 3
    {
      hide Proper, Linked, Denotes, Grammar.ParseKey, Grammar.Skip, Grammar.ParseValue, KidsNodes, Below, Roots, Hold,
        Growing, Pending, ProperKids, Terminated, Nodes, Last, Made, OwnedBy, Blank, NodeBlocks, Sprouted, NoReferences;
      KidsNodesSplit(kids);
      assert allocated(KidsNodes(kids));
      s := Shape(item, []);
      ok := ParseKey(item);
      if !ok {
        TakenBare(item, head, kids);
        return;
      }
      BlankBlocks(item, hooks.live);
      SkipWhitespace();
      ok, s := ParseElement(item, head, kids, values);
      TopBlocks(s);
    }

    /** One member, up to the byte behind it, against the grammar. */
    method ParseMember(item: Node, head: Node?, ghost kids: seq<Shape>, ghost keys: seq<bytes>, ghost values: seq<Json>)
      returns (ok: bool, ghost s: Shape, ghost key: bytes, ghost value: Json)
      requires Valid() && offset < |text| && Blank(item, hooks.live) && item !in KidsNodes(kids) && |keys| == |values|
      requires item.key == None && KeyBlock(item) !in hooks.live && Made(kids)
      requires ProperKids(kids) && Hold(kids, values) && Keyed(kids, keys) && Pending(head, item, kids)
      modifies this`offset, this`depth, hooks`live
      modifies item`kind, item`isReference, item`keyIsConst, item`valuestring, item`valueint, item`valuedouble,
               item`child, item`key
      ensures Valid()
      ensures s.node == item && fresh(KidsNodes(s.kids)) && KidsNodes(kids + [s]) == KidsNodes(kids) + Nodes(s)
      ensures ProperKids(kids + [s]) && Made(kids + [s]) && Growing(head, item, kids + [s])
      ensures hooks.live == old(hooks.live) + OwnedBy(Nodes(s))
      ensures var r := MembersBuiltOn(keys, values, Grammar.ParseMembers(text, old(offset), old(depth)));
              if ok then
                && offset < |text| && depth == old(depth) && old(offset) < offset
                && (if text[offset] == COMMA then
                      offset + 1 < |text|
                      && r == MembersBuiltOn(keys + [key], values + [value],
                                             Grammar.ParseMembers(text, offset + 1, depth))
                    else r == Parsed.Ok(BuildMembers(keys + [key], values + [value], NoMembers), offset))
                && Hold(kids + [s], values + [value]) && Keyed(kids + [s], keys + [key])
              else r.Err? && offset == r.at
      decreases |text| - offset, 4
    {
      hide Proper, Linked, Denotes, Grammar.ParseMembers, Grammar.ParseKey, Grammar.Skip, Grammar.ParseValue,
        KidsNodes, Below, Roots, Hold, Keyed, Growing, Pending, ProperKids, BuildMembers, Terminated,
        MembersBuiltOn, Nodes, Last, Made, OwnedBy, Blank, NodeBlocks, Sprouted, NoReferences;
      ghost var start, d := offset, depth;
      KidsNodesSplit(kids);
      assert allocated(KidsNodes(kids));
      key, value := [], Null;
      ok, s := ParseField(item, head, kids, values);
      if !ok {
        FieldFails(text, start, d, keys, values);
        return;
      }
      key := Grammar.ParseKey(text, start).value;
      ghost var colon := Grammar.ParseKey(text, start).next;
      value := Grammar.ParseValue(text, Grammar.Skip(text, colon), d).value;
      ghost var next := offset;
      ExtendedKeys(kids, s, keys, key);
      KidsNodesSplit(kids + [s]);
      assert allocated(KidsNodes(kids + [s]));
      SkipWhitespace();
      if text[offset] == COMMA { NotLast(offset); }
      MembersTurn(text, start, d, keys, values, key, colon, value, next, Grammar.Skip(text, next));
    }

    /** An item without children is taken into the list as it is. */
    lemma TakenBare(item: Node, head: Node?, kids: seq<Shape>)
      requires Blank(item, hooks.live) && item !in KidsNodes(kids) && ProperKids(kids) && Made(kids)
      requires Pending(head, item, kids)
      ensures var s := Shape(item, []);
              && KidsNodes(s.kids) == {} && KidsNodes(kids + [s]) == KidsNodes(kids) + Nodes(s)
              && ProperKids(kids + [s]) && Made(kids + [s]) && Growing(head, item, kids + [s])
              && OwnedBy(Nodes(s)) == NodeBlocks(item)
    {
      hide Proper, Linked, KidsNodes, Below, Roots, Growing, Pending, ProperKids, Made, OwnedBy, NodeBlocks, Sprouted,
        NoReferences;
      var s := Shape(item, []);
      Leaf(item);
      SproutedParts(s, item);
      ProperExtended(kids, s);
      MadeExtended(kids, s);
      Settled(head, item, kids, s);
    }

    /** One turn of the loop over the members, from the byte in front of it. */
    method AppendMember(head: Node?, current: Node?, ghost kids: seq<Shape>, ghost keys: seq<bytes>,
                        ghost values: seq<Json>)
      returns (ok: bool, first: Node, item: Node, more: bool, ghost s: Shape, ghost key: bytes, ghost value: Json)
      requires Valid() && offset + 1 < |text| && |keys| == |values|
      requires ProperKids(kids) && Made(kids) && Hold(kids, values) && Keyed(kids, keys) && Growing(head, current, kids)
      modifies this`offset, this`depth, hooks`live, if kids == [] then {} else {Last(kids)}`next
      ensures Valid()
      ensures fresh(Nodes(s)) && KidsNodes(kids + [s]) == KidsNodes(kids) + Nodes(s)
      ensures ProperKids(kids + [s]) && Made(kids + [s]) && Growing(first, item, kids + [s])
      ensures hooks.live == old(hooks.live) + OwnedBy(Nodes(s)) && old(hooks.live) !! OwnedBy(Nodes(s))
      ensures var r := MembersBuiltOn(keys, values, Grammar.ParseMembers(text, old(offset) + 1, old(depth)));
              if ok then
                && offset < |text| && depth == old(depth) && old(offset) + 1 < offset
                && more == (text[offset] == COMMA)
                && (if more then
                      offset + 1 < |text|
                      && r == MembersBuiltOn(keys + [key], values + [value],
                                             Grammar.ParseMembers(text, offset + 1, depth))
                    else r == Parsed.Ok(BuildMembers(keys + [key], values + [value], NoMembers), offset))
                && Hold(kids + [s], values + [value]) && Keyed(kids + [s], keys + [key])
              else r.Err? && offset == r.at
      decreases |text| - offset - 1, 5
    {
      hide Proper, Linked, Denotes, Grammar.ParseMembers, Grammar.ParseKey, Grammar.Skip, Grammar.ParseValue,
        KidsNodes, Below, Roots, Hold, Keyed, Growing, Pending, ProperKids, BuildMembers, Terminated, MembersBuiltOn,
        Made, OwnedBy, Blank, NodeBlocks;
      CopiesApart(kids);
      assert allocated(KidsNodes(kids));
      more := false;
      first, item := Attach(head, current, kids);
      hooks.Allocate(ItemBlock(item));
      BlankBlocks(item, hooks.live);
      assert Hold(kids, values) && Keyed(kids, keys) && Made(kids);
      offset := offset + 1;
      ok, s, key, value := ParseMember(item, first, kids, keys, values);
      FreshlyGrown(s);
      TopBlocks(s);
      forall b | b in OwnedBy(Nodes(s)) ensures b !in old(hooks.live) { OwnedNode(Nodes(s), b); }
      if ok {
        more := content[offset] == COMMA;
      }
    }

    /** The members up to the byte that is no comma, from the byte in front of the first one. */
    method ParseMembers()
      returns (ok: bool, head: Node?, current: Node?, ghost kids: seq<Shape>, ghost keys: seq<bytes>,
               ghost values: seq<Json>)
      requires Valid() && offset + 1 < |text|
      modifies this`offset, this`depth, hooks`live
      ensures Valid() && kids != []
      ensures fresh(KidsNodes(kids)) && ProperKids(kids) && Made(kids) && Growing(head, current, kids)
      ensures hooks.live == old(hooks.live) + OwnedBy(KidsNodes(kids)) && old(hooks.live) !! OwnedBy(KidsNodes(kids))
      ensures var r := Grammar.ParseMembers(text, old(offset) + 1, old(depth));
              if ok then
                && |keys| == |values| && r == Parsed.Ok(BuildMembers(keys, values, NoMembers), offset)
                && offset < |text| && depth == old(depth) && Hold(kids, values) && Keyed(kids, keys)
              else r.Err? && offset == r.at
      decreases |text| - offset - 1, 6
    {
      hide Grammar.ParseMembers, KidsNodes, Below, Roots, Hold, Keyed, Growing, ProperKids, BuildMembers,
        MembersBuiltOn, Terminated, Last, Made, OwnedBy, Nodes;
      ghost var k, d := offset + 1, depth;
      head, current, kids, keys, values := null, null, [], [], [];
      MembersBuiltOnNothing(Grammar.ParseMembers(text, k, d));
      EmptyList();
      NothingMade();
      OwnedNothing();
      var more := true;
      while more
        invariant Valid() && k - 1 <= offset < |text| && depth == d && |keys| == |values|
        invariant more ==> offset + 1 < |text|
                           && Grammar.ParseMembers(text, k, d)
                              == MembersBuiltOn(keys, values, Grammar.ParseMembers(text, offset + 1, d))
        invariant !more ==> kids != []
                            && Grammar.ParseMembers(text, k, d)
                            == Parsed.Ok(BuildMembers(keys, values, NoMembers), offset)
        invariant fresh(KidsNodes(kids)) && ProperKids(kids) && Made(kids) && Hold(kids, values) && Keyed(kids, keys)
        invariant Growing(head, current, kids)
        invariant hooks.live == old(hooks.live) + OwnedBy(KidsNodes(kids))
        invariant old(hooks.live) !! OwnedBy(KidsNodes(kids))
        decreases |text| - offset, more
      {
        if kids != [] { LastInside(kids); }
        assert allocated(KidsNodes(kids));
        ghost var shape, key, value;
        ok, head, current, more, shape, key, value := AppendMember(head, current, kids, keys, values);
        OwnedJoin(KidsNodes(kids), Nodes(shape));
        kids, keys, values := kids + [shape], keys + [key], values + [value];
        if !ok {
          return;
        }
      }
      ok := true;
    }

    /** An object: like an array, with a key in front of every element. */
    method ParseObject(item: Node) returns (ok: bool, ghost s: Shape)
      requires Valid() && offset < |text| && Blank(item, hooks.live) && text[offset] == LBRACE
      modifies this`offset, this`depth, hooks`live
      modifies item`kind, item`isReference, item`keyIsConst, item`child
      ensures Valid()
      ensures Sprouted(s, item) && fresh(KidsNodes(s.kids)) && hooks.live == old(hooks.live) + OwnedBy(Nodes(s))
      ensures !item.keyIsConst
      ensures var r := Grammar.ParseObject(text, old(offset), old(depth));
              if ok then r.Ok? && offset == r.next && depth == old(depth) && Denotes(s, r.value)
              else r.Err? && offset == r.at
      decreases |text| - offset, 0
    {
      hide Denotes, Grammar.ParseObject, Grammar.ParseMembers, Grammar.Skip, KidsNodes, Below, Roots, Hold, Keyed,
        Growing, ProperKids, Siblings, BuildMembers, Terminated, Last, Made, OwnedBy, Blank,
        Sprouted, NodeBlocks, Nodes, Proper, Linked, NoReferences, Chain, AllOwn;
      s := Shape(item, []);
      BlankBlocks(item, hooks.live);
      Leaf(item);
      ObjectIs(text, offset, depth);
      if depth >= NESTING_LIMIT {
        return false, s;
      }
      depth := depth + 1;
      NotLast(offset);
      offset := offset + 1;
      SkipWhitespace();
      if content[offset] == RBRACE {
        depth := depth - 1;
        NotLast(offset);
        MakeEmpty(item, ObjectKind);
        offset := offset + 1;
        return true, s;
      }
      offset := offset - 1;
      var head, current;
      ghost var kids, keys, values;
      ok, head, current, kids, keys, values := ParseMembers();
      ok, s := EndObject(ok, item, head, current, kids, keys, values);
    }

    /** Behind the list there must be the closing bracket; otherwise the list is deleted. */
    method EndObject(parsed: bool, item: Node, head: Node?, current: Node?, ghost kids: seq<Shape>,
                     ghost keys: seq<bytes>, ghost values: seq<Json>)
      returns (ok: bool, ghost s: Shape)
      requires Valid() && kids != [] && ProperKids(kids) && Made(kids) && Growing(head, current, kids)
      requires parsed ==> offset < |text| && depth > 0 && |keys| == |values| && Hold(kids, values) && Keyed(kids, keys)
      requires item !in KidsNodes(kids) && OwnedBy(KidsNodes(kids)) <= hooks.live
      requires Blank(item, hooks.live - OwnedBy(KidsNodes(kids)))
      modifies this`offset, this`depth, hooks`live
      modifies KidsNodes(kids)`prev, item`kind, item`isReference, item`keyIsConst, item`child
      ensures Valid() && ok == (parsed && text[old(offset)] == RBRACE)
      ensures Sprouted(s, item) && KidsNodes(s.kids) <= KidsNodes(kids) && !item.keyIsConst
      ensures hooks.live == old(hooks.live - OwnedBy(KidsNodes(kids))) + OwnedBy(Nodes(s))
      ensures if ok then
                && offset == old(offset) + 1 < |text| && depth == old(depth) - 1
                && Denotes(s, Object(BuildMembers(keys, values, NoMembers)))
              else offset == old(offset)
    {
      hide KidsNodes, Roots, Below, Last, Hold, Keyed, Growing, ProperKids, BuildMembers, Terminated, Made, OwnedBy,
        Blank, Sprouted, NodeBlocks, Nodes, Denotes;
      KidsNodesSplit(kids);
      BlankBlocks(item, hooks.live - OwnedBy(KidsNodes(kids)));
      s := Shape(item, []);
      if !parsed || content[offset] != RBRACE {
        Discard(head, current, kids);
        Leaf(item);
        BlankBlocks(item, hooks.live);
        return false, s;
      }
      depth := depth - 1;
      NotLast(offset);
      s := FinishObject(item, head, current, kids, keys, values);
      offset := offset + 1;
      ok := true;
    }

    method FinishObject(item: Node, head: Node?, current: Node?, ghost kids: seq<Shape>, ghost keys: seq<bytes>,
                        ghost values: seq<Json>)
      returns (ghost s: Shape)
      requires kids != [] && ProperKids(kids) && Hold(kids, values) && Keyed(kids, keys) && Growing(head, current, kids)
      requires item !in KidsNodes(kids) && |keys| == |values| && Made(kids) && !item.isReference && !item.keyIsConst
      modifies KidsNodes(kids)`prev, item`kind, item`isReference, item`keyIsConst, item`child
      ensures Sprouted(s, item) && Denotes(s, Object(BuildMembers(keys, values, NoMembers))) && s.kids == kids
      ensures OwnedBy(Nodes(s)) == old(NodeBlocks(item) + OwnedBy(KidsNodes(kids))) && !item.keyIsConst
    {
      hide Proper, Linked, Denotes, KidsNodes, Below, Roots, Hold, Keyed, Growing, ProperKids, Siblings, BuildMembers,
        Made, OwnedBy, NodeBlocks, Nodes, NoReferences;
      BlocksOf(item);
      CopiesApart(kids);
      HeadInside(head, current, kids);
      HeadIsRoot(head, current, kids);
      assert allocated(KidsNodes(kids));
      Close(head, current, kids);
      assert Hold(kids, values) && Keyed(kids, keys) && Made(kids);
      item.kind, item.isReference, item.keyIsConst := ObjectKind, false, false;
      item.child := head;
      assert Made(kids);
      BlocksOf(item);
      ObjectBuilt(item, kids, keys, values);
      s := Shape(item, kids);
      Assembled(s);
    }

    lemma NotLast(i: nat)
      requires Terminated(text) && i < |text| && text[i] != NUL
      ensures i + 1 < |text|
    {
    }

    lemma TopBlocks(s: Shape)
      ensures ItemBlock(s.node) in OwnedBy(Nodes(s))
      ensures !s.node.keyIsConst && s.node.key.Some? ==> KeyBlock(s.node) in OwnedBy(Nodes(s))
    {
      ItemOwned(s);
      BlocksOf(s.node);
      if KeyBlock(s.node) in NodeBlocks(s.node) { assert s.node in Nodes(s); }
    }

    lemma FreshlyGrown(s: Shape)
      ensures Nodes(s) == {s.node} + KidsNodes(s.kids)
    {
    }

    lemma LiteralIsInside(p: nat, end: nat, l: Literal)
      requires p < end < |text| && l == ReadLiteral(text, p, end) && l.Literal?
      ensures p + 1 < end && 0 < l.width
    {
    }
  }

  /** A C string ends at its terminator, whatever stands behind it. */
  lemma {:induction false} EndsAtNul(b: bytes, o: nat)
    requires o < |b| && b[o] == NUL
    ensures CString(b) == CString(b[..o])
    decreases o
  {
    if o > 0 && b[0] != NUL {
      EndsAtNul(b[1..], o - 1);
      assert b[..o][1..] == b[1..][..o - 1];
    }
  }

  lemma UnescapeUnfold(t: bytes, p: nat)
    requires p + 1 < |t|
    ensures Unescape(t, p) ==
            match UnescapeStep(t, p)
            case BadStep => Bad(p)
            case Step(width, out) => Prepend(out, Unescape(t, p + width))
  {
    hide UnescapeStep;
  }

  lemma UnescapeEnds(t: bytes, p: nat)
    requires |t| > 0 && p <= |t| && p + 1 >= |t|
    ensures Unescape(t, p) == Plain([])
    ensures forall out: bytes {:trigger Prepend(out, Unescape(t, p))} :: Prepend(out, Unescape(t, p)) == Plain(out)
  {
    forall out: bytes ensures Prepend(out, Unescape(t, p)) == Plain(out) {
      assert out + [] == out;
    }
  }
}
