/** The printer as it runs: a growable or fixed buffer whose offset may lag behind the text, against the rendering. */
module Printer {
  import opened Bytes
  import opened JsonTree
  import opened Numbers
  import opened Strings
  import opened Rendering
  import opened LinkedTree
  import opened TreeViews

  /** One element of an array text moved from what is to come to what is done. */
  lemma ItemDone(done: bytes, items: Items, format: bool, depth: nat, close: bytes)
    requires items.Item? && ItemsPrintable(items)
    ensures done + (RenderItems(items, format, depth) + close)
            == done + Render(items.head, format, depth) + (if items.tail.Item? then Separator(format) else [])
               + (RenderItems(items.tail, format, depth) + close)
  {
    hide Render, Separator;
    var text, rest := Render(items.head, format, depth), RenderItems(items.tail, format, depth);
    var sep := if items.tail.Item? then Separator(format) else [];
    assert RenderItems(items, format, depth) == text + sep + rest;
    assert done + (text + sep + rest + close) == done + text + sep + (rest + close);
  }

  /** One member of an object text moved from what is to come to what is done. */
  lemma MemberDone(done: bytes, members: Members, format: bool, depth: nat, close: bytes)
    requires members.Member? && MembersPrintable(members)
    ensures done + (RenderMembers(members, format, depth) + close)
            == done + Only(format, Tabs(depth)) + Quoted(members.key) + ([COLON] + Only(format, [TAB]))
               + Render(members.value, format, depth) + LineEnd(members.rest.Member?, format)
               + (RenderMembers(members.rest, format, depth) + close)
  {
    hide Render, LineEnd, Tabs, Quoted, Only;
    var tabs, key, colon := Only(format, Tabs(depth)), Quoted(members.key), Only(format, [TAB]);
    var value, end := Render(members.value, format, depth), LineEnd(members.rest.Member?, format);
    var rest := RenderMembers(members.rest, format, depth);
    assert RenderMembers(members, format, depth) == tabs + key + [COLON] + colon + value + end + rest;
    assert done + (tabs + key + [COLON] + colon + value + end + rest + close)
        == done + tabs + key + ([COLON] + colon) + value + end + (rest + close);
  }

  class PrintBuffer {
    var buffer: array<byte>
    var offset: nat
    var depth: nat
    const noalloc: bool
    const format: bool
    const hasRealloc: bool

    constructor (buffer: array<byte>, noalloc: bool, format: bool, hasRealloc: bool)
      requires buffer.Length <= INT_MAX && (noalloc || hasRealloc || buffer.Length > 0)
      ensures Valid() && this.buffer == buffer && Ready([]) && depth == 0
      ensures this.noalloc == noalloc && this.format == format && this.hasRealloc == hasRealloc
    {
      this.buffer := buffer;
      this.noalloc, this.format, this.hasRealloc := noalloc, format, hasRealloc;
      offset, depth := 0, 0;
    }

    ghost predicate Valid()
      reads this`buffer, this`offset
    {
      && buffer.Length <= INT_MAX
      && (buffer.Length > 0 ==> offset < buffer.Length)
      && (noalloc || hasRealloc || buffer.Length > 0)
    }

    /** The number of bytes the buffer may come to hold. */
    ghost function Limit(): int
      reads this`buffer
    {
      if noalloc then buffer.Length else INT_MAX
    }

    /** The buffer starts with `t`. */
    ghost predicate Shows(t: bytes)
      reads this`buffer, buffer
    {
      |t| <= buffer.Length && forall k | 0 <= k < |t| :: buffer[k] == t[k]
    }

    /** The text so far is `t` and the offset is at its end. */
    ghost predicate Ready(t: bytes)
      reads this`buffer, this`offset, buffer
    {
      Valid() && Shows(t) && offset == |t|
    }

    /** The text so far is `t` with its terminator; the offset may lie behind, but not in front of `from`. */
    ghost predicate Trailing(t: bytes, from: nat)
      reads this`buffer, this`offset, buffer
    {
      Valid() && Shows(t) && from <= offset <= |t| < buffer.Length && buffer[|t|] == NUL
    }

    /** Makes room for `needed` more bytes and a terminator, growing the buffer unless it is fixed. */
    method Ensure(needed: nat, ghost t: bytes) returns (ok: bool)
      requires Ready(t)
      modifies this`buffer
      ensures ok <==> |t| + needed + 1 <= Limit()
      ensures ok ==> Ready(t) && |t| + needed + 1 <= buffer.Length
      ensures buffer == old(buffer) || (fresh(buffer) && !noalloc)
      ensures Limit() == old(Limit())
    {
      if buffer.Length > 0 && offset >= buffer.Length {
        return false;
      }
      if needed > INT_MAX {
        return false;
      }
      var total := needed + offset + 1;
      if total <= buffer.Length {
        return true;
      }
      if noalloc {
        return false;
      }
      var newSize;
      if total > INT_MAX / 2 {
        if total <= INT_MAX {
          newSize := INT_MAX;
        } else {
          return false;
        }
      } else {
        newSize := total * 2;
      }
      var newBuffer := new byte[newSize];
      if hasRealloc {
        // reallocation keeps the whole old block
        forall k | 0 <= k < buffer.Length { newBuffer[k] := buffer[k]; }
      } else {
        // by hand only the text and the byte behind it are kept
        forall k | 0 <= k < offset + 1 { newBuffer[k] := buffer[k]; }
      }
      buffer := newBuffer;
      ok := true;
    }

    /** Moves the offset to the terminator, as `strlen` finds it. */
    method UpdateOffset(ghost before: bytes, ghost text: bytes)
      requires Trailing(before + text, |before|) && NulFree(text)
      modifies this`offset
      ensures Ready(before + text)
    {
      while buffer[offset] != NUL
        invariant Valid() && |before| <= offset <= |before + text|
        decreases |before + text| - offset
      {
        offset := offset + 1;
      }
    }

    /** Writes one byte at the output position. */
    method Put(p: nat, b: byte, ghost t: bytes)
      requires Shows(t) && p == |t| < buffer.Length
      modifies buffer
      ensures Shows(t + [b])
    {
      buffer[p] := b;
    }

    /** Copies a text to the output position. */
    method PutAll(p: nat, text: bytes, ghost t: bytes)
      requires Shows(t) && p == |t| && |t| + |text| <= buffer.Length
      modifies buffer
      ensures Shows(t + text)
    {
      var k := 0;
      assert t + text[..0] == t;
      while k < |text|
        invariant 0 <= k <= |text| && Shows(t + text[..k])
      {
        Put(p + k, text[k], t + text[..k]);
        assert t + text[..k] + [text[k]] == t + text[..k + 1];
        k := k + 1;
      }
      assert text[..|text|] == text;
    }

    /** Writes the terminator at the output position. */
    method Terminate(p: nat, ghost t: bytes, ghost from: nat)
      requires Valid() && Shows(t) && p == |t| < buffer.Length && from <= offset <= |t|
      modifies buffer
      ensures Trailing(t, from)
    {
      buffer[p] := NUL;
    }

    /** A word: the offset is left in front of it. */
    method PrintWord(word: bytes, ghost t: bytes) returns (ok: bool)
      requires Ready(t)
      modifies this`buffer, buffer
      ensures ok <==> |t| + |word| + 2 <= Limit()
      ensures ok ==> Trailing(t + word, |t|)
      ensures (buffer == old(buffer) || (fresh(buffer) && !noalloc)) && Limit() == old(Limit())
    {
      ok := Ensure(|word| + 1, t);
      if ok {
        PutAll(offset, word, t);
        Terminate(offset + |word|, t + word, |t|);
      }
    }

    /** A number of the integer fragment: the offset is moved behind it. */
    method PrintNumber(value: real, ghost t: bytes) returns (ok: bool)
      requires Ready(t) && IsInt(value)
      modifies this`buffer, this`offset, buffer
      ensures var text := Decimal(Saturate(value));
              && (ok <==> |t| + |text| + 2 <= Limit())
              && (ok ==> Trailing(t + text, |t|) && offset == |t + text|)
      ensures (buffer == old(buffer) || (fresh(buffer) && !noalloc)) && Limit() == old(Limit())
    {
      hide Decimal, Saturate;
      var number := Decimal(Saturate(value));
      ok := Ensure(|number| + 1, t);
      if ok {
        PutAll(offset, number, t);
        Terminate(offset + |number|, t + number, |t|);
        offset := offset + |number|;
      }
    }

    /** The number of bytes escaping adds. */
    static method CountEscapes(input: bytes) returns (extra: nat)
      ensures |Escape(input)| == |input| + extra
      ensures extra == 0 ==> Escape(input) == input
    {
      hide Escape, EscapeByte;
      extra := 0;
      var i := 0;
      ghost var done: bytes := [];
      assert input[0..] == input && [] + Escape(input) == Escape(input);
      while i < |input|
        invariant 0 <= i <= |input|
        invariant |done| == i + extra && done + Escape(input[i..]) == Escape(input)
        invariant extra == 0 ==> done == input[..i]
      {
        var b := input[i];
        EscapeStep(input, i);
        EscapeSize(b);
        Regroup(done, EscapeByte(b), Escape(input[i + 1..]));
        if HasShortEscape(b) {
          extra := extra + 1;
        } else if b < 32 {
          extra := extra + 5;
        }
        done := done + EscapeByte(b);
        assert input[..i] + [b] == input[..i + 1];
        i := i + 1;
      }
      NothingToEscape();
      assert input[i..] == [] && input[..i] == input && done + [] == done;
    }

    static lemma EscapeSize(b: byte)
      ensures |EscapeByte(b)| == if HasShortEscape(b) then 2 else if b < 32 then 6 else 1
      ensures !HasShortEscape(b) && b >= 32 ==> EscapeByte(b) == [b]
    {
    }

    static lemma NothingToEscape()
      ensures Escape([]) == []
    {
    }

    /** Writes one byte of a string, escaped if need be. */
    method PutEscapedByte(p: nat, b: byte, ghost t: bytes) returns (q: nat)
      requires Shows(t) && p == |t| && |t| + |EscapeByte(b)| < buffer.Length
      modifies buffer
      ensures Shows(t + EscapeByte(b)) && q == p + |EscapeByte(b)|
    {
      hide Shows;
      if b > 31 && b != QUOTE && b != BACKSLASH {
        Put(p, b, t);
        return p + 1;
      }
      Put(p, BACKSLASH, t);
      q := p + 1;
      if HasShortEscape(b) {
        Put(q, ShortEscape(b), t + [BACKSLASH]);
        q := q + 1;
        assert t + [BACKSLASH] + [ShortEscape(b)] == t + EscapeByte(b);
      } else {
        var unit := [LOWER_U, ZERO, ZERO, HexLower(b / 16), HexLower(b % 16)];
        PutAll(q, unit, t + [BACKSLASH]);
        assert t + [BACKSLASH] + unit == t + EscapeByte(b);
        q := q + 5;
      }
    }

    /** Writes the escaped form of `input` at the output position. */
    method PutEscaped(p: nat, input: bytes, ghost t: bytes)
      requires Shows(t) && p == |t| && |t| + |Escape(input)| < buffer.Length
      modifies buffer
      ensures Shows(t + Escape(input))
    {
      hide Shows, EscapeByte;
      var q := p;
      var i := 0;
      ghost var done := t;
      ghost var all := t + Escape(input);
      assert input[0..] == input;
      while i < |input|
        invariant 0 <= i <= |input| && q == |done|
        invariant Shows(done) && done + Escape(input[i..]) == all
      {
        EscapeStep(input, i);
        Regroup(done, EscapeByte(input[i]), Escape(input[i + 1..]));
        q := PutEscapedByte(q, input[i], done);
        done := done + EscapeByte(input[i]);
        i := i + 1;
      }
      assert input[i..] == [] && Escape([]) == [];
      assert done + [] == done;
    }

    static lemma EscapeStep(input: bytes, i: nat)
      requires i < |input|
      ensures Escape(input[i..]) == EscapeByte(input[i]) + Escape(input[i + 1..])
    {
      assert input[i..][0] == input[i] && input[i..][1..] == input[i + 1..];
    }

    /** A string literal: the offset is left in front of it. */
    method PrintString(input: bytes, ghost t: bytes) returns (ok: bool)
      requires Ready(t)
      modifies this`buffer, buffer
      ensures ok <==> |t| + |Quoted(input)| + 2 <= Limit()
      ensures ok ==> Trailing(t + Quoted(input), |t|)
      ensures (buffer == old(buffer) || (fresh(buffer) && !noalloc)) && Limit() == old(Limit())
    {
      hide Escape, Shows;
      var extra := CountEscapes(input);
      var outputLength := |input| + extra;
      ok := Ensure(outputLength + 3, t);
      if !ok {
        return;
      }
      ghost var escaped := Escape(input);
      Put(offset, QUOTE, t);
      if extra == 0 {
        PutAll(offset + 1, input, t + [QUOTE]);
      } else {
        PutEscaped(offset + 1, input, t + [QUOTE]);
      }
      Put(offset + 1 + outputLength, QUOTE, t + [QUOTE] + escaped);
      assert t + [QUOTE] + escaped + [QUOTE] == t + Quoted(input);
      Terminate(offset + outputLength + 2, t + Quoted(input), |t|);
    }

    /** A string that may be missing; then it prints as an empty one. */
    method PrintStringPtr(input: Option<bytes>, ghost t: bytes) returns (ok: bool)
      requires Ready(t)
      modifies this`buffer, buffer
      ensures var text := Quoted(if input == None then [] else input.value);
              && (ok <==> |t| + |text| + 2 <= Limit())
              && (ok ==> Trailing(t + text, |t|))
      ensures (buffer == old(buffer) || (fresh(buffer) && !noalloc)) && Limit() == old(Limit())
    {
      hide Shows;
      if input == None {
        assert Quoted([]) == [QUOTE, QUOTE];
        ok := Ensure(3, t);
        if ok {
          PutAll(offset, [QUOTE, QUOTE], t);
          Terminate(offset + 2, t + [QUOTE, QUOTE], |t|);
        }
        return;
      }
      ok := PrintString(input.value, t);
    }

    /** The value that an item holds, printed behind `t`; without a valid item nothing is printed. */
    method PrintValue(item: Node?, ghost s: Shape, ghost v: Json, ghost t: bytes) returns (ok: bool)
      requires Ready(t) && (item != null && item.kind != InvalidKind ==> View(item, s, v) && Printable(v))
      modifies this`buffer, this`offset, this`depth, buffer
      ensures item == null || item.kind == InvalidKind ==> !ok
      ensures item != null && item.kind != InvalidKind ==>
                var text := Render(v, format, old(depth));
                && (ok <==> |t| + |text| + 2 <= Limit())
                && (ok ==> Trailing(t + text, |t|) && depth == old(depth))
      ensures (buffer == old(buffer) || (fresh(buffer) && !noalloc)) && Limit() == old(Limit())
      decreases Size(v)
    {
      hide Shows, Trailing, Ready, Decimal, Quoted, RenderItems, RenderMembers, View;
      if item == null {
        return false;
      }
      if item.kind != InvalidKind { ViewKind(item, s, v); }
      match item.kind
      case NullKind => ok := PrintWord(NULL_WORD, t);
      case FalseKind => ok := PrintWord(FALSE_WORD, t);
      case TrueKind => ok := PrintWord(TRUE_WORD, t);
      case NumberKind => ok := PrintNumber(item.valuedouble, t);
      case StringKind => ok := PrintStringPtr(item.valuestring, t);
      case ArrayKind => ok := PrintArray(item, s, v.items, t);
      case ObjectKind => ok := PrintObject(item, s, v.members, t);
      case InvalidKind => ok := false;
    }

    /** Writes a text at the offset and moves the offset behind it. */
    method Append(text: bytes, ghost t: bytes)
      requires Ready(t) && |t| + |text| < buffer.Length
      modifies this`offset, buffer
      ensures Ready(t + text)
    {
      PutAll(offset, text, t);
      offset := offset + |text|;
    }

    /** Writes a terminator at the offset. */
    method EndHere(ghost t: bytes)
      requires Ready(t) && |t| < buffer.Length
      modifies buffer
      ensures Ready(t) && buffer[|t|] == NUL
    {
      buffer[offset] := NUL;
    }

    /** Writes `n` tabs at the output position. */
    method PutTabs(p: nat, n: nat, ghost t: bytes)
      requires Shows(t) && p == |t| && |t| + n <= buffer.Length
      modifies buffer
      ensures Shows(t + Tabs(n))
    {
      var i := 0;
      assert t + Tabs(0) == t;
      while i < n
        invariant 0 <= i <= n && Shows(t + Tabs(i))
      {
        Put(p + i, TAB, t + Tabs(i));
        assert t + Tabs(i) + [TAB] == t + Tabs(i + 1);
        i := i + 1;
      }
    }

    /** One turn of the loop over the elements: the element and, if another follows, the separator. */
    method PrintItem(current: Node, ghost s: Shape, ghost items: Items, ghost done: bytes) returns (ok: bool)
      requires Ready(done) && items.Item? && ItemsPrintable(items)
      requires View(current, s, items.head) && (current.next != null <==> items.tail.Item?)
      modifies this`buffer, this`offset, this`depth, buffer
      ensures var text := Render(items.head, format, old(depth)) + (if items.tail.Item? then Separator(format) else []);
              && (ok ==> Ready(done + text) && depth == old(depth))
              && (ok && items.tail.Item? ==> offset < buffer.Length && buffer[offset] == NUL)
              && (!ok ==> |done| + |text| + 3 > Limit())
      ensures (buffer == old(buffer) || (fresh(buffer) && !noalloc)) && Limit() == old(Limit())
      decreases ItemsSize(items), 0
    {
      hide Shows, Render, Printable, View;
      ghost var text := Render(items.head, format, depth);
      RenderNulFree(items.head, format, depth);
      ViewKind(current, s, items.head);
      ok := PrintValue(current, s, items.head, done);
      if !ok {
        return;
      }
      UpdateOffset(done, text);
      if current.next != null {
        ok := Ensure(if format then 3 else 2, done + text);
        if !ok {
          return;
        }
        Append(Separator(format), done + text);
        EndHere(done + text + Separator(format));
        Regroup(done, text, Separator(format));
      } else {
        assert text + [] == text;
      }
    }

    /** An array: the offset is left in front of the closing bracket. */
    method PrintArray(item: Node, ghost s: Shape, ghost items: Items, ghost t: bytes) returns (ok: bool)
      requires Ready(t) && View(item, s, Array(items)) && ItemsPrintable(items)
      modifies this`buffer, this`offset, this`depth, buffer
      ensures var text := [LBRACKET] + RenderItems(items, format, old(depth) + 1) + [RBRACKET];
              && (ok <==> |t| + |text| + 2 <= Limit())
              && (ok ==> Trailing(t + text, |t|) && depth == old(depth))
      ensures (buffer == old(buffer) || (fresh(buffer) && !noalloc)) && Limit() == old(Limit())
      decreases ItemsSize(items), 2
    {
      hide Shows, RenderItems, View;
      assert allocated(KidsNodes(s.kids));
      ghost var body := RenderItems(items, format, depth + 1);
      ok := Ensure(1, t);
      if !ok {
        return;
      }
      Append([LBRACKET], t);
      depth := depth + 1;
      ghost var done;
      ok, done := PrintItems(item, s, items, t + [LBRACKET]);
      if !ok {
        return;
      }
      ok := CloseArray(done, t);
      if ok {
        assert done + [RBRACKET] == t + ([LBRACKET] + body + [RBRACKET]);
        depth := depth - 1;
      }
    }

    /** The closing bracket, which the offset does not follow. */
    method CloseArray(ghost done: bytes, ghost t: bytes) returns (ok: bool)
      requires Ready(done) && t <= done
      modifies this`buffer, buffer
      ensures ok <==> |done| + 3 <= Limit()
      ensures ok ==> Trailing(done + [RBRACKET], |t|)
      ensures (buffer == old(buffer) || (fresh(buffer) && !noalloc)) && Limit() == old(Limit())
    {
      hide Shows;
      ok := Ensure(2, done);
      if ok {
        Put(offset, RBRACKET, done);
        Terminate(offset + 1, done + [RBRACKET], |t|);
      }
    }

    /** The elements of an array. */
    method PrintItems(item: Node, ghost s: Shape, ghost items: Items, ghost t: bytes)
      returns (ok: bool, ghost done: bytes)
      requires Ready(t) && View(item, s, Array(items)) && ItemsPrintable(items)
      modifies this`buffer, this`offset, this`depth, buffer
      ensures (ok ==> Ready(done) && done == t + RenderItems(items, format, depth) && depth == old(depth))
              && (!ok ==> |t| + |RenderItems(items, format, old(depth))| + 3 > Limit())
      ensures (buffer == old(buffer) || (fresh(buffer) && !noalloc)) && Limit() == old(Limit())
      decreases ItemsSize(items), 1
    {
      hide Shows, RenderItems, Separator, Render, View;
      var current := item.child;
      ghost var i: nat, rest := 0, items;
      ElementAt(item, s, items, i, rest);
      done := t;
      ghost var d := depth;
      ghost var close: bytes := [RBRACKET];
      ghost var full := t + (RenderItems(items, format, d) + close);
      ok := true;
      while current != null
        invariant View(item, s, Array(items)) && i <= |s.kids| == |ListOf(items)| && ListOf(rest) == ListOf(items)[i..]
        invariant current == if i < |s.kids| then s.kids[i].node else null
        invariant ok && Ready(done) && ItemsPrintable(rest) && depth == d
        invariant done + (RenderItems(rest, format, d) + close) == full
        invariant ItemsSize(rest) <= ItemsSize(items)
        invariant (buffer == old(buffer) || (fresh(buffer) && !noalloc)) && Limit() == old(Limit())
        decreases |s.kids| - i
      {
        ElementAt(item, s, items, i, rest);
        ghost var text := Render(rest.head, format, d);
        ghost var sep := if rest.tail.Item? then Separator(format) else [];
        ItemDone(done, rest, format, d, close);
        Regroup(done, text, sep);
        assert allocated(KidsNodes(s.kids));
        ok := PrintItem(current, s.kids[i], rest, done);
        if !ok {
          return;
        }
        done := done + (text + sep);
        current := current.next;
        i, rest := i + 1, rest.tail;
      }
      ElementAt(item, s, items, i, rest);
      NoItemsText(format, d);
      SameFront(done, t + RenderItems(items, format, d), close);
    }

    /** The tabs in front of a key. */
    method Indent(ghost t: bytes) returns (ok: bool)
      requires Ready(t)
      modifies this`buffer, this`offset, buffer
      ensures ok ==> Ready(t + Only(format, Tabs(depth)))
      ensures !ok ==> |t| + |Only(format, Tabs(depth))| + 1 > Limit()
      ensures (buffer == old(buffer) || (fresh(buffer) && !noalloc)) && Limit() == old(Limit())
    {
      hide Shows;
      if !format {
        assert t + [] == t;
        return true;
      }
      ok := Ensure(depth, t);
      if ok {
        PutTabs(offset, depth, t);
        offset := offset + depth;
      }
    }

    /** The key of a member with the white space around it, up to its value. */
    method PrintKey(name: Option<bytes>, ghost key: bytes, ghost t: bytes) returns (ok: bool)
      requires Ready(t) && NulFree(key) && name == Some(key)
      modifies this`buffer, this`offset, buffer
      ensures var text := Only(format, Tabs(depth)) + Quoted(key) + ([COLON] + Only(format, [TAB]));
              && (ok ==> Ready(t + text))
              && (!ok ==> |t| + |text| + 2 > Limit())
      ensures (buffer == old(buffer) || (fresh(buffer) && !noalloc)) && Limit() == old(Limit())
    {
      hide Shows, Quoted, Tabs, Trailing;
      ok := Indent(t);
      if !ok {
        return;
      }
      ghost var done := t + Only(format, Tabs(depth));
      QuotedNulFree(key);
      ok := PrintStringPtr(name, done);
      if !ok {
        return;
      }
      UpdateOffset(done, Quoted(key));
      done := done + Quoted(key);
      ok := Ensure(if format then 2 else 1, done);
      if !ok {
        return;
      }
      Append([COLON] + Only(format, [TAB]), done);
      assert done + ([COLON] + Only(format, [TAB]))
          == t + (Only(format, Tabs(depth)) + Quoted(key) + ([COLON] + Only(format, [TAB])));
    }

    /** The key line, the value and the end of the line of a member. */
    ghost function MemberText(members: Members, d: nat): bytes
      requires members.Member? && MembersPrintable(members)
    {
      Only(format, Tabs(d)) + Quoted(members.key) + ([COLON] + Only(format, [TAB]))
      + Render(members.value, format, d) + LineEnd(members.rest.Member?, format)
    }

    /** One turn of the loop over the members. */
    method PrintMember(current: Node, ghost s: Shape, ghost members: Members, ghost done: bytes) returns (ok: bool)
      requires Ready(done) && members.Member? && MembersPrintable(members)
      requires View(current, s, members.value) && current.key == Some(members.key)
      requires current.next != null <==> members.rest.Member?
      modifies this`buffer, this`offset, this`depth, buffer
      ensures (ok ==> Ready(done + MemberText(members, depth)) && depth == old(depth))
              && (!ok ==> |done| + |MemberText(members, old(depth))| + 3 > Limit())
      ensures (buffer == old(buffer) || (fresh(buffer) && !noalloc)) && Limit() == old(Limit())
      decreases MembersSize(members), 0
    {
      hide Shows, Ready, Trailing, Render, Printable, Quoted, Tabs, Only, LineEnd, View;
      assert allocated(KidsNodes(s.kids));
      ghost var line := Only(format, Tabs(depth)) + Quoted(members.key) + ([COLON] + Only(format, [TAB]));
      ghost var text := Render(members.value, format, depth);
      LineEndSize(members.rest.Member?);
      RenderNulFree(members.value, format, depth);
      ok := PrintKey(current.key, members.key, done);
      if !ok {
        return;
      }
      ViewKind(current, s, members.value);
      ok := PrintValue(current, s, members.value, done + line);
      if !ok {
        return;
      }
      UpdateOffset(done + line, text);
      var more := current.next != null;
      ok := EndLine(more, done + line + text);
      assert done + line + text + LineEnd(more, format) == done + (line + text + LineEnd(more, format));
    }

    /** The end of a member's line. */
    method EndLine(more: bool, ghost t: bytes) returns (ok: bool)
      requires Ready(t)
      modifies this`buffer, this`offset, buffer
      ensures ok ==> Ready(t + LineEnd(more, format)) && offset < buffer.Length && buffer[offset] == NUL
      ensures !ok ==> |t| + |LineEnd(more, format)| + 2 > Limit()
      ensures (buffer == old(buffer) || (fresh(buffer) && !noalloc)) && Limit() == old(Limit())
    {
      hide Shows, LineEnd;
      LineEndSize(more);
      ok := Ensure(1 + (if format then 1 else 0) + (if more then 1 else 0), t);
      if ok {
        Append(LineEnd(more, format), t);
        EndHere(t + LineEnd(more, format));
      }
    }

    lemma LineEndSize(more: bool)
      ensures |LineEnd(more, format)| == (if format then 1 else 0) + (if more then 1 else 0)
    {
    }

    /** An object: the offset is left in front of the white space before the closing brace. */
    method PrintObject(item: Node, ghost s: Shape, ghost members: Members, ghost t: bytes) returns (ok: bool)
      requires Ready(t) && View(item, s, Object(members)) && MembersPrintable(members)
      modifies this`buffer, this`offset, this`depth, buffer
      ensures var text := [LBRACE] + Only(format, [NEWLINE]) + RenderMembers(members, format, old(depth) + 1)
                          + Only(format, Tabs(old(depth))) + [RBRACE];
              && (ok <==> |t| + |text| + 2 <= Limit())
              && (ok ==> Trailing(t + text, |t|) && depth == old(depth))
      ensures (buffer == old(buffer) || (fresh(buffer) && !noalloc)) && Limit() == old(Limit())
      decreases MembersSize(members), 2
    {
      hide Shows, Trailing, RenderMembers, Tabs, MemberText, View;
      assert allocated(KidsNodes(s.kids));
      ghost var d := depth + 1;
      ghost var tabs := Only(format, Tabs(depth));
      ghost var close := tabs + [RBRACE];
      ghost var open := [LBRACE] + Only(format, [NEWLINE]);
      Assemble(t, open, RenderMembers(members, format, d), tabs);
      ok := Ensure(if format then 3 else 2, t);
      if !ok {
        return;
      }
      depth := depth + 1;
      Append([LBRACE] + Only(format, [NEWLINE]), t);
      ghost var done;
      ok, done := PrintMembers(item, s, members, t + open, close);
      if !ok {
        return;
      }
      ok := CloseObject(done, t, close);
      if ok {
        depth := depth - 1;
      }
    }

    static lemma Assemble(t: bytes, open: bytes, body: bytes, tabs: bytes)
      ensures t + open + body + (tabs + [RBRACE]) == t + (open + body + tabs + [RBRACE])
    {
    }

    /** The members of an object; `close` is what is still to come behind them. */
    method PrintMembers(item: Node, ghost s: Shape, ghost members: Members, ghost t: bytes, ghost close: bytes)
      returns (ok: bool, ghost done: bytes)
      requires Ready(t) && View(item, s, Object(members)) && MembersPrintable(members) && close != []
      modifies this`buffer, this`offset, this`depth, buffer
      ensures (ok ==> Ready(done) && done == t + RenderMembers(members, format, depth) && depth == old(depth))
              && (!ok ==> |t| + |RenderMembers(members, format, old(depth))| + |close| + 2 > Limit())
      ensures (buffer == old(buffer) || (fresh(buffer) && !noalloc)) && Limit() == old(Limit())
      decreases MembersSize(members), 1
    {
      hide Shows, RenderMembers, MemberText, View;
      var current := item.child;
      ghost var i: nat, rest := 0, members;
      MemberAt(item, s, members, i, rest);
      done := t;
      ghost var d := depth;
      ghost var full := t + (RenderMembers(members, format, d) + close);
      ok := true;
      while current != null
        invariant View(item, s, Object(members)) && i <= |s.kids| == |PairsOf(members)|
        invariant PairsOf(rest) == PairsOf(members)[i..] && current == if i < |s.kids| then s.kids[i].node else null
        invariant ok && Ready(done) && MembersPrintable(rest) && depth == d
        invariant done + (RenderMembers(rest, format, d) + close) == full
        invariant MembersSize(rest) <= MembersSize(members)
        invariant (buffer == old(buffer) || (fresh(buffer) && !noalloc)) && Limit() == old(Limit())
        decreases |s.kids| - i
      {
        MemberAt(item, s, members, i, rest);
        MemberMoves(done, rest, d, close);
        assert allocated(KidsNodes(s.kids));
        ok := PrintMember(current, s.kids[i], rest, done);
        if !ok {
          return;
        }
        done := done + MemberText(rest, d);
        current := current.next;
        i, rest := i + 1, rest.rest;
      }
      MemberAt(item, s, members, i, rest);
      NoMembersText(format, d);
      SameFront(done, t + RenderMembers(members, format, d), close);
    }

    lemma MemberMoves(done: bytes, members: Members, d: nat, close: bytes)
      requires members.Member? && MembersPrintable(members)
      ensures done + (RenderMembers(members, format, d) + close)
              == done + MemberText(members, d) + (RenderMembers(members.rest, format, d) + close)
    {
      hide Render, LineEnd, Tabs, Quoted, Only, RenderMembers;
      MemberDone(done, members, format, d, close);
      var tabs, key, colon := Only(format, Tabs(d)), Quoted(members.key), [COLON] + Only(format, [TAB]);
      var value, end := Render(members.value, format, d), LineEnd(members.rest.Member?, format);
      assert done + (tabs + key + colon + value + end) == done + tabs + key + colon + value + end;
    }

    static lemma SameFront(done: bytes, front: bytes, close: bytes)
      ensures done + ([] + close) == front + close ==> done == front
      ensures forall a: bytes, b: bytes {:trigger a + (b + close)} :: a + (b + close) == a + b + close
    {
      assert [] + close == close;
      if done + close == front + close {
        assert |done| == |front|;
        assert (done + close)[..|done|] == done;
        assert (front + close)[..|front|] == front;
      }
    }

    /** The closing brace and the tabs in front of it, which the offset does not follow. */
    method CloseObject(ghost done: bytes, ghost t: bytes, ghost close: bytes) returns (ok: bool)
      requires Ready(done) && t <= done && depth > 0 && close == Only(format, Tabs(depth - 1)) + [RBRACE]
      modifies this`buffer, buffer
      ensures ok <==> |done| + |close| + 2 <= Limit()
      ensures ok ==> Trailing(done + close, |t|)
      ensures (buffer == old(buffer) || (fresh(buffer) && !noalloc)) && Limit() == old(Limit())
    {
      hide Shows;
      ok := Ensure(if format then depth + 1 else 2, done);
      if !ok {
        return;
      }
      var p := offset;
      ghost var tabbed := done + Only(format, Tabs(depth - 1));
      if format {
        PutTabs(p, depth - 1, done);
        p := p + depth - 1;
      } else {
        assert done + [] == done;
      }
      Put(p, RBRACE, tabbed);
      Terminate(p + 1, tabbed + [RBRACE], |t|);
      assert tabbed + [RBRACE] == done + close;
    }
  }

  // ----- The entry points -----

  const DEFAULT_BUFFER_SIZE: nat := 256

  /**
   * Prints into a fresh string of exactly the right size. It fails without a valid item, and when the text and two
   * more bytes exceed what an `int` can count.
   */
  method Print(item: Node?, format: bool, hasRealloc: bool, ghost s: Shape, ghost v: Json)
    returns (printed: array?<byte>)
    requires item != null && item.kind != InvalidKind ==> View(item, s, v) && Printable(v)
    ensures item == null || item.kind == InvalidKind ==> printed == null
    ensures item != null && item.kind != InvalidKind ==>
              var text := Render(v, format, 0);
              && (printed != null <==> |text| + 2 <= INT_MAX)
              && (printed != null ==> fresh(printed) && printed[..] == text + [NUL])
  {
    hide Render, Printable, View;
    assert allocated(KidsNodes(s.kids));
    var first := new byte[DEFAULT_BUFFER_SIZE];
    var p := new PrintBuffer(first, false, format, hasRealloc);
    var ok := p.PrintValue(item, s, v, []);
    if !ok {
      return null;
    }
    ghost var text := Render(v, format, 0);
    assert [] + text == text;
    RenderNulFree(v, format, 0);
    p.UpdateOffset([], text);
    var result := new byte[p.offset + 1];
    forall k | 0 <= k < p.offset { result[k] := p.buffer[k]; }
    result[p.offset] := NUL;
    assert result[..] == text + [NUL];
    return result;
  }

  /** Prints into a buffer that starts at the guessed size and is returned as it is. */
  method PrintBuffered(item: Node?, prebuffer: int, format: bool, hasRealloc: bool, ghost s: Shape, ghost v: Json)
    returns (printed: array?<byte>)
    requires item != null && item.kind != InvalidKind ==> View(item, s, v) && Printable(v)
    requires prebuffer <= INT_MAX && (hasRealloc || prebuffer != 0)
    ensures item == null || item.kind == InvalidKind || prebuffer < 0 ==> printed == null
    ensures item != null && item.kind != InvalidKind && prebuffer >= 0 ==>
              var text := Render(v, format, 0);
              && (printed != null <==> |text| + 2 <= INT_MAX)
              && (printed != null ==> |text| < printed.Length && printed[..|text|] == text && printed[|text|] == NUL)
  {
    hide Render, Printable, View;
    if prebuffer < 0 {
      return null;
    }
    assert allocated(KidsNodes(s.kids));
    var first := new byte[prebuffer];
    var p := new PrintBuffer(first, false, format, hasRealloc);
    var ok := p.PrintValue(item, s, v, []);
    if !ok {
      return null;
    }
    assert [] + Render(v, format, 0) == Render(v, format, 0);
    return p.buffer;
  }

  /**
   * Prints into the caller's buffer, which is never replaced. The buffer suffices exactly when it holds two bytes more
   * than the text; the header advises five.
   */
  method PrintPreallocated(item: Node?, buffer: array?<byte>, length: int, format: bool, ghost s: Shape, ghost v: Json)
    returns (ok: bool)
    requires item != null && item.kind != InvalidKind ==> View(item, s, v) && Printable(v)
    requires length <= INT_MAX && (buffer != null && length >= 0 ==> length == buffer.Length)
    modifies buffer
    ensures item == null || item.kind == InvalidKind || buffer == null ==> !ok
    ensures item != null && item.kind != InvalidKind && buffer != null ==>
              var text := Render(v, format, 0);
              && (ok <==> length >= |text| + 2)
              && (ok ==> buffer[..|text|] == text && buffer[|text|] == NUL)
  {
    hide Render, Printable, View;
    if length < 0 || buffer == null {
      return false;
    }
    assert allocated(KidsNodes(s.kids));
    var p := new PrintBuffer(buffer, true, format, true);
    ok := p.PrintValue(item, s, v, []);
    if ok { assert [] + Render(v, format, 0) == Render(v, format, 0); }
  }
}
