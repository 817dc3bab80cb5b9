/** The entry points of the parser. */
module Parsing {
  import opened Bytes
  import opened JsonTree
  import opened LinkedTree
  import opened Ownership
  import opened Parser
  import Strings
  import Grammar

  /** Skips a byte order mark at the start of a buffer of more than four bytes. */
  method SkipUtf8Bom(buffer: ParseBuffer)
    requires buffer.Valid() && buffer.offset == 0
    modifies buffer`offset
    ensures buffer.Valid() && buffer.offset == Grammar.BomEnd(buffer.text)
  {
    if 4 < buffer.content.Length {
      var marked := buffer.LooksAt(BOM);
      if marked {
        buffer.offset := buffer.offset + 3;
      }
    }
  }

  /**
   * Parses a terminated buffer. Success yields a fresh, properly linked tree that denotes the value the grammar gives
   * and owns exactly the blocks allocated on the way. Failure yields the position that is reported, which always lies
   * inside the buffer, and leaves nothing allocated.
   */
  method ParseWithLengthOpts(hooks: Hooks, content: array<byte>, requireNullTerminated: bool)
    returns (root: Node?, parseEnd: nat, ghost s: Shape, ghost value: Json)
    requires Terminated(content[..])
    modifies hooks`live
    ensures var r := Grammar.ParseBuffer(content[..], requireNullTerminated);
            if root != null then
              && r == Ok(value, parseEnd)
              && s.node == root && fresh(Nodes(s)) && Proper(s) && Linked(s) && Denotes(s, value)
              && Nesting(value) <= NESTING_LIMIT
            else r == Err(parseEnd)
    ensures root == null ==> hooks.live == old(hooks.live)
    ensures root != null ==>
              && NoReferences(s) && root.next == null && root.prev == null
              && hooks.live == old(hooks.live) + OwnedBy(Nodes(s)) && old(hooks.live) !! OwnedBy(Nodes(s))
  {
    hide Proper, Linked, Denotes, Nodes, KidsNodes, Grammar.ParseValue, Grammar.Skip, Terminated, Grammar.BomEnd,
      Nesting, OwnedBy, NoReferences;
    ghost var text := content[..];
    var buffer := new ParseBuffer(hooks, content);
    assert text == buffer.text;
    MarkFits(text);
    ghost var start := Grammar.Skip(text, Grammar.BomEnd(text));
    var item, ok;
    item, ok, s := ParseRoot(buffer);
    value := Null;
    if !ok {
      Drop(hooks, item, s);
      parseEnd := if buffer.offset < content.Length then buffer.offset else content.Length - 1;
      return null, parseEnd, s, value;
    }
    value := Grammar.ParseValue(text, start, 0).value;
    if requireNullTerminated {
      assert allocated(Nodes(s)) && allocated(KidsNodes(s.kids));
      buffer.SkipWhitespace();
      if buffer.offset >= content.Length || content[buffer.offset] != NUL {
        Drop(hooks, item, s);
        return null, buffer.offset, s, value;
      }
    }
    NestingBounded(text, start, 0);
    return item, buffer.offset, s, value;
  }

  /** The first value of the buffer, under a new item that is there even if the value cannot be read. */
  method ParseRoot(buffer: ParseBuffer) returns (item: Node, ok: bool, ghost s: Shape)
    requires buffer.Valid() && buffer.offset == 0 && buffer.depth == 0
    modifies buffer`offset, buffer`depth, buffer.hooks`live
    ensures buffer.Valid()
    ensures s.node == item && fresh(Nodes(s)) && Proper(s) && Linked(s) && NoReferences(s)
    ensures item.next == null && item.prev == null && Nodes(s) == {item} + KidsNodes(s.kids)
    ensures buffer.hooks.live == old(buffer.hooks.live) + OwnedBy(Nodes(s))
    ensures old(buffer.hooks.live) !! OwnedBy(Nodes(s))
    ensures var r := Grammar.ParseValue(buffer.text, Grammar.Skip(buffer.text, Grammar.BomEnd(buffer.text)), 0);
            if ok then r.Ok? && buffer.offset == r.next && Denotes(s, r.value) else r.Err? && buffer.offset == r.at
  {
    hide Proper, Linked, Denotes, Nodes, KidsNodes, Grammar.ParseValue, Grammar.Skip, Terminated, Grammar.BomEnd,
      OwnedBy, NodeBlocks, Blank, NoReferences, Sprouted;
    item := new Node();
    buffer.hooks.Allocate(ItemBlock(item));
    BlankBlocks(item, buffer.hooks.live);
    MarkFits(buffer.text);
    SkipUtf8Bom(buffer);
    buffer.SkipWhitespace();
    ok, s := buffer.ParseValue(item);
    Owned(s, item);
    forall b | b in OwnedBy(Nodes(s)) ensures b !in old(buffer.hooks.live) { OwnedNode(Nodes(s), b); }
  }

  /** Deletes what has been parsed so far. */
  method Drop(hooks: Hooks, item: Node, ghost s: Shape)
    requires s.node == item && item.next == null && Proper(s) && Linked(s) && NoReferences(s)
    requires OwnedBy(Nodes(s)) <= hooks.live
    modifies hooks`live
    ensures hooks.live == old(hooks.live - OwnedBy(Nodes(s)))
  {
    hide *;
    assert allocated(Nodes(s));
    LinkedOwns(s);
    OneTree(s);
    Delete(hooks, item, [s]);
  }

  /** A tree that hangs under an item is as good as any. */
  lemma Owned(s: Shape, item: Node)
    requires Sprouted(s, item)
    ensures s.node == item && Proper(s) && Linked(s) && NoReferences(s) && Nodes(s) == {item} + KidsNodes(s.kids)
    ensures ItemBlock(item) in OwnedBy(Nodes(s))
  {
    hide Proper, Linked, NoReferences, OwnedBy;
    ItemOwned(s);
  }

  lemma MarkFits(s: bytes)
    requires Terminated(s)
    ensures Grammar.BomEnd(s) < |s|
  {
  }

  /** What the parser accepts is never nested deeper than the limit. */
  lemma {:induction false} NestingBounded(s: bytes, i: nat, depth: nat)
    requires Terminated(s) && i < |s| && depth <= NESTING_LIMIT
    ensures var r := Grammar.ParseValue(s, i, depth); r.Ok? ==> Nesting(r.value) + depth <= NESTING_LIMIT
    decreases |s| - i, 1
  {
    hide Grammar.ParseArray, Grammar.ParseObject, Grammar.Skip, Strings.ParseString;
    if s[i] == LBRACKET {
      ArrayNestingBounded(s, i, depth);
    } else if s[i] == LBRACE {
      ObjectNestingBounded(s, i, depth);
    }
  }

  lemma {:induction false} ArrayNestingBounded(s: bytes, i: nat, depth: nat)
    requires Terminated(s) && i < |s| && s[i] == LBRACKET && depth <= NESTING_LIMIT
    ensures var r := Grammar.ParseArray(s, i, depth); r.Ok? ==> Nesting(r.value) + depth <= NESTING_LIMIT
    decreases |s| - i, 0
  {
    hide Grammar.ParseItems, Grammar.Skip;
    NothingNested();
    if depth < NESTING_LIMIT && i + 1 < |s| {
      ItemsNestingBounded(s, Grammar.Skip(s, i + 1), depth + 1);
    }
  }

  lemma {:induction false} ObjectNestingBounded(s: bytes, i: nat, depth: nat)
    requires Terminated(s) && i < |s| && s[i] == LBRACE && depth <= NESTING_LIMIT
    ensures var r := Grammar.ParseObject(s, i, depth); r.Ok? ==> Nesting(r.value) + depth <= NESTING_LIMIT
    decreases |s| - i, 0
  {
    hide Grammar.ParseMembers, Grammar.Skip;
    NothingNested();
    if depth < NESTING_LIMIT && i + 1 < |s| {
      MembersNestingBounded(s, Grammar.Skip(s, i + 1), depth + 1);
    }
  }

  lemma NothingNested()
    ensures ItemsNesting(NoItems) == 0 && MembersNesting(NoMembers) == 0
  {
  }

  lemma {:induction false} ItemsNestingBounded(s: bytes, j: nat, depth: nat)
    requires Terminated(s) && j < |s| && depth <= NESTING_LIMIT
    ensures var r := Grammar.ParseItems(s, j, depth); r.Ok? ==> ItemsNesting(r.value) + depth <= NESTING_LIMIT
    decreases |s| - j, 2
  {
    hide Grammar.ParseValue, Grammar.Skip, Nesting;
    NothingNested();
    NestingBounded(s, Grammar.Skip(s, j), depth);
    var r := Grammar.ParseValue(s, Grammar.Skip(s, j), depth);
    if r.Ok? {
      var m := Grammar.Skip(s, r.next);
      if s[m] == COMMA { ItemsNestingBounded(s, m + 1, depth); }
    }
  }

  lemma {:induction false} MembersNestingBounded(s: bytes, j: nat, depth: nat)
    requires Terminated(s) && j < |s| && depth <= NESTING_LIMIT
    ensures var r := Grammar.ParseMembers(s, j, depth); r.Ok? ==> MembersNesting(r.value) + depth <= NESTING_LIMIT
    decreases |s| - j, 2
  {
    hide Grammar.ParseValue, Grammar.ParseKey, Grammar.Skip, Nesting;
    NothingNested();
    var key := Grammar.ParseKey(s, j);
    if key.Ok? {
      NestingBounded(s, Grammar.Skip(s, key.next), depth);
      var r := Grammar.ParseValue(s, Grammar.Skip(s, key.next), depth);
      if r.Ok? {
        var m := Grammar.Skip(s, r.next);
        if s[m] == COMMA { MembersNestingBounded(s, m + 1, depth); }
      }
    }
  }
}
