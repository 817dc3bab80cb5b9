/** Printing a linked tree, minifying what was printed, and parsing it again. */
module RoundTrip {
  import opened Bytes
  import opened JsonTree
  import opened LinkedTree
  import opened Ownership
  import opened Rendering
  import opened TreeViews
  import opened Minify
  import opened MinifyPrinted
  import opened Printer
  import Grammar
  import Parsing

  /** Printing and parsing on the heap: a fresh linked tree that holds the same value, if nesting and size permit. */
  method PrintAndParse(hooks: Hooks, item: Node, format: bool, hasRealloc: bool, ghost s: Shape, ghost v: Json)
    returns (root: Node?, ghost t: Shape)
    requires View(item, s, v) && Printable(v)
    modifies hooks`live
    ensures root != null <==> |Render(v, format, 0)| + 2 <= INT_MAX && Nesting(v) <= NESTING_LIMIT
    ensures root != null ==> fresh(Nodes(t)) && Proper(t) && View(root, t, v)
  {
    hide *;
    ViewKind(item, s, v);
    var printed := Print(item, format, hasRealloc, s, v);
    t := s;
    if printed == null {
      return null, t;
    }
    ghost var text := Render(v, format, 0);
    PrintThenParse(v, format);
    AsText(text);
    var parseEnd;
    ghost var value;
    root, parseEnd, t, value := Parsing.ParseWithLengthOpts(hooks, printed, true);
    if root != null { ViewIs(root, t, v); }
  }

  lemma AsText(text: bytes)
    ensures Terminated(text + [NUL]) && Grammar.ParseText(text, true) == Grammar.ParseBuffer(text + [NUL], true)
  {
    hide Grammar.ParseBuffer;
  }

  /** The array holds the text with its terminator. */
  predicate Contains(buffer: array<byte>, text: bytes)
    reads buffer
  {
    |text| < buffer.Length && buffer[..|text|] == text && buffer[|text|] == NUL
  }

  /**
   * Minifying a formatted printout in place leaves the unformatted one if and only if no string or key ends in a
   * backslash, except perhaps a string at the very end.
   */
  method PrintAndMinify(item: Node, hasRealloc: bool, ghost s: Shape, ghost v: Json) returns (printed: array?<byte>)
    requires View(item, s, v) && Printable(v)
    ensures printed != null <==> |Render(v, true, 0)| + 2 <= INT_MAX
    ensures printed != null ==> fresh(printed) && Contains(printed, Outside(Render(v, true, 0)))
    ensures printed != null ==> (Contains(printed, Render(v, false, 0)) <==> OpenEnded(v))
  {
    hide *;
    ViewKind(item, s, v);
    printed := Print(item, true, hasRealloc, s, v);
    if printed != null {
      ghost var text := Render(v, true, 0);
      RenderNulFree(v, true, 0);
      RenderNulFree(v, false, 0);
      EndsBehind(text);
      assert printed[..|text|] == printed[..][..|text|] == text;
      MinifyInPlace(printed, |text|);
      MinifyFormattedExactly(v);
      OneText(printed, Outside(text), Render(v, false, 0));
    }
  }

  /** An array holds one NUL-free text only. */
  lemma OneText(buffer: array<byte>, held: bytes, text: bytes)
    requires EndsAt(buffer[..], |held|) && buffer[..|held|] == held && NulFree(text)
    ensures Contains(buffer, held) && (Contains(buffer, text) <==> held == text)
  {
    assert buffer[..][..|held|] == held;
    if Contains(buffer, text) { SameText(buffer, held, text); }
  }

  lemma SameText(buffer: array<byte>, a: bytes, b: bytes)
    requires Contains(buffer, a) && NulFree(a) && Contains(buffer, b) && NulFree(b)
    ensures a == b
  {
    assert forall k | 0 <= k < |a| :: buffer[k] == a[k];
    assert forall k | 0 <= k < |b| :: buffer[k] == b[k];
  }

  lemma EndsBehind(text: bytes)
    requires NulFree(text)
    ensures EndsAt(text + [NUL], |text|)
  {
  }
}
