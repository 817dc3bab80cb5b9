/** Which values the printer is modelled for, and that parsing gives no others but for their numbers. */
module Printables {
  import opened Bytes
  import opened JsonTree
  import opened Numbers
  import opened Layout
  import opened Rendering
  import opened Comparing
  import opened Prefixes
  import Owned = Ownership
  import Grammar

  /** The values the printer is modelled for: all numbers are C `int`s, all texts and keys C strings. */
  lemma {:induction false} PrintableExactly(v: Json)
    ensures Printable(v) <==> Ints(v) && Owned.Strings(v)
  {
    hide IsInt, NulFree;
    match v
    case Array(items) => ItemsPrintableExactly(items);
    case Object(members) => MembersPrintableExactly(members);
    case _ =>
  }

  lemma {:induction false} ItemsPrintableExactly(items: Items)
    ensures ItemsPrintable(items) <==> ItemsInts(items) && Owned.ItemsStrings(items)
  {
    hide Printable, Ints, Owned.Strings;
    if items.Item? {
      PrintableExactly(items.head);
      ItemsPrintableExactly(items.tail);
    }
  }

  lemma {:induction false} MembersPrintableExactly(members: Members)
    ensures MembersPrintable(members) <==> MembersInts(members) && Owned.MembersStrings(members)
  {
    hide Printable, Ints, Owned.Strings, NulFree;
    if members.Member? {
      PrintableExactly(members.value);
      MembersPrintableExactly(members.rest);
    }
  }

  lemma {:induction false} DocStrings(c: Doc)
    requires Wf(c)
    ensures Owned.Strings(Value(c))
    decreases c
  {
    hide IsRaw, RawValue, NulFree;
    match c
    case StringDoc(raw) => RawStrings(raw);
    case FullArray(cells) => CellsStrings(cells);
    case FullObject(fields) => FieldsStrings(fields);
    case _ =>
  }

  lemma RawStrings(raw: bytes)
    requires IsRaw(raw)
    ensures NulFree(RawValue(raw))
  {
  }

  lemma {:induction false} CellsStrings(cells: Cells)
    requires CellsWf(cells)
    ensures Owned.ItemsStrings(CellsValue(cells))
    decreases cells
  {
    hide Owned.Strings, Value, Wf;
    DocStrings(cells.doc);
    if cells.MoreCells? { CellsStrings(cells.rest); }
  }

  lemma {:induction false} FieldsStrings(fields: Fields)
    requires FieldsWf(fields)
    ensures Owned.MembersStrings(FieldsValue(fields))
    decreases fields
  {
    hide Owned.Strings, Value, Wf, IsRaw, RawValue, NulFree;
    RawStrings(fields.key.raw);
    DocStrings(fields.doc);
    if fields.MoreFields? { FieldsStrings(fields.rest); }
  }

  /** Whatever has been parsed can be printed and compared by its meaning if its numbers are C `int`s. */
  lemma ParsedIsPrintable(text: bytes)
    requires NulFree(text) && Grammar.ParseText(text, false).Ok?
    ensures var v := Grammar.ParseText(text, false).value; Owned.Strings(v) && (Printable(v) <==> Ints(v))
  {
    hide Grammar.ParseText, Wf, Value, Owned.Strings, Ints, Printable;
    var d := OpeningFound(text);
    DocStrings(d.body);
    PrintableExactly(Grammar.ParseText(text, false).value);
  }
}
