/** Editing the child list of a linked tree, against operations on the sequence of values it holds. */
module TreeLists {
  import opened JsonTree
  import opened LinkedTree
  import opened ChildLists

  ghost function RootSeq(kids: seq<Shape>): (nodes: seq<Node>)
    ensures |nodes| == |kids| && forall i | 0 <= i < |kids| :: nodes[i] == kids[i].node
  {
    seq(|kids|, i requires 0 <= i < |kids| => kids[i].node)
  }

  /** `parent` has the trees `kids` as its children, and they hold `values`. */
  ghost predicate Lists(parent: Node, kids: seq<Shape>, values: seq<Json>)
    reads parent`child, Roots(kids)`next, Roots(kids)`prev
    reads Roots(kids)`child, Roots(kids)`kind, Roots(kids)`valuestring, Roots(kids)`valuedouble, Roots(kids)`valueint
    reads Below(kids)
  {
    Proper(Shape(parent, kids)) && Siblings(parent.child, Last(kids), kids) && Hold(kids, values)
  }

  lemma RootsDistinct(kids: seq<Shape>)
    requires ProperKids(kids)
    ensures Distinct(RootSeq(kids))
    ensures forall n | n in RootSeq(kids) :: n in Roots(kids)
    ensures forall n | n in Roots(kids) :: n in RootSeq(kids)
  {
    var nodes := RootSeq(kids);
    forall i, j | 0 <= i < j < |nodes| ensures nodes[i] != nodes[j] {
      assert Nodes(kids[i]) !! Nodes(kids[j]);
      assert kids[i].node in Nodes(kids[i]) && kids[j].node in Nodes(kids[j]);
    }
    forall n | n in Roots(kids) ensures n in nodes {
      var i :| 0 <= i < |kids| && n == kids[i].node;
      assert nodes[i] == n;
    }
  }

  /** The two ways of stating the list invariant agree. */
  lemma SiblingsAreChildren(parent: Node, kids: seq<Shape>)
    requires ProperKids(kids)
    ensures Siblings(parent.child, Last(kids), kids) <==> Children(parent, RootSeq(kids))
  {
    RootsDistinct(kids);
    hide Distinct, ProperKids;
    var nodes := RootSeq(kids);
    if kids != [] {
      assert nodes[0] == kids[0].node && nodes[|nodes| - 1] == kids[|kids| - 1].node;
    }
  }

  // ----- Lists put together and taken apart -----

  lemma NodesJoin(a: seq<Shape>, b: seq<Shape>)
    ensures KidsNodes(a + b) == KidsNodes(a) + KidsNodes(b)
  {
    hide Nodes;
    var c := a + b;
    forall n | n in KidsNodes(a) + KidsNodes(b) ensures n in KidsNodes(c) {
      if n in KidsNodes(a) {
        var i :| 0 <= i < |a| && n in Nodes(a[i]);
        assert c[i] == a[i];
      } else {
        var i :| 0 <= i < |b| && n in Nodes(b[i]);
        assert c[|a| + i] == b[i];
      }
    }
  }

  lemma ProperJoin(a: seq<Shape>, b: seq<Shape>)
    requires ProperKids(a) && ProperKids(b) && KidsNodes(a) !! KidsNodes(b)
    ensures ProperKids(a + b)
  {
    hide Nodes, Proper, KidsNodes;
    var c := a + b;
    forall i | 0 <= i < |c| ensures Proper(c[i]) {
      assert c[i] == if i < |a| then a[i] else b[i - |a|];
    }
    forall i, j | 0 <= i < j < |c| ensures Nodes(c[i]) !! Nodes(c[j]) {
      if j < |a| {
        assert c[i] == a[i] && c[j] == a[j];
      } else if i >= |a| {
        assert c[i] == b[i - |a|] && c[j] == b[j - |a|];
      } else {
        KidNodes(a, i);
        KidNodes(b, j - |a|);
      }
    }
  }

  lemma ProperApart(a: seq<Shape>, b: seq<Shape>)
    requires ProperKids(a + b)
    ensures ProperKids(a) && ProperKids(b) && KidsNodes(a) !! KidsNodes(b)
  {
    hide Nodes, Proper;
    var c := a + b;
    assert forall i | 0 <= i < |a| :: a[i] == c[i];
    assert forall i | 0 <= i < |b| :: b[i] == c[|a| + i];
    forall n | n in KidsNodes(a) ensures n !in KidsNodes(b) {
      var i :| 0 <= i < |a| && n in Nodes(a[i]);
      forall j | 0 <= j < |b| ensures n !in Nodes(b[j]) { assert Nodes(c[i]) !! Nodes(c[|a| + j]); }
    }
  }

  lemma HoldJoin(a: seq<Shape>, va: seq<Json>, b: seq<Shape>, vb: seq<Json>)
    requires |a| == |va| && |b| == |vb|
    ensures Hold(a + b, va + vb) <==> Hold(a, va) && Hold(b, vb)
  {
    hide Linked, Denotes;
    var c, v := a + b, va + vb;
    assert forall i | 0 <= i < |a| :: a[i] == c[i] && va[i] == v[i];
    assert forall i | 0 <= i < |b| :: b[i] == c[|a| + i] && vb[i] == v[|a| + i];
  }

  lemma RootSeqJoin(a: seq<Shape>, b: seq<Shape>)
    ensures RootSeq(a + b) == RootSeq(a) + RootSeq(b)
  {
    hide RootSeq;
    assert forall i | 0 <= i < |a + b| :: (a + b)[i] == if i < |a| then a[i] else b[i - |a|];
  }

  lemma One(s: Shape)
    ensures KidsNodes([s]) == Nodes(s) && RootSeq([s]) == [s.node] && (Proper(s) ==> ProperKids([s]))
    ensures ProperKids([s]) ==> Proper(s)
  {
    hide Nodes, Proper;
    assert [s][0] == s;
  }

  lemma OneHeld(s: Shape, v: Json)
    ensures Hold([s], [v]) <==> Linked(s) && Denotes(s, v)
  {
    hide Linked, Denotes;
    assert [s][0] == s && [v][0] == v;
  }

  lemma SplitAt<T>(s: seq<T>, i: nat)
    requires i < |s|
    ensures s == s[..i] + ([s[i]] + s[i + 1..])
  {
  }

  lemma SplitInserted<T>(s: seq<T>, i: nat, x: T)
    requires i <= |s|
    ensures s == s[..i] + s[i..] && Inserted(s, i, x) == s[..i] + ([x] + s[i..])
  {
  }

  lemma CutProper(a: seq<Shape>, s: Shape, b: seq<Shape>)
    requires ProperKids(a + ([s] + b))
    ensures ProperKids(a + b) && Proper(s) && KidsNodes(a + b) !! Nodes(s)
    ensures KidsNodes(a + ([s] + b)) == KidsNodes(a + b) + Nodes(s)
  {
    hide *;
    ProperApart(a, [s] + b); ProperApart([s], b);
    NodesJoin(a, [s] + b); NodesJoin([s], b); NodesJoin(a, b);
    ProperJoin(a, b);
    One(s);
  }

  lemma CutHeld(a: seq<Shape>, s: Shape, b: seq<Shape>, va: seq<Json>, v: Json, vb: seq<Json>)
    requires |a| == |va| && |b| == |vb| && Hold(a + ([s] + b), va + ([v] + vb))
    ensures Hold(a + b, va + vb) && Linked(s) && Denotes(s, v)
  {
    hide *;
    HoldJoin(a, va, [s] + b, [v] + vb); HoldJoin([s], [v], b, vb); HoldJoin(a, va, b, vb);
    OneHeld(s, v);
  }

  lemma RootsCut(kids: seq<Shape>, i: nat)
    requires i < |kids|
    ensures RootSeq(Removed(kids, i)) == Removed(RootSeq(kids), i)
  {
    hide RootSeq;
    var a, b := kids[..i], kids[i + 1..];
    RootSeqJoin(a, b);
    assert RootSeq(kids)[..i] == RootSeq(a) && RootSeq(kids)[i + 1..] == RootSeq(b);
  }

  /** Taking one tree out. */
  lemma Cut(kids: seq<Shape>, values: seq<Json>, i: nat)
    requires ProperKids(kids) && Hold(kids, values) && i < |kids|
    ensures var left := Removed(kids, i);
            && ProperKids(left) && Hold(left, Removed(values, i))
            && KidsNodes(kids) == KidsNodes(left) + Nodes(kids[i]) && KidsNodes(left) !! Nodes(kids[i])
            && RootSeq(left) == Removed(RootSeq(kids), i)
    ensures Proper(kids[i]) && Linked(kids[i]) && Denotes(kids[i], values[i])
  {
    hide RootSeq, Hold, ProperKids, KidsNodes, Nodes, Proper, Linked, Denotes;
    HoldLength(kids, values);
    SplitAt(kids, i);
    SplitAt(values, i);
    CutProper(kids[..i], kids[i], kids[i + 1..]);
    CutHeld(kids[..i], kids[i], kids[i + 1..], values[..i], values[i], values[i + 1..]);
    RootsCut(kids, i);
  }

  lemma HoldLength(kids: seq<Shape>, values: seq<Json>)
    requires Hold(kids, values)
    ensures |kids| == |values|
  {
  }

  lemma PutProper(a: seq<Shape>, s: Shape, b: seq<Shape>)
    requires ProperKids(a + b) && Proper(s) && Nodes(s) !! KidsNodes(a + b)
    ensures ProperKids(a + ([s] + b)) && KidsNodes(a + ([s] + b)) == KidsNodes(a + b) + Nodes(s)
  {
    hide *;
    ProperApart(a, b);
    One(s);
    NodesJoin(a, b); NodesJoin([s], b); NodesJoin(a, [s] + b);
    ProperJoin([s], b); ProperJoin(a, [s] + b);
  }

  lemma PutHeld(a: seq<Shape>, s: Shape, b: seq<Shape>, va: seq<Json>, v: Json, vb: seq<Json>)
    requires |a| == |va| && |b| == |vb| && Hold(a + b, va + vb) && Linked(s) && Denotes(s, v)
    ensures Hold(a + ([s] + b), va + ([v] + vb))
  {
    hide *;
    HoldJoin(a, va, b, vb); HoldJoin([s], [v], b, vb); HoldJoin(a, va, [s] + b, [v] + vb);
    OneHeld(s, v);
  }

  lemma RootsPut(kids: seq<Shape>, i: nat, s: Shape)
    requires i <= |kids|
    ensures RootSeq(Inserted(kids, i, s)) == Inserted(RootSeq(kids), i, s.node)
  {
    hide RootSeq;
    var a, b := kids[..i], kids[i..];
    SplitInserted(kids, i, s);
    RootSeqJoin([s], b); RootSeqJoin(a, [s] + b);
    One(s);
    assert RootSeq(kids)[..i] == RootSeq(a) && RootSeq(kids)[i..] == RootSeq(b);
    SplitInserted(RootSeq(kids), i, s.node);
  }

  /** Putting one tree in. */
  lemma Put(kids: seq<Shape>, values: seq<Json>, i: nat, s: Shape, v: Json)
    requires ProperKids(kids) && Hold(kids, values) && i <= |kids| == |values|
    requires Proper(s) && Linked(s) && Denotes(s, v) && Nodes(s) !! KidsNodes(kids)
    ensures var more := Inserted(kids, i, s);
            && ProperKids(more) && Hold(more, Inserted(values, i, v))
            && KidsNodes(more) == KidsNodes(kids) + Nodes(s)
            && RootSeq(more) == Inserted(RootSeq(kids), i, s.node)
  {
    hide RootSeq, Hold, ProperKids, KidsNodes, Nodes, Proper, Linked, Denotes, Inserted;
    SplitInserted(kids, i, s);
    SplitInserted(values, i, v);
    PutProper(kids[..i], s, kids[i..]);
    PutHeld(kids[..i], s, kids[i..], values[..i], v, values[i..]);
    RootsPut(kids, i, s);
  }

  // ----- Edits -----

  /** `item` is the root of a linked tree that holds `v`. */
  ghost predicate Tree(item: Node, s: Shape, v: Json)
    reads item`child, item`kind, item`valuestring, item`valuedouble, item`valueint, KidsNodes(s.kids)
  {
    s.node == item && Proper(s) && Linked(s) && Denotes(s, v)
  }

  lemma IsTree(s: Shape, v: Json)
    requires Proper(s) && Linked(s) && Denotes(s, v)
    ensures Tree(s.node, s, v)
  {
  }

  /** What separates the items an edit writes from what the list holds. */
  lemma Separate(parent: Node, kids: seq<Shape>)
    requires Proper(Shape(parent, kids))
    ensures parent !in Roots(kids) && parent !in Below(kids) && Roots(kids) !! Below(kids) && ProperKids(kids)
    ensures forall n | n in RootSeq(kids) :: n in Roots(kids)
  {
    KidsNodesSplit(kids);
    RootsNotBelow(kids);
    RootsDistinct(kids);
  }

  lemma ListsParts(parent: Node, kids: seq<Shape>, values: seq<Json>)
    requires Lists(parent, kids, values)
    ensures Proper(Shape(parent, kids)) && ProperKids(kids) && Hold(kids, values) && Children(parent, RootSeq(kids))
    ensures |values| == |kids|
  {
    hide Children, Siblings, Proper;
    assert Proper(Shape(parent, kids)) && ProperKids(kids) by { ProperParts(parent, kids); }
    SiblingsAreChildren(parent, kids);
  }

  lemma ProperParts(parent: Node, kids: seq<Shape>)
    requires Proper(Shape(parent, kids))
    ensures parent !in KidsNodes(kids) && ProperKids(kids)
  {
  }

  lemma ListsWhole(parent: Node, kids: seq<Shape>, values: seq<Json>)
    requires parent !in KidsNodes(kids) && ProperKids(kids) && Hold(kids, values) && Children(parent, RootSeq(kids))
    ensures Lists(parent, kids, values)
  {
    hide Children, Siblings, ProperKids, KidsNodes;
    SiblingsAreChildren(parent, kids);
  }

  /** Detaching takes one value out; the item comes back with its tree intact and pointing nowhere. */
  method DetachItemViaPointer(parent: Node?, item: Node?, ghost kids: seq<Shape>, ghost values: seq<Json>, ghost i: nat)
    returns (r: Node?)
    requires parent != null ==> Lists(parent, kids, values)
    requires parent != null && item != null ==> i < |kids| && kids[i].node == item
    modifies if parent == null || item == null then {} else {parent}`child
    modifies if parent == null || item == null then {} else Roots(kids)`next
    modifies if parent == null || item == null then {} else Roots(kids)`prev
    ensures r == if parent == null then null else item
    ensures parent != null && item != null ==>
              && item.next == null && item.prev == null
              && Tree(item, kids[i], values[i])
              && Lists(parent, Removed(kids, i), Removed(values, i))
  {
    hide *;
    if parent == null || item == null {
      return null;
    }
    ListsParts(parent, kids, values);
    Separate(parent, kids);
    KidsNodesSplit(kids);
    assert allocated(KidsNodes(kids));
    r := ChildLists.DetachItemViaPointer(parent, item, RootSeq(kids), i);
    Cut(kids, values, i);
    IsTree(kids[i], values[i]);
    ProperParts(parent, kids);
    ListsWhole(parent, Removed(kids, i), Removed(values, i));
  }

  /** Detaching by index; there is nothing to detach outside the list. */
  method DetachItemFromArray(parent: Node?, which: int, ghost kids: seq<Shape>, ghost values: seq<Json>)
    returns (r: Node?)
    requires parent != null ==> Lists(parent, kids, values)
    modifies if parent == null || !(0 <= which < |kids|) then {} else {parent}`child
    modifies if parent == null || !(0 <= which < |kids|) then {} else Roots(kids)`next
    modifies if parent == null || !(0 <= which < |kids|) then {} else Roots(kids)`prev
    ensures parent == null || !(0 <= which < |kids|) ==> r == null
    ensures parent != null && !(0 <= which < |kids|) ==> Lists(parent, kids, values)
    ensures parent != null && 0 <= which < |kids| ==>
              && r == kids[which].node && r.next == null && r.prev == null
              && Tree(r, kids[which], values[which])
              && Lists(parent, Removed(kids, which), Removed(values, which))
  {
    hide *;
    if which < 0 {
      return null;
    }
    if parent != null {
      ListsParts(parent, kids, values);
      KidsNodesSplit(kids);
      assert allocated(KidsNodes(kids));
    }
    var item := GetArrayItem(parent, which, RootSeq(kids));
    r := DetachItemViaPointer(parent, item, kids, values, which);
  }

  /** A tree that shares no item with a list and its owner. */
  ghost predicate Foreign(s: Shape, parent: Node, kids: seq<Shape>) {
    parent !in Nodes(s) && Nodes(s) !! KidsNodes(kids)
  }

  lemma ForeignParts(s: Shape, parent: Node, kids: seq<Shape>)
    requires Foreign(s, parent, kids)
    ensures s.node != parent && s.node !in KidsNodes(kids) && parent !in KidsNodes(s.kids)
    ensures KidsNodes(s.kids) !! KidsNodes(kids)
  {
  }

  lemma TreeParts(item: Node, s: Shape, v: Json)
    requires Tree(item, s, v)
    ensures s.node == item && Proper(s) && Linked(s) && Denotes(s, v) && item !in KidsNodes(s.kids)
  {
    ProperParts(item, s.kids);
  }

  /** Appending adds one value at the end, provided the list was empty or the item brings no `next` along. */
  method AddItemToArray(parent: Node?, item: Node?, ghost kids: seq<Shape>, ghost values: seq<Json>, ghost s: Shape,
                        ghost v: Json)
    returns (ok: bool)
    requires parent != null ==> Lists(parent, kids, values)
    requires item != null ==> Tree(item, s, v)
    requires parent != null && item != null && item != parent ==> Foreign(s, parent, kids)
    modifies if parent == null || item == null || parent == item then {} else {parent}`child
    modifies if parent == null || item == null || parent == item then {} else {item}`next
    modifies if parent == null || item == null || parent == item then {} else {item}`prev
    modifies if parent == null || item == null || parent == item then {} else Roots(kids)`next
    modifies if parent == null || item == null || parent == item then {} else Roots(kids)`prev
    ensures ok <==> parent != null && item != null && parent != item
    ensures ok ==> (Lists(parent, kids + [s], values + [v]) <==> kids == [] || old(item.next) == null)
  {
    hide *;
    if item == null || parent == null || parent == item {
      return false;
    }
    ghost var nodes := RootSeq(kids);
    Ready(parent, kids, values, item, s, v);
    assert allocated(KidsNodes(kids)) && allocated(KidsNodes(s.kids));
    ok := ChildLists.AddItemToArray(parent, item, nodes);
    Appended(parent, kids, values, s, v);
  }

  /** What an edit may rely on before it writes any link. */
  lemma Ready(parent: Node, kids: seq<Shape>, values: seq<Json>, item: Node, s: Shape, v: Json)
    requires Lists(parent, kids, values) && Tree(item, s, v) && Foreign(s, parent, kids)
    ensures Children(parent, RootSeq(kids)) && ProperKids(kids) && Hold(kids, values) && |values| == |kids|
    ensures Proper(s) && Linked(s) && Denotes(s, v) && s.node == item
    ensures KidsNodes(kids) == Roots(kids) + Below(kids) && Roots(kids) !! Below(kids)
    ensures parent !in KidsNodes(kids) && item !in KidsNodes(kids) && item !in KidsNodes(s.kids)
    ensures parent !in KidsNodes(s.kids) && KidsNodes(s.kids) !! KidsNodes(kids) && item !in RootSeq(kids)
    ensures forall n | n in RootSeq(kids) :: n in Roots(kids)
  {
    hide *;
    ListsParts(parent, kids, values);
    Separate(parent, kids);
    ProperParts(parent, kids);
    TreeParts(item, s, v);
    ForeignParts(s, parent, kids);
    KidsNodesSplit(kids);
  }

  /** With its links in order, the longer list holds the longer sequence. */
  lemma Appended(parent: Node, kids: seq<Shape>, values: seq<Json>, s: Shape, v: Json)
    requires ProperKids(kids) && Hold(kids, values) && |values| == |kids| && parent !in KidsNodes(kids)
    requires Proper(s) && Linked(s) && Denotes(s, v) && Foreign(s, parent, kids)
    ensures Lists(parent, kids + [s], values + [v]) <==> Children(parent, RootSeq(kids) + [s.node])
  {
    hide *;
    AtEnd(kids, s);
    AtEnd(values, v);
    AtEnd(RootSeq(kids), s.node);
    InsertedAt(parent, kids, values, |kids|, s, v);
  }

  lemma AtEnd<T>(t: seq<T>, x: T)
    ensures Inserted(t, |t|, x) == t + [x]
  {
  }

  lemma InsertedAt(parent: Node, kids: seq<Shape>, values: seq<Json>, i: nat, s: Shape, v: Json)
    requires ProperKids(kids) && Hold(kids, values) && i <= |values| == |kids| && parent !in KidsNodes(kids)
    requires Proper(s) && Linked(s) && Denotes(s, v) && Foreign(s, parent, kids)
    ensures Lists(parent, Inserted(kids, i, s), Inserted(values, i, v)) <==>
              Children(parent, Inserted(RootSeq(kids), i, s.node))
  {
    hide *;
    ForeignNodes(s, parent, kids);
    Put(kids, values, i, s, v);
    var more, held := Inserted(kids, i, s), Inserted(values, i, v);
    if Children(parent, RootSeq(more)) { ListsWhole(parent, more, held); }
    if Lists(parent, more, held) { ListsParts(parent, more, held); }
  }

  lemma ForeignNodes(s: Shape, parent: Node, kids: seq<Shape>)
    requires Foreign(s, parent, kids)
    ensures parent !in Nodes(s) && Nodes(s) !! KidsNodes(kids)
  {
  }

  /** Inserting puts one value in front of the one at `which`, or at the end. */
  method InsertItemInArray(parent: Node?, which: int, item: Node, ghost kids: seq<Shape>, ghost values: seq<Json>,
                           ghost s: Shape, ghost v: Json)
    returns (ok: bool)
    requires parent != null ==> Lists(parent, kids, values) && Foreign(s, parent, kids)
    requires Tree(item, s, v)
    modifies if parent == null || which < 0 then {} else {parent}`child
    modifies if parent == null || which < 0 then {} else {item}`next
    modifies if parent == null || which < 0 then {} else {item}`prev
    modifies if parent == null || which < 0 then {} else Roots(kids)`next
    modifies if parent == null || which < 0 then {} else Roots(kids)`prev
    ensures ok <==> which >= 0 && parent != null
    ensures ok && which < |kids| ==> Lists(parent, Inserted(kids, which, s), Inserted(values, which, v))
    ensures ok && which >= |kids| ==>
              (Lists(parent, kids + [s], values + [v]) <==> kids == [] || old(item.next) == null)
  {
    hide *;
    if which < 0 || parent == null {
      return false;
    }
    ghost var nodes := RootSeq(kids);
    Ready(parent, kids, values, item, s, v);
    ForeignParts(s, parent, kids);
    assert allocated(KidsNodes(kids)) && allocated(KidsNodes(s.kids));
    ok := ChildLists.InsertItemInArray(parent, which, item, nodes);
    if which < |kids| {
      InsertedAt(parent, kids, values, which, s, v);
    } else {
      Appended(parent, kids, values, s, v);
    }
  }

  /** Replacing changes one value; the old item comes away with its tree intact and pointing nowhere. */
  method ReplaceItemViaPointer(parent: Node?, item: Node?, replacement: Node?, ghost kids: seq<Shape>,
                               ghost values: seq<Json>, ghost i: nat, ghost s: Shape, ghost v: Json)
    returns (ok: bool)
    requires parent != null ==> Lists(parent, kids, values)
    requires parent != null && item != null ==> i < |kids| && kids[i].node == item
    requires replacement != null ==> Tree(replacement, s, v)
    requires parent != null && replacement != null ==> Foreign(s, parent, kids)
    modifies if parent == null || item == null || replacement == null then {} else {parent}`child
    modifies if parent == null || item == null || replacement == null then {} else {replacement}`next
    modifies if parent == null || item == null || replacement == null then {} else {replacement}`prev
    modifies if parent == null || item == null || replacement == null then {} else Roots(kids)`next
    modifies if parent == null || item == null || replacement == null then {} else Roots(kids)`prev
    ensures ok <==> parent != null && item != null && replacement != null
    ensures ok ==>
              && Lists(parent, kids[i := s], values[i := v])
              && Tree(item, kids[i], values[i]) && item.next == null && item.prev == null
  {
    hide *;
    if parent == null || replacement == null || item == null {
      return false;
    }
    Ready(parent, kids, values, replacement, s, v);
    ForeignParts(s, parent, kids);
    RootsInside(kids);
    assert replacement != item;
    assert allocated(KidsNodes(kids)) && allocated(KidsNodes(s.kids));
    ok := ChildLists.ReplaceItemViaPointer(parent, item, replacement, RootSeq(kids), i);
    Cut(kids, values, i);
    ReplacedAt(parent, kids, values, i, s, v);
    IsTree(kids[i], values[i]);
  }

  method ReplaceItemInArray(parent: Node?, which: int, item: Node?, ghost kids: seq<Shape>, ghost values: seq<Json>,
                            ghost s: Shape, ghost v: Json)
    returns (ok: bool)
    requires parent != null ==> Lists(parent, kids, values)
    requires item != null ==> Tree(item, s, v)
    requires parent != null && item != null ==> Foreign(s, parent, kids)
    modifies if parent == null || item == null || !(0 <= which < |kids|) then {} else {parent}`child
    modifies if parent == null || item == null || !(0 <= which < |kids|) then {} else {item}`next
    modifies if parent == null || item == null || !(0 <= which < |kids|) then {} else {item}`prev
    modifies if parent == null || item == null || !(0 <= which < |kids|) then {} else Roots(kids)`next
    modifies if parent == null || item == null || !(0 <= which < |kids|) then {} else Roots(kids)`prev
    ensures ok <==> parent != null && item != null && 0 <= which < |kids|
    ensures !ok && parent != null ==> Lists(parent, kids, values)
    ensures ok ==>
              && Lists(parent, kids[which := s], values[which := v])
              && Tree(kids[which].node, kids[which], values[which])
              && kids[which].node.next == null && kids[which].node.prev == null
  {
    hide *;
    if which < 0 {
      return false;
    }
    if parent != null {
      ListsParts(parent, kids, values);
      KidsNodesSplit(kids);
      assert allocated(KidsNodes(kids));
    }
    assert allocated(KidsNodes(s.kids));
    var current := GetArrayItem(parent, which, RootSeq(kids));
    ok := ReplaceItemViaPointer(parent, current, item, kids, values, which, s, v);
  }

  lemma ReplacedAt(parent: Node, kids: seq<Shape>, values: seq<Json>, i: nat, s: Shape, v: Json)
    requires ProperKids(kids) && Hold(kids, values) && i < |values| == |kids| && parent !in KidsNodes(kids)
    requires Proper(s) && Linked(s) && Denotes(s, v) && Foreign(s, parent, kids)
    requires Children(parent, RootSeq(kids)[i := s.node])
    ensures Lists(parent, kids[i := s], values[i := v])
  {
    hide *;
    ForeignNodes(s, parent, kids);
    Cut(kids, values, i);
    var left, fewer := Removed(kids, i), Removed(values, i);
    RemovedLength(kids, i); RemovedLength(values, i);
    Put(left, fewer, i, s, v);
    Updated(kids, i, s); Updated(values, i, v); Updated(RootSeq(kids), i, s.node);
    ListsWhole(parent, kids[i := s], values[i := v]);
  }

  lemma RemovedLength<T>(t: seq<T>, i: nat)
    requires i < |t|
    ensures |Removed(t, i)| == |t| - 1
  {
  }

  lemma Updated<T>(t: seq<T>, i: nat, x: T)
    requires i < |t|
    ensures |Removed(t, i)| == |t| - 1 && Inserted(Removed(t, i), i, x) == t[i := x]
  {
  }

  lemma CutForeign(parent: Node, kids: seq<Shape>, i: nat)
    requires Proper(Shape(parent, kids)) && i < |kids|
    ensures Foreign(kids[i], parent, Removed(kids, i))
    ensures kids[i].node in Roots(kids) && Roots(Removed(kids, i)) <= Roots(kids)
  {
    ProperParts(parent, kids);
    hide Proper, Nodes, KidsNodes;
    SplitAt(kids, i);
    CutProper(kids[..i], kids[i], kids[i + 1..]);
    KidNodes(kids, i);
  }

  /** Taking an item out and putting it back at its index restores the list. */
  method DetachThenInsert(parent: Node, which: nat, ghost kids: seq<Shape>, ghost values: seq<Json>)
    requires Lists(parent, kids, values) && which < |kids|
    modifies {parent}`child, Roots(kids)`next, Roots(kids)`prev
    ensures Lists(parent, kids, values)
  {
    hide *;
    ListsParts(parent, kids, values);
    Separate(parent, kids);
    Cut(kids, values, which);
    var item := DetachItemFromArray(parent, which, kids, values);
    ghost var left, fewer := Removed(kids, which), Removed(values, which);
    CutForeign(parent, kids, which);
    RemovedLength(kids, which);
    RemovedLength(values, which);
    RemovedThenInserted(kids, which);
    RemovedThenInserted(values, which);
    if which == |left| {
      AtEnd(left, kids[which]);
      AtEnd(fewer, values[which]);
    }
    var ok := InsertItemInArray(parent, which, item, left, fewer, kids[which], values[which]);
  }
}
