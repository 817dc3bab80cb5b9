/** The item structure with its sibling and child links, and what a linked tree of items denotes. */
module LinkedTree {
  import opened Bytes
  import opened JsonTree
  import opened Numbers

  datatype Kind = InvalidKind | FalseKind | TrueKind | NullKind | NumberKind | StringKind | ArrayKind | ObjectKind

  class Node {
    var next: Node?
    var prev: Node?
    var child: Node?
    var kind: Kind
    var isReference: bool
    var keyIsConst: bool
    var valuestring: Option<bytes>
    var valueint: int
    var valuedouble: real
    var key: Option<bytes>

    /** A fresh item with every field zero. */
    constructor ()
      ensures next == null && prev == null && child == null && kind == InvalidKind
      ensures !isReference && !keyIsConst && valuestring == None && key == None
      ensures valueint == 0 && valuedouble == 0.0
    {
      next, prev, child := null, null, null;
      kind, isReference, keyIsConst := InvalidKind, false, false;
      valuestring, key := None, None;
      valueint, valuedouble := 0, 0.0;
    }
  }

  /** Which items make up a tree: an item and the trees of its children. */
  datatype Shape = Shape(node: Node, kids: seq<Shape>)

  ghost function Nodes(s: Shape): set<Node> {
    {s.node} + KidsNodes(s.kids)
  }

  ghost function KidsNodes(kids: seq<Shape>): set<Node> {
    set i, n | 0 <= i < |kids| && n in Nodes(kids[i]) :: n
  }

  /** No item occurs twice. */
  ghost predicate Proper(s: Shape) {
    s.node !in KidsNodes(s.kids) && ProperKids(s.kids)
  }

  ghost predicate ProperKids(kids: seq<Shape>) {
    (forall i | 0 <= i < |kids| :: Proper(kids[i])) && Apart(kids)
  }

  ghost predicate Apart(kids: seq<Shape>) {
    forall i, j | 0 <= i < j < |kids| :: Nodes(kids[i]) !! Nodes(kids[j])
  }

  ghost function Roots(kids: seq<Shape>): set<Node> {
    set i | 0 <= i < |kids| :: kids[i].node
  }

  lemma KidInside(kids: seq<Shape>, i: nat)
    requires i < |kids|
    ensures kids[i].node in KidsNodes(kids) && KidsNodes(kids[i].kids) <= KidsNodes(kids)
  {
    assert kids[i].node in Nodes(kids[i]);
    assert KidsNodes(kids[i].kids) <= Nodes(kids[i]);
  }

  lemma RootsInside(kids: seq<Shape>)
    ensures Roots(kids) <= KidsNodes(kids)
  {
    forall i | 0 <= i < |kids| ensures kids[i].node in KidsNodes(kids) { KidInside(kids, i); }
  }

  /** The links of a sibling list that starts at `first`; the first item's `prev` is `tail`. */
  ghost predicate Siblings(first: Node?, tail: Node?, kids: seq<Shape>)
    reads Roots(kids)`next, Roots(kids)`prev
  {
    assert forall i | 0 <= i < |kids| :: kids[i].node in Roots(kids);
    if kids == [] then first == null
    else
      && first == kids[0].node
      && kids[0].node.prev == tail
      && (forall i | 0 < i < |kids| :: kids[i].node.prev == kids[i - 1].node)
      && (forall i | 0 <= i < |kids| - 1 :: kids[i].node.next == kids[i + 1].node)
      && kids[|kids| - 1].node.next == null
  }

  ghost function Last(kids: seq<Shape>): Node? {
    if kids == [] then null else kids[|kids| - 1].node
  }

  /** Every child list in the tree is properly linked, with the first child's `prev` at the last child. */
  ghost predicate Linked(s: Shape)
    reads s.node`child, KidsNodes(s.kids)
    decreases s
  {
    RootsInside(s.kids);
    && Siblings(s.node.child, Last(s.kids), s.kids)
    && forall i | 0 <= i < |s.kids| :: (KidInside(s.kids, i); Linked(s.kids[i]))
  }

  function ListOf(items: Items): (r: seq<Json>) {
    match items
    case NoItems => []
    case Item(head, tail) => [head] + ListOf(tail)
  }

  function PairsOf(members: Members): (r: seq<(bytes, Json)>) {
    match members
    case NoMembers => []
    case Member(key, value, rest) => [(key, value)] + PairsOf(rest)
  }

  /** The linked tree holds the value `v`. */
  ghost predicate Denotes(s: Shape, v: Json)
    reads s.node`kind, s.node`valuestring, s.node`valuedouble, s.node`valueint, KidsNodes(s.kids)
    decreases s
  {
    match v
    case Null => s.node.kind == NullKind && s.kids == []
    case False => s.node.kind == FalseKind && s.kids == []
    case True => s.node.kind == TrueKind && s.kids == []
    case Number(value) =>
      s.node.kind == NumberKind && s.kids == [] && s.node.valuedouble == value && s.node.valueint == Saturate(value)
    case String(text) => s.node.kind == StringKind && s.kids == [] && s.node.valuestring == Some(text)
    case Array(items) =>
      && s.node.kind == ArrayKind
      && |s.kids| == |ListOf(items)|
      && forall i | 0 <= i < |s.kids| :: (KidInside(s.kids, i); Denotes(s.kids[i], ListOf(items)[i]))
    case Object(members) =>
      && s.node.kind == ObjectKind
      && |s.kids| == |PairsOf(members)|
      && forall i | 0 <= i < |s.kids| ::
           KidInside(s.kids, i);
           s.kids[i].node.key == Some(PairsOf(members)[i].0) && Denotes(s.kids[i], PairsOf(members)[i].1)
  }

  /** The integer field of an item that holds a number, in numerals. */
  lemma NumberItem(s: Shape, d: real)
    requires Denotes(s, Number(d))
    ensures s.node.valuedouble == d && s.kids == []
    ensures d >= 2147483647.0 ==> s.node.valueint == 2147483647
    ensures d <= -2147483648.0 ==> s.node.valueint == -2147483648
    ensures 0.0 <= d < 2147483647.0 ==> s.node.valueint as real <= d < s.node.valueint as real + 1.0
    ensures -2147483648.0 < d <= 0.0 ==> s.node.valueint as real - 1.0 < d <= s.node.valueint as real
  {
    hide Saturate;
    Saturates(d);
  }

  // ----- Sibling lists under construction -----

  /** Everything below the roots of the trees. */
  ghost function Below(kids: seq<Shape>): set<Node> {
    set i, n | 0 <= i < |kids| && n in KidsNodes(kids[i].kids) :: n
  }

  lemma KidsNodesSplit(kids: seq<Shape>)
    ensures KidsNodes(kids) == Roots(kids) + Below(kids)
  {
    forall n | n in KidsNodes(kids) ensures n in Roots(kids) + Below(kids) {
      var i :| 0 <= i < |kids| && n in Nodes(kids[i]);
      assert n == kids[i].node || n in KidsNodes(kids[i].kids);
    }
    forall n | n in Roots(kids) + Below(kids) ensures n in KidsNodes(kids) {
      if n in Roots(kids) {
        RootsInside(kids);
      } else {
        var i :| 0 <= i < |kids| && n in KidsNodes(kids[i].kids);
        KidInside(kids, i);
      }
    }
  }

  lemma RootsNotBelow(kids: seq<Shape>)
    requires ProperKids(kids)
    ensures Roots(kids) !! Below(kids)
  {
    forall i, j | 0 <= i < |kids| && 0 <= j < |kids| ensures kids[i].node !in KidsNodes(kids[j].kids) {
      assert Proper(kids[j]);
      assert kids[i].node in Nodes(kids[i]);
      if i < j { assert Nodes(kids[i]) !! Nodes(kids[j]); }
      if j < i { assert Nodes(kids[j]) !! Nodes(kids[i]); }
    }
  }

  /** The trees are linked and hold the values. */
  ghost predicate Hold(kids: seq<Shape>, values: seq<Json>)
    reads Roots(kids)`child, Roots(kids)`kind, Roots(kids)`valuestring, Roots(kids)`valuedouble, Roots(kids)`valueint
    reads Below(kids)
  {
    |kids| == |values|
    && forall i | 0 <= i < |kids| :: (RootAndBelow(kids, i); Linked(kids[i]) && Denotes(kids[i], values[i]))
  }

  lemma RootAndBelow(kids: seq<Shape>, i: nat)
    requires i < |kids|
    ensures kids[i].node in Roots(kids) && KidsNodes(kids[i].kids) <= Below(kids)
  {
  }

  /** The roots carry the keys. */
  ghost predicate Keyed(kids: seq<Shape>, keys: seq<bytes>)
    reads Roots(kids)`key
  {
    |kids| == |keys| && forall i | 0 <= i < |kids| :: (RootAndBelow(kids, i); kids[i].node.key == Some(keys[i]))
  }

  /** Neighbours point at each other. */
  ghost predicate Chained(kids: seq<Shape>)
    reads Roots(kids)`next, Roots(kids)`prev
  {
    assert forall i | 0 <= i < |kids| :: kids[i].node in Roots(kids);
    && (forall i | 0 < i < |kids| :: kids[i].node.prev == kids[i - 1].node)
    && (forall i | 0 <= i < |kids| - 1 :: kids[i].node.next == kids[i + 1].node)
  }

  /** A list that is still being appended to: its head has no `prev` yet. */
  ghost predicate Growing(head: Node?, current: Node?, kids: seq<Shape>)
    reads Roots(kids)`next, Roots(kids)`prev
  {
    assert forall i | 0 <= i < |kids| :: kids[i].node in Roots(kids);
    Chained(kids)
    && (if kids == [] then head == null
        else head == kids[0].node && current == Last(kids) && head.prev == null && current.next == null)
  }

  /** The same list with `item` linked behind it. */
  ghost predicate Pending(head: Node?, item: Node, kids: seq<Shape>)
    reads Roots(kids)`next, Roots(kids)`prev, item`next, item`prev
  {
    assert forall i | 0 <= i < |kids| :: kids[i].node in Roots(kids);
    Chained(kids) && item.next == null
    && (if kids == [] then head == item && item.prev == null
        else head == kids[0].node && head.prev == null && Last(kids).next == item && item.prev == Last(kids))
  }

  lemma Settled(head: Node?, item: Node, kids: seq<Shape>, s: Shape)
    requires Pending(head, item, kids) && s.node == item
    ensures Growing(head, item, kids + [s])
  {
  }

  lemma {:induction false} Extended(kids: seq<Shape>, s: Shape, values: seq<Json>, v: Json)
    requires Hold(kids, values) && Linked(s) && Denotes(s, v)
    ensures Hold(kids + [s], values + [v])
  {
  }

  lemma ExtendedKeys(kids: seq<Shape>, s: Shape, keys: seq<bytes>, key: bytes)
    requires Keyed(kids, keys) && s.node.key == Some(key)
    ensures Keyed(kids + [s], keys + [key])
  {
  }

  lemma ProperExtended(kids: seq<Shape>, s: Shape)
    requires ProperKids(kids) && Proper(s) && KidsNodes(kids) !! Nodes(s)
    ensures ProperKids(kids + [s]) && KidsNodes(kids + [s]) == KidsNodes(kids) + Nodes(s)
  {
    hide Nodes, Proper, KidsNodes;
    var more := kids + [s];
    NodesExtended(kids, s);
    forall i | 0 <= i < |more| ensures Proper(more[i]) {
      if i < |kids| { assert more[i] == kids[i]; }
    }
    forall i, j | 0 <= i < j < |more| ensures Nodes(more[i]) !! Nodes(more[j]) {
      assert more[i] == kids[i];
      if j < |kids| {
        assert more[j] == kids[j];
      } else {
        KidNodes(kids, i);
      }
    }
  }

  lemma KidNodes(kids: seq<Shape>, i: nat)
    requires i < |kids|
    ensures Nodes(kids[i]) <= KidsNodes(kids)
  {
    hide Nodes;
  }

  lemma NodesExtended(kids: seq<Shape>, s: Shape)
    ensures KidsNodes(kids + [s]) == KidsNodes(kids) + Nodes(s)
  {
    hide Nodes;
    var more := kids + [s];
    assert more[|kids|] == s && forall i | 0 <= i < |kids| :: more[i] == kids[i];
    forall n | n in KidsNodes(kids) ensures n in KidsNodes(more) {
      var i :| 0 <= i < |kids| && n in Nodes(kids[i]);
      assert n in Nodes(more[i]);
    }
    forall n | n in Nodes(s) ensures n in KidsNodes(more) {
      assert n in Nodes(more[|kids|]);
    }
    forall n | n in KidsNodes(more) ensures n in KidsNodes(kids) + Nodes(s) {
      var i :| 0 <= i < |more| && n in Nodes(more[i]);
    }
  }

  /** Links a fresh item behind the list. What the list holds does not change. */
  method Attach(head: Node?, current: Node?, ghost kids: seq<Shape>) returns (first: Node, item: Node)
    requires Growing(head, current, kids) && ProperKids(kids)
    modifies if kids == [] then {} else {Last(kids)}`next
    ensures fresh(item) && item !in KidsNodes(kids) && Pending(first, item, kids)
    ensures item.child == null && item.key == None && item.valuestring == None && !item.isReference && !item.keyIsConst
    ensures forall values: seq<Json> :: old(Hold(kids, values)) ==> Hold(kids, values)
    ensures forall keys: seq<bytes> :: old(Keyed(kids, keys)) ==> Keyed(kids, keys)
  {
    hide Hold, Keyed, ProperKids, KidsNodes, Below, Roots;
    RootsNotBelow(kids);
    KidsNodesSplit(kids);
    RootsAt(kids);
    assert allocated(KidsNodes(kids));
    item := new Node();
    if head == null {
      first := item;
    } else {
      first := head;
      current.next := item;
      item.prev := current;
    }
  }

  lemma RootsAt(kids: seq<Shape>)
    ensures forall i | 0 <= i < |kids| :: kids[i].node in Roots(kids)
  {
  }

  lemma LastIsRoot(kids: seq<Shape>)
    requires kids != []
    ensures Last(kids) in Roots(kids) && kids[0].node in Roots(kids)
  {
  }

  lemma LastInside(kids: seq<Shape>)
    requires kids != []
    ensures Last(kids) in KidsNodes(kids)
  {
    LastIsRoot(kids);
    RootsInside(kids);
  }

  lemma HeadInside(head: Node?, current: Node?, kids: seq<Shape>)
    requires kids != [] && Growing(head, current, kids)
    ensures head != null && head in KidsNodes(kids)
  {
    LastIsRoot(kids);
    RootsInside(kids);
  }

  lemma EmptyList()
    ensures KidsNodes([]) == {} && ProperKids([]) && Hold([], []) && Keyed([], []) && Growing(null, null, [])
  {
  }

  /** Closes the list: the head's `prev` becomes the last item. What the list holds does not change. */
  method Close(head: Node, current: Node?, ghost kids: seq<Shape>)
    requires Growing(head, current, kids) && ProperKids(kids) && kids != []
    modifies head`prev
    ensures Siblings(head, Last(kids), kids)
    ensures forall values: seq<Json> :: old(Hold(kids, values)) ==> Hold(kids, values)
    ensures forall keys: seq<bytes> :: old(Keyed(kids, keys)) ==> Keyed(kids, keys)
  {
    hide Hold, Keyed, ProperKids;
    RootsNotBelow(kids);
    LastIsRoot(kids);
    HeadIsFirst(kids);
    head.prev := current;
  }

  /** Distinct trees have distinct roots. */
  lemma HeadIsFirst(kids: seq<Shape>)
    requires ProperKids(kids)
    ensures forall i | 0 < i < |kids| :: kids[i].node != kids[0].node
  {
    forall i | 0 < i < |kids| ensures kids[i].node != kids[0].node {
      assert Nodes(kids[0]) !! Nodes(kids[i]);
      assert kids[0].node in Nodes(kids[0]) && kids[i].node in Nodes(kids[i]);
    }
  }

  /** An item whose child list holds the values is an array of them. */
  lemma ArrayBuilt(item: Node, kids: seq<Shape>, values: seq<Json>)
    requires item.kind == ArrayKind && item !in KidsNodes(kids) && ProperKids(kids)
    requires Siblings(item.child, Last(kids), kids) && Hold(kids, values)
    ensures var s := Shape(item, kids); Proper(s) && Linked(s) && Denotes(s, Array(Build(values, NoItems)))
  {
    hide Siblings, ProperKids;
    ListOfBuild(values);
  }

  lemma ObjectBuilt(item: Node, kids: seq<Shape>, keys: seq<bytes>, values: seq<Json>)
    requires item.kind == ObjectKind && item !in KidsNodes(kids) && ProperKids(kids)
    requires Siblings(item.child, Last(kids), kids) && Hold(kids, values) && Keyed(kids, keys)
    ensures var s := Shape(item, kids);
            Proper(s) && Linked(s) && Denotes(s, Object(BuildMembers(keys, values, NoMembers)))
  {
    hide Siblings, ProperKids;
    PairsOfBuild(keys, values);
  }

  /** Puts values in front of a list. */
  function Build(values: seq<Json>, items: Items): (r: Items) {
    if values == [] then items else Item(values[0], Build(values[1..], items))
  }

  function BuildMembers(keys: seq<bytes>, values: seq<Json>, members: Members): (r: Members)
    requires |keys| == |values|
  {
    if values == [] then members else Member(keys[0], values[0], BuildMembers(keys[1..], values[1..], members))
  }

  lemma {:induction false} BuildSnoc(values: seq<Json>, v: Json, items: Items)
    ensures Build(values + [v], items) == Build(values, Item(v, items))
    decreases |values|
  {
    var more := values + [v];
    if values == [] {
      assert more[1..] == [];
      assert Build(more[1..], items) == items;
    } else {
      assert more[1..] == values[1..] + [v];
      BuildSnoc(values[1..], v, items);
    }
  }

  lemma {:induction false} BuildMembersSnoc(keys: seq<bytes>, values: seq<Json>, key: bytes, v: Json, members: Members)
    requires |keys| == |values|
    ensures BuildMembers(keys + [key], values + [v], members) == BuildMembers(keys, values, Member(key, v, members))
    decreases |values|
  {
    var moreKeys, more := keys + [key], values + [v];
    if values == [] {
      assert more[1..] == [] && moreKeys[1..] == [];
      assert BuildMembers(moreKeys[1..], more[1..], members) == members;
    } else {
      assert more[1..] == values[1..] + [v] && moreKeys[1..] == keys[1..] + [key];
      BuildMembersSnoc(keys[1..], values[1..], key, v, members);
    }
  }

  lemma {:induction false} ListOfBuild(values: seq<Json>)
    ensures ListOf(Build(values, NoItems)) == values
  {
    if values != [] { ListOfBuild(values[1..]); }
  }

  lemma {:induction false} PairsOfBuild(keys: seq<bytes>, values: seq<Json>)
    requires |keys| == |values|
    ensures var pairs := PairsOf(BuildMembers(keys, values, NoMembers));
            |pairs| == |values| && forall i | 0 <= i < |values| :: pairs[i] == (keys[i], values[i])
  {
    if values != [] { PairsOfBuild(keys[1..], values[1..]); }
  }
}
