/** What a walk along the children of a linked tree sees of the value the tree holds. */
module TreeViews {
  import opened Bytes
  import opened JsonTree
  import opened LinkedTree

  /** `item` is the root of a linked tree that holds `v`; items may be shared. */
  ghost predicate View(item: Node, s: Shape, v: Json)
    reads item`child, item`kind, item`valuestring, item`valuedouble, item`valueint, KidsNodes(s.kids)
  {
    s.node == item && Linked(s) && Denotes(s, v)
  }

  lemma ViewIs(item: Node, s: Shape, v: Json)
    ensures View(item, s, v) <==> s.node == item && Linked(s) && Denotes(s, v)
  {
  }

  function KindOf(v: Json): Kind {
    match v
    case Null => NullKind
    case False => FalseKind
    case True => TrueKind
    case Number(_) => NumberKind
    case String(_) => StringKind
    case Array(_) => ArrayKind
    case Object(_) => ObjectKind
  }

  lemma ViewKind(item: Node, s: Shape, v: Json)
    requires View(item, s, v)
    ensures item.kind == KindOf(v) != InvalidKind
    ensures v.String? ==> item.valuestring == Some(v.text)
    ensures v.Number? ==> item.valuedouble == v.value
  {
  }

  /** The item behind the first `i` children. */
  lemma Following(first: Node?, tail: Node?, kids: seq<Shape>, i: nat)
    requires Siblings(first, tail, kids) && i <= |kids|
    ensures (if i == 0 then first else kids[i - 1].node.next) == if i < |kids| then kids[i].node else null
  {
  }

  lemma ArrayKids(item: Node, s: Shape, xs: Items)
    requires View(item, s, Array(xs))
    ensures |s.kids| == |ListOf(xs)| && Siblings(item.child, Last(s.kids), s.kids)
    ensures forall i | 0 <= i < |s.kids| :: View(s.kids[i].node, s.kids[i], ListOf(xs)[i])
  {
    hide Siblings, ListOf;
    forall i | 0 <= i < |s.kids| ensures View(s.kids[i].node, s.kids[i], ListOf(xs)[i]) {
      assert Linked(s.kids[i]);
      assert Denotes(s.kids[i], ListOf(xs)[i]);
    }
  }

  lemma ObjectKids(item: Node, s: Shape, xs: Members)
    requires View(item, s, Object(xs))
    ensures |s.kids| == |PairsOf(xs)| && Siblings(item.child, Last(s.kids), s.kids)
    ensures forall i | 0 <= i < |s.kids| :: View(s.kids[i].node, s.kids[i], PairsOf(xs)[i].1)
    ensures forall i | 0 <= i < |s.kids| :: s.kids[i].node.key == Some(PairsOf(xs)[i].0)
  {
    hide Siblings, PairsOf;
    forall i | 0 <= i < |s.kids| ensures View(s.kids[i].node, s.kids[i], PairsOf(xs)[i].1) {
      assert Linked(s.kids[i]);
      assert Denotes(s.kids[i], PairsOf(xs)[i].1);
    }
  }

  /** Where the walk along an array stands before its `i`-th element; `rest` is still to come. */
  lemma ElementAt(item: Node, s: Shape, xs: Items, i: nat, rest: Items)
    requires View(item, s, Array(xs)) && i <= |s.kids| && i <= |ListOf(xs)| && ListOf(rest) == ListOf(xs)[i..]
    ensures |s.kids| == |ListOf(xs)| && item.child == if s.kids == [] then null else s.kids[0].node
    ensures i < |s.kids| <==> rest.Item?
    ensures i < |s.kids| ==>
              var kid := s.kids[i];
              && ListOf(rest.tail) == ListOf(xs)[i + 1..] && (rest.tail.Item? <==> i + 1 < |s.kids|)
              && View(kid.node, kid, rest.head)
              && kid.node.next == if i + 1 < |s.kids| then s.kids[i + 1].node else null
  {
    hide Siblings, View;
    ArrayKids(item, s, xs);
    Following(item.child, Last(s.kids), s.kids, 0);
    if i < |s.kids| {
      Following(item.child, Last(s.kids), s.kids, i + 1);
      assert rest.head == ListOf(rest)[0] == ListOf(xs)[i];
      assert ListOf(rest.tail) == ListOf(rest)[1..];
    }
  }

  /** The same for the members of an object. */
  lemma MemberAt(item: Node, s: Shape, xs: Members, i: nat, rest: Members)
    requires View(item, s, Object(xs)) && i <= |s.kids| && i <= |PairsOf(xs)| && PairsOf(rest) == PairsOf(xs)[i..]
    ensures |s.kids| == |PairsOf(xs)| && item.child == if s.kids == [] then null else s.kids[0].node
    ensures i < |s.kids| <==> rest.Member?
    ensures i < |s.kids| ==>
              var kid := s.kids[i];
              && PairsOf(rest.rest) == PairsOf(xs)[i + 1..] && (rest.rest.Member? <==> i + 1 < |s.kids|)
              && View(kid.node, kid, rest.value) && kid.node.key == Some(rest.key)
              && kid.node.next == if i + 1 < |s.kids| then s.kids[i + 1].node else null
  {
    hide Siblings, View;
    ObjectKids(item, s, xs);
    Following(item.child, Last(s.kids), s.kids, 0);
    if i < |s.kids| {
      Following(item.child, Last(s.kids), s.kids, i + 1);
      assert (rest.key, rest.value) == PairsOf(rest)[0] == PairsOf(xs)[i];
      assert PairsOf(rest.rest) == PairsOf(rest)[1..];
    }
  }
}
