/** The comparison of two linked trees, against the comparison of the values they hold. */
module ComparingTrees {
  import opened Bytes
  import opened JsonTree
  import opened LinkedTree
  import opened ChildLists
  import opened Lookup
  import opened TreeLists
  import opened TreeMaps
  import opened Comparing
  import opened TreeViews

  /** A value for which taking a tree to be equal to itself without looking is right. */
  ghost predicate Benign(caseSensitive: bool, v: Json) {
    Ints(v) && Consistent(caseSensitive, v)
  }

  ghost predicate Comparable(caseSensitive: bool, s: Shape, v: Json, t: Shape, w: Json) {
    Nodes(s) !! Nodes(t) || (Benign(caseSensitive, v) && Benign(caseSensitive, w))
  }

  // ----- A tree determines its shape and its value -----

  lemma {:induction false} OneShape(s: Shape, t: Shape)
    requires s.node == t.node && Linked(s) && Linked(t)
    ensures s == t
    decreases s
  {
    SameLength(s.node.child, s.kids, t.kids, Last(s.kids), Last(t.kids), 0);
    forall i | 0 <= i < |s.kids| ensures s.kids[i] == t.kids[i] {
      OneShape(s.kids[i], t.kids[i]);
    }
  }

  lemma {:induction false} SameLength(first: Node?, a: seq<Shape>, b: seq<Shape>, p: Node?, q: Node?, i: nat)
    requires Siblings(first, p, a) && Siblings(first, q, b) && i <= |a| && i <= |b|
    requires i == 0 || a[i - 1].node == b[i - 1].node
    ensures |a| == |b| && forall k | i <= k < |a| :: a[k].node == b[k].node
    decreases |a| - i
  {
    hide Siblings;
    Following(first, p, a, i);
    Following(first, q, b, i);
    if i < |a| && i < |b| {
      SameLength(first, a, b, p, q, i + 1);
    }
  }

  lemma {:induction false} OneList(xs: Items, ys: Items)
    requires ListOf(xs) == ListOf(ys)
    ensures xs == ys
  {
    if xs.Item? && ys.Item? {
      assert ListOf(xs)[0] == ListOf(ys)[0] && ListOf(xs)[1..] == ListOf(ys)[1..];
      OneList(xs.tail, ys.tail);
    }
  }

  lemma {:induction false} OnePairs(xs: Members, ys: Members)
    requires PairsOf(xs) == PairsOf(ys)
    ensures xs == ys
  {
    if xs.Member? && ys.Member? {
      assert PairsOf(xs)[0] == PairsOf(ys)[0] && PairsOf(xs)[1..] == PairsOf(ys)[1..];
      OnePairs(xs.rest, ys.rest);
    }
  }

  /** A linked tree holds only one value. */
  lemma {:induction false} OneValue(s: Shape, v: Json, w: Json)
    requires Denotes(s, v) && Denotes(s, w)
    ensures v == w
    decreases s
  {
    match (v, w)
    case (Array(xs), Array(ys)) =>
      forall i | 0 <= i < |s.kids| ensures ListOf(xs)[i] == ListOf(ys)[i] {
        OneValue(s.kids[i], ListOf(xs)[i], ListOf(ys)[i]);
      }
      OneList(xs, ys);
    case (Object(xs), Object(ys)) =>
      forall i | 0 <= i < |s.kids| ensures PairsOf(xs)[i] == PairsOf(ys)[i] {
        OneValue(s.kids[i], PairsOf(xs)[i].1, PairsOf(ys)[i].1);
      }
      OnePairs(xs, ys);
    case _ =>
  }

  /** Where the shortcut for identical items is taken, it gives the right answer. */
  lemma IdenticalIsSame(caseSensitive: bool, s: Shape, v: Json, t: Shape, w: Json)
    requires s.node == t.node && Linked(s) && Linked(t) && Denotes(s, v) && Denotes(t, w)
    requires Comparable(caseSensitive, s, v, t, w)
    ensures Same(caseSensitive, v, w)
  {
    hide Linked, Denotes, Same, Ints, Consistent;
    OneShape(s, t);
    OneValue(s, v, w);
    assert s.node in Nodes(s) && s.node in Nodes(t);
    Reflexive(caseSensitive, v);
  }

  lemma KindsMatch(caseSensitive: bool, s: Shape, v: Json, t: Shape, w: Json)
    requires Denotes(s, v) && Denotes(t, w)
    ensures s.node.kind == KindOf(v) && t.node.kind == KindOf(w)
    ensures Same(caseSensitive, v, w) ==> KindOf(v) == KindOf(w)
    ensures s.node.kind == StringKind ==> s.node.valuestring == Some(v.text)
    ensures s.node.kind == NumberKind ==> s.node.valuedouble == v.value
  {
  }

  lemma ValidKind(s: Shape, v: Json)
    requires Tree(s.node, s, v)
    ensures s.node.kind != InvalidKind
  {
  }

  lemma KidInNodes(s: Shape, i: nat)
    requires i < |s.kids|
    ensures Nodes(s.kids[i]) <= Nodes(s)
  {
    KidNodes(s.kids, i);
  }

  // ----- Walking along an array -----

  lemma TreeIsView(s: Shape, v: Json)
    ensures Tree(s.node, s, v) <==> Proper(s) && View(s.node, s, v)
  {
  }

  lemma ProperKid(s: Shape, i: nat)
    requires Proper(s) && i < |s.kids|
    ensures Proper(s.kids[i]) && Nodes(s.kids[i]) <= Nodes(s)
  {
    hide Proper, Nodes, KidsNodes;
    ProperParts(s.node, s.kids);
    KidInNodes(s, i);
  }

  lemma TreeElementAt(s: Shape, xs: Items, i: nat, rest: Items)
    requires Tree(s.node, s, Array(xs)) && i <= |s.kids| && i <= |ListOf(xs)| && ListOf(rest) == ListOf(xs)[i..]
    ensures |s.kids| == |ListOf(xs)| && s.node.child == if s.kids == [] then null else s.kids[0].node
    ensures i < |s.kids| <==> rest.Item?
    ensures i < |s.kids| ==>
              var kid := s.kids[i];
              && ListOf(rest.tail) == ListOf(xs)[i + 1..]
              && Tree(kid.node, kid, rest.head) && kid.node.kind != InvalidKind
              && Nodes(kid) <= Nodes(s)
              && kid.node.next == if i + 1 < |s.kids| then s.kids[i + 1].node else null
  {
    hide *;
    TreeIsView(s, Array(xs));
    ElementAt(s.node, s, xs, i, rest);
    if i < |s.kids| {
      ProperKid(s, i);
      TreeIsView(s.kids[i], rest.head);
      ViewKind(s.kids[i].node, s.kids[i], rest.head);
    }
  }

  /** Compares two arrays element by element. */
  method CompareElements(a: Node, b: Node, caseSensitive: bool, ghost s: Shape, ghost xs: Items, ghost t: Shape,
                         ghost ys: Items)
    returns (same: bool)
    requires Tree(a, s, Array(xs)) && Tree(b, t, Array(ys))
    requires Comparable(caseSensitive, s, Array(xs), t, Array(ys))
    ensures same <==> SameItems(caseSensitive, xs, ys)
    decreases ItemsSize(xs) + ItemsSize(ys), 1
  {
    hide *;
    TreeParts(a, s, Array(xs));
    TreeParts(b, t, Array(ys));
    KindComparable(caseSensitive, s, Array(xs), t, Array(ys));
    TreeElementAt(s, xs, 0, xs);
    TreeElementAt(t, ys, 0, ys);
    BenignArray(caseSensitive, xs);
    BenignArray(caseSensitive, ys);
    var aElement, bElement := a.child, b.child;
    ghost var i: nat, xr, yr := 0, xs, ys;
    while aElement != null && bElement != null
      invariant i <= |s.kids| == |ListOf(xs)| && i <= |t.kids| == |ListOf(ys)|
      invariant aElement == if i < |s.kids| then s.kids[i].node else null
      invariant bElement == if i < |t.kids| then t.kids[i].node else null
      invariant Tree(a, s, Array(xs)) && Tree(b, t, Array(ys))
      invariant ListOf(xr) == ListOf(xs)[i..] && ListOf(yr) == ListOf(ys)[i..]
      invariant ItemsSize(xr) <= ItemsSize(xs) && ItemsSize(yr) <= ItemsSize(ys)
      invariant Nodes(s) !! Nodes(t) || (ItemsBenign(caseSensitive, xr) && ItemsBenign(caseSensitive, yr))
      invariant SameItems(caseSensitive, xs, ys) <==> SameItems(caseSensitive, xr, yr)
      decreases |s.kids| - i
    {
      TreeElementAt(s, xs, i, xr);
      TreeElementAt(t, ys, i, yr);
      SameItemsStep(caseSensitive, xr, yr);
      BenignStep(caseSensitive, xr);
      BenignStep(caseSensitive, yr);
      KindComparable(caseSensitive, s.kids[i], xr.head, t.kids[i], yr.head);
      assert allocated(KidsNodes(s.kids)) && allocated(KidsNodes(t.kids));
      var each := Compare(aElement, bElement, caseSensitive, s.kids[i], xr.head, t.kids[i], yr.head);
      if !each {
        return false;
      }
      aElement, bElement := aElement.next, bElement.next;
      i, xr, yr := i + 1, xr.tail, yr.tail;
    }
    TreeElementAt(s, xs, i, xr);
    TreeElementAt(t, ys, i, yr);
    SameItemsEnd(caseSensitive, xr, yr);
    if aElement != bElement {
      return false;
    }
    return true;
  }

  ghost predicate ItemsBenign(caseSensitive: bool, items: Items) {
    ItemsInts(items) && ItemsConsistent(caseSensitive, items)
  }

  lemma BenignArray(caseSensitive: bool, items: Items)
    ensures Benign(caseSensitive, Array(items)) <==> ItemsBenign(caseSensitive, items)
  {
  }

  lemma BenignStep(caseSensitive: bool, items: Items)
    ensures items.Item? ==>
              (ItemsBenign(caseSensitive, items) ==>
                 Benign(caseSensitive, items.head) && ItemsBenign(caseSensitive, items.tail))
    ensures items.Item? ==> ItemsSize(items) == 1 + Size(items.head) + ItemsSize(items.tail)
  {
  }

  lemma SameItemsStep(caseSensitive: bool, xs: Items, ys: Items)
    ensures xs.Item? && ys.Item? ==>
              (SameItems(caseSensitive, xs, ys) <==>
                 Same(caseSensitive, xs.head, ys.head) && SameItems(caseSensitive, xs.tail, ys.tail))
  {
    hide Same;
  }

  lemma SameItemsEnd(caseSensitive: bool, xs: Items, ys: Items)
    requires xs == NoItems || ys == NoItems
    ensures SameItems(caseSensitive, xs, ys) <==> xs == NoItems && ys == NoItems
  {
    hide Same;
  }

  lemma KindComparable(caseSensitive: bool, s: Shape, v: Json, t: Shape, w: Json)
    ensures Comparable(caseSensitive, s, v, t, w) <==>
              Nodes(s) !! Nodes(t) || (Benign(caseSensitive, v) && Benign(caseSensitive, w))
  {
  }

  // ----- Looking the members of one object up in another -----

  function MemberKeys(members: Members): (keys: seq<bytes>)
    ensures |keys| == |PairsOf(members)| && forall i | 0 <= i < |keys| :: keys[i] == PairsOf(members)[i].0
  {
    match members
    case NoMembers => []
    case Member(key, value, rest) => [key] + MemberKeys(rest)
  }

  /** The first member with a key stands at the key's position. */
  lemma {:induction false} FindAt(caseSensitive: bool, members: Members, name: bytes)
    ensures var i := Position(caseSensitive, MemberKeys(members), name);
            && i <= |PairsOf(members)|
            && Find(caseSensitive, members, name) ==
                 if i < |PairsOf(members)| then Some(PairsOf(members)[i].1) else None
  {
    hide Canon, Position;
    if members.Member? {
      var keys := MemberKeys(members);
      PositionStep(caseSensitive, keys, name);
      assert keys[0] == members.key && keys[1..] == MemberKeys(members.rest);
      FindAt(caseSensitive, members.rest, name);
    } else {
      assert MemberKeys(members) == [];
    }
  }

  lemma ObjectTrees(s: Shape, xs: Members)
    requires Tree(s.node, s, Object(xs))
    ensures |s.kids| == |PairsOf(xs)| && Keyed(s.kids, MemberKeys(xs)) && Children(s.node, RootSeq(s.kids))
    ensures forall i | 0 <= i < |s.kids| :: Tree(s.kids[i].node, s.kids[i], PairsOf(xs)[i].1)
  {
    hide Siblings, Nodes, KidsNodes, PairsOf, MemberKeys, Children, Proper, View, Tree;
    TreeIsView(s, Object(xs));
    ObjectKids(s.node, s, xs);
    ProperParts(s.node, s.kids);
    SiblingsAreChildren(s.node, s.kids);
    forall i | 0 <= i < |s.kids| ensures Tree(s.kids[i].node, s.kids[i], PairsOf(xs)[i].1) {
      ProperKid(s, i);
      TreeIsView(s.kids[i], PairsOf(xs)[i].1);
    }
  }

  lemma TreeMemberAt(s: Shape, xs: Members, i: nat, rest: Members)
    requires Tree(s.node, s, Object(xs)) && i <= |s.kids| && i <= |PairsOf(xs)| && PairsOf(rest) == PairsOf(xs)[i..]
    ensures |s.kids| == |PairsOf(xs)| && s.node.child == if s.kids == [] then null else s.kids[0].node
    ensures i < |s.kids| <==> rest.Member?
    ensures i < |s.kids| ==>
              var kid := s.kids[i];
              && PairsOf(rest.rest) == PairsOf(xs)[i + 1..]
              && Tree(kid.node, kid, rest.value) && kid.node.key == Some(rest.key) && kid.node.kind != InvalidKind
              && Nodes(kid) <= Nodes(s)
              && kid.node.next == if i + 1 < |s.kids| then s.kids[i + 1].node else null
  {
    hide *;
    TreeIsView(s, Object(xs));
    MemberAt(s.node, s, xs, i, rest);
    if i < |s.kids| {
      ProperKid(s, i);
      TreeIsView(s.kids[i], rest.value);
      ViewKind(s.kids[i].node, s.kids[i], rest.value);
    }
  }

  ghost predicate MembersBenign(caseSensitive: bool, members: Members, entries: map<bytes, Meaning>) {
    MembersInts(members) && Agrees(caseSensitive, members, entries)
  }

  lemma BenignObject(caseSensitive: bool, members: Members)
    ensures Benign(caseSensitive, Object(members)) <==>
              MembersBenign(caseSensitive, members, Entries(caseSensitive, members))
  {
  }

  lemma MembersStep(caseSensitive: bool, members: Members, entries: map<bytes, Meaning>, ys: Members)
    requires members.Member?
    ensures MembersBenign(caseSensitive, members, entries) ==>
              Benign(caseSensitive, members.value) && MembersBenign(caseSensitive, members.rest, entries)
    ensures MembersSize(members) == 1 + Size(members.value) + MembersSize(members.rest)
    ensures var w := Find(caseSensitive, ys, members.key);
            Covered(caseSensitive, members, ys) <==>
              w.Some? && Same(caseSensitive, members.value, w.value) && Covered(caseSensitive, members.rest, ys)
  {
    hide Same, Find, Canon;
  }

  lemma FoundBenign(caseSensitive: bool, members: Members, name: bytes)
    requires Benign(caseSensitive, Object(members))
    ensures var r := Find(caseSensitive, members, name); r.Some? ==> Benign(caseSensitive, r.value)
  {
    hide Find, Entries;
    FoundInts(caseSensitive, members, name);
    FoundConsistent(caseSensitive, members, name, Entries(caseSensitive, members));
  }

  /** The first member that answers to a name, as the lookup finds it in the linked object. */
  lemma FoundMember(caseSensitive: bool, t: Shape, ys: Members, name: bytes)
    requires Tree(t.node, t, Object(ys))
    ensures var i, w := Position(caseSensitive, MemberKeys(ys), name), Find(caseSensitive, ys, name);
            && i <= |t.kids| && (w.Some? <==> i < |t.kids|)
            && FirstStop(caseSensitive, KeysOf(RootSeq(t.kids)), name) == i
            && (i < |t.kids| ==>
                  && Tree(t.kids[i].node, t.kids[i], w.value) && Nodes(t.kids[i]) <= Nodes(t)
                  && RootSeq(t.kids)[i] == t.kids[i].node && t.kids[i].node.key.Some?
                  && Size(w.value) < MembersSize(ys))
  {
    hide *;
    var i := Position(caseSensitive, MemberKeys(ys), name);
    ObjectTrees(t, ys);
    PositionIs(caseSensitive, t.kids, MemberKeys(ys), name);
    FindAt(caseSensitive, ys, name);
    if i < |t.kids| { KidInNodes(t, i); }
  }

  /** Whether every member of one object is the same as the first member of the other that answers to its key. */
  method CoverMembers(a: Node, b: Node, caseSensitive: bool, ghost s: Shape, ghost xs: Members, ghost t: Shape,
                      ghost ys: Members)
    returns (covered: bool)
    requires Tree(a, s, Object(xs)) && Tree(b, t, Object(ys))
    requires Comparable(caseSensitive, s, Object(xs), t, Object(ys))
    ensures covered <==> Covered(caseSensitive, xs, ys)
    decreases MembersSize(xs) + MembersSize(ys), 1
  {
    hide *;
    TreeParts(a, s, Object(xs));
    TreeParts(b, t, Object(ys));
    KindComparable(caseSensitive, s, Object(xs), t, Object(ys));
    TreeMemberAt(s, xs, 0, xs);
    BenignObject(caseSensitive, xs);
    ghost var entries := Entries(caseSensitive, xs);
    var aElement := a.child;
    ghost var i: nat, xr := 0, xs;
    while aElement != null
      invariant i <= |s.kids| == |PairsOf(xs)|
      invariant aElement == if i < |s.kids| then s.kids[i].node else null
      invariant Tree(a, s, Object(xs)) && Tree(b, t, Object(ys))
      invariant PairsOf(xr) == PairsOf(xs)[i..]
      invariant MembersSize(xr) <= MembersSize(xs)
      invariant Nodes(s) !! Nodes(t) ||
                (MembersBenign(caseSensitive, xr, entries) && Benign(caseSensitive, Object(ys)))
      invariant Covered(caseSensitive, xs, ys) <==> Covered(caseSensitive, xr, ys)
      decreases |s.kids| - i
    {
      TreeMemberAt(s, xs, i, xr);
      MembersStep(caseSensitive, xr, entries, ys);
      ObjectTrees(t, ys);
      FoundMember(caseSensitive, t, ys, xr.key);
      ghost var j, w := Position(caseSensitive, MemberKeys(ys), xr.key), Find(caseSensitive, ys, xr.key);
      assert allocated(KidsNodes(s.kids)) && allocated(KidsNodes(t.kids));
      var bElement := GetObjectItem(b, aElement.key, caseSensitive, RootSeq(t.kids));
      if bElement == null {
        return false;
      }
      if Benign(caseSensitive, Object(ys)) { FoundBenign(caseSensitive, ys, xr.key); }
      KindComparable(caseSensitive, s.kids[i], xr.value, t.kids[j], w.value);
      TreeMemberAt(s, xs, i, xr);
      FoundMember(caseSensitive, t, ys, xr.key);
      ValidKind(t.kids[j], w.value);
      var each := Compare(aElement, bElement, caseSensitive, s.kids[i], xr.value, t.kids[j], w.value);
      if !each {
        return false;
      }
      TreeMemberAt(s, xs, i, xr);
      aElement := aElement.next;
      i, xr := i + 1, xr.rest;
    }
    TreeMemberAt(s, xs, i, xr);
    CoveredEnd(caseSensitive, ys);
    return true;
  }

  lemma CoveredEnd(caseSensitive: bool, ys: Members)
    ensures Covered(caseSensitive, NoMembers, ys)
  {
  }

  // ----- The comparison -----

  /** The comparison of the source; where no item is shared it is the comparison of the values held. */
  method Compare(a: Node?, b: Node?, caseSensitive: bool, ghost s: Shape, ghost v: Json, ghost t: Shape, ghost w: Json)
    returns (same: bool)
    requires a != null && a.kind != InvalidKind ==> Tree(a, s, v)
    requires b != null && b.kind != InvalidKind ==> Tree(b, t, w)
    requires Comparable(caseSensitive, s, v, t, w)
    ensures same <==>
              && a != null && b != null && a.kind != InvalidKind && b.kind != InvalidKind
              && Same(caseSensitive, v, w)
    decreases Size(v) + Size(w), 2
  {
    hide *;
    if a == null || b == null || a.kind != b.kind {
      if a != null && b != null && a.kind != InvalidKind && b.kind != InvalidKind {
        TreeParts(a, s, v);
        TreeParts(b, t, w);
        KindsMatch(caseSensitive, s, v, t, w);
      }
      return false;
    }
    if a.kind == InvalidKind {
      return false;
    }
    TreeParts(a, s, v);
    TreeParts(b, t, w);
    KindsMatch(caseSensitive, s, v, t, w);
    if a == b {
      IdenticalIsSame(caseSensitive, s, v, t, w);
      return true;
    }
    match a.kind
    case FalseKind =>
      SameByKind(caseSensitive, v, w);
      same := true;
    case TrueKind =>
      SameByKind(caseSensitive, v, w);
      same := true;
    case NullKind =>
      SameByKind(caseSensitive, v, w);
      same := true;
    case NumberKind =>
      SameByKind(caseSensitive, v, w);
      same := CompareDouble(a.valuedouble, b.valuedouble);
    case StringKind =>
      SameByKind(caseSensitive, v, w);
      if a.valuestring == None || b.valuestring == None {
        return false;
      }
      same := CString(a.valuestring.value) == CString(b.valuestring.value);
    case ArrayKind =>
      SameByKind(caseSensitive, v, w);
      same := CompareElements(a, b, caseSensitive, s, v.items, t, w.items);
    case ObjectKind =>
      SameByKind(caseSensitive, v, w);
      assert allocated(KidsNodes(s.kids)) && allocated(KidsNodes(t.kids));
      same := CoverMembers(a, b, caseSensitive, s, v.members, t, w.members);
      if !same {
        return false;
      }
      KindComparable(caseSensitive, s, v, t, w);
      KindComparable(caseSensitive, t, w, s, v);
      same := CoverMembers(b, a, caseSensitive, t, w.members, s, v.members);
  }

  lemma SameByKind(caseSensitive: bool, v: Json, w: Json)
    requires KindOf(v) == KindOf(w)
    ensures match KindOf(v)
            case NumberKind =>
              v.Number? && w.Number? && (Same(caseSensitive, v, w) <==> CompareDouble(v.value, w.value))
            case StringKind =>
              v.String? && w.String? && (Same(caseSensitive, v, w) <==> CString(v.text) == CString(w.text))
            case ArrayKind =>
              v.Array? && w.Array? && (Same(caseSensitive, v, w) <==> SameItems(caseSensitive, v.items, w.items))
            case ObjectKind =>
              && v.Object? && w.Object?
              && (Same(caseSensitive, v, w) <==>
                    Covered(caseSensitive, v.members, w.members) && Covered(caseSensitive, w.members, v.members))
            case _ => Same(caseSensitive, v, w)
    ensures Size(v) == if v.Array? then 1 + ItemsSize(v.items) else if v.Object? then 1 + MembersSize(v.members) else 0
    ensures Size(w) == if w.Array? then 1 + ItemsSize(w.items) else if w.Object? then 1 + MembersSize(w.members) else 0
  {
    hide CompareDouble, CString, Covered, SameItems;
  }
}
