/** Which items are children of which: what an edit of one list, or of a whole tree, does to the ownership of items. */
module Families {
  import opened Bytes
  import opened LinkedTree
  import opened ChildLists
  import opened TreeLists
  import opened Ownership

  /** Which children every item has; an item no one has as a child is a root. */
  type Family = map<Node, seq<Node>>

  /** No item stands in two places. */
  ghost predicate OneOwner(kids: Family) {
    forall p, q, i, j
      | p in kids && q in kids && 0 <= i < |kids[p]| && 0 <= j < |kids[q]| && kids[p][i] == kids[q][j] ::
      p == q && i == j
  }

  ghost predicate Closed(kids: Family) {
    forall p, i | p in kids && 0 <= i < |kids[p]| :: kids[p][i] in kids
  }

  ghost predicate IsRoot(kids: Family, r: Node) {
    r in kids && forall p | p in kids :: r !in kids[p]
  }

  /** The tree below an item, as the family has it. */
  ghost predicate Fits(kids: Family, s: Shape) {
    && s.node in kids && kids[s.node] == RootSeq(s.kids)
    && forall i | 0 <= i < |s.kids| :: Fits(kids, s.kids[i])
  }

  // ----- A tree below an item never meets itself -----

  lemma {:induction false} FitsOnce(kids: Family, s: Shape, t: Shape)
    requires Fits(kids, s) && Fits(kids, t) && s.node == t.node
    ensures s == t
    decreases s
  {
    assert |s.kids| == |RootSeq(s.kids)| == |t.kids|;
    forall i | 0 <= i < |s.kids| ensures s.kids[i] == t.kids[i] {
      assert RootSeq(s.kids)[i] == RootSeq(t.kids)[i];
      FitsOnce(kids, s.kids[i], t.kids[i]);
    }
  }

  /** Where an item below the top of a tree stands. */
  lemma {:induction false} SubtreeAt(kids: Family, s: Shape, n: Node) returns (t: Shape)
    requires Fits(kids, s) && n in Nodes(s)
    ensures t.node == n && Fits(kids, t) && Count(t) <= Count(s) && (n != s.node ==> Count(t) < Count(s))
    decreases s
  {
    if n == s.node {
      t := s;
    } else {
      var i :| 0 <= i < |s.kids| && n in Nodes(s.kids[i]);
      t := SubtreeAt(kids, s.kids[i], n);
      KidCount(s.kids, i);
    }
  }

  lemma {:induction false} NoCycle(kids: Family, s: Shape)
    requires Fits(kids, s)
    ensures s.node !in KidsNodes(s.kids)
  {
    if s.node in KidsNodes(s.kids) {
      var i :| 0 <= i < |s.kids| && s.node in Nodes(s.kids[i]);
      var t := SubtreeAt(kids, s.kids[i], s.node);
      KidCount(s.kids, i);
      FitsOnce(kids, s, t);
      assert false;
    }
  }

  /** The owner of an item below the top stands in the tree too. */
  lemma {:induction false} OwnerInside(kids: Family, s: Shape, p: Node, i: nat)
    requires OneOwner(kids) && Fits(kids, s) && p in kids && i < |kids[p]|
    requires kids[p][i] in KidsNodes(s.kids)
    ensures p in Nodes(s)
    decreases s
  {
    var n := kids[p][i];
    var k :| 0 <= k < |s.kids| && n in Nodes(s.kids[k]);
    if n == s.kids[k].node {
      assert kids[s.node][k] == n;
    } else {
      OwnerInside(kids, s.kids[k], p, i);
      KidNodes(s.kids, k);
    }
  }

  /** Two trees that share an item: the top of one stands in the other. */
  lemma {:induction false} Meet(kids: Family, s: Shape, t: Shape, n: Node)
    requires OneOwner(kids) && Fits(kids, s) && Fits(kids, t) && n in Nodes(s) && n in Nodes(t)
    ensures s.node in Nodes(t) || t.node in Nodes(s)
    decreases s
  {
    if n != s.node && n != t.node {
      var i :| 0 <= i < |s.kids| && n in Nodes(s.kids[i]);
      var j :| 0 <= j < |t.kids| && n in Nodes(t.kids[j]);
      var a, b := s.kids[i], t.kids[j];
      assert kids[s.node][i] == a.node && kids[t.node][j] == b.node;
      Meet(kids, a, b, n);
      KidNodes(s.kids, i);
      KidNodes(t.kids, j);
      if a.node in Nodes(b) {
        OwnerInside(kids, t, s.node, i);
      } else {
        OwnerInside(kids, s, t.node, j);
      }
    }
  }

  lemma {:induction false} FitsProper(kids: Family, s: Shape)
    requires OneOwner(kids) && Fits(kids, s)
    ensures Proper(s)
    decreases s
  {
    NoCycle(kids, s);
    forall i | 0 <= i < |s.kids| ensures Proper(s.kids[i]) { FitsProper(kids, s.kids[i]); }
    forall i, j | 0 <= i < j < |s.kids| ensures Nodes(s.kids[i]) !! Nodes(s.kids[j]) {
      SiblingsApart(kids, s, i, j);
    }
  }

  lemma SiblingsApart(kids: Family, s: Shape, i: nat, j: nat)
    requires OneOwner(kids) && Fits(kids, s) && i < j < |s.kids|
    ensures Nodes(s.kids[i]) !! Nodes(s.kids[j])
  {
    var a, b := s.kids[i], s.kids[j];
    assert kids[s.node][i] == a.node && kids[s.node][j] == b.node;
    NoCycle(kids, s);
    KidNodes(s.kids, i);
    KidNodes(s.kids, j);
    if n :| n in Nodes(a) && n in Nodes(b) {
      Meet(kids, a, b, n);
      if a.node in Nodes(b) {
        OwnerInside(kids, b, s.node, i);
      } else {
        OwnerInside(kids, a, s.node, j);
      }
      assert false;
    }
  }

  // ----- The links and the blocks -----

  /** The links of the heap are those of the family; a reference has no children of its own. */
  ghost predicate LinkOf(kids: Family, p: Node)
    requires p in kids
    reads p`isReference, p`child, kids[p]`next, kids[p]`prev
  {
    if p.isReference then kids[p] == [] else Children(p, kids[p])
  }

  ghost predicate LinksOf(kids: Family)
    requires Closed(kids)
    reads kids.Keys`isReference, kids.Keys`child, kids.Keys`next, kids.Keys`prev
  {
    forall p | p in kids :: LinkOf(kids, p)
  }

  ghost predicate LooseRoots(kids: Family)
    reads kids.Keys`next, kids.Keys`prev
  {
    forall r | r in kids && IsRoot(kids, r) :: r.next == null && r.prev == null
  }

  /** Everything that holds between operations, but for the blocks. */
  ghost predicate Sound(kids: Family)
    reads kids.Keys`isReference, kids.Keys`child, kids.Keys`next, kids.Keys`prev
  {
    Closed(kids) && OneOwner(kids) && LinksOf(kids) && LooseRoots(kids)
  }

  lemma Grown(kids: Family, item: Node)
    requires Sound(kids) && item !in kids && item.next == null && item.prev == null
             && (item.isReference || item.child == null)
    ensures var more := kids[item := []];
            Sound(more) && IsRoot(more, item) && OwnedBy(more.Keys) == OwnedBy(kids.Keys) + NodeBlocks(item)
  {
    var more := kids[item := []];
    assert more.Keys == kids.Keys + {item};
    assert OwnedBy(more.Keys) == OwnedBy(kids.Keys) + NodeBlocks(item) by {
      hide OwnedBy, NodeBlocks;
      OwnedJoin(kids.Keys, {item});
      OwnedOne(item);
    }
    hide NodeBlocks, OwnedBy;
    GrownFamily(kids, item);
    GrownLinks(kids, item);
  }

  lemma GrownFamily(kids: Family, item: Node)
    requires Closed(kids) && OneOwner(kids) && item !in kids
    ensures var more := kids[item := []]; Closed(more) && OneOwner(more) && IsRoot(more, item)
    ensures forall r | r in kids && IsRoot(kids[item := []], r) :: IsRoot(kids, r)
  {
    var more := kids[item := []];
    forall p | p in kids ensures item !in kids[p] {}
    forall r | r in kids && IsRoot(more, r) ensures IsRoot(kids, r) {
      forall p | p in kids ensures r !in kids[p] { assert more[p] == kids[p]; }
    }
  }

  lemma StillRoot(kids: Family, r: Node, item: Node)
    requires IsRoot(kids, r) && item !in kids
    ensures IsRoot(kids[item := []], r)
  {
    var more := kids[item := []];
    forall p | p in more ensures r !in more[p] {
      if p != item { assert more[p] == kids[p]; }
    }
  }

  /** Nobody but the item itself owns its blocks. */
  lemma GoneBlocks(items: set<Node>, n: Node)
    requires n !in items
    ensures ItemBlock(n) !in OwnedBy(items) && TextBlock(n) !in OwnedBy(items) && KeyBlock(n) !in OwnedBy(items)
  {
    hide OwnedBy;
    forall b | b in OwnedBy(items) ensures b.node in items { OwnedNode(items, b); }
  }

  lemma GrownLinks(kids: Family, item: Node)
    requires Sound(kids) && item !in kids && item.next == null && item.prev == null
             && (item.isReference || item.child == null)
    ensures var more := kids[item := []]; LinksOf(more) && LooseRoots(more)
  {
    var more := kids[item := []];
    GrownFamily(kids, item);
    hide IsRoot, Closed, OneOwner;
    assert Children(item, []) || item.isReference;
    forall p | p in kids ensures more[p] == kids[p] {}
  }

  // ----- One item more or less in one list -----

  lemma AttachFamily(kids: Family, p: Node, i: nat, item: Node)
    requires Closed(kids) && OneOwner(kids) && p in kids && i <= |kids[p]| && IsRoot(kids, item)
    ensures var more := kids[p := Inserted(kids[p], i, item)]; Closed(more) && OneOwner(more) && more.Keys == kids.Keys
    ensures forall r | r in kids && IsRoot(kids[p := Inserted(kids[p], i, item)], r) :: IsRoot(kids, r) && r != item
  {
  }

  lemma DetachFamily(kids: Family, p: Node, i: nat)
    requires Closed(kids) && OneOwner(kids) && p in kids && i < |kids[p]|
    ensures var less := kids[p := Removed(kids[p], i)];
            Closed(less) && OneOwner(less) && less.Keys == kids.Keys && IsRoot(less, kids[p][i])
    ensures forall r | r in kids && IsRoot(kids[p := Removed(kids[p], i)], r) :: IsRoot(kids, r) || r == kids[p][i]
  {
  }

  /** An item stands in one list or in none. */
  lemma ListsApart(kids: Family, p: Node, item: Node, q: Node)
    requires OneOwner(kids) && p in kids && q in kids && q != p && (item in kids[p] || IsRoot(kids, item))
    ensures forall n | n in kids[q] :: n !in kids[p] && n != item
  {
  }

  /** An edit of one list that leaves the others alone and makes no root hold on to anything keeps everything. */
  lemma Edited(before: Family, after: Family, p: Node)
    requires p in before && after.Keys == before.Keys && Closed(after) && OneOwner(after)
    requires forall q | q in before && q != p :: after[q] == before[q] && LinkOf(before, q)
    requires !p.isReference && Children(p, after[p])
    requires forall r | r in before && IsRoot(after, r) :: r.next == null && r.prev == null
    ensures Sound(after)
  {
    hide Children, IsRoot, Closed, OneOwner;
    forall q | q in after ensures LinkOf(after, q) {
      if q != p { assert LinkOf(before, q); }
    }
  }

  lemma ReplaceFamily(kids: Family, p: Node, i: nat, item: Node)
    requires Closed(kids) && OneOwner(kids) && p in kids && i < |kids[p]| && IsRoot(kids, item)
    ensures var more := kids[p := kids[p][i := item]];
            Closed(more) && OneOwner(more) && more.Keys == kids.Keys && IsRoot(more, kids[p][i])
    ensures forall r | r in kids && IsRoot(kids[p := kids[p][i := item]], r) ::
              (IsRoot(kids, r) && r != item) || r == kids[p][i]
  {
    ReplacedRoots(kids, p, i, item);
  }

  lemma ReplacedRoots(kids: Family, p: Node, i: nat, item: Node)
    requires Closed(kids) && OneOwner(kids) && p in kids && i < |kids[p]| && IsRoot(kids, item)
    ensures forall r | r in kids && IsRoot(kids[p := kids[p][i := item]], r) ::
              (IsRoot(kids, r) && r != item) || r == kids[p][i]
  {
    var more := kids[p := kids[p][i := item]];
    assert more[p][i] == item;
    forall r | r in kids && IsRoot(more, r) && r != kids[p][i] ensures IsRoot(kids, r) {
      forall q | q in kids ensures r !in kids[q] {
        if q == p {
          assert forall k | 0 <= k < |kids[p]| && k != i :: more[p][k] == kids[p][k];
        } else {
          assert more[q] == kids[q];
        }
      }
    }
  }

  /** A child's own tree does not reach its owner. */
  lemma OwnerOutside(kids: Family, s: Shape, p: Node, i: nat)
    requires OneOwner(kids) && Fits(kids, s) && p in kids && i < |kids[p]| && kids[p][i] == s.node
    ensures p !in Nodes(s)
  {
    if p in Nodes(s) {
      var t := SubtreeAt(kids, s, p);
      assert t.kids[i].node == RootSeq(t.kids)[i] == s.node;
      FitsOnce(kids, s, t.kids[i]);
      KidCount(t.kids, i);
      CountIs(t);
      assert false;
    }
  }

  lemma {:induction false} FitsElsewhere(kids: Family, s: Shape, p: Node, list: seq<Node>)
    requires Fits(kids, s) && p !in Nodes(s)
    ensures Fits(kids[p := list], s)
    decreases s
  {
    forall i | 0 <= i < |s.kids| ensures Fits(kids[p := list], s.kids[i]) {
      KidNodes(s.kids, i);
      FitsElsewhere(kids, s.kids[i], p, list);
    }
  }

  // ----- A whole tree less -----

  lemma {:induction false} ChildInside(kids: Family, s: Shape, p: Node, i: nat)
    requires Fits(kids, s) && p in Nodes(s) && p in kids && i < |kids[p]|
    ensures kids[p][i] in Nodes(s)
    decreases s
  {
    if p == s.node {
      KidNodes(s.kids, i);
      assert s.kids[i].node == kids[p][i];
    } else {
      var k :| 0 <= k < |s.kids| && p in Nodes(s.kids[k]);
      ChildInside(kids, s.kids[k], p, i);
      KidNodes(s.kids, k);
    }
  }

  /** No item outside a root's tree has a child in it. */
  lemma Outside(kids: Family, s: Shape, q: Node)
    requires OneOwner(kids) && Fits(kids, s) && IsRoot(kids, s.node) && q in kids && q !in Nodes(s)
    ensures forall c | c in kids[q] :: c !in Nodes(s)
  {
    hide OneOwner, Fits, Nodes, KidsNodes;
    RootsApart(kids, s.node, q);
    NodesOf(s);
    forall c | c in kids[q] ensures c !in Nodes(s) {
      var i :| 0 <= i < |kids[q]| && kids[q][i] == c;
      if c in KidsNodes(s.kids) { OwnerInside(kids, s, q, i); }
    }
  }

  lemma PrunedFamily(kids: Family, s: Shape)
    requires Closed(kids) && OneOwner(kids) && Fits(kids, s) && IsRoot(kids, s.node)
    ensures var left := kids - Nodes(s); Closed(left) && OneOwner(left)
    ensures forall q | q in kids && q !in Nodes(s) :: forall c | c in kids[q] :: c !in Nodes(s)
    ensures forall r | r in kids && IsRoot(kids - Nodes(s), r) :: IsRoot(kids, r)
  {
    hide Nodes, Fits, OneOwner;
    var left := kids - Nodes(s);
    forall q | q in kids && q !in Nodes(s) ensures forall c | c in kids[q] :: c !in Nodes(s) {
      Outside(kids, s, q);
    }
    PrunedOwners(kids, Nodes(s));
    forall r | r in kids && IsRoot(left, r) ensures IsRoot(kids, r) {
      forall p | p in kids ensures r !in kids[p] {
        if p in Nodes(s) && r in kids[p] {
          var i :| 0 <= i < |kids[p]| && kids[p][i] == r;
          ChildInside(kids, s, p, i);
        } else if p !in Nodes(s) {
          assert left[p] == kids[p];
        }
      }
    }
  }

  lemma PrunedOwners(kids: Family, gone: set<Node>)
    requires OneOwner(kids)
    ensures OneOwner(kids - gone)
  {
  }

  lemma Pruned(kids: Family, s: Shape)
    requires Sound(kids) && Fits(kids, s) && IsRoot(kids, s.node)
    ensures Sound(kids - Nodes(s)) && OwnedBy((kids - Nodes(s)).Keys) == OwnedBy(kids.Keys) - OwnedBy(Nodes(s))
    ensures Nodes(s) <= kids.Keys && OwnedBy(Nodes(s)) <= OwnedBy(kids.Keys)
  {
    hide *;
    SoundParts(kids);
    PrunedFamily(kids, s);
    FitsInside(kids, s);
    PrunedLinks(kids, Nodes(s));
    var left := kids - Nodes(s);
    assert kids.Keys == left.Keys + Nodes(s) && left.Keys !! Nodes(s);
    OwnedJoin(left.Keys, Nodes(s));
  }

  lemma {:induction false} FitsInside(kids: Family, s: Shape)
    requires Fits(kids, s)
    ensures Nodes(s) <= kids.Keys
    decreases s
  {
    forall i | 0 <= i < |s.kids| ensures Nodes(s.kids[i]) <= kids.Keys { FitsInside(kids, s.kids[i]); }
  }

  lemma PrunedLinks(kids: Family, gone: set<Node>)
    requires Sound(kids) && Closed(kids - gone) && OneOwner(kids - gone)
    requires forall r | r in kids && IsRoot(kids - gone, r) :: IsRoot(kids, r)
    ensures Sound(kids - gone)
  {
    hide IsRoot, OneOwner, Children;
    var left := kids - gone;
    forall p | p in left ensures LinkOf(left, p) {
      assert LinkOf(kids, p);
    }
  }

  /** The owner's view of a tree is the family's. */
  lemma {:induction false} FitsOwns(kids: Family, s: Shape)
    requires Sound(kids) && Fits(kids, s)
    ensures Owns(s)
    decreases s
  {
    hide Sound, Children, Siblings, Nodes, KidsNodes;
    SoundParts(kids);
    assert LinkOf(kids, s.node);
    forall i | 0 <= i < |s.kids| ensures Owns(s.kids[i]) { FitsOwns(kids, s.kids[i]); }
    FitsProper(kids, s);
    ProperParts(s.node, s.kids);
    SiblingsAreChildren(s.node, s.kids);
  }

  lemma RootIs(kids: Family, r: Node)
    requires Sound(kids) && IsRoot(kids, r)
    ensures r in kids && r.next == null && r.prev == null
  {
  }

  lemma NothingToDelete()
    ensures Chain(null, []) && ProperKids([]) && AllOwn([]) && KidsNodes([]) == {} && OwnedBy({}) == {}
  {
  }

  lemma SoundParts(kids: Family)
    requires Sound(kids)
    ensures Closed(kids) && OneOwner(kids)
    ensures forall p | p in kids :: LinkOf(kids, p) && forall c | c in kids[p] :: c in kids
    ensures forall r | r in kids && IsRoot(kids, r) :: r.next == null && r.prev == null
  {
    hide OneOwner, IsRoot, LinkOf;
  }

  lemma RootsApart(kids: Family, r: Node, p: Node)
    requires IsRoot(kids, r) && p in kids
    ensures r !in kids[p]
  {
  }

  lemma Unfold(kids: Family, p: Node)
    requires Sound(kids) && p in kids
    ensures Closed(kids) && OneOwner(kids) && (!p.isReference ==> Children(p, kids[p]))
            && forall c | c in kids[p] :: c in kids
  {
    assert LinkOf(kids, p);
  }

  lemma RootsAre(kids: Family, r: Node, p: Node)
    requires Sound(kids) && IsRoot(kids, r) && p in kids
    ensures r in kids && r !in kids[p] && r.next == null && r.prev == null
  {
  }

  // ----- A whole tree more -----

  lemma {:induction false} FitsMore(f: Family, g: Family, s: Shape)
    requires Fits(f, s) && forall n | n in Nodes(s) :: n in f ==> n in g && g[n] == f[n]
    ensures Fits(g, s)
    decreases s
  {
    forall i | 0 <= i < |s.kids| ensures Fits(g, s.kids[i]) {
      KidNodes(s.kids, i);
      FitsMore(f, g, s.kids[i]);
    }
  }

  /** The family of a tree on its own. */
  lemma {:induction false} FamilyOf(s: Shape) returns (f: Family)
    requires Proper(s)
    ensures f.Keys == Nodes(s) && Fits(f, s)
    decreases Count(s), 0
  {
    hide Nodes, Proper, Fits, ProperKids, KidsNodes, RootSeq;
    ProperParts(s.node, s.kids);
    CountIs(s);
    NodesOf(s);
    var g := FamilyOfAll(s.kids);
    f := g[s.node := RootSeq(s.kids)];
    forall i | 0 <= i < |s.kids| ensures Fits(f, s.kids[i]) {
      KidNodes(s.kids, i);
      FitsElsewhere(g, s.kids[i], s.node, RootSeq(s.kids));
    }
    FitsTop(f, s);
  }

  lemma FitsTop(f: Family, s: Shape)
    requires s.node in f && f[s.node] == RootSeq(s.kids) && forall i | 0 <= i < |s.kids| :: Fits(f, s.kids[i])
    ensures Fits(f, s)
  {
  }

  lemma {:induction false} FamilyOfAll(kids: seq<Shape>) returns (f: Family)
    requires ProperKids(kids)
    ensures f.Keys == KidsNodes(kids) && forall i | 0 <= i < |kids| :: Fits(f, kids[i])
    decreases CountKids(kids), 1
  {
    hide Fits, Nodes, Proper;
    f := map[];
    if kids != [] {
      var rest := kids[1..];
      assert kids == [kids[0]] + rest;
      ProperApart([kids[0]], rest);
      NodesJoin([kids[0]], rest);
      One(kids[0]);
      KidCount(kids, 0);
      var g := FamilyOf(kids[0]);
      var h := FamilyOfAll(rest);
      f := g + h;
      FitsMore(g, f, kids[0]);
      forall i | 0 < i < |kids| ensures Fits(f, kids[i]) {
        assert kids[i] == rest[i - 1];
        FitsMore(h, f, kids[i]);
      }
    }
  }

  /** A child stands strictly below. */
  lemma {:induction false} StrictlyInside(f: Family, s: Shape, p: Node, i: nat)
    requires Fits(f, s) && p in Nodes(s) && p in f && i < |f[p]|
    ensures f[p][i] in KidsNodes(s.kids)
    decreases s
  {
    if p == s.node {
      assert s.kids[i].node == f[p][i];
      KidInside(s.kids, i);
    } else {
      var k :| 0 <= k < |s.kids| && p in Nodes(s.kids[k]);
      StrictlyInside(f, s.kids[k], p, i);
      KidInside(s.kids, k);
    }
  }

  /** A child of the top has no other owner in the tree. */
  lemma TopOwns(f: Family, s: Shape, i: nat, q: Node, j: nat)
    requires Proper(s) && Fits(f, s) && i < |s.kids| && q in f && j < |f[q]| && q in KidsNodes(s.kids)
    ensures f[q][j] != s.kids[i].node
  {
    hide Fits;
    var k :| 0 <= k < |s.kids| && q in Nodes(s.kids[k]);
    ProperParts(s.node, s.kids);
    FitsKid(f, s, k);
    StrictlyInside(f, s.kids[k], q, j);
    NodesOf(s.kids[k]);
    NodesOf(s.kids[i]);
    if k == i {
      ProperParts(s.kids[i].node, s.kids[i].kids);
    } else {
      assert Nodes(s.kids[k]) !! Nodes(s.kids[i]);
    }
  }

  lemma FitsKid(f: Family, s: Shape, i: nat)
    requires Fits(f, s) && i < |s.kids|
    ensures Fits(f, s.kids[i]) && s.node in f && f[s.node] == RootSeq(s.kids)
  {
  }

  /** In a tree no item stands in two places. */
  lemma {:induction false} OneOwnerIn(f: Family, s: Shape, p: Node, i: nat, q: Node, j: nat)
    requires Proper(s) && Fits(f, s) && p in Nodes(s) && q in Nodes(s) && p in f && q in f
    requires i < |f[p]| && j < |f[q]| && f[p][i] == f[q][j]
    ensures p == q && i == j
    decreases s
  {
    hide Fits, Nodes, RootSeq;
    NodesOf(s);
    ProperParts(s.node, s.kids);
    TopIs(f, s);
    if p == s.node && q == s.node {
      RootsDistinct(s.kids);
    } else if p == s.node {
      TopOwns(f, s, i, q, j);
    } else if q == s.node {
      TopOwns(f, s, j, p, i);
    } else {
      var k :| 0 <= k < |s.kids| && p in Nodes(s.kids[k]);
      var l :| 0 <= l < |s.kids| && q in Nodes(s.kids[l]);
      FitsKid(f, s, k);
      FitsKid(f, s, l);
      ChildInside(f, s.kids[k], p, i);
      ChildInside(f, s.kids[l], q, j);
      OneOwnerIn(f, s.kids[k], p, i, q, j);
    }
  }

  lemma TopIs(f: Family, s: Shape)
    requires Fits(f, s)
    ensures s.node in f && f[s.node] == RootSeq(s.kids)
  {
  }

  /** The links of a linked tree without references are those of its family. */
  lemma {:induction false} LinksIn(f: Family, s: Shape, p: Node)
    requires Proper(s) && Linked(s) && NoReferences(s) && Fits(f, s) && p in Nodes(s) && p in f
    ensures LinkOf(f, p)
    decreases s
  {
    hide Fits, Nodes, RootSeq, Siblings, Children;
    NodesOf(s);
    ProperParts(s.node, s.kids);
    TopIs(f, s);
    if p == s.node {
      SiblingsAreChildren(s.node, s.kids);
    } else {
      var k :| 0 <= k < |s.kids| && p in Nodes(s.kids[k]);
      FitsKid(f, s, k);
      LinksIn(f, s.kids[k], p);
    }
  }

  /** Every item below the top has an owner in the tree. */
  lemma {:induction false} HasOwner(f: Family, s: Shape, n: Node)
    requires Fits(f, s) && f.Keys == Nodes(s) && n in KidsNodes(s.kids)
    ensures !IsRoot(f, n)
  {
    var p := OwnerOf(f, s, n);
    FitsInside(f, s);
    assert n in f[p];
  }

  lemma {:induction false} OwnerOf(f: Family, s: Shape, n: Node) returns (p: Node)
    requires Fits(f, s) && n in KidsNodes(s.kids)
    ensures p in f && n in f[p]
    decreases s
  {
    var k :| 0 <= k < |s.kids| && n in Nodes(s.kids[k]);
    if n == s.kids[k].node {
      p := s.node;
      assert f[p][k] == n;
    } else {
      p := OwnerOf(f, s.kids[k], n);
    }
  }

  /** The family of a tree, as sound as any. */
  lemma SoundTree(s: Shape) returns (f: Family)
    requires Proper(s) && Linked(s) && NoReferences(s) && s.node.next == null && s.node.prev == null
    ensures f.Keys == Nodes(s) && Fits(f, s) && Sound(f) && IsRoot(f, s.node)
  {
    hide Nodes, KidsNodes, Fits, LinkOf, Linked, Proper, NoReferences, RootSeq, IsRoot;
    f := FamilyOf(s);
    NodesOf(s);
    ProperParts(s.node, s.kids);
    forall p, i | p in f && 0 <= i < |f[p]| ensures f[p][i] in f { ChildInside(f, s, p, i); }
    forall p, q, i, j | p in f && q in f && 0 <= i < |f[p]| && 0 <= j < |f[q]| && f[p][i] == f[q][j]
      ensures p == q && i == j
    {
      OneOwnerIn(f, s, p, i, q, j);
    }
    forall p | p in f ensures LinkOf(f, p) { LinksIn(f, s, p); }
    forall r | r in f && IsRoot(f, r) ensures r == s.node {
      if r in KidsNodes(s.kids) { HasOwner(f, s, r); }
    }
    TopIsRoot(f, s);
  }

  lemma TopIsRoot(f: Family, s: Shape)
    requires f.Keys == Nodes(s) && Fits(f, s) && s.node !in KidsNodes(s.kids)
    ensures IsRoot(f, s.node)
  {
    hide Fits;
    TopIs(f, s);
    forall p | p in f ensures s.node !in f[p] {
      forall i | 0 <= i < |f[p]| ensures f[p][i] != s.node { StrictlyInside(f, s, p, i); }
    }
  }

  /** Two families without a common item make one. */
  lemma Joined(a: Family, b: Family)
    requires Sound(a) && Sound(b) && a.Keys !! b.Keys
    ensures Sound(a + b) && OwnedBy((a + b).Keys) == OwnedBy(a.Keys) + OwnedBy(b.Keys)
    ensures forall r | IsRoot(b, r) :: IsRoot(a + b, r)
  {
    hide OwnedBy, LinkOf;
    var c := a + b;
    assert c.Keys == a.Keys + b.Keys;
    OwnedJoin(a.Keys, b.Keys);
    JoinedOwners(a, b);
    SoundParts(a);
    SoundParts(b);
    forall p | p in c ensures LinkOf(c, p) {
      if p in b { SameLink(b, c, p); } else { SameLink(a, c, p); }
    }
    forall r | r in c && IsRoot(c, r) ensures r.next == null && r.prev == null {
      JoinedRoot(a, b, r);
    }
  }

  lemma SameLink(f: Family, g: Family, p: Node)
    requires p in f && p in g && f[p] == g[p]
    ensures LinkOf(f, p) <==> LinkOf(g, p)
  {
  }

  lemma JoinedRoot(a: Family, b: Family, r: Node)
    requires a.Keys !! b.Keys && r in a + b && IsRoot(a + b, r)
    ensures IsRoot(a, r) || IsRoot(b, r)
  {
    if r in a {
      forall p | p in a ensures r !in a[p] { assert (a + b)[p] == a[p]; }
    } else {
      forall p | p in b ensures r !in b[p] { assert (a + b)[p] == b[p]; }
    }
  }

  lemma JoinedOwners(a: Family, b: Family)
    requires Closed(a) && Closed(b) && OneOwner(a) && OneOwner(b) && a.Keys !! b.Keys
    ensures Closed(a + b) && OneOwner(a + b)
    ensures forall r | IsRoot(b, r) :: IsRoot(a + b, r)
  {
    var c := a + b;
    forall p, q, i, j | p in c && q in c && 0 <= i < |c[p]| && 0 <= j < |c[q]| && c[p][i] == c[q][j]
      ensures p == q && i == j
    {
      assert c[p] == if p in b then b[p] else a[p];
      assert c[q] == if q in b then b[q] else a[q];
    }
    forall r | IsRoot(b, r) ensures IsRoot(c, r) {
      forall p | p in c ensures r !in c[p] {
        assert c[p] == if p in b then b[p] else a[p];
      }
    }
  }

  lemma ReferenceBlocks(n: Node)
    requires n.isReference && n.key == None
    ensures NodeBlocks(n) == {ItemBlock(n)}
  {
  }

  lemma KeyOwned(nodes: set<Node>, n: Node)
    requires n in nodes
    ensures KeyBlock(n) in OwnedBy(nodes) <==> !n.keyIsConst && n.key.Some?
    ensures ItemBlock(n) in OwnedBy(nodes)
  {
    if KeyBlock(n) in OwnedBy(nodes) { OwnedNode(nodes, KeyBlock(n)); }
    assert ItemBlock(n) in NodeBlocks(n);
    if !n.keyIsConst && n.key.Some? { assert KeyBlock(n) in NodeBlocks(n); }
  }

  lemma TextOwned(nodes: set<Node>, n: Node)
    requires n in nodes
    ensures TextBlock(n) in OwnedBy(nodes) <==> !n.isReference && n.valuestring.Some?
  {
    if TextBlock(n) in OwnedBy(nodes) { OwnedNode(nodes, TextBlock(n)); }
    if !n.isReference && n.valuestring.Some? { assert TextBlock(n) in NodeBlocks(n); }
  }

  /** What one item owns, and what the others do. */
  lemma OwnedSplit(items: set<Node>, n: Node)
    requires n in items
    ensures OwnedBy(items) == OwnedBy(items - {n}) + NodeBlocks(n) && OwnedBy(items - {n}) !! NodeBlocks(n)
  {
    hide OwnedBy, NodeBlocks;
    assert items == (items - {n}) + {n};
    OwnedJoin(items - {n}, {n});
    OwnedOne(n);
  }

  /** What the items own apart from one key. */
  lemma AllButKey(items: set<Node>, n: Node)
    requires n in items
    ensures OwnedBy(items) - {KeyBlock(n)}
         == OwnedBy(items - {n}) + {ItemBlock(n)} + if !n.isReference && n.valuestring.Some? then {TextBlock(n)} else {}
    ensures KeyBlock(n) in OwnedBy(items) <==> !n.keyIsConst && n.key.Some?
  {
    hide OwnedBy, NodeBlocks;
    OwnedSplit(items, n);
    BlocksOf(n);
    KeyOwned(items, n);
    if KeyBlock(n) in OwnedBy(items - {n}) { OwnedNode(items - {n}, KeyBlock(n)); }
  }

  lemma NewBlocks(n: Node)
    requires n.valuestring == None && n.key == None
    ensures NodeBlocks(n) == {ItemBlock(n)}
  {
  }

  lemma Alone(kids: Family, n: Node)
    requires n in kids && kids[n] == []
    ensures Fits(kids, Shape(n, [])) && Nodes(Shape(n, [])) == {n}
  {
  }
}
