/**
 * What references make reachable. A reference shares the children and the text of the item it was made from without
 * owning them, so they may be gone when somebody follows it.
 */
module Reach {
  import opened Bytes
  import opened LinkedTree
  import opened ChildLists
  import opened Ownership
  import opened Families

  /** References borrow from items that own their texts and still have them, unless these items are gone. */
  ghost predicate Lent(items: set<Node>, lender: Lenders)
    reads items`isReference, items`valuestring
  {
    forall r | r in items && r.isReference ::
      && r in lender
      && (r.valuestring.Some? && lender[r] in items ==>
            !lender[r].isReference && lender[r].valuestring == r.valuestring)
  }

  /** All items are still there, and so are the owners of the texts they show. */
  ghost predicate Reaches(items: set<Node>, lender: Lenders, shown: set<Node>)
    reads shown`isReference, shown`valuestring
  {
    shown <= items && forall n | n in shown && n.valuestring.Some? :: TextOwner(lender, n) in items
  }

  /** The items and the owners of their texts are none of these. */
  ghost predicate Avoids(gone: set<Node>, lender: Lenders, shown: set<Node>)
    reads shown`isReference, shown`valuestring
  {
    shown !! gone && forall n | n in shown && n.valuestring.Some? :: TextOwner(lender, n) !in gone
  }

  lemma ReachesFewer(items: set<Node>, gone: set<Node>, lender: Lenders, shown: set<Node>)
    requires Reaches(items, lender, shown)
    ensures Reaches(items - gone, lender, shown) <==> Avoids(gone, lender, shown)
  {
  }

  /** Where the first child and the text that an item shows belong to items that are still there. */
  ghost predicate Anchored(items: set<Node>, lender: Lenders, n: Node)
    reads n`isReference, n`valuestring, n`child
  {
    (n.child == null || n.child in items) && (n.valuestring.Some? ==> TextOwner(lender, n) in items)
  }

  /** No reference points at anything that is gone. */
  ghost predicate AllAnchored(items: set<Node>, lender: Lenders)
    reads items`isReference, items`valuestring, items`child
  {
    forall r | r in items && r.isReference :: Anchored(items, lender, r)
  }

  /** The item shows nothing of what is gone. */
  ghost predicate Spared(gone: set<Node>, lender: Lenders, n: Node)
    reads n`isReference, n`valuestring, n`child
  {
    (n.child == null || n.child !in gone) && (n.valuestring.Some? ==> TextOwner(lender, n) !in gone)
  }

  /** Taking items away leaves no reference dangling if and only if none that is left shows one of them. */
  lemma AnchoredFewer(items: set<Node>, gone: set<Node>, lender: Lenders)
    requires AllAnchored(items, lender)
    ensures AllAnchored(items - gone, lender) <==>
              forall r | r in items - gone && r.isReference :: Spared(gone, lender, r)
  {
  }

  // ----- Items added -----

  lemma LentJoined(items: set<Node>, more: set<Node>, lender: Lenders)
    requires Lent(items, lender) && (forall n | n in more :: !n.isReference)
    requires forall r | r in items && r in lender :: lender[r] !in more
    ensures Lent(items + more, lender)
  {
  }

  /** One item more that is no reference and that none borrows from. */
  lemma OneItemMore(items: set<Node>, item: Node, lender: Lenders)
    requires Lent(items, lender) && !item.isReference && forall r | r in items && r in lender :: lender[r] != item
    ensures Lent(items + {item}, lender)
    ensures AllAnchored(items, lender) ==> AllAnchored(items + {item}, lender)
  {
    LentJoined(items, {item}, lender);
    if AllAnchored(items, lender) { AnchoredJoined(items, {item}, lender); }
  }

  /** A new item joins the family. */
  lemma Joins(kids: Family, item: Node, lender: Lenders)
    requires Sound(kids) && Lent(kids.Keys, lender) && item !in kids && !item.isReference
    requires item.next == null && item.prev == null && item.child == null
    requires item.valuestring == None && item.key == None
    requires forall r | r in kids && r in lender :: lender[r] != item
    ensures var more := kids[item := []];
            && Sound(more) && IsRoot(more, item) && Lent(more.Keys, lender)
            && OwnedBy(more.Keys) == OwnedBy(kids.Keys) + {ItemBlock(item)}
            && (AllAnchored(kids.Keys, lender) ==> AllAnchored(more.Keys, lender))
  {
    hide *;
    Grown(kids, item);
    NewBlocks(item);
    OneItemMore(kids.Keys, item, lender);
    assert kids[item := []].Keys == kids.Keys + {item};
  }

  lemma {:induction false} PlainNodes(s: Shape)
    requires NoReferences(s)
    ensures forall n | n in Nodes(s) :: !n.isReference
    decreases s
  {
    forall n | n in Nodes(s) ensures !n.isReference {
      if n != s.node {
        assert n in KidsNodes(s.kids);
        var i :| 0 <= i < |s.kids| && n in Nodes(s.kids[i]);
        PlainNodes(s.kids[i]);
      }
    }
  }

  lemma LentFewer(items: set<Node>, fewer: set<Node>, lender: Lenders)
    requires Lent(items, lender) && fewer <= items
    ensures Lent(fewer, lender)
  {
  }

  lemma AnchoredJoined(items: set<Node>, more: set<Node>, lender: Lenders)
    requires AllAnchored(items, lender) && (forall n | n in more :: !n.isReference)
    ensures AllAnchored(items + more, lender)
  {
  }

  /** One more reference, which shows what `item` shows. */
  lemma Borrowed(kids: Family, lender: Lenders, item: Node, reference: Node)
    requires Sound(kids) && Lent(kids.Keys, lender) && item in kids && reference !in kids
    requires forall r | r in kids && r in lender :: lender[r] != reference
    requires reference.isReference && reference.child == item.child && reference.valuestring == item.valuestring
    ensures var more := lender[reference := TextOwner(lender, item)]; Lent(kids.Keys + {reference}, more)
    ensures AllAnchored(kids.Keys, lender) ==>
              AllAnchored(kids.Keys + {reference}, lender[reference := TextOwner(lender, item)])
  {
    hide Sound;
    var more := lender[reference := TextOwner(lender, item)];
    assert forall r | r in kids :: TextOwner(more, r) == TextOwner(lender, r);
    if AllAnchored(kids.Keys, lender) {
      if !item.isReference { ChildInKids(kids, item); }
      assert Anchored(kids.Keys + {reference}, more, reference);
      assert forall r | r in kids && r.isReference :: Anchored(kids.Keys, lender, r);
    }
  }

  // ----- Live blocks -----

  lemma ItemIsThere(items: set<Node>, n: Node)
    ensures ItemBlock(n) in OwnedBy(items) <==> n in items
  {
    if ItemBlock(n) in OwnedBy(items) { OwnedNode(items, ItemBlock(n)); }
    if n in items { assert ItemBlock(n) in NodeBlocks(n); }
  }

  /**
   * Where the live blocks are those that the items own, everything that a set of items consists of is live if and
   * only if all of them are still there and the owners of the texts that references among them borrow are.
   */
  lemma SeenExactly(items: set<Node>, hooks: Hooks, shown: set<Node>)
    requires Lent(items, hooks.lender) && hooks.live == OwnedBy(items)
    ensures hooks.SeenIn(shown) <= hooks.live <==> Reaches(items, hooks.lender, shown)
  {
    hide Reaches, Lent, OwnedBy, NodeBlocks;
    if hooks.SeenIn(shown) <= hooks.live {
      forall n | n in shown ensures n in items && (n.valuestring.Some? ==> TextOwner(hooks.lender, n) in items) {
        SeenFewer(hooks, {n}, shown);
        SeenOne(hooks, n);
        SeenBlocks(hooks, n);
        ItemIsThere(items, n);
        if n.valuestring.Some? { OwnedNode(items, TextBlock(TextOwner(hooks.lender, n))); }
      }
      ReachesIs(items, hooks.lender, shown);
    }
    if Reaches(items, hooks.lender, shown) {
      forall n | n in shown ensures hooks.Seen(n) <= hooks.live {
        ReachesIs(items, hooks.lender, shown);
        OneSeen(items, hooks, n);
      }
    }
  }

  lemma ReachesIs(items: set<Node>, lender: Lenders, shown: set<Node>)
    ensures Reaches(items, lender, shown) <==>
              forall n | n in shown :: n in items && (n.valuestring.Some? ==> TextOwner(lender, n) in items)
  {
  }

  lemma OneSeen(items: set<Node>, hooks: Hooks, n: Node)
    requires Lent(items, hooks.lender) && hooks.live == OwnedBy(items)
    requires n in items && (n.valuestring.Some? ==> TextOwner(hooks.lender, n) in items)
    ensures hooks.Seen(n) <= hooks.live
  {
    hide OwnedBy, NodeBlocks;
    ItemIsThere(items, n);
    KeyOwned(items, n);
    if n.valuestring.Some? { TextOwned(items, TextOwner(hooks.lender, n)); }
  }

  // ----- Following the links -----

  /** An item's neighbour is still there. */
  lemma NextInside(kids: Family, n: Node)
    requires Sound(kids) && n in kids
    ensures n.next == null || n.next in kids
  {
    hide Sound, Children, OneOwner;
    SoundParts(kids);
    if !IsRoot(kids, n) {
      var p :| p in kids && n in kids[p];
      var i :| 0 <= i < |kids[p]| && kids[p][i] == n;
      assert LinkOf(kids, p);
      Neighbours(p, kids[p], i);
    }
  }

  lemma ChildInKids(kids: Family, n: Node)
    requires Sound(kids) && n in kids && !n.isReference
    ensures n.child == null || n.child in kids
  {
    hide Sound, OneOwner;
    SoundParts(kids);
    assert LinkOf(kids, n);
  }

  /** Every reference among the items that are there is anchored. */
  ghost predicate RefsAnchored(kids: Family, lender: Lenders, shown: set<Node>)
    reads shown`isReference, shown`valuestring, shown`child
  {
    forall r | r in shown && r in kids && r.isReference :: Anchored(kids.Keys, lender, r)
  }

  /** Following the links from an item that is there, through anchored references, leads to items that are there. */
  lemma {:induction false} WalkInside(kids: Family, lender: Lenders, s: Shape)
    requires Sound(kids) && Walk(s) && s.node in kids && RefsAnchored(kids, lender, Nodes(s))
    ensures Nodes(s) <= kids.Keys
    decreases s, 0
  {
    hide Sound, Walk, Nodes, KidsNodes, Anchored;
    NodesOf(s);
    forall i | 0 <= i < |s.kids| ensures Nodes(s.kids[i]) <= kids.Keys {
      WalkAt(s, i);
      StepsInside(kids, lender, s, i);
      WalkInside(kids, lender, s.kids[i]);
    }
    KidsInside(s.kids, kids.Keys);
  }

  lemma KidsInside(kids: seq<Shape>, items: set<Node>)
    requires forall i | 0 <= i < |kids| :: Nodes(kids[i]) <= items
    ensures KidsNodes(kids) <= items
  {
    hide Nodes;
  }

  /** The children that can be walked to are there, one after the other. */
  lemma {:induction false} StepsInside(kids: Family, lender: Lenders, s: Shape, i: nat)
    requires Sound(kids) && Walk(s) && s.node in kids && i < |s.kids|
    requires RefsAnchored(kids, lender, Nodes(s))
    ensures s.kids[i].node in kids
    decreases i
  {
    hide Sound, Walk, Nodes;
    if i == 0 {
      NodesOf(s);
      WalkParts(s);
      ChainAt(s.node.child, s.kids, 0);
      if !s.node.isReference { ChildInKids(kids, s.node); }
    } else {
      StepsInside(kids, lender, s, i - 1);
      WalkAt(s, i - 1);
      NextInside(kids, s.kids[i - 1].node);
    }
  }

  /** The first child of every item that can be walked to can be walked to. */
  lemma {:induction false} ChildShown(s: Shape, n: Node)
    requires Walk(s) && n in Nodes(s)
    ensures n.child == null || n.child in Nodes(s)
    decreases s
  {
    hide Walk, Chain;
    if n == s.node {
      WalkParts(s);
      ChainAt(s.node.child, s.kids, 0);
      if s.kids != [] { KidInside(s.kids, 0); }
    } else {
      var i :| 0 <= i < |s.kids| && n in Nodes(s.kids[i]);
      WalkAt(s, i);
      ChildShown(s.kids[i], n);
    }
  }

  /**
   * What can be walked to from an item is still there if and only if the item is and all references on the way point
   * at items that are.
   */
  lemma ReachesExactly(kids: Family, lender: Lenders, s: Shape)
    requires Sound(kids) && Walk(s) && Lent(kids.Keys, lender)
    ensures Reaches(kids.Keys, lender, Nodes(s)) <==> s.node in kids && RefsAnchored(kids, lender, Nodes(s))
  {
    hide Sound, Walk, Nodes, Lent;
    NodesOf(s);
    if Reaches(kids.Keys, lender, Nodes(s)) {
      forall r | r in Nodes(s) && r in kids && r.isReference ensures Anchored(kids.Keys, lender, r) {
        ChildShown(s, r);
      }
    }
    if s.node in kids && RefsAnchored(kids, lender, Nodes(s)) {
      WalkInside(kids, lender, s);
      forall n | n in Nodes(s) && n.valuestring.Some? ensures TextOwner(lender, n) in kids.Keys {}
    }
  }
}
