/** Which allocated blocks an item owns, deletion of exactly those, and deep copies that own their own. */
module Ownership {
  import opened Bytes
  import opened JsonTree
  import opened LinkedTree
  import opened TreeLists

  /** What is allocated for an item: the item itself, the copy of its text and the copy of its key. */
  datatype Block = ItemBlock(node: Node) | TextBlock(node: Node) | KeyBlock(node: Node)

  /** A string that a caller hands in: bytes of its own, or the key that an item holds. */
  datatype Name = Given(text: bytes) | KeyOf(owner: Node)

  /** Whose text a reference shows: its text pointer is that of the item it was made from. */
  type Lenders = map<Node, Node>

  /** The item for which the text that `item` shows was allocated. */
  ghost function TextOwner(lender: Lenders, item: Node): Node
    reads item`isReference
  {
    if item.isReference && item in lender then lender[item] else item
  }

  /** The allocator, with the blocks handed out and not yet given back, and the texts that are borrowed. */
  class Hooks {
    ghost var live: set<Block>
    ghost var lender: Lenders

    constructor ()
      ensures live == {} && lender == map[]
    {
      live := {};
      lender := map[];
    }

    method Allocate(ghost b: Block)
      requires b !in live
      modifies this`live
      ensures live == old(live) + {b}
    {
      live := live + {b};
    }

    /** Giving a block back twice, or one that was never handed out, is what the precondition rules out. */
    method Deallocate(ghost b: Block)
      requires b in live
      modifies this`live
      ensures live == old(live) - {b}
    {
      live := live - {b};
    }

    /** A block changes its role: the same memory is now pointed at from another place. */
    ghost method HandOver(from: Block, to: Block)
      requires from in live && to !in live
      modifies this`live
      ensures live == old(live) - {from} + {to}
    {
      live := live - {from} + {to};
    }

    /** The reference shows the owner's text from now on. */
    ghost method Lend(reference: Node, owner: Node)
      modifies this`lender
      ensures lender == old(lender)[reference := owner]
    {
      lender := lender[reference := owner];
    }

    // Looking into an item is allowed only as long as its block has not been given back.

    function Next(item: Node): Node?
      requires ItemBlock(item) in live
      reads this`live, item`next
    {
      item.next
    }

    function Child(item: Node): Node?
      requires ItemBlock(item) in live
      reads this`live, item`child
    {
      item.child
    }

    function IsReference(item: Node): bool
      requires ItemBlock(item) in live
      reads this`live, item`isReference
    {
      item.isReference
    }

    function HasText(item: Node): bool
      requires ItemBlock(item) in live
      reads this`live, item`valuestring
    {
      item.valuestring.Some?
    }

    function HasKey(item: Node): bool
      requires ItemBlock(item) in live
      reads this`live, item`key
    {
      item.key.Some?
    }

    function KeyIsConst(item: Node): bool
      requires ItemBlock(item) in live
      reads this`live, item`keyIsConst
    {
      item.keyIsConst
    }

    function Scalars(item: Node): (Kind, int, real)
      requires ItemBlock(item) in live
      reads this`live, item`kind, item`valueint, item`valuedouble
    {
      (item.kind, item.valueint, item.valuedouble)
    }

    // The bytes of a text or key lie in a block of their own, which must not have been given back either.

    function Text(item: Node): bytes
      requires ItemBlock(item) in live && item.valuestring.Some? && TextBlock(TextOwner(lender, item)) in live
      reads this, item`valuestring, item`isReference
    {
      item.valuestring.value
    }

    function Key(item: Node): bytes
      requires ItemBlock(item) in live && item.key.Some? && KeyBlock(item) in live
      reads this`live, item`key
    {
      item.key.value
    }

    /** The key pointer of an item with a constant key, which is the caller's and never given back. */
    function ConstKey(item: Node): Option<bytes>
      requires ItemBlock(item) in live && item.keyIsConst
      reads this`live, item`key, item`keyIsConst
    {
      item.key
    }

    /** The bytes of a name that was handed in. */
    function NameText(name: Name): bytes
      requires name.KeyOf? ==> name.owner.key.Some? && NameBlocks(name) <= live
      reads this`live, if name.KeyOf? then {name.owner} else {}
    {
      if name.KeyOf? then name.owner.key.value else name.text
    }

    /** The blocks in which the fields, the text and the key of an item lie. */
    ghost function Seen(item: Node): set<Block>
      reads this`lender, item`isReference, item`valuestring, item`key, item`keyIsConst
    {
      {ItemBlock(item)}
      + (if item.valuestring.Some? then {TextBlock(TextOwner(lender, item))} else {})
      + (if item.key.Some? && !item.keyIsConst then {KeyBlock(item)} else {})
    }

    /** All that the items consist of. */
    ghost function SeenIn(items: set<Node>): set<Block>
      reads this`lender, items`isReference, items`valuestring, items`key, items`keyIsConst
    {
      set n, b | n in items && b in Seen(n) :: b
    }
  }

  /** The block behind a name, unless it is the caller's own. */
  ghost function NameBlocks(name: Name): set<Block>
    reads if name.KeyOf? then {name.owner} else {}
  {
    if name.KeyOf? && !name.owner.keyIsConst then {KeyBlock(name.owner)} else {}
  }

  /** A reference does not own its text, and a constant key belongs to somebody else. */
  ghost function NodeBlocks(n: Node): set<Block>
    reads n`isReference, n`valuestring, n`keyIsConst, n`key
  {
    {ItemBlock(n)}
    + (if !n.isReference && n.valuestring.Some? then {TextBlock(n)} else {})
    + (if !n.keyIsConst && n.key.Some? then {KeyBlock(n)} else {})
  }

  ghost function OwnedBy(nodes: set<Node>): set<Block>
    reads nodes`isReference, nodes`valuestring, nodes`keyIsConst, nodes`key
  {
    set n, b | n in nodes && b in NodeBlocks(n) :: b
  }

  lemma OwnedJoin(a: set<Node>, b: set<Node>)
    ensures OwnedBy(a + b) == OwnedBy(a) + OwnedBy(b)
    ensures a !! b ==> OwnedBy(a) !! OwnedBy(b)
  {
    hide NodeBlocks;
    forall x | x in OwnedBy(a) ensures x.node in a { OwnedNode(a, x); }
    forall x | x in OwnedBy(b) ensures x.node in b { OwnedNode(b, x); }
  }

  lemma OwnedNode(a: set<Node>, x: Block)
    requires x in OwnedBy(a)
    ensures x.node in a && x in NodeBlocks(x.node)
  {
  }

  lemma OwnedOne(n: Node)
    ensures OwnedBy({n}) == NodeBlocks(n)
  {
    hide NodeBlocks;
  }

  lemma BlocksOf(n: Node)
    ensures NodeBlocks(n) == {ItemBlock(n)}
                             + (if !n.isReference && n.valuestring.Some? then {TextBlock(n)} else {})
                             + (if !n.keyIsConst && n.key.Some? then {KeyBlock(n)} else {})
  {
  }

  /** A tree as its owner sees it: what a reference points at is not part of it. */
  ghost predicate Owns(s: Shape)
    reads s.node`child, s.node`isReference, KidsNodes(s.kids)
    decreases s
  {
    RootsInside(s.kids);
    if s.node.isReference then s.kids == []
    else
      && Siblings(s.node.child, Last(s.kids), s.kids)
      && forall i | 0 <= i < |s.kids| :: (KidInside(s.kids, i); Owns(s.kids[i]))
  }

  /** `first` and everything that follows it along `next`. */
  ghost predicate Chain(first: Node?, kids: seq<Shape>)
    reads Roots(kids)`next
  {
    assert forall i | 0 <= i < |kids| :: kids[i].node in Roots(kids);
    && first == (if kids == [] then null else kids[0].node)
    && (forall i | 0 <= i < |kids| - 1 :: kids[i].node.next == kids[i + 1].node)
    && (kids != [] ==> kids[|kids| - 1].node.next == null)
  }

  lemma SiblingsChain(first: Node?, tail: Node?, kids: seq<Shape>)
    requires Siblings(first, tail, kids)
    ensures Chain(first, kids)
  {
  }

  function Count(s: Shape): nat { 1 + CountKids(s.kids) }

  function CountKids(kids: seq<Shape>): nat {
    if kids == [] then 0 else Count(kids[0]) + CountKids(kids[1..])
  }

  lemma {:induction false} KidCount(kids: seq<Shape>, i: nat)
    requires i < |kids|
    ensures Count(kids[i]) <= CountKids(kids)
  {
    if i > 0 {
      KidCount(kids[1..], i - 1);
      assert kids[1..][i - 1] == kids[i];
    }
  }

  lemma CountIs(s: Shape)
    ensures Count(s) == 1 + CountKids(s.kids)
  {
  }

  ghost predicate AllOwn(kids: seq<Shape>)
    reads Roots(kids)`child, Roots(kids)`isReference, Below(kids)
  {
    forall i | 0 <= i < |kids| :: (RootAndBelow(kids, i); Owns(kids[i]))
  }

  lemma OwnsParts(s: Shape)
    requires Owns(s)
    ensures s.node.isReference ==> s.kids == []
    ensures !s.node.isReference ==> Chain(s.node.child, s.kids) && AllOwn(s.kids)
  {
    if !s.node.isReference {
      SiblingsChain(s.node.child, Last(s.kids), s.kids);
    }
  }

  /**
   * Deletes an item and all that follow it: every block that the trees own is given back exactly once, and no other
   * is. Items are read through the allocator, hence only while they are still allocated.
   */
  method Delete(hooks: Hooks, first: Node?, ghost kids: seq<Shape>)
    requires Chain(first, kids) && ProperKids(kids) && AllOwn(kids)
    requires OwnedBy(KidsNodes(kids)) <= hooks.live
    modifies hooks`live
    ensures hooks.live == old(hooks.live) - OwnedBy(KidsNodes(kids))
    decreases CountKids(kids), 1
  {
    hide *;
    var item := first;
    ghost var i: nat := 0;
    ChainAt(first, kids, 0);
    OwnedNothing();
    KidsNodesSplit(kids);
    assert allocated(KidsNodes(kids));
    while item != null
      invariant i <= |kids| && item == if i < |kids| then kids[i].node else null
      invariant Chain(first, kids) && AllOwn(kids)
      invariant OwnedBy(KidsNodes(kids)) == old(OwnedBy(KidsNodes(kids)))
      invariant hooks.live == old(hooks.live) - OwnedBy(KidsNodes(kids[..i]))
      decreases |kids| - i
    {
      OwnAt(kids, i);
      ChainAt(first, kids, i + 1);
      KidCount(kids, i);
      ItemOwned(kids[i]);
      var next := hooks.Next(item);
      NextIs(hooks, item);
      assert allocated(KidsNodes(kids)) && allocated(KidsNodes(kids[..i + 1]));
      assert allocated(Nodes(kids[i]));
      DeleteOne(hooks, item, kids[i]);
      item := next;
      i := i + 1;
    }
    assert kids[..i] == kids;
  }

  lemma NextIs(hooks: Hooks, item: Node)
    requires ItemBlock(item) in hooks.live
    ensures hooks.Next(item) == item.next
  {
  }

  lemma ChainAt(first: Node?, kids: seq<Shape>, i: nat)
    requires Chain(first, kids) && i <= |kids|
    ensures (if i == 0 then first else kids[i - 1].node.next) == if i < |kids| then kids[i].node else null
  {
    if 0 < i < |kids| { assert kids[i - 1].node.next == kids[i - 1 + 1].node; }
  }

  lemma OwnedNothing()
    ensures KidsNodes([]) == {} && OwnedBy({}) == {} && forall kids: seq<Shape> :: kids[..0] == []
  {
  }

  lemma ItemOwned(s: Shape)
    ensures ItemBlock(s.node) in OwnedBy(Nodes(s))
  {
    assert ItemBlock(s.node) in NodeBlocks(s.node) && s.node in Nodes(s);
  }

  /** One more tree of the list. */
  lemma OwnAt(kids: seq<Shape>, i: nat)
    requires ProperKids(kids) && AllOwn(kids) && i < |kids|
    ensures Proper(kids[i]) && Owns(kids[i])
    ensures OwnedBy(KidsNodes(kids[..i + 1])) == OwnedBy(KidsNodes(kids[..i])) + OwnedBy(Nodes(kids[i]))
    ensures OwnedBy(KidsNodes(kids[..i])) !! OwnedBy(Nodes(kids[i]))
    ensures OwnedBy(Nodes(kids[i])) <= OwnedBy(KidsNodes(kids))
  {
    hide OwnedBy, Nodes, KidsNodes, Proper, Owns;
    SplitAt(kids, i);
    var a, k, b := kids[..i], kids[i], kids[i + 1..];
    assert kids[..i + 1] == a + [k] && kids == (a + [k]) + b;
    ProperApart(a + [k], b);
    ProperApart(a, [k]);
    NodesJoin(a, [k]);
    NodesJoin(a + [k], b);
    One(k);
    OwnedJoin(KidsNodes(a), Nodes(k));
    OwnedJoin(KidsNodes(a + [k]), KidsNodes(b));
  }

  lemma TreeBlocks(s: Shape)
    requires Proper(s)
    ensures ProperKids(s.kids)
    ensures OwnedBy(Nodes(s)) == NodeBlocks(s.node) + OwnedBy(KidsNodes(s.kids))
    ensures NodeBlocks(s.node) !! OwnedBy(KidsNodes(s.kids))
  {
    hide OwnedBy, NodeBlocks, KidsNodes;
    OwnedOne(s.node);
    OwnedJoin({s.node}, KidsNodes(s.kids));
  }

  method DeleteOne(hooks: Hooks, item: Node, ghost s: Shape)
    requires s.node == item && Proper(s) && Owns(s) && OwnedBy(Nodes(s)) <= hooks.live
    modifies hooks`live
    ensures hooks.live == old(hooks.live) - OwnedBy(Nodes(s))
    decreases Count(s), 0
  {
    hide OwnedBy, Nodes, KidsNodes, Proper, Owns, Chain, AllOwn, ProperKids, Count, CountKids;
    OwnsParts(s);
    TreeBlocks(s);
    CountIs(s);
    OwnedNothing();
    assert allocated(Nodes(s)) && allocated(KidsNodes(s.kids));
    if !hooks.IsReference(item) && hooks.Child(item) != null {
      Delete(hooks, hooks.Child(item), s.kids);
    } else {
      NoKids(s);
    }
    if !hooks.IsReference(item) && hooks.HasText(item) {
      hooks.Deallocate(TextBlock(item));
    }
    if !hooks.KeyIsConst(item) && hooks.HasKey(item) {
      hooks.Deallocate(KeyBlock(item));
    }
    hooks.Deallocate(ItemBlock(item));
  }

  lemma NoKids(s: Shape)
    requires Owns(s) && (s.node.isReference || s.node.child == null)
    ensures s.kids == []
  {
  }

  lemma OneTree(s: Shape)
    requires Proper(s) && Owns(s) && s.node.next == null
    ensures Chain(s.node, [s]) && ProperKids([s]) && AllOwn([s]) && KidsNodes([s]) == Nodes(s)
  {
    One(s);
  }

  // ----- Deep copies -----

  /** What lies below an item along `child` and `next`, whoever owns it, and in whatever state the lists are. */
  ghost predicate Walk(s: Shape)
    reads s.node`child, KidsNodes(s.kids)`child, KidsNodes(s.kids)`next
    decreases s
  {
    RootsInside(s.kids);
    Chain(s.node.child, s.kids) && forall i | 0 <= i < |s.kids| :: (KidInside(s.kids, i); Walk(s.kids[i]))
  }

  /** The first child, and from each child the next one, down to null; and the same below. Nothing else is asked. */
  lemma WalkExactly(s: Shape)
    ensures Walk(s) <==>
              && s.node.child == (if s.kids == [] then null else s.kids[0].node)
              && (forall i | 0 <= i < |s.kids| - 1 :: s.kids[i].node.next == s.kids[i + 1].node)
              && (s.kids != [] ==> s.kids[|s.kids| - 1].node.next == null)
              && forall i | 0 <= i < |s.kids| :: Walk(s.kids[i])
  {
    assert Walk(s) <==> Chain(s.node.child, s.kids) && forall i | 0 <= i < |s.kids| :: Walk(s.kids[i]);
    hide Walk;
  }

  lemma {:induction false} LinkedWalk(s: Shape)
    requires Linked(s)
    ensures Walk(s)
    decreases s
  {
    hide Siblings, Chain;
    SiblingsChain(s.node.child, Last(s.kids), s.kids);
    forall i | 0 <= i < |s.kids| ensures Walk(s.kids[i]) { LinkedWalk(s.kids[i]); }
  }

  /** A key or text copied into a new item; a constant key is shared instead. */
  function CopiedKey(key: Option<bytes>, isConst: bool): Option<bytes> {
    if key == None || isConst then key else Some(CString(key.value))
  }

  /** The copy has the item's type, numbers, text and key. */
  ghost predicate Mirrors(item: Node, copy: Node)
    reads item`kind, item`valueint, item`valuedouble, item`valuestring, item`key, item`keyIsConst
    reads copy`kind, copy`valueint, copy`valuedouble, copy`valuestring, copy`key, copy`keyIsConst
  {
    && copy.kind == item.kind && copy.valueint == item.valueint && copy.valuedouble == item.valuedouble
    && copy.valuestring == CopiedKey(item.valuestring, false)
    && copy.key == CopiedKey(item.key, item.keyIsConst) && copy.keyIsConst == item.keyIsConst
  }

  /** The trees have the same form, and every item of the second is like its counterpart. */
  ghost predicate MirrorsTree(s: Shape, t: Shape)
    reads Nodes(s)`kind, Nodes(s)`valueint, Nodes(s)`valuedouble, Nodes(s)`valuestring, Nodes(s)`key
    reads Nodes(s)`keyIsConst
    reads Nodes(t)`kind, Nodes(t)`valueint, Nodes(t)`valuedouble, Nodes(t)`valuestring, Nodes(t)`key
    reads Nodes(t)`keyIsConst
    decreases s
  {
    NodesOf(s);
    NodesOf(t);
    && Mirrors(s.node, t.node) && |s.kids| == |t.kids|
    && forall i | 0 <= i < |s.kids| ::
         KidNodes(s.kids, i);
         KidNodes(t.kids, i);
         MirrorsTree(s.kids[i], t.kids[i])
  }

  /** The same for the first trees of a list. */
  ghost predicate MirrorsFirst(from: seq<Shape>, kids: seq<Shape>)
    reads KidsNodes(from)`kind, KidsNodes(from)`valueint, KidsNodes(from)`valuedouble, KidsNodes(from)`valuestring
    reads KidsNodes(from)`key, KidsNodes(from)`keyIsConst
    reads KidsNodes(kids)`kind, KidsNodes(kids)`valueint, KidsNodes(kids)`valuedouble, KidsNodes(kids)`valuestring
    reads KidsNodes(kids)`key, KidsNodes(kids)`keyIsConst
  {
    |kids| <= |from|
    && forall i | 0 <= i < |kids| :: (KidNodes(from, i); KidNodes(kids, i); MirrorsTree(from[i], kids[i]))
  }

  lemma MirrorsTop(s: Shape, t: Shape)
    requires Mirrors(s.node, t.node) && |s.kids| == |t.kids| && MirrorsFirst(s.kids, t.kids)
    ensures MirrorsTree(s, t)
  {
    hide Mirrors;
  }

  /** A tree without references, all of whose items are new. */
  ghost predicate NoReferences(s: Shape)
    reads s.node`isReference, KidsNodes(s.kids)
    decreases s
  {
    !s.node.isReference && forall i | 0 <= i < |s.kids| :: (KidInside(s.kids, i); NoReferences(s.kids[i]))
  }

  /** Linked trees without references. */
  ghost predicate Made(kids: seq<Shape>)
    reads Roots(kids)`isReference, Roots(kids)`child, Below(kids)
  {
    forall i | 0 <= i < |kids| :: (RootAndBelow(kids, i); Linked(kids[i]) && NoReferences(kids[i]))
  }

  /** A linked tree without references is its owner's as a whole. */
  lemma {:induction false} LinkedOwns(s: Shape)
    requires Linked(s) && NoReferences(s)
    ensures Owns(s)
    decreases s
  {
    hide Siblings;
    forall i | 0 <= i < |s.kids| ensures Owns(s.kids[i]) { LinkedOwns(s.kids[i]); }
  }

  lemma MadeOwns(kids: seq<Shape>)
    requires Made(kids)
    ensures AllOwn(kids)
  {
    hide Linked, NoReferences, Owns;
    forall i | 0 <= i < |kids| ensures Owns(kids[i]) { LinkedOwns(kids[i]); }
  }

  lemma MadeExtended(kids: seq<Shape>, s: Shape)
    requires Made(kids) && Linked(s) && NoReferences(s)
    ensures Made(kids + [s])
  {
    hide Linked, NoReferences;
    assert forall i | 0 <= i < |kids| :: (kids + [s])[i] == kids[i];
  }

  /** A list under construction can be deleted as it is. */
  lemma GrowingChain(head: Node?, current: Node?, kids: seq<Shape>)
    requires Growing(head, current, kids)
    ensures Chain(head, kids)
  {
  }

  /**
   * Copies an item, and with `recurse` everything below it, references included. Whatever state the lists are in, the
   * copy is a new, properly linked tree of the same form and contents that owns all of its blocks, which are exactly
   * the blocks allocated. Nothing is looked at that has been given back: all items below must still be there, and for
   * references the texts they borrow.
   */
  method Duplicate(hooks: Hooks, item: Node?, recurse: bool, ghost s: Shape) returns (copy: Node?, ghost t: Shape)
    requires item != null ==> s.node == item && (recurse ==> Walk(s))
    requires item != null ==> hooks.SeenIn(if recurse then Nodes(s) else {item}) <= hooks.live
    modifies hooks`live
    ensures item == null ==> copy == null && hooks.live == old(hooks.live)
    ensures item != null ==>
              && copy == t.node && fresh(Nodes(t)) && Proper(t) && copy.next == null && copy.prev == null
              && Linked(t) && NoReferences(t) && Mirrors(item, copy)
              && hooks.live == old(hooks.live) + OwnedBy(Nodes(t)) && old(hooks.live) !! OwnedBy(Nodes(t))
    ensures item != null && recurse ==> MirrorsTree(s, t)
    ensures item != null && !recurse ==> t.kids == []
    decreases Count(s), 2
  {
    hide *;
    t := s;
    if item == null {
      return null, t;
    }
    NodesOf(s);
    assert allocated(KidsNodes(s.kids));
    ItemSeen(hooks, if recurse then Nodes(s) else {item}, item);
    copy := CopyFields(hooks, item);
    t := Shape(copy, []);
    Single(copy);
    if !recurse {
      return;
    }
    ghost var kids := CopyKids(hooks, item, copy, s);
    t := Shape(copy, kids);
    Assembled(t);
    MirrorsTop(s, t);
  }

  lemma NodesOf(s: Shape)
    ensures Nodes(s) == {s.node} + KidsNodes(s.kids)
  {
  }

  lemma SeenFewer(hooks: Hooks, some: set<Node>, all: set<Node>)
    requires some <= all
    ensures hooks.SeenIn(some) <= hooks.SeenIn(all)
  {
  }

  lemma SeenOne(hooks: Hooks, item: Node)
    ensures hooks.SeenIn({item}) == hooks.Seen(item)
  {
  }

  /** The state of the copying loop: the copies made so far are like the first children. */
  ghost predicate Copying(copy: Node, next: Node?, from: seq<Shape>, kids: seq<Shape>)
    reads copy`child, Roots(kids)`next, Roots(kids)`prev, Roots(kids)`isReference, Roots(kids)`child, Below(kids)
    reads KidsNodes(from)`kind, KidsNodes(from)`valueint, KidsNodes(from)`valuedouble, KidsNodes(from)`valuestring
    reads KidsNodes(from)`key, KidsNodes(from)`keyIsConst
    reads KidsNodes(kids)`kind, KidsNodes(kids)`valueint, KidsNodes(kids)`valuedouble, KidsNodes(kids)`valuestring
    reads KidsNodes(kids)`key, KidsNodes(kids)`keyIsConst
  {
    && ProperKids(kids) && copy !in KidsNodes(kids) && Growing(copy.child, next, kids)
    && (next == null <==> kids == []) && Made(kids) && MirrorsFirst(from, kids)
  }

  lemma CopyingParts(copy: Node, next: Node?, from: seq<Shape>, kids: seq<Shape>)
    ensures Copying(copy, next, from, kids) <==>
              && ProperKids(kids) && copy !in KidsNodes(kids) && Growing(copy.child, next, kids)
              && (next == null <==> kids == []) && Made(kids) && MirrorsFirst(from, kids)
  {
    hide ProperKids, KidsNodes, Growing, Made, MirrorsFirst;
  }

  lemma CopiesApart(kids: seq<Shape>)
    requires ProperKids(kids)
    ensures KidsNodes(kids) == Roots(kids) + Below(kids) && Roots(kids) !! Below(kids)
    ensures kids != [] ==> Last(kids) in Roots(kids)
  {
    hide *;
    KidsNodesSplit(kids);
    RootsNotBelow(kids);
    if kids != [] { LastIsRoot(kids); }
  }

  lemma WalkParts(s: Shape)
    requires Walk(s)
    ensures Chain(s.node.child, s.kids)
  {
  }

  /** A child in the walk. */
  lemma WalkAt(s: Shape, i: nat)
    requires Walk(s) && i < |s.kids|
    ensures Walk(s.kids[i]) && Count(s.kids[i]) < Count(s) && Nodes(s.kids[i]) <= Nodes(s)
    ensures s.kids[i].node.next == if i + 1 < |s.kids| then s.kids[i + 1].node else null
    ensures s.kids[i].node in Nodes(s.kids[i])
  {
    hide Nodes, KidsNodes, Count, CountKids, Chain, Walk;
    WalkParts(s);
    ChainAt(s.node.child, s.kids, i + 1);
    WalkKid(s, i);
    CountIs(s);
    KidCount(s.kids, i);
    NodesOf(s);
    NodesOf(s.kids[i]);
    KidNodes(s.kids, i);
  }

  lemma WalkKid(s: Shape, i: nat)
    requires Walk(s) && i < |s.kids|
    ensures Walk(s.kids[i])
  {
    hide Chain;
  }

  /** Copies one child and links the copy behind the others. */
  method CopyChild(hooks: Hooks, copy: Node, child: Node, next: Node?, ghost s: Shape, ghost i: nat,
                   ghost kids: seq<Shape>)
    returns (newChild: Node, ghost more: seq<Shape>)
    requires Walk(s) && i < |s.kids| && s.kids[i].node == child && hooks.SeenIn(Nodes(s)) <= hooks.live
    requires |kids| == i && Copying(copy, next, s.kids, kids)
    requires copy !in Nodes(s) && KidsNodes(kids) !! Nodes(s) && OwnedBy(KidsNodes(kids)) <= hooks.live
    modifies hooks`live, copy`child, Roots(kids)`next
    ensures |more| == i + 1 && Copying(copy, newChild, s.kids, more)
    ensures KidsNodes(kids) <= KidsNodes(more) && forall n | n in KidsNodes(more) :: n in KidsNodes(kids) || fresh(n)
    ensures hooks.live == old(hooks.live) + OwnedBy(KidsNodes(more))
    ensures OwnedBy(KidsNodes(more)) * old(hooks.live) == old(OwnedBy(KidsNodes(kids)))
    decreases Count(s), 0
  {
    hide *;
    WalkAt(s, i);
    CopyingParts(copy, next, s.kids, kids);
    CopiesApart(kids);
    NodesOf(s);
    SeenFewer(hooks, Nodes(s.kids[i]), Nodes(s));
    assert allocated(KidsNodes(s.kids)) && allocated(KidsNodes(kids)) && allocated(Nodes(s.kids[i]));
    ghost var t;
    newChild, t := Duplicate(hooks, child, true, s.kids[i]);
    CopyingParts(copy, next, s.kids, kids);
    TreeApart(copy, kids, t);
    assert allocated(KidsNodes(t.kids)) && allocated(Nodes(t)) && allocated(KidsNodes(kids));
    LinkCopy(copy, next, newChild, kids, t);
    OneMore(s.kids, kids, t);
    more := kids + [t];
    CopyingParts(copy, newChild, s.kids, more);
  }

  /** Copies the children one by one and links the copies. */
  method CopyKids(hooks: Hooks, item: Node, copy: Node, ghost s: Shape) returns (ghost kids: seq<Shape>)
    requires s.node == item && Walk(s) && hooks.SeenIn(Nodes(s)) <= hooks.live
    requires copy.child == null && copy !in Nodes(s)
    modifies hooks`live, copy`child
    ensures fresh(KidsNodes(kids)) && ProperKids(kids) && copy !in KidsNodes(kids)
    ensures Siblings(copy.child, Last(kids), kids) && Made(kids) && |kids| == |s.kids| && MirrorsFirst(s.kids, kids)
    ensures hooks.live == old(hooks.live) + OwnedBy(KidsNodes(kids)) && old(hooks.live) !! OwnedBy(KidsNodes(kids))
    decreases Count(s), 1
  {
    hide *;
    kids := [];
    NodesOf(s);
    assert allocated(Nodes(s)) && allocated(KidsNodes(s.kids));
    WalkParts(s);
    ChainAt(item.child, s.kids, 0);
    EmptyList();
    OwnedNothing();
    NothingCopied(s.kids);
    NothingMade();
    CopyingParts(copy, null, s.kids, kids);
    ItemSeen(hooks, Nodes(s), item);
    var child, next: Node? := hooks.Child(item), null;
    ChildIs(hooks, item);
    ghost var i: nat := 0;
    while child != null
      invariant i <= |s.kids| && child == if i < |s.kids| then s.kids[i].node else null
      invariant Walk(s) && hooks.SeenIn(Nodes(s)) <= hooks.live
      invariant |kids| == i && fresh(KidsNodes(kids)) && Copying(copy, next, s.kids, kids)
      invariant hooks.live == old(hooks.live) + OwnedBy(KidsNodes(kids)) && old(hooks.live) !! OwnedBy(KidsNodes(kids))
      decreases |s.kids| - i
    {
      CopyingParts(copy, next, s.kids, kids);
      CopiesApart(kids);
      next, kids := CopyChild(hooks, copy, child, next, s, i, kids);
      WalkAt(s, i);
      ItemSeen(hooks, Nodes(s), child);
      NextIs(hooks, child);
      child := hooks.Next(child);
      i := i + 1;
    }
    CopyingParts(copy, next, s.kids, kids);
    CopiesApart(kids);
    if copy.child != null {
      HeadIsRoot(copy.child, next, kids);
      HeadInside(copy.child, next, kids);
      assert allocated(KidsNodes(kids));
      Close(copy.child, next, kids);
    } else {
      NoSiblings(copy.child, next, kids);
    }
  }

  lemma ItemSeen(hooks: Hooks, items: set<Node>, item: Node)
    requires hooks.SeenIn(items) <= hooks.live && item in items
    ensures ItemBlock(item) in hooks.live && hooks.Seen(item) <= hooks.live
  {
    assert ItemBlock(item) in hooks.Seen(item);
  }

  lemma ChildIs(hooks: Hooks, item: Node)
    requires ItemBlock(item) in hooks.live
    ensures hooks.Child(item) == item.child
  {
  }

  lemma NothingCopied(from: seq<Shape>)
    ensures MirrorsFirst(from, [])
  {
  }

  lemma NothingMade()
    ensures Made([])
  {
  }

  lemma HeadIsRoot(head: Node?, current: Node?, kids: seq<Shape>)
    requires Growing(head, current, kids) && head != null
    ensures kids != [] && head in Roots(kids)
  {
  }

  lemma NoSiblings(head: Node?, current: Node?, kids: seq<Shape>)
    requires Growing(head, current, kids) && head == null
    ensures kids == [] && Siblings(head, Last(kids), kids)
  {
  }

  lemma TreeApart(copy: Node, kids: seq<Shape>, t: Shape)
    requires Nodes(t) !! KidsNodes(kids) && copy !in Nodes(t) && Proper(t)
    ensures t.node !in KidsNodes(kids) && KidsNodes(t.kids) !! KidsNodes(kids) && t.node !in KidsNodes(t.kids)
    ensures copy != t.node && copy !in KidsNodes(t.kids) && t.node in Nodes(t)
  {
    ProperParts(t.node, t.kids);
  }

  /** What holds of the copies made so far and of one more holds of all of them. */
  lemma OneMore(from: seq<Shape>, kids: seq<Shape>, t: Shape)
    requires |kids| < |from| && Made(kids) && MirrorsFirst(from, kids)
    requires ProperKids(kids) && Proper(t) && KidsNodes(kids) !! Nodes(t)
    requires Linked(t) && NoReferences(t) && MirrorsTree(from[|kids|], t)
    ensures var more := kids + [t];
            && Made(more) && MirrorsFirst(from, more) && ProperKids(more)
            && KidsNodes(more) == KidsNodes(kids) + Nodes(t)
            && OwnedBy(KidsNodes(more)) == OwnedBy(KidsNodes(kids)) + OwnedBy(Nodes(t))
  {
    hide Linked, NoReferences, MirrorsTree, ProperKids, Proper, KidsNodes, Nodes, OwnedBy;
    ProperExtended(kids, t);
    OwnedJoin(KidsNodes(kids), Nodes(t));
    forall k | 0 <= k <= |kids|
      ensures Linked((kids + [t])[k]) && NoReferences((kids + [t])[k]) && MirrorsTree(from[k], (kids + [t])[k])
    {
      assert (kids + [t])[k] == if k < |kids| then kids[k] else t;
    }
  }

  /** Links a copied child behind the ones before it. */
  method LinkCopy(copy: Node, next: Node?, newChild: Node, ghost kids: seq<Shape>, ghost t: Shape)
    requires Growing(copy.child, next, kids) && ProperKids(kids) && (next == null <==> kids == [])
    requires t.node == newChild && newChild !in KidsNodes(kids) && newChild.next == null && newChild.prev == null
    modifies copy`child, newChild`prev
    modifies if kids == [] then {} else {Last(kids)}`next
    ensures Growing(copy.child, newChild, kids + [t])
  {
    hide ProperKids, KidsNodes;
    RootsInside(kids);
    if next != null {
      LastIsRoot(kids);
      RootsDistinct(kids);
      next.next := newChild;
      newChild.prev := next;
    } else {
      copy.child := newChild;
    }
  }

  lemma Assembled(t: Shape)
    requires Siblings(t.node.child, Last(t.kids), t.kids) && ProperKids(t.kids) && t.node !in KidsNodes(t.kids)
    requires Made(t.kids) && !t.node.isReference
    ensures Linked(t) && NoReferences(t) && Proper(t)
    ensures Nodes(t) == {t.node} + KidsNodes(t.kids)
    ensures OwnedBy(Nodes(t)) == NodeBlocks(t.node) + OwnedBy(KidsNodes(t.kids))
  {
    hide Siblings, NodeBlocks, OwnedBy, ProperKids, KidsNodes;
    TreeBlocks(t);
  }

  /** A new item with the source's type, value, text and key. */
  method CopyFields(hooks: Hooks, item: Node) returns (copy: Node)
    requires hooks.Seen(item) <= hooks.live
    modifies hooks`live
    ensures fresh(copy) && copy.next == null && copy.prev == null && copy.child == null && !copy.isReference
    ensures Mirrors(item, copy)
    ensures hooks.live == old(hooks.live) + NodeBlocks(copy) && old(hooks.live) !! NodeBlocks(copy)
  {
    hide *;
    assert ItemBlock(item) in hooks.live by { SeenBlocks(hooks, item); }
    copy := CopyScalars(hooks, item);
    CopyText(hooks, item, copy);
    CopyKey(hooks, item, copy);
    Copied(item, copy);
  }

  lemma SeenBlocks(hooks: Hooks, item: Node)
    requires hooks.Seen(item) <= hooks.live
    ensures ItemBlock(item) in hooks.live
    ensures item.valuestring.Some? ==> TextBlock(TextOwner(hooks.lender, item)) in hooks.live
    ensures item.key.Some? && !item.keyIsConst ==> KeyBlock(item) in hooks.live
  {
    assert ItemBlock(item) in hooks.Seen(item);
    assert item.valuestring.Some? ==> TextBlock(TextOwner(hooks.lender, item)) in hooks.Seen(item);
    assert item.key.Some? && !item.keyIsConst ==> KeyBlock(item) in hooks.Seen(item);
  }

  lemma Copied(item: Node, copy: Node)
    requires copy.kind == item.kind && copy.valueint == item.valueint && copy.valuedouble == item.valuedouble
    requires copy.keyIsConst == item.keyIsConst && !copy.isReference
    requires copy.valuestring == CopiedKey(item.valuestring, false) && copy.key == CopiedKey(item.key, item.keyIsConst)
    ensures Mirrors(item, copy)
    ensures NodeBlocks(copy) == {ItemBlock(copy)} + (if copy.valuestring.Some? then {TextBlock(copy)} else {})
                                + (if copy.key.Some? && !item.keyIsConst then {KeyBlock(copy)} else {})
  {
  }

  method CopyScalars(hooks: Hooks, item: Node) returns (copy: Node)
    requires ItemBlock(item) in hooks.live
    modifies hooks`live
    ensures fresh(copy) && copy.next == null && copy.prev == null && copy.child == null && !copy.isReference
    ensures copy.kind == item.kind && copy.valueint == item.valueint && copy.valuedouble == item.valuedouble
    ensures copy.keyIsConst == item.keyIsConst && copy.valuestring == None && copy.key == None
    ensures hooks.live == old(hooks.live) + {ItemBlock(copy)}
    ensures ItemBlock(copy) !in old(hooks.live) && TextBlock(copy) !in hooks.live && KeyBlock(copy) !in hooks.live
  {
    hide OwnedBy;
    copy := new Node();
    hooks.Allocate(ItemBlock(copy));
    var (kind, valueint, valuedouble) := hooks.Scalars(item);
    copy.kind, copy.keyIsConst := kind, hooks.KeyIsConst(item);
    copy.valueint, copy.valuedouble := valueint, valuedouble;
  }

  method CopyText(hooks: Hooks, item: Node, copy: Node)
    requires hooks.Seen(item) <= hooks.live && item != copy
    requires TextBlock(copy) !in hooks.live && copy.valuestring == None
    modifies hooks`live, copy`valuestring
    ensures copy.valuestring == CopiedKey(item.valuestring, false)
    ensures hooks.live == old(hooks.live) + if copy.valuestring.Some? then {TextBlock(copy)} else {}
  {
    hide CString;
    if hooks.HasText(item) {
      copy.valuestring := Some(CString(hooks.Text(item)));
      hooks.Allocate(TextBlock(copy));
    }
  }

  method CopyKey(hooks: Hooks, item: Node, copy: Node)
    requires hooks.Seen(item) <= hooks.live && KeyBlock(copy) !in hooks.live && item != copy && copy.key == None
    modifies hooks`live, copy`key
    ensures copy.key == CopiedKey(item.key, item.keyIsConst)
    ensures hooks.live == old(hooks.live) + if copy.key.Some? && !item.keyIsConst then {KeyBlock(copy)} else {}
  {
    hide CString;
    if hooks.HasKey(item) {
      if hooks.KeyIsConst(item) {
        copy.key := hooks.ConstKey(item);
      } else {
        copy.key := Some(CString(hooks.Key(item)));
        hooks.Allocate(KeyBlock(copy));
      }
    }
  }

  lemma Single(n: Node)
    ensures Nodes(Shape(n, [])) == {n} && Proper(Shape(n, [])) && OwnedBy({n}) == NodeBlocks(n)
    ensures NoReferences(Shape(n, [])) <==> !n.isReference
    ensures Linked(Shape(n, [])) <==> n.child == null
  {
    OwnedOne(n);
  }

  // ----- A copy holds what its original holds -----

  /** All texts and keys are C strings, as the fields that hold them are. */
  predicate Strings(v: Json) {
    match v
    case String(text) => NulFree(text)
    case Array(items) => ItemsStrings(items)
    case Object(members) => MembersStrings(members)
    case _ => true
  }

  predicate ItemsStrings(items: Items) {
    items.Item? ==> Strings(items.head) && ItemsStrings(items.tail)
  }

  predicate MembersStrings(members: Members) {
    members.Member? ==> NulFree(members.key) && Strings(members.value) && MembersStrings(members.rest)
  }

  lemma {:induction false} ItemsBelow(items: Items)
    requires ItemsStrings(items)
    ensures forall i | 0 <= i < |ListOf(items)| :: Strings(ListOf(items)[i])
  {
    hide Strings;
    if items.Item? { ItemsBelow(items.tail); }
  }

  lemma {:induction false} MembersBelow(members: Members)
    requires MembersStrings(members)
    ensures forall i | 0 <= i < |PairsOf(members)| ::
              NulFree(PairsOf(members)[i].0) && Strings(PairsOf(members)[i].1)
  {
    hide Strings, NulFree;
    if members.Member? { MembersBelow(members.rest); }
  }

  /** Whatever value the original holds, the copy holds. */
  lemma {:induction false} MirrorHolds(s: Shape, t: Shape, v: Json)
    requires MirrorsTree(s, t) && Denotes(s, v) && Strings(v)
    ensures Denotes(t, v)
    decreases s
  {
    hide NulFree, CString;
    match v
    case Array(items) =>
      ItemsBelow(items);
      forall i | 0 <= i < |s.kids| ensures Denotes(t.kids[i], ListOf(items)[i]) {
        MirrorHolds(s.kids[i], t.kids[i], ListOf(items)[i]);
      }
    case Object(members) =>
      MembersBelow(members);
      forall i | 0 <= i < |s.kids|
        ensures t.kids[i].node.key == Some(PairsOf(members)[i].0) && Denotes(t.kids[i], PairsOf(members)[i].1)
      {
        MirrorHolds(s.kids[i], t.kids[i], PairsOf(members)[i].1);
        SameKey(s.kids[i], t.kids[i], PairsOf(members)[i].0);
      }
    case String(text) => SameText(s.node, t.node, text);
    case _ =>
  }

  lemma SameKey(s: Shape, t: Shape, key: bytes)
    requires MirrorsTree(s, t) && s.node.key == Some(key) && NulFree(key)
    ensures t.node.key == Some(key)
  {
  }

  lemma SameText(n: Node, m: Node, text: bytes)
    requires Mirrors(n, m) && n.valuestring == Some(text) && NulFree(text)
    ensures m.valuestring == Some(text)
  {
  }
}
