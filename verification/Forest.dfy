/** Runs of tree operations: every allocated item has one owner, and no block is lost or given back twice. */
module Forest {
  import opened Bytes
  import opened JsonTree
  import opened LinkedTree
  import opened ChildLists
  import opened TreeLists
  import opened Lookup
  import opened Ownership
  import opened Families
  import opened Reach
  import Grammar
  import Parsing

  class World {
    const hooks: Hooks
    ghost var kids: Family

    /**
     * Every live item stands in at most one place, the links say so, the roots point nowhere, the allocator's live
     * blocks are exactly what the live items own, and references borrow from items that own what they lend.
     */
    ghost predicate Valid()
      reads this, hooks, kids.Keys
    {
      Sound(kids) && hooks.live == OwnedBy(kids.Keys) && Lent(kids.Keys, hooks.lender)
    }

    /** All the items are there, and so are the owners of the texts that references among them borrow. */
    ghost predicate Intact(shown: set<Node>)
      reads this, hooks`lender, shown`isReference, shown`valuestring
    {
      Reaches(kids.Keys, hooks.lender, shown)
    }

    /** No reference points at an item, or a text, that is gone. */
    ghost predicate NoneDangling()
      reads this`kids, hooks`lender, kids.Keys`isReference, kids.Keys`valuestring, kids.Keys`child
    {
      AllAnchored(kids.Keys, hooks.lender)
    }

    /** Nothing that the items consist of has been given back if and only if they are intact. */
    lemma LiveExactly(shown: set<Node>)
      requires Valid()
      ensures hooks.SeenIn(shown) <= hooks.live <==> Intact(shown)
    {
      hide Sound;
      SeenExactly(kids.Keys, hooks, shown);
    }

    /** What an item leads to is intact if and only if all references on the way point at items that are there. */
    lemma IntactExactly(s: Shape)
      requires Valid() && Walk(s) && s.node in kids
      ensures Intact(Nodes(s)) <==> RefsAnchored(kids, hooks.lender, Nodes(s))
      ensures NoneDangling() ==> Intact(Nodes(s))
    {
      hide Sound, Walk, Nodes;
      ReachesExactly(kids, hooks.lender, s);
    }


    constructor ()
      ensures Valid() && NoneDangling() && kids == map[] && fresh(hooks)
    {
      hooks := new Hooks();
      kids := map[];
    }

    /** A new item of its own. */
    method Create(kind: Kind) returns (item: Node)
      requires Valid()
      modifies this`kids, hooks`live
      ensures Valid() && fresh(item) && kids == old(kids)[item := []] && IsRoot(kids, item)
      ensures old(NoneDangling()) ==> NoneDangling()
      ensures item.kind == kind && item.child == null && !item.isReference && item.valuestring == None
              && item.key == None && item.valueint == 0 && item.valuedouble == 0.0
    {
      hide Sound, OwnedBy, IsRoot, Lent, AllAnchored;
      assert allocated(kids.Keys);
      item := new Node();
      hooks.Allocate(ItemBlock(item));
      item.kind := kind;
      Joins(kids, item, hooks.lender);
      kids := kids[item := []];
    }

    /** Appends a root to a list; that the list is kept needs no more than that it is a root. */
    method AddItemToArray(parent: Node?, item: Node?) returns (ok: bool)
      requires Valid()
      requires parent != null ==> parent in kids && !parent.isReference
      requires item != null ==> IsRoot(kids, item)
      modifies this`kids, kids.Keys`next, kids.Keys`prev, kids.Keys`child
      ensures Valid() && ok == (parent != null && item != null && parent != item)
      ensures kids == if ok then old(kids)[parent := old(kids)[parent] + [item]] else old(kids)
      ensures forall n | n in kids && n != parent :: n.child == old(n.child)
      ensures old(NoneDangling()) ==> NoneDangling()
    {
      hide Sound, OwnedBy, Closed, OneOwner, IsRoot, Inserted, LinkOf, Children, Lent, Anchored;
      if parent == null {
        ok := ChildLists.AddItemToArray(parent, item, []);
        return;
      }
      SoundParts(kids);
      Unfold(kids, parent);
      if item != null { RootsAre(kids, item, parent); }
      assert allocated(kids.Keys);
      ok := ChildLists.AddItemToArray(parent, item, kids[parent]);
      forall r | r in kids && r.isReference && old(NoneDangling()) ensures Anchored(kids.Keys, hooks.lender, r) {
        assert old(Anchored(kids.Keys, hooks.lender, r));
      }
      if ok {
        ghost var child: Node := item;
        ghost var more := kids[parent := kids[parent] + [child]];
        forall q | q in kids && q != parent ensures LinkOf(kids, q) {
          ListsApart(kids, parent, item, q);
          assert old(LinkOf(kids, q));
        }
        AtEnd(kids[parent], child);
        AttachFamily(kids, parent, |kids[parent]|, child);
        forall r | r in kids && IsRoot(more, r) ensures r.next == null && r.prev == null {
          RootsApart(kids, r, parent);
          assert old(r.next) == null;
        }
        Edited(kids, more, parent);
        assert Sound(more);
        kids := more;
        assert Sound(kids);
      } else {
        assert Sound(kids);
      }
      assert hooks.live == OwnedBy(kids.Keys);
    }

    /** Takes a child out of its list; it is a root afterwards. */
    method DetachItemViaPointer(parent: Node?, item: Node?, ghost i: nat) returns (r: Node?)
      requires Valid()
      requires parent != null ==> parent in kids && !parent.isReference
      requires parent != null && item != null ==> i < |kids[parent]| && kids[parent][i] == item
      modifies this`kids, kids.Keys`next, kids.Keys`prev, kids.Keys`child
      ensures Valid() && r == if parent == null then null else item
      ensures parent == null || item == null ==> kids == old(kids)
      ensures parent != null && item != null ==>
                kids == old(kids)[parent := Removed(old(kids)[parent], i)] && IsRoot(kids, item)
      ensures old(NoneDangling()) ==> NoneDangling()
    {
      hide Sound, OwnedBy, Closed, OneOwner, IsRoot, Removed, LinkOf, Children, Lent, Anchored;
      if parent == null || item == null {
        return null;
      }
      SoundParts(kids);
      Unfold(kids, parent);
      assert allocated(kids.Keys);
      r := ChildLists.DetachItemViaPointer(parent, item, kids[parent], i);
      forall r | r in kids && r.isReference && old(NoneDangling()) ensures Anchored(kids.Keys, hooks.lender, r) {
        assert old(Anchored(kids.Keys, hooks.lender, r));
      }
      ghost var less := kids[parent := Removed(kids[parent], i)];
      forall q | q in kids && q != parent ensures LinkOf(kids, q) {
        ListsApart(kids, parent, item, q);
        assert old(LinkOf(kids, q));
      }
      DetachFamily(kids, parent, i);
      forall r | r in kids && IsRoot(less, r) ensures r.next == null && r.prev == null {
        if r != item {
          RootsApart(kids, r, parent);
          assert old(r.next) == null;
        }
      }
      Edited(kids, less, parent);
      kids := less;
    }

    /** Deletes a root with everything it owns, and nothing else. */
    method Delete(item: Node?, ghost s: Shape)
      requires Valid() && (item != null ==> IsRoot(kids, item) && Fits(kids, s) && s.node == item)
      modifies this`kids, hooks`live
      ensures Valid() && kids == if item == null then old(kids) else old(kids) - Nodes(s)
      ensures item == null ==> hooks.live == old(hooks.live)
      ensures item != null ==> hooks.live == old(hooks.live) - OwnedBy(Nodes(s)) && Nodes(s) <= old(kids).Keys
      ensures item != null ==> forall shown | shown <= old(kids).Keys && old(Intact(shown)) ::
                Intact(shown) <==> Avoids(Nodes(s), hooks.lender, shown)
      ensures item != null && old(NoneDangling()) ==>
                (NoneDangling() <==> forall r | r in kids && r.isReference :: Spared(Nodes(s), hooks.lender, r))
    {
      hide Sound, OwnedBy, Closed, OneOwner, IsRoot, Owns, Chain, Fits, Nodes, KidsNodes, Proper, ProperKids, AllOwn,
        Lent, AllAnchored, Reaches, Avoids, Spared;
      assert allocated(kids.Keys);
      if item == null {
        NothingToDelete();
        Ownership.Delete(hooks, null, []);
        assert Sound(kids);
        return;
      }
      SoundParts(kids);
      RootIs(kids, item);
      FitsProper(kids, s);
      FitsOwns(kids, s);
      Pruned(kids, s);
      OneTree(s);
      assert allocated(kids.Keys) && allocated(Nodes(s));
      Ownership.Delete(hooks, item, [s]);
      assert Sound(kids);
      Pruned(kids, s);
      ghost var before := kids.Keys;
      kids := kids - Nodes(s);
      assert kids.Keys == before - Nodes(s);
      LentFewer(before, kids.Keys, hooks.lender);
      forall shown | shown <= before && old(Intact(shown))
        ensures Intact(shown) <==> Avoids(Nodes(s), hooks.lender, shown)
      {
        ReachesFewer(before, Nodes(s), hooks.lender, shown);
      }
      if old(NoneDangling()) { AnchoredFewer(before, Nodes(s), hooks.lender); }
    }

    /** Puts a root in front of the child at `which`, or at the end. */
    method InsertItemInArray(parent: Node?, which: int, item: Node) returns (ok: bool)
      requires Valid() && IsRoot(kids, item) && item != parent
      requires parent != null ==> parent in kids && !parent.isReference
      modifies this`kids, kids.Keys`next, kids.Keys`prev, kids.Keys`child
      ensures Valid() && ok == (which >= 0 && parent != null)
      ensures kids == if !ok then old(kids) else
                        var list := old(kids)[parent];
                        old(kids)[parent := Inserted(list, if which < |list| then which else |list|, item)]
      ensures old(NoneDangling()) ==> NoneDangling()
    {
      hide Sound, OwnedBy, Closed, OneOwner, IsRoot, Inserted, LinkOf, Children, Lent, Anchored;
      if which < 0 || parent == null {
        return false;
      }
      ghost var list := kids[parent];
      ghost var at := if which < |list| then which else |list|;
      ghost var more := kids[parent := Inserted(list, at, item)];
      SoundParts(kids);
      Unfold(kids, parent);
      RootsAre(kids, item, parent);
      assert allocated(kids.Keys);
      ok := ChildLists.InsertItemInArray(parent, which, item, list);
      forall r | r in kids && r.isReference && old(NoneDangling()) ensures Anchored(kids.Keys, hooks.lender, r) {
        assert old(Anchored(kids.Keys, hooks.lender, r));
      }
      forall q | q in kids && q != parent ensures LinkOf(kids, q) {
        ListsApart(kids, parent, item, q);
        assert old(LinkOf(kids, q));
      }
      AtEnd(list, item);
      AttachFamily(kids, parent, at, item);
      forall r | r in kids && IsRoot(more, r) ensures r.next == null && r.prev == null {
        RootsApart(kids, r, parent);
        assert old(r.next) == null;
      }
      Edited(kids, more, parent);
      kids := more;
    }

    /** Puts a root in the place of a child, and deletes the child with everything it owns. */
    method ReplaceItemViaPointer(parent: Node?, item: Node?, replacement: Node?, ghost i: nat, ghost s: Shape)
      returns (ok: bool)
      requires Valid()
      requires parent != null ==> parent in kids && !parent.isReference
      requires parent != null && item != null ==> i < |kids[parent]| && kids[parent][i] == item
      requires parent != null && item != null && replacement != null && replacement != item ==>
                 IsRoot(kids, replacement) && Fits(kids, s) && s.node == item
      modifies this`kids, hooks`live, kids.Keys`next, kids.Keys`prev, kids.Keys`child
      ensures Valid() && ok == (parent != null && item != null && replacement != null)
      ensures !ok || replacement == item ==> kids == old(kids)
      ensures ok && replacement != item ==>
                kids == old(kids)[parent := old(kids)[parent][i := replacement]] - Nodes(s)
      ensures ok && replacement != item ==> hooks.live == old(hooks.live) - OwnedBy(Nodes(s))
      ensures !ok || replacement == item ==> hooks.live == old(hooks.live) && (old(NoneDangling()) ==> NoneDangling())
      ensures ok && replacement != item ==> forall shown | shown <= old(kids).Keys && old(Intact(shown)) ::
                Intact(shown) <==> Avoids(Nodes(s), hooks.lender, shown)
      ensures ok && replacement != item && old(NoneDangling()) ==>
                (NoneDangling() <==> forall r | r in kids && r.isReference :: Spared(Nodes(s), hooks.lender, r))
    {
      hide Sound, OwnedBy, IsRoot, Fits, Nodes, Lent, AllAnchored, Reaches, Avoids, Spared;
      if parent == null || replacement == null || item == null || replacement == item {
        ok := parent != null && replacement != null && item != null;
        return;
      }
      Unfold(kids, parent);
      OwnerOutside(kids, s, parent, i);
      FitsElsewhere(kids, s, parent, kids[parent][i := replacement]);
      PutInPlace(parent, item, replacement, i);
      assert kids.Keys == old(kids).Keys;
      forall shown | shown <= kids.Keys && old(Intact(shown)) ensures Intact(shown) {}
      Delete(item, s);
      ok := true;
    }

    /** The exchange of the links: afterwards the child is a root and the other one is not. */
    method PutInPlace(parent: Node, item: Node, replacement: Node, ghost i: nat)
      requires Valid() && parent in kids && !parent.isReference && i < |kids[parent]| && kids[parent][i] == item
      requires IsRoot(kids, replacement) && replacement != item
      modifies this`kids, kids.Keys`next, kids.Keys`prev, kids.Keys`child
      ensures Valid() && kids == old(kids)[parent := old(kids)[parent][i := replacement]] && IsRoot(kids, item)
      ensures old(NoneDangling()) ==> NoneDangling()
    {
      hide Sound, OwnedBy, Closed, OneOwner, IsRoot, LinkOf, Children, Lent, Anchored;
      ghost var list := kids[parent];
      ghost var more := kids[parent := list[i := replacement]];
      SoundParts(kids);
      Unfold(kids, parent);
      RootsAre(kids, replacement, parent);
      assert allocated(kids.Keys);
      var ok := ChildLists.ReplaceItemViaPointer(parent, item, replacement, list, i);
      forall r | r in kids && r.isReference && old(NoneDangling()) ensures Anchored(kids.Keys, hooks.lender, r) {
        assert old(Anchored(kids.Keys, hooks.lender, r));
      }
      forall q | q in kids && q != parent ensures LinkOf(kids, q) {
        ListsApart(kids, parent, item, q);
        ListsApart(kids, parent, replacement, q);
        assert old(LinkOf(kids, q));
      }
      ReplaceFamily(kids, parent, i, replacement);
      forall r | r in kids && IsRoot(more, r) ensures r.next == null && r.prev == null {
        if r != item {
          RootsApart(kids, r, parent);
          assert old(r.next) == null;
        }
      }
      Edited(kids, more, parent);
      kids := more;
    }

    /** A new string item with its own copy of the text; without a text there is nothing to copy and no item. */
    method CreateString(text: Option<bytes>) returns (item: Node?)
      requires Valid()
      modifies this`kids, hooks`live
      ensures Valid() && (item == null <==> text == None)
      ensures old(NoneDangling()) ==> NoneDangling()
      ensures item == null ==> kids == old(kids) && hooks.live == old(hooks.live)
      ensures item != null ==>
                && fresh(item) && kids == old(kids)[item := []] && IsRoot(kids, item)
                && item.kind == StringKind && item.valuestring == Some(CString(text.value)) && !item.isReference
                && TextBlock(item) in hooks.live
    {
      hide Sound, OwnedBy, IsRoot, Fits, CString, Lent, AllAnchored, Spared;
      ghost var before := kids;
      assert allocated(before.Keys);
      var created := Create(StringKind);
      if text == None {
        Alone(kids, created);
        Delete(created, Shape(created, []));
        assert kids == before;
        return null;
      }
      GiveText(created, text.value);
      item := created;
    }

    /** A copy of the text for an item that has none yet and from which none borrows. */
    method GiveText(item: Node, text: bytes)
      requires Valid() && item in kids && !item.isReference && item.valuestring == None
      requires forall r | r in kids && r in hooks.lender :: hooks.lender[r] != item
      modifies hooks`live, item`valuestring
      ensures Valid() && item.valuestring == Some(CString(text)) && TextBlock(item) in hooks.live
      ensures old(NoneDangling()) ==> NoneDangling()
    {
      hide Sound, OwnedBy, NodeBlocks, CString, Lent, Anchored;
      ghost var others := kids.Keys - {item};
      OwnedSplit(kids.Keys, item);
      TextOwned(kids.Keys, item);
      BlocksOf(item);
      LentFewer(kids.Keys, others, hooks.lender);
      item.valuestring := Some(CString(text));
      hooks.Allocate(TextBlock(item));
      OwnedSplit(kids.Keys, item);
      BlocksOf(item);
      assert kids.Keys == others + {item};
      OneItemMore(others, item, hooks.lender);
      forall r | r in kids && r.isReference && old(NoneDangling()) ensures Anchored(kids.Keys, hooks.lender, r) {
        assert old(Anchored(kids.Keys, hooks.lender, r));
      }
    }

    /** A new item that shares the other's children and text without owning them. */
    method CreateReference(item: Node?) returns (reference: Node?)
      requires Valid() && (item != null ==> item in kids)
      modifies this`kids, hooks
      ensures Valid() && (reference == null <==> item == null)
      ensures item == null ==> kids == old(kids)
      ensures reference != null ==>
                && fresh(reference) && kids == old(kids)[reference := []] && IsRoot(kids, reference)
                && reference.isReference && reference.key == None && reference.kind == item.kind
                && reference.child == item.child && reference.valuestring == item.valuestring
                && reference.valueint == item.valueint && reference.valuedouble == item.valuedouble
                && hooks.live == old(hooks.live) + {ItemBlock(reference)}
                && hooks.lender == old(hooks.lender)[reference := old(TextOwner(hooks.lender, item))]
      ensures old(NoneDangling()) ==> NoneDangling()
    {
      hide Sound, OwnedBy, IsRoot, NodeBlocks, Lent, AllAnchored;
      if item == null {
        return null;
      }
      assert allocated(kids.Keys) && allocated(hooks.lender);
      reference := CopyItem(item);
      ReferenceBlocks(reference);
      hooks.Allocate(ItemBlock(reference));
      Grown(kids, reference);
      Borrowed(kids, hooks.lender, item, reference);
      hooks.Lend(reference, TextOwner(hooks.lender, item));
      assert kids[reference := []].Keys == kids.Keys + {reference};
      kids := kids[reference := []];
    }

    /** All fields as they are, but marked as a reference, without a key and out of any list. */
    method CopyItem(item: Node) returns (reference: Node)
      ensures fresh(reference) && reference.isReference && reference.key == None
      ensures reference.next == null && reference.prev == null
      ensures reference.kind == item.kind && reference.child == item.child && reference.valuestring == item.valuestring
      ensures reference.valueint == item.valueint && reference.valuedouble == item.valuedouble
      ensures reference.keyIsConst == item.keyIsConst
    {
      reference := new Node();
      reference.child, reference.kind, reference.keyIsConst := item.child, item.kind, item.keyIsConst;
      reference.valuestring := item.valuestring;
      reference.valueint, reference.valuedouble := item.valueint, item.valuedouble;
      reference.isReference := true;
    }

    method AddItemReferenceToArray(parent: Node?, item: Node?) returns (ok: bool)
      requires Valid() && (item != null ==> item in kids)
      requires parent != null ==> parent in kids && !parent.isReference
      modifies this`kids, hooks, kids.Keys`next, kids.Keys`prev, kids.Keys`child
      ensures Valid() && ok == (parent != null && item != null)
      ensures !ok ==> kids == old(kids)
      ensures ok ==> exists r ::
                && r !in old(kids) && kids == old(kids)[r := []][parent := old(kids)[parent] + [r]]
                && r.isReference && r.kind == item.kind && r.valuestring == item.valuestring
                && r.valueint == item.valueint && r.valuedouble == item.valuedouble
                && r in hooks.lender && hooks.lender[r] == old(TextOwner(hooks.lender, item))
                && r.child == old(item.child)
      ensures old(NoneDangling()) ==> NoneDangling()
    {
      hide Sound, OwnedBy, IsRoot, Lent, AllAnchored;
      if parent == null {
        return false;
      }
      var reference := CreateReference(item);
      ok := AddItemToArray(parent, reference);
    }

    /** Gives an item a key: the old one goes if it was owned, the new one is owned unless constant. */
    method SetKey(item: Node, name: bytes, constantKey: bool)
      requires Valid() && item in kids
      modifies hooks`live, item`key, item`keyIsConst
      ensures Valid() && item.key == Some(CString(name)) && item.keyIsConst == constantKey
    {
      hide Sound, OwnedBy, Lent, CString;
      FreeKey(item);
      StoreKey(item, name, constantKey);
    }

    /** Gives the key's block back, if the item owns one; the key pointer still points there. */
    method FreeKey(item: Node)
      requires Valid() && item in kids
      modifies hooks`live
      ensures hooks.live == OwnedBy(kids.Keys) - {KeyBlock(item)}
    {
      hide Sound, OwnedBy, Lent;
      AllButKey(kids.Keys, item);
      if !item.keyIsConst && item.key.Some? {
        hooks.Deallocate(KeyBlock(item));
      }
    }

    /** Puts a key in the place of one that has been given back. */
    method StoreKey(item: Node, name: bytes, constantKey: bool)
      requires item in kids && hooks.live == OwnedBy(kids.Keys) - {KeyBlock(item)}
      modifies hooks`live, item`key, item`keyIsConst
      ensures hooks.live == OwnedBy(kids.Keys)
      ensures item.key == Some(CString(name)) && item.keyIsConst == constantKey
    {
      hide OwnedBy, CString;
      AllButKey(kids.Keys, item);
      item.key := Some(CString(name));
      item.keyIsConst := constantKey;
      AllButKey(kids.Keys, item);
      if !constantKey {
        hooks.Allocate(KeyBlock(item));
      }
    }

    /** Gives a root a key and appends it. */
    method AddItemToObject(parent: Node?, name: Option<bytes>, item: Node?, constantKey: bool) returns (ok: bool)
      requires Valid()
      requires parent != null ==> parent in kids && !parent.isReference
      requires item != null ==> IsRoot(kids, item)
      modifies this`kids, hooks`live
      modifies kids.Keys`next, kids.Keys`prev, kids.Keys`child, kids.Keys`key, kids.Keys`keyIsConst
      ensures Valid() && ok == (parent != null && name.Some? && item != null && parent != item)
      ensures old(NoneDangling()) ==> NoneDangling()
      ensures kids == if ok then old(kids)[parent := old(kids)[parent] + [item]] else old(kids)
      ensures ok ==> item.key == Some(CString(name.value)) && item.keyIsConst == constantKey
    {
      hide Sound, OwnedBy, Lent, AllAnchored;
      if parent == null || name == None || item == null || parent == item {
        return false;
      }
      SetKey(item, name.value, constantKey);
      ok := AddItemToArray(parent, item);
    }

    /** Parsing gives a new tree without references, or leaves everything as it was. */
    method Parse(content: array<byte>, requireNullTerminated: bool)
      returns (root: Node?, parseEnd: nat, ghost s: Shape, ghost value: Json)
      requires Valid() && Terminated(content[..])
      modifies this`kids, hooks`live
      ensures Valid() && (old(NoneDangling()) ==> NoneDangling())
      ensures var r := Grammar.ParseBuffer(content[..], requireNullTerminated);
              if root == null then r == Err(parseEnd) && kids == old(kids) && hooks.live == old(hooks.live)
              else
                && r == Ok(value, parseEnd) && s.node == root && fresh(Nodes(s)) && Linked(s) && Denotes(s, value)
                && kids.Keys == old(kids).Keys + Nodes(s) && (forall p | p in old(kids) :: kids[p] == old(kids)[p])
                && Fits(kids, s) && IsRoot(kids, root)
    {
      hide Sound, OwnedBy, Fits, IsRoot, Nodes, Linked, Denotes, NoReferences, Lent, AllAnchored, Proper, Terminated,
        Grammar.ParseBuffer;
      assert allocated(kids.Keys) && allocated(hooks.lender);
      root, parseEnd, s, value := Parsing.ParseWithLengthOpts(hooks, content, requireNullTerminated);
      if root != null {
        assert old(NoneDangling()) ==> NoneDangling();
        assert allocated(Nodes(s)) && allocated(KidsNodes(s.kids));
        Planted(s);
      }
    }

    /** A tree on its own becomes part of the forest. */
    ghost method Planted(s: Shape)
      requires Sound(kids) && Lent(kids.Keys, hooks.lender) && hooks.live == OwnedBy(kids.Keys) + OwnedBy(Nodes(s))
      requires Proper(s) && Linked(s) && NoReferences(s) && s.node.next == null && s.node.prev == null
      requires Nodes(s) !! kids.Keys && forall r | r in kids && r in hooks.lender :: hooks.lender[r] !in Nodes(s)
      modifies this`kids
      ensures Valid() && (old(NoneDangling()) ==> NoneDangling())
      ensures kids.Keys == old(kids).Keys + Nodes(s) && (forall p | p in old(kids) :: kids[p] == old(kids)[p])
      ensures Fits(kids, s) && IsRoot(kids, s.node)
    {
      hide Sound, OwnedBy, Fits, IsRoot, Nodes, Linked, NoReferences, Lent, AllAnchored, Proper;
      ghost var f := SoundTree(s);
      assert f.Keys !! kids.Keys;
      Joined(kids, f);
      FitsMore(f, kids + f, s);
      PlainNodes(s);
      LentJoined(kids.Keys, Nodes(s), hooks.lender);
      if old(NoneDangling()) { AnchoredJoined(kids.Keys, Nodes(s), hooks.lender); }
      assert (kids + f).Keys == kids.Keys + Nodes(s);
      kids := kids + f;
    }

    /** A name is there as long as the block behind it is. */
    ghost predicate NameThere(name: Name)
      reads this, hooks, if name.KeyOf? then {name.owner} else {}
    {
      name.KeyOf? ==> name.owner in kids && name.owner.key.Some?
    }

    /** What a name says, as a C string. */
    ghost function TextOf(name: Name): bytes
      requires name.KeyOf? ==> name.owner.key.Some?
      reads if name.KeyOf? then {name.owner} else {}
    {
      CString(if name.KeyOf? then name.owner.key.value else name.text)
    }

    /** A name outlives the key of an item if and only if it is not that very key. */
    lemma NameOutlives(name: Name, item: Node)
      requires Valid() && item in kids && NameThere(name)
      ensures NameBlocks(name) <= hooks.live
      ensures NameBlocks(name) <= hooks.live - {KeyBlock(item)} <==> name != KeyOf(item) || item.keyIsConst
    {
      hide Sound, OwnedBy, Lent;
      if name.KeyOf? { KeyOwned(kids.Keys, name.owner); }
    }

    /**
     * Gives the item a new key. The old one is given back before the name is read, so the name must not be the key that
     * is given back.
     */
    method Rename(item: Node, name: Name)
      requires Valid() && item in kids && NameThere(name) && (name == KeyOf(item) ==> item.keyIsConst)
      modifies hooks`live, item`key, item`keyIsConst
      ensures Valid() && !item.keyIsConst
      ensures item.key == Some(old(TextOf(name))) && NameThere(name) && TextOf(name) == old(TextOf(name))
      ensures NameBlocks(name) <= hooks.live
    {
      hide Sound, OwnedBy, Lent, CString, NameBlocks;
      NameOutlives(name, item);
      FreeKey(item);
      StoreKey(item, hooks.NameText(name), false);
      NameOutlives(name, item);
    }

    /**
     * Renames an item, whether or not it is used, and puts it in the place of the first child that answers to the
     * name, which is deleted.
     */
    method ReplaceItemInObject(parent: Node?, name: Option<Name>, replacement: Node?, caseSensitive: bool,
                               ghost text: bytes, ghost i: Option<nat>, ghost s: Shape)
      returns (ok: bool)
      requires Valid()
      requires parent != null ==> parent in kids && !parent.isReference
      requires replacement != null ==> replacement in kids
      requires name.Some? && replacement != null ==>
                 && NameThere(name.value) && (name.value == KeyOf(replacement) ==> replacement.keyIsConst)
                 && text == TextOf(name.value)
      requires parent != null && name.Some? && replacement != null ==>
                 && i == Found(caseSensitive, KeysWith(kids[parent], replacement, text), text)
                 && (i.Some? && kids[parent][i.value] != replacement ==>
                       IsRoot(kids, replacement) && Fits(kids, s) && s.node == kids[parent][i.value])
      modifies this`kids, hooks`live
      modifies kids.Keys`next, kids.Keys`prev, kids.Keys`child, kids.Keys`key, kids.Keys`keyIsConst
      ensures Valid() && (ok <==> parent != null && name.Some? && replacement != null && i.Some?)
      ensures name.Some? && replacement != null ==> replacement.key == Some(text) && !replacement.keyIsConst
      ensures !ok || old(kids)[parent][i.value] == replacement ==> kids == old(kids)
      ensures ok && old(kids)[parent][i.value] != replacement ==>
                kids == old(kids)[parent := old(kids)[parent][i.value := replacement]] - Nodes(s)
      ensures !ok || old(kids)[parent][i.value] == replacement ==> (old(NoneDangling()) ==> NoneDangling())
      ensures ok && old(kids)[parent][i.value] != replacement && old(NoneDangling()) ==>
                (NoneDangling() <==> forall r | r in kids && r.isReference :: Spared(Nodes(s), hooks.lender, r))
    {
      hide Sound, OwnedBy, IsRoot, Fits, Nodes, Lent, AllAnchored, Spared, CString, Children, Intact;
      if replacement == null || name == None {
        return false;
      }
      var current := RenameAndFind(parent, name.value, replacement, caseSensitive, text, i);
      ok := ReplaceItemViaPointer(parent, current, replacement, if i.Some? then i.value else 0, s);
    }

    /** Renames an item and looks for the first child that answers to its new name. */
    method RenameAndFind(parent: Node?, name: Name, item: Node, caseSensitive: bool, ghost text: bytes,
                         ghost i: Option<nat>)
      returns (current: Node?)
      requires Valid() && item in kids && NameThere(name) && (name == KeyOf(item) ==> item.keyIsConst)
      requires text == TextOf(name) && (parent != null ==> parent in kids && !parent.isReference)
      requires parent != null ==> i == Found(caseSensitive, KeysWith(kids[parent], item, text), text)
      modifies hooks`live, item`key, item`keyIsConst
      ensures Valid() && item.key == Some(text) && !item.keyIsConst
      ensures current == if parent != null && i.Some? then kids[parent][i.value] else null
    {
      hide Sound, OwnedBy, Lent, AllAnchored, CString, Children, TextOf, NameBlocks, FirstStop, Found;
      Rename(item, name);
      if parent != null { assert KeysOf(kids[parent]) == old(KeysWith(kids[parent], item, text)); }
      current := FindChild(parent, name, caseSensitive, i);
    }

    /** The first child that answers to the name. */
    method FindChild(parent: Node?, name: Name, caseSensitive: bool, ghost i: Option<nat>) returns (current: Node?)
      requires Valid() && NameThere(name) && NameBlocks(name) <= hooks.live
      requires parent != null ==> parent in kids && !parent.isReference
      requires parent != null ==> i == Found(caseSensitive, KeysOf(kids[parent]), TextOf(name))
      ensures current == if parent != null && i.Some? then kids[parent][i.value] else null
    {
      hide Sound, OwnedBy, Lent, CString, Children, TextOf, NameBlocks;
      var wanted := WhatItSays(name);
      if parent != null {
        Unfold(kids, parent);
        FoundByText(caseSensitive, KeysOf(kids[parent]), wanted);
      }
      current := GetObjectItem(parent, Some(wanted), caseSensitive, if parent == null then [] else kids[parent]);
    }

    method WhatItSays(name: Name) returns (wanted: bytes)
      requires NameThere(name) && NameBlocks(name) <= hooks.live
      ensures CString(wanted) == TextOf(name)
    {
      wanted := hooks.NameText(name);
    }

    /**
     * A deep copy of an item, in a tree of its own. Whatever the links lead to from the item is copied, whoever owns
     * it, and must be intact.
     */
    method Duplicate(item: Node?, ghost s: Shape) returns (copy: Node?, ghost t: Shape)
      requires Valid()
      requires item != null ==> s.node == item && Walk(s) && Intact(Nodes(s))
      modifies this`kids, hooks`live
      ensures Valid() && (copy == null <==> item == null)
      ensures old(NoneDangling()) ==> NoneDangling()
      ensures item == null ==> kids == old(kids) && hooks.live == old(hooks.live)
      ensures item != null ==>
                && copy == t.node && fresh(Nodes(t)) && Linked(t) && NoReferences(t) && MirrorsTree(s, t)
                && kids.Keys == old(kids).Keys + Nodes(t) && (forall p | p in old(kids) :: kids[p] == old(kids)[p])
                && Fits(kids, t) && IsRoot(kids, copy)
                && hooks.live == old(hooks.live) + OwnedBy(Nodes(t)) && old(hooks.live) !! OwnedBy(Nodes(t))
    {
      hide Sound, OwnedBy, Fits, IsRoot, Nodes, Linked, Walk, NoReferences, MirrorsTree, Lent, AllAnchored, Reaches;
      assert allocated(kids.Keys) && allocated(hooks.lender);
      if item != null { LiveExactly(Nodes(s)); }
      copy, t := Ownership.Duplicate(hooks, item, true, s);
      if item == null {
        return;
      }
      assert old(NoneDangling()) ==> NoneDangling();
      assert allocated(Nodes(t)) && allocated(KidsNodes(t.kids)) && allocated(Nodes(s));
      Planted(t);
    }
  }

  // ----- Two runs that leave a reference dangling -----

  /** What is known of an item without children, and of one with a single child. */
  lemma OneChild(world: World, p: Node, c: Node)
    requires world.Valid() && p in world.kids && c in world.kids && !p.isReference && !c.isReference
    requires world.kids[p] == [c] && world.kids[c] == []
    ensures p.child == c && c.next == null && c.child == null
    ensures Fits(world.kids, Shape(p, [Shape(c, [])])) && Nodes(Shape(p, [Shape(c, [])])) == {p, c}
  {
    hide Closed, OneOwner, LooseRoots, OwnedBy, Lent;
    assert LinkOf(world.kids, p) && LinkOf(world.kids, c);
    var s, t := Shape(p, [Shape(c, [])]), Shape(c, []);
    assert RootSeq(s.kids) == [c] && Fits(world.kids, t) && s.kids[0] == t;
    Pair(p, c);
  }

  lemma Pair(p: Node, c: Node)
    ensures Nodes(Shape(p, [Shape(c, [])])) == {p, c}
  {
    var t := Shape(c, []);
    assert Nodes(t) == {c};
    One(t);
  }

  method ArrayOfOne() returns (world: World, a: Node, c: Node)
    ensures world.Valid() && fresh(world) && fresh(world.hooks) && world.kids == map[a := [c], c := []] && a != c
    ensures !a.isReference && !c.isReference
  {
    hide *;
    world := new World();
    a := world.Create(ArrayKind);
    c := world.Create(NullKind);
    var ok := world.AddItemToArray(a, c);
    assert [] + [c] == [c];
    assert world.kids == map[a := [c], c := []];
  }

  /** An array with one element, and a reference to the array. */
  method Shared() returns (world: World, a: Node, c: Node, reference: Node)
    ensures world.Valid() && fresh(world) && fresh(world.hooks)
    ensures a != c && reference != a && reference != c && world.kids == map[a := [c], c := [], reference := []]
    ensures reference.isReference && reference.child == c && c.next == null && c.child == null
    ensures !a.isReference && IsRoot(world.kids, a) && Fits(world.kids, Shape(a, [Shape(c, [])]))
  {
    hide *;
    world, a, c := ArrayOfOne();
    OneChild(world, a, c);
    RootWithChild(a, c);
    reference := world.CreateReference(a);
    OneChild(world, a, c);
    StillRoot(map[a := [c], c := []], a, reference);
  }

  lemma RootWithChild(a: Node, c: Node)
    requires a != c
    ensures IsRoot(map[a := [c], c := []], a)
  {
  }

  /** An array is deleted while a reference to it lives on: copying the reference would look at the deleted element. */
  method FreedChild() returns (world: World, reference: Node, ghost s: Shape)
    ensures world.Valid() && reference in world.kids && s.node == reference && Walk(s)
    ensures !world.NoneDangling() && !world.Intact(Nodes(s))
    ensures exists n | n in Nodes(s) :: ItemBlock(n) !in world.hooks.live
  {
    hide Sound, OwnedBy, IsRoot, Fits, Nodes, Lent, LinkOf;
    var a, c;
    world, a, c, reference := Shared();
    Pair(a, c);
    world.Delete(a, Shape(a, [Shape(c, [])]));
    s := Shape(reference, [Shape(c, [])]);
    Pair(reference, c);
    GoneBlocks(world.kids.Keys, c);
    ChildWalk(reference, c);
    assert c in Nodes(s);
  }

  lemma ChildWalk(p: Node, c: Node)
    requires p.child == c && c.next == null && c.child == null
    ensures Walk(Shape(p, [Shape(c, [])]))
  {
    assert Walk(Shape(c, []));
  }

  /** The same with a string: the reference lives, but the text it shows has been given back. */
  method FreedText(text: bytes) returns (world: World, reference: Node)
    ensures world.Valid() && reference in world.kids && ItemBlock(reference) in world.hooks.live
    ensures Walk(Shape(reference, [])) && Nodes(Shape(reference, [])) == {reference}
    ensures !world.NoneDangling() && !world.Intact({reference}) && reference.valuestring == Some(CString(text))
    ensures TextBlock(TextOwner(world.hooks.lender, reference)) !in world.hooks.live
  {
    hide *;
    var a;
    world, a, reference := SharedText(text);
    Alone(world.kids, a);
    world.Delete(a, Shape(a, []));
    Alone(world.kids, reference);
    ItemIsThere(world.kids.Keys, reference);
    GoneBlocks(world.kids.Keys, a);
    LiveBlocks(world);
    Dangling(world, reference);
  }

  lemma LiveBlocks(world: World)
    requires world.Valid()
    ensures world.hooks.live == OwnedBy(world.kids.Keys)
  {
    hide Sound, OwnedBy, Lent;
  }

  /** A string, and a reference to it. */
  method SharedText(text: bytes) returns (world: World, a: Node, reference: Node)
    ensures world.Valid() && fresh(world) && fresh(world.hooks) && world.kids == map[a := [], reference := []]
    ensures reference != a && IsRoot(world.kids, a) && reference.isReference && reference.child == null
    ensures reference.valuestring == Some(CString(text)) && reference in world.hooks.lender
    ensures world.hooks.lender[reference] == a
  {
    hide *;
    world := new World();
    a := world.CreateString(Some(text));
    NoChild(world, a);
    OwnText(world.hooks.lender, a);
    ghost var before := world.kids;
    reference := world.CreateReference(a);
    StillRoot(before, a, reference);
    assert world.kids == map[a := [], reference := []];
    assert IsRoot(world.kids, a);
    assert world.hooks.lender[reference] == a;
  }

  lemma OwnText(lender: Lenders, n: Node)
    requires !n.isReference
    ensures TextOwner(lender, n) == n
  {
  }

  /** A reference without children whose text is gone. */
  lemma Dangling(world: World, r: Node)
    requires r in world.kids && r.isReference && r in world.hooks.lender && world.hooks.lender[r] !in world.kids
    requires r.valuestring.Some? && r.child == null
    ensures !world.NoneDangling() && !world.Intact({r}) && Walk(Shape(r, []))
    ensures TextOwner(world.hooks.lender, r) == world.hooks.lender[r]
  {
    assert !Anchored(world.kids.Keys, world.hooks.lender, r);
  }

  lemma NoChild(world: World, n: Node)
    requires world.Valid() && n in world.kids && world.kids[n] == [] && !n.isReference
    ensures n.child == null
  {
    hide Closed, OneOwner, LooseRoots, OwnedBy, Lent;
    assert LinkOf(world.kids, n);
  }
}
