/** Operations on the doubly linked child list of an array or object, against operations on sequences. */
module ChildLists {
  import opened LinkedTree

  ghost predicate Distinct(nodes: seq<Node>) {
    forall i, j | 0 <= i < j < |nodes| :: nodes[i] != nodes[j]
  }

  /**
   * The list invariant: the children of `parent` are `nodes` in order, neighbours point at each other, the last has
   * no `next`, and the first one's `prev` is the last.
   */
  ghost predicate Children(parent: Node, nodes: seq<Node>)
    reads parent`child, nodes`next, nodes`prev
  {
    && Distinct(nodes)
    && (if nodes == [] then parent.child == null
        else
          && parent.child == nodes[0]
          && nodes[0].prev == nodes[|nodes| - 1]
          && (forall i | 0 < i < |nodes| :: nodes[i].prev == nodes[i - 1])
          && (forall i | 0 <= i < |nodes| - 1 :: nodes[i].next == nodes[i + 1])
          && nodes[|nodes| - 1].next == null)
  }

  lemma DistinctFrom(nodes: seq<Node>, i: nat)
    requires Distinct(nodes) && i < |nodes|
    ensures forall k | 0 <= k < |nodes| :: k != i ==> nodes[k] != nodes[i]
  {
  }

  function Removed<T>(s: seq<T>, i: nat): seq<T>
    requires i < |s|
  {
    s[..i] + s[i + 1..]
  }

  function Inserted<T>(s: seq<T>, i: nat, x: T): seq<T>
    requires i <= |s|
  {
    s[..i] + [x] + s[i..]
  }

  lemma RemovedDistinct(s: seq<Node>, i: nat)
    requires i < |s| && Distinct(s)
    ensures Distinct(Removed(s, i)) && |Removed(s, i)| == |s| - 1
    ensures forall k | 0 <= k < |s| - 1 :: Removed(s, i)[k] == if k < i then s[k] else s[k + 1]
  {
    var less := Removed(s, i);
    assert forall k | 0 <= k < |less| :: less[k] == if k < i then s[k] else s[k + 1];
  }

  lemma InsertedDistinct(s: seq<Node>, i: nat, x: Node)
    requires i <= |s| && Distinct(s) && x !in s
    ensures Distinct(Inserted(s, i, x)) && |Inserted(s, i, x)| == |s| + 1
    ensures forall k | 0 <= k <= |s| :: Inserted(s, i, x)[k] == if k < i then s[k] else if k == i then x else s[k - 1]
  {
    var more := Inserted(s, i, x);
    assert forall k | 0 <= k < |more| :: more[k] == if k < i then s[k] else if k == i then x else s[k - 1];
  }

  /** What was taken out goes back in. */
  lemma RemovedThenInserted<T>(s: seq<T>, i: nat)
    requires i < |s|
    ensures Inserted(Removed(s, i), i, s[i]) == s
  {
  }

  /** What the links of the item at index `i` say about its place. */
  lemma Neighbours(parent: Node, nodes: seq<Node>, i: nat)
    requires Children(parent, nodes) && i < |nodes|
    ensures nodes[i].next == if i + 1 < |nodes| then nodes[i + 1] else null
    ensures nodes[i].prev == if i > 0 then nodes[i - 1] else nodes[|nodes| - 1]
    ensures parent.child == nodes[i] <==> i == 0
  {
    if i > 0 { assert nodes[0] != nodes[i]; }
  }

  /** The child at `index`, or none past the end. */
  method GetArrayItem(parent: Node?, index: nat, ghost nodes: seq<Node>) returns (r: Node?)
    requires parent != null ==> Children(parent, nodes)
    ensures parent == null ==> r == null
    ensures parent != null ==> r == if index < |nodes| then nodes[index] else null
  {
    if parent == null {
      return null;
    }
    r := parent.child;
    var left := index;
    while r != null && left > 0
      invariant 0 <= left <= index && index - left <= |nodes|
      invariant r == if index - left < |nodes| then nodes[index - left] else null
      decreases left
    {
      Neighbours(parent, nodes, index - left);
      left := left - 1;
      r := r.next;
    }
  }

  method GetArraySize(parent: Node?, ghost nodes: seq<Node>) returns (size: nat)
    requires parent != null ==> Children(parent, nodes)
    ensures size == if parent == null then 0 else |nodes|
  {
    size := 0;
    if parent == null {
      return;
    }
    var child := parent.child;
    while child != null
      invariant 0 <= size <= |nodes|
      invariant child == if size < |nodes| then nodes[size] else null
      decreases |nodes| - size
    {
      size := size + 1;
      child := child.next;
    }
  }

  /** Makes `prev` and `item` neighbours. */
  method SuffixObject(prev: Node, item: Node)
    modifies prev`next, item`prev
    ensures prev.next == item && item.prev == prev
  {
    prev.next := item;
    item.prev := prev;
  }

  /**
   * Appends an item that is not in the list yet. The list is kept if and only if it was empty or the item does not
   * drag a `next` along, which is not cleared.
   */
  method AddItemToArray(parent: Node?, item: Node?, ghost nodes: seq<Node>) returns (ok: bool)
    requires parent != null ==> Children(parent, nodes)
    requires item !in nodes
    modifies if parent == null || item == null || parent == item then {} else {parent}`child
    modifies if parent == null || item == null || parent == item then {} else {item}`next
    modifies if parent == null || item == null || parent == item then {} else {item}`prev
    modifies if parent == null || item == null || parent == item || nodes == [] then {} else {nodes[0]}`prev
    modifies if parent == null || item == null || parent == item || nodes == [] then {} else {nodes[|nodes| - 1]}`next
    ensures ok <==> parent != null && item != null && parent != item
    ensures !ok && parent != null ==> Children(parent, nodes)
    ensures ok ==> (Children(parent, nodes + [item]) <==> (nodes == [] || old(item.next) == null))
  {
    if item == null || parent == null || parent == item {
      return false;
    }
    ghost var more := nodes + [item];
    assert forall i | 0 <= i < |nodes| :: more[i] == nodes[i];
    assert more[|nodes|] == item;
    var child := parent.child;
    if child == null {
      parent.child := item;
      item.prev := item;
      item.next := null;
    } else {
      if child.prev != null {
        SuffixObject(child.prev, item);
        parent.child.prev := item;
      }
    }
    ok := true;
  }

  /** Takes the item at index `i` out of the list; it points nowhere afterwards. */
  method DetachItemViaPointer(parent: Node?, item: Node?, ghost nodes: seq<Node>, ghost i: nat) returns (r: Node?)
    requires parent != null && item != null ==> Children(parent, nodes) && i < |nodes| && nodes[i] == item
    modifies if parent == null || item == null then {} else {parent}`child
    modifies if parent == null || item == null then [] else nodes`next
    modifies if parent == null || item == null then [] else nodes`prev
    ensures r == if parent == null then null else item
    ensures parent != null && item != null ==>
              Children(parent, Removed(nodes, i)) && item.next == null && item.prev == null
  {
    if parent == null || item == null {
      return null;
    }
    Neighbours(parent, nodes, i);
    RemovedDistinct(nodes, i);
    DistinctFrom(nodes, i);
    if i > 0 { DistinctFrom(nodes, i - 1); }
    if i + 1 < |nodes| { DistinctFrom(nodes, i + 1); }
    DistinctFrom(nodes, 0);
    hide Removed, Distinct;
    if item != parent.child {
      item.prev.next := item.next;
    }
    if item.next != null {
      item.next.prev := item.prev;
    }
    if item == parent.child {
      parent.child := item.next;
    } else if item.next == null {
      parent.child.prev := item.prev;
    }
    item.prev := null;
    item.next := null;
    r := item;
  }

  /** Links `item` in front of the child `after`. */
  method LinkBefore(parent: Node, after: Node, item: Node, ghost nodes: seq<Node>, ghost i: nat)
    requires Children(parent, nodes) && i < |nodes| && nodes[i] == after && item !in nodes
    modifies parent`child, item`next, item`prev, nodes`next, nodes`prev
    ensures Children(parent, Inserted(nodes, i, item))
  {
    Neighbours(parent, nodes, i);
    ghost var more := Inserted(nodes, i, item);
    InsertedDistinct(nodes, i, item);
    hide Inserted, Distinct;
    assert forall k | 0 <= k < |nodes| :: k != i ==> nodes[k] != after by { DistinctFrom(nodes, i); }
    assert forall k | 0 <= k < |nodes| :: i > 0 && k != i - 1 ==> nodes[k] != nodes[i - 1] by {
      if i > 0 { DistinctFrom(nodes, i - 1); }
    }
    item.next := after;
    item.prev := after.prev;
    after.prev := item;
    if after == parent.child {
      parent.child := item;
    } else {
      item.prev.next := item;
    }
  }

  /** Puts an item in front of the one at `which`, or at the end if there is none. */
  method InsertItemInArray(parent: Node?, which: int, item: Node?, ghost nodes: seq<Node>) returns (ok: bool)
    requires parent != null ==> Children(parent, nodes)
    requires item !in nodes
    requires parent != null && 0 <= which < |nodes| ==> item != null
    modifies if parent == null || which < 0 then {} else {parent}`child
    modifies if item == null then {} else {item}`next
    modifies if item == null then {} else {item}`prev
    modifies if parent == null || which < 0 then [] else nodes`next
    modifies if parent == null || which < 0 then [] else nodes`prev
    ensures ok <==> which >= 0 && parent != null && (which < |nodes| || (item != null && parent != item))
    ensures !ok && parent != null ==> Children(parent, nodes)
    ensures ok && which < |nodes| ==> Children(parent, Inserted<Node>(nodes, which, item))
    ensures ok && which >= |nodes| ==> (Children(parent, nodes + [item]) <==> (nodes == [] || old(item.next) == null))
  {
    if which < 0 {
      return false;
    }
    var after := GetArrayItem(parent, which, nodes);
    if after == null {
      ok := AddItemToArray(parent, item, nodes);
      return;
    }
    LinkBefore(parent, after, item, nodes, which);
    ok := true;
  }

  /** Puts an item in the place of the one at index `i`, which points nowhere afterwards. */
  method ReplaceItemViaPointer(parent: Node?, item: Node?, replacement: Node?, ghost nodes: seq<Node>, ghost i: nat)
    returns (ok: bool)
    requires parent != null && item != null ==> Children(parent, nodes) && i < |nodes| && nodes[i] == item
    requires replacement != null && replacement != item ==> replacement !in nodes
    modifies if parent == null || item == null || replacement == null then {} else {parent}`child
    modifies if parent == null || item == null || replacement == null then {} else {replacement}`next
    modifies if parent == null || item == null || replacement == null then {} else {replacement}`prev
    modifies if parent == null || item == null || replacement == null then [] else nodes`next
    modifies if parent == null || item == null || replacement == null then [] else nodes`prev
    ensures ok <==> parent != null && item != null && replacement != null
    ensures ok ==> Children(parent, nodes[i := replacement])
    ensures ok && replacement != item ==> item.next == null && item.prev == null
  {
    if parent == null || replacement == null || item == null {
      return false;
    }
    if replacement == item {
      assert nodes[i := item] == nodes;
      return true;
    }
    Neighbours(parent, nodes, i);
    ghost var after := nodes[i := replacement];
    replacement.next := item.next;
    replacement.prev := item.prev;
    if replacement.next != null {
      replacement.next.prev := replacement;
    }
    if parent.child == item {
      if parent.child.prev == parent.child {
        replacement.prev := replacement;
      }
      parent.child := replacement;
    } else {
      if replacement.prev != null {
        replacement.prev.next := replacement;
      }
      if replacement.next == null {
        parent.child.prev := replacement;
      }
    }
    item.next := null;
    item.prev := null;
    ok := true;
  }
}
