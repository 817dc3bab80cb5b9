/** Editing the members of a linked object, against operations on finite maps. */
module TreeMaps {
  import opened Bytes
  import opened JsonTree
  import opened LinkedTree
  import opened ChildLists
  import opened Lookup
  import opened TreeLists
  import opened Comparing

  /** `parent` has the trees `kids` as its members, with these keys and values. */
  ghost predicate Fields(parent: Node, kids: seq<Shape>, keys: seq<bytes>, values: seq<Json>)
    reads parent`child, Roots(kids)`next, Roots(kids)`prev, Roots(kids)`key
    reads Roots(kids)`child, Roots(kids)`kind, Roots(kids)`valuestring, Roots(kids)`valuedouble, Roots(kids)`valueint
    reads Below(kids)
  {
    Lists(parent, kids, values) && Keyed(kids, keys)
  }

  function Named(keys: seq<bytes>): (r: seq<Option<bytes>>)
    ensures |r| == |keys| && forall i | 0 <= i < |keys| :: r[i] == Some(keys[i])
  {
    seq(|keys|, i requires 0 <= i < |keys| => Some(keys[i]))
  }

  /** The index of the first member that answers to `name`; the number of members if there is none. */
  function Position(caseSensitive: bool, keys: seq<bytes>, name: bytes): (i: nat)
    ensures i <= |keys|
  {
    FirstStop(caseSensitive, Named(keys), name)
  }

  /** The map that members with these keys and values mean. */
  function MapOf(caseSensitive: bool, keys: seq<bytes>, values: seq<Json>): map<bytes, Meaning>
    requires |keys| == |values|
  {
    Entries(caseSensitive, BuildMembers(keys, values, NoMembers))
  }

  lemma MapOfStep(caseSensitive: bool, keys: seq<bytes>, values: seq<Json>)
    requires |keys| == |values| > 0
    ensures MapOf(caseSensitive, keys, values) ==
              MapOf(caseSensitive, keys[1..], values[1..])
                [Canon(caseSensitive, keys[0]) := MeaningOf(caseSensitive, values[0])]
  {
    hide Canon, MeaningOf;
  }

  lemma PositionStep(caseSensitive: bool, keys: seq<bytes>, name: bytes)
    requires keys != []
    ensures Position(caseSensitive, keys, name) ==
              if Canon(caseSensitive, keys[0]) == Canon(caseSensitive, name) then 0
              else 1 + Position(caseSensitive, keys[1..], name)
  {
    hide Canon;
    assert Named(keys)[1..] == Named(keys[1..]);
  }

  /** A copied key is as good as the name it was copied from. */
  lemma CanonOfCopy(caseSensitive: bool, name: bytes)
    ensures Canon(caseSensitive, CString(name)) == Canon(caseSensitive, name)
  {
  }

  /** Appending a member adds it to the map, unless its key is taken: then it is not seen at all. */
  lemma {:induction false} MapAfterAppend(caseSensitive: bool, keys: seq<bytes>, values: seq<Json>, name: bytes,
                                          v: Json)
    requires |keys| == |values|
    ensures var before, c := MapOf(caseSensitive, keys, values), Canon(caseSensitive, name);
            MapOf(caseSensitive, keys + [CString(name)], values + [v]) ==
              if c in before then before else before[c := MeaningOf(caseSensitive, v)]
    decreases |keys|
  {
    hide Canon, MeaningOf, CString;
    var moreKeys, more := keys + [CString(name)], values + [v];
    MapOfStep(caseSensitive, moreKeys, more);
    if keys == [] {
      CanonOfCopy(caseSensitive, name);
      assert moreKeys[1..] == [] && more[1..] == [];
    } else {
      assert moreKeys[1..] == keys[1..] + [CString(name)] && more[1..] == values[1..] + [v];
      MapOfStep(caseSensitive, keys, values);
      MapAfterAppend(caseSensitive, keys[1..], values[1..], name, v);
    }
  }

  /** Replacing the first member that answers to a name, under that name, updates the map. */
  lemma {:induction false} MapAfterReplace(caseSensitive: bool, keys: seq<bytes>, values: seq<Json>, name: bytes,
                                           v: Json)
    requires |keys| == |values| && Position(caseSensitive, keys, name) < |keys|
    ensures var i := Position(caseSensitive, keys, name);
            MapOf(caseSensitive, keys[i := CString(name)], values[i := v]) ==
              MapOf(caseSensitive, keys, values)[Canon(caseSensitive, name) := MeaningOf(caseSensitive, v)]
    decreases |keys|
  {
    hide Canon, MeaningOf, MapOf, Position, CString;
    var i, key := Position(caseSensitive, keys, name), CString(name);
    PositionStep(caseSensitive, keys, name);
    MapOfStep(caseSensitive, keys, values);
    MapOfStep(caseSensitive, keys[i := key], values[i := v]);
    if i == 0 {
      CanonOfCopy(caseSensitive, name);
      assert keys[i := key][1..] == keys[1..] && values[i := v][1..] == values[1..];
    } else {
      assert keys[i := key][1..] == keys[1..][i - 1 := key] && values[i := v][1..] == values[1..][i - 1 := v];
      MapAfterReplace(caseSensitive, keys[1..], values[1..], name, v);
    }
  }

  /** Some member from index `from` on has the key. */
  ghost predicate Later(caseSensitive: bool, keys: seq<bytes>, from: nat, key: bytes) {
    exists j | from <= j < |keys| :: Canon(caseSensitive, keys[j]) == Canon(caseSensitive, key)
  }

  lemma {:induction false} MapDomain(caseSensitive: bool, keys: seq<bytes>, values: seq<Json>, key: bytes)
    requires |keys| == |values|
    ensures Canon(caseSensitive, key) in MapOf(caseSensitive, keys, values) <==> Later(caseSensitive, keys, 0, key)
    decreases |keys|
  {
    hide Canon, MeaningOf;
    if keys != [] {
      MapOfStep(caseSensitive, keys, values);
      MapDomain(caseSensitive, keys[1..], values[1..], key);
      LaterStep(caseSensitive, keys, 0, key);
      LaterShift(caseSensitive, keys, 0, key);
    }
  }

  lemma LaterStep(caseSensitive: bool, keys: seq<bytes>, from: nat, key: bytes)
    requires from < |keys|
    ensures Later(caseSensitive, keys, from, key) <==>
              Canon(caseSensitive, keys[from]) == Canon(caseSensitive, key) || Later(caseSensitive, keys, from + 1, key)
  {
    hide Canon;
  }

  lemma LaterShift(caseSensitive: bool, keys: seq<bytes>, from: nat, key: bytes)
    requires keys != []
    ensures Later(caseSensitive, keys, from + 1, key) <==> Later(caseSensitive, keys[1..], from, key)
  {
    hide Canon;
    forall j | from + 1 <= j < |keys| ensures keys[j] == keys[1..][j - 1] { }
    if Later(caseSensitive, keys, from + 1, key) {
      var j :| from + 1 <= j < |keys| && Canon(caseSensitive, keys[j]) == Canon(caseSensitive, key);
      assert keys[1..][j - 1] == keys[j];
    }
  }

  /** Removing the first member with a key removes the key from the map exactly when no later member has it too. */
  lemma {:induction false} MapAfterRemove(caseSensitive: bool, keys: seq<bytes>, values: seq<Json>, key: bytes)
    requires |keys| == |values| && Position(caseSensitive, keys, key) < |keys|
    ensures var i, c := Position(caseSensitive, keys, key), Canon(caseSensitive, key);
            var before := MapOf(caseSensitive, keys, values);
            var after := MapOf(caseSensitive, Removed(keys, i), Removed(values, i));
            && after - {c} == before - {c}
            && (c in after <==> Later(caseSensitive, keys, i + 1, key))
    decreases |keys|
  {
    hide Canon, MeaningOf, MapOf, Position, Later;
    var i := Position(caseSensitive, keys, key);
    PositionStep(caseSensitive, keys, key);
    MapOfStep(caseSensitive, keys, values);
    if i == 0 {
      assert Removed(keys, i) == keys[1..] && Removed(values, i) == values[1..];
      MapDomain(caseSensitive, keys[1..], values[1..], key);
      LaterShift(caseSensitive, keys, 0, key);
    } else {
      RemovedTail(keys, i);
      RemovedTail(values, i);
      MapOfStep(caseSensitive, Removed(keys, i), Removed(values, i));
      MapAfterRemove(caseSensitive, keys[1..], values[1..], key);
      LaterShift(caseSensitive, keys, i, key);
      UpdateOutside(MapOf(caseSensitive, keys[1..], values[1..]),
                    MapOf(caseSensitive, Removed(keys[1..], i - 1), Removed(values[1..], i - 1)),
                    Canon(caseSensitive, key), Canon(caseSensitive, keys[0]), MeaningOf(caseSensitive, values[0]));
    }
  }

  lemma UpdateOutside(d: map<bytes, Meaning>, e: map<bytes, Meaning>, c: bytes, k: bytes, m: Meaning)
    requires d - {c} == e - {c} && c != k
    ensures d[k := m] - {c} == e[k := m] - {c}
  {
    assert forall x | x != c :: x in d - {c} <==> x in d;
    assert forall x | x != c :: x in e - {c} <==> x in e;
    assert forall x | x in d && x != c :: d[x] == (d - {c})[x];
    assert forall x | x in e && x != c :: e[x] == (e - {c})[x];
  }

  lemma RemovedTail<T>(s: seq<T>, i: nat)
    requires 0 < i < |s|
    ensures Removed(s, i) != [] && Removed(s, i)[0] == s[0] && Removed(s, i)[1..] == Removed(s[1..], i - 1)
  {
  }

  // ----- The edits -----

  lemma NamesAre(kids: seq<Shape>, keys: seq<bytes>)
    requires Keyed(kids, keys)
    ensures |keys| == |kids| && KeysOf(RootSeq(kids)) == Named(keys)
  {
    hide RootSeq;
    forall i | 0 <= i < |kids| ensures KeysOf(RootSeq(kids))[i] == Named(keys)[i] {
      assert kids[i].node.key == Some(keys[i]);
    }
  }

  lemma KeysRemoved(kids: seq<Shape>, keys: seq<bytes>, i: nat)
    requires Keyed(kids, keys) && i < |kids|
    ensures Keyed(Removed(kids, i), Removed(keys, i))
  {
    var left := Removed(kids, i);
    forall k | 0 <= k < |left| ensures left[k].node.key == Some(Removed(keys, i)[k]) {
      assert left[k] == kids[if k < i then k else k + 1];
    }
  }

  lemma KeysReplaced(kids: seq<Shape>, keys: seq<bytes>, i: nat, s: Shape, key: bytes)
    requires Keyed(kids, keys) && i < |kids| && s.node.key == Some(key)
    ensures Keyed(kids[i := s], keys[i := key])
  {
    var more := kids[i := s];
    forall k | 0 <= k < |more| ensures more[k].node.key == Some(keys[i := key][k]) {
      assert more[k] == if k == i then s else kids[k];
    }
  }

  /** Takes the first member that answers to `name` out, if there is one. */
  method DetachItemFromObject(parent: Node?, name: Option<bytes>, caseSensitive: bool, ghost kids: seq<Shape>,
                              ghost keys: seq<bytes>, ghost values: seq<Json>)
    returns (r: Node?)
    requires parent != null ==> Fields(parent, kids, keys, values)
    modifies if parent == null || name == None then {} else {parent}`child
    modifies if parent == null || name == None then {} else Roots(kids)`next
    modifies if parent == null || name == None then {} else Roots(kids)`prev
    ensures parent == null || name == None ==> r == null
    ensures parent != null && name.Some? ==>
              var i := Position(caseSensitive, keys, name.value);
              if i >= |kids| then r == null && Fields(parent, kids, keys, values)
              else
                && r == kids[i].node && r.next == null && r.prev == null && Tree(r, kids[i], values[i])
                && r.key == Some(keys[i])
                && Fields(parent, Removed(kids, i), Removed(keys, i), Removed(values, i))
  {
    hide *;
    if parent != null {
      FieldsParts(parent, kids, keys, values);
      KidsNodesSplit(kids);
      assert allocated(KidsNodes(kids));
    }
    var item := GetObjectItem(parent, name, caseSensitive, RootSeq(kids));
    if parent == null || name == None {
      return null;
    }
    ghost var i := Position(caseSensitive, keys, name.value);
    PositionIs(caseSensitive, kids, keys, name.value);
    r := TreeLists.DetachItemViaPointer(parent, item, kids, values, i);
    if r != null {
      KeysRemoved(kids, keys, i);
      FieldsWhole(parent, Removed(kids, i), Removed(keys, i), Removed(values, i));
    }
  }

  lemma FieldsParts(parent: Node, kids: seq<Shape>, keys: seq<bytes>, values: seq<Json>)
    requires Fields(parent, kids, keys, values)
    ensures Lists(parent, kids, values) && Keyed(kids, keys) && Children(parent, RootSeq(kids))
    ensures Proper(Shape(parent, kids)) && |kids| == |keys| == |values|
  {
    hide Lists, Children, Proper;
    ListsParts(parent, kids, values);
  }

  lemma FieldsWhole(parent: Node, kids: seq<Shape>, keys: seq<bytes>, values: seq<Json>)
    requires Lists(parent, kids, values) && Keyed(kids, keys)
    ensures Fields(parent, kids, keys, values)
  {
  }

  lemma PositionIs(caseSensitive: bool, kids: seq<Shape>, keys: seq<bytes>, name: bytes)
    requires Keyed(kids, keys)
    ensures var i := Position(caseSensitive, keys, name);
            && FirstStop(caseSensitive, KeysOf(RootSeq(kids)), name) == i <= |kids| == |keys| == |RootSeq(kids)|
            && (i < |kids| ==> RootSeq(kids)[i] == kids[i].node && kids[i].node.key == Some(keys[i]))
  {
    hide RootSeq, FirstStop, Named;
    NamesAre(kids, keys);
  }

  /** Gives the item the key and appends it. */
  method AddItemToObject(parent: Node?, name: Option<bytes>, item: Node?, constantKey: bool, ghost kids: seq<Shape>,
                         ghost keys: seq<bytes>, ghost values: seq<Json>, ghost s: Shape, ghost v: Json)
    returns (ok: bool)
    requires parent != null ==> Fields(parent, kids, keys, values)
    requires item != null ==> Tree(item, s, v)
    requires parent != null && item != null && item != parent ==> Foreign(s, parent, kids)
    modifies if parent == null || name == None || item == null || parent == item then {} else {parent}`child
    modifies if parent == null || name == None || item == null || parent == item then {} else {item}`next
    modifies if parent == null || name == None || item == null || parent == item then {} else {item}`prev
    modifies if parent == null || name == None || item == null || parent == item then {} else {item}`key
    modifies if parent == null || name == None || item == null || parent == item then {} else {item}`keyIsConst
    modifies if parent == null || name == None || item == null || parent == item then {} else Roots(kids)`next
    modifies if parent == null || name == None || item == null || parent == item then {} else Roots(kids)`prev
    ensures ok <==> parent != null && name.Some? && item != null && parent != item
    ensures ok ==> item.key == Some(CString(name.value)) && item.keyIsConst == constantKey
    ensures ok ==> (Fields(parent, kids + [s], keys + [CString(name.value)], values + [v]) <==>
                      kids == [] || old(item.next) == null)
  {
    hide *;
    if parent == null || name == None || item == null || parent == item {
      return false;
    }
    FieldsParts(parent, kids, keys, values);
    Ready(parent, kids, values, item, s, v);
    RootsInside(kids);
    assert allocated(KidsNodes(kids)) && allocated(KidsNodes(s.kids));
    item.key := Some(CString(name.value));
    item.keyIsConst := constantKey;
    ok := TreeLists.AddItemToArray(parent, item, kids, values, s, v);
    ExtendedKeys(kids, s, keys, CString(name.value));
    FieldsAre(parent, kids + [s], keys + [CString(name.value)], values + [v]);
  }

  lemma FieldsAre(parent: Node, kids: seq<Shape>, keys: seq<bytes>, values: seq<Json>)
    requires Keyed(kids, keys)
    ensures Fields(parent, kids, keys, values) <==> Lists(parent, kids, values)
  {
    hide Lists;
  }

  /** Gives the item the key, even if no member answers to it, and puts it in the place of the first that does. */
  method ReplaceItemInObject(parent: Node?, name: Option<bytes>, item: Node?, caseSensitive: bool,
                             ghost kids: seq<Shape>, ghost keys: seq<bytes>, ghost values: seq<Json>,
                             ghost s: Shape, ghost v: Json)
    returns (ok: bool)
    requires parent != null ==> Fields(parent, kids, keys, values)
    requires item != null ==> Tree(item, s, v)
    requires parent != null && item != null ==> Foreign(s, parent, kids)
    modifies if name == None || item == null then {} else {item}`key
    modifies if name == None || item == null then {} else {item}`keyIsConst
    modifies if parent == null || name == None || item == null then {} else {parent}`child
    modifies if parent == null || name == None || item == null then {} else {item}`next
    modifies if parent == null || name == None || item == null then {} else {item}`prev
    modifies if parent == null || name == None || item == null then {} else Roots(kids)`next
    modifies if parent == null || name == None || item == null then {} else Roots(kids)`prev
    ensures name.Some? && item != null ==> item.key == Some(CString(name.value)) && !item.keyIsConst
    ensures ok <==> parent != null && name.Some? && item != null && Position(caseSensitive, keys, name.value) < |kids|
    ensures !ok && parent != null ==> Fields(parent, kids, keys, values)
    ensures ok ==>
              var i := Position(caseSensitive, keys, name.value);
              && Fields(parent, kids[i := s], keys[i := CString(name.value)], values[i := v])
              && Tree(kids[i].node, kids[i], values[i]) && kids[i].node.next == null && kids[i].node.prev == null
  {
    hide *;
    if item == null || name == None {
      return false;
    }
    if parent != null {
      FieldsParts(parent, kids, keys, values);
      Ready(parent, kids, values, item, s, v);
      RootsInside(kids);
      assert allocated(KidsNodes(kids));
    }
    TreeParts(item, s, v);
    assert allocated(KidsNodes(s.kids));
    item.key := Some(CString(name.value));
    item.keyIsConst := false;
    var current := GetObjectItem(parent, name, caseSensitive, RootSeq(kids));
    ghost var i := Position(caseSensitive, keys, name.value);
    if parent != null {
      PositionIs(caseSensitive, kids, keys, name.value);
    }
    ok := TreeLists.ReplaceItemViaPointer(parent, current, item, kids, values, i, s, v);
    if ok {
      KeysReplaced(kids, keys, i, s, CString(name.value));
      FieldsWhole(parent, kids[i := s], keys[i := CString(name.value)], values[i := v]);
    }
  }
}
