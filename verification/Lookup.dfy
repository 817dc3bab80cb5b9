/** Looking up the members of an object by name. */
module Lookup {
  import opened Bytes
  import opened LinkedTree
  import opened ChildLists

  /** `tolower` in the C locale. */
  function Lower(c: byte): byte {
    if 65 <= c <= 90 then c + 32 else c
  }

  function Lowered(s: bytes): (r: bytes)
    ensures |r| == |s| && forall i | 0 <= i < |s| :: r[i] == Lower(s[i])
  {
    seq(|s|, i requires 0 <= i < |s| => Lower(s[i]))
  }

  /** What a key stands for when two keys are told apart only by what the comparison looks at. */
  function Canon(caseSensitive: bool, key: bytes): bytes {
    if caseSensitive then CString(key) else Lowered(CString(key))
  }

  // ----- Which keys match, in code numbers -----

  /** Two bytes are the same, or they are the upper and the lower case of one letter from A (65) to Z (90). */
  predicate Alike(a: byte, b: byte) {
    a == b || (65 <= a <= 90 && b == a + 32) || (65 <= b <= 90 && a == b + 32)
  }

  predicate AlikeTexts(s: bytes, t: bytes) {
    |s| == |t| && forall i | 0 <= i < |s| :: Alike(s[i], t[i])
  }

  /** A key matches a name byte by byte, up to the first NUL of either. */
  predicate Matches(caseSensitive: bool, key: bytes, name: bytes) {
    if caseSensitive then CString(key) == CString(name) else AlikeTexts(CString(key), CString(name))
  }

  predicate Answers(caseSensitive: bool, key: Option<bytes>, name: bytes) {
    key.Some? && Matches(caseSensitive, key.value, name)
  }

  lemma LowerExactly(a: byte, b: byte)
    ensures Lower(a) == Lower(b) <==> Alike(a, b)
  {
  }

  lemma LoweredExactly(s: bytes, t: bytes)
    ensures Lowered(s) == Lowered(t) <==> AlikeTexts(s, t)
  {
    hide Lower, Alike;
    if |s| == |t| {
      forall i | 0 <= i < |s| ensures Lowered(s)[i] == Lowered(t)[i] <==> Alike(s[i], t[i]) {
        LowerExactly(s[i], t[i]);
      }
    }
  }

  /** Two keys stand for the same thing exactly when they match. */
  lemma CanonExactly(caseSensitive: bool, key: bytes, name: bytes)
    ensures Canon(caseSensitive, key) == Canon(caseSensitive, name) <==> Matches(caseSensitive, key, name)
  {
    hide Lowered, AlikeTexts, CString;
    LoweredExactly(CString(key), CString(name));
  }

  lemma StopsExactly(caseSensitive: bool, key: Option<bytes>, name: bytes)
    ensures Stops(caseSensitive, key, name) <==> Answers(caseSensitive, key, name) || (caseSensitive && key == None)
  {
    hide Canon, Matches;
    if key.Some? { CanonExactly(caseSensitive, key.value, name); }
  }

  /** Compares two C strings without regard to case; a missing string equals nothing. */
  method CaseInsensitiveStrcmp(string1: Option<bytes>, string2: Option<bytes>) returns (d: int)
    ensures string1 == None || string2 == None ==> d == 1
    ensures string1.Some? && string2.Some? ==> (d == 0 <==> Canon(false, string1.value) == Canon(false, string2.value))
    ensures string1.Some? && string2.Some? ==> (d == 0 <==> AlikeTexts(CString(string1.value), CString(string2.value)))
  {
    hide CString, Lowered, AlikeTexts;
    if string1.Some? && string2.Some? { LoweredExactly(CString(string1.value), CString(string2.value)); }
    if string1 == None || string2 == None {
      return 1;
    }
    d := CompareLowered(CString(string1.value), CString(string2.value));
  }

  /** The comparison loop; the strings are stored with their terminators. */
  method CompareLowered(a: bytes, b: bytes) returns (d: int)
    requires NulFree(a) && NulFree(b)
    ensures d == 0 <==> Lowered(a) == Lowered(b)
  {
    var s, t := a + [NUL], b + [NUL];
    var i := 0;
    while Lower(s[i]) == Lower(t[i])
      invariant 0 <= i <= |a| && i <= |b|
      invariant forall k | 0 <= k < i :: Lower(a[k]) == Lower(b[k])
      decreases |a| - i
    {
      if s[i] == NUL {
        assert t[i] == NUL;
        return 0;
      }
      i := i + 1;
    }
    LoweredDiffer(a, b, i);
    d := Lower(s[i]) - Lower(t[i]);
  }

  lemma LoweredDiffer(a: bytes, b: bytes, i: nat)
    requires i <= |a| && i <= |b| && Lower((a + [NUL])[i]) != Lower((b + [NUL])[i])
    ensures Lowered(a) != Lowered(b)
  {
    if i < |a| && i < |b| { assert Lowered(a)[i] != Lowered(b)[i]; }
  }

  /** Where the walk along the children ends: at the first match, or in case-sensitive mode at an unnamed child. */
  function FirstStop(caseSensitive: bool, keys: seq<Option<bytes>>, name: bytes): (i: nat)
    ensures i <= |keys|
  {
    if keys == [] || Stops(caseSensitive, keys[0], name) then 0 else 1 + FirstStop(caseSensitive, keys[1..], name)
  }

  predicate Stops(caseSensitive: bool, key: Option<bytes>, name: bytes) {
    if key == None then caseSensitive else Canon(caseSensitive, key.value) == Canon(caseSensitive, name)
  }

  ghost function KeysOf(nodes: seq<Node>): (keys: seq<Option<bytes>>)
    reads nodes`key
    ensures |keys| == |nodes| && forall i | 0 <= i < |keys| :: keys[i] == nodes[i].key
  {
    if nodes == [] then [] else [nodes[0].key] + KeysOf(nodes[1..])
  }

  /** The keys when one of the items has got another one. */
  ghost function KeysWith(nodes: seq<Node>, renamed: Node, key: bytes): (keys: seq<Option<bytes>>)
    reads nodes`key
    ensures |keys| == |nodes|
    ensures forall i | 0 <= i < |keys| :: keys[i] == if nodes[i] == renamed then Some(key) else nodes[i].key
  {
    if nodes == [] then []
    else [if nodes[0] == renamed then Some(key) else nodes[0].key] + KeysWith(nodes[1..], renamed, key)
  }

  /** The index of the child that answers to the name, if there is one. */
  function Found(caseSensitive: bool, keys: seq<Option<bytes>>, name: bytes): (i: Option<nat>)
    ensures i.Some? ==> i.value < |keys| && keys[i.value].Some?
  {
    var i := FirstStop(caseSensitive, keys, name);
    if i < |keys| && keys[i].Some? then Some(i) else None
  }

  /** Names count up to their first NUL. */
  lemma {:induction false} FoundByText(caseSensitive: bool, keys: seq<Option<bytes>>, name: bytes)
    ensures FirstStop(caseSensitive, keys, CString(name)) == FirstStop(caseSensitive, keys, name)
    ensures Found(caseSensitive, keys, CString(name)) == Found(caseSensitive, keys, name)
    decreases |keys|
  {
    hide CString, Lowered;
    assert CString(CString(name)) == CString(name);
    if keys != [] { FoundByText(caseSensitive, keys[1..], name); }
  }

  lemma {:induction false} FirstStopIs(caseSensitive: bool, keys: seq<Option<bytes>>, name: bytes, i: nat)
    requires i <= |keys| && forall k | 0 <= k < i :: !Stops(caseSensitive, keys[k], name)
    requires i < |keys| ==> Stops(caseSensitive, keys[i], name)
    ensures FirstStop(caseSensitive, keys, name) == i
  {
    hide Stops;
    if i > 0 {
      assert !Stops(caseSensitive, keys[0], name);
      FirstStopIs(caseSensitive, keys[1..], name, i - 1);
    }
  }

  /** Where the walk ends, in terms of the keys that match. */
  lemma {:induction false} FirstStopExactly(caseSensitive: bool, keys: seq<Option<bytes>>, name: bytes)
    ensures var i := FirstStop(caseSensitive, keys, name);
            && (forall k | 0 <= k < i :: !Answers(caseSensitive, keys[k], name) && (caseSensitive ==> keys[k].Some?))
            && (i < |keys| ==> Answers(caseSensitive, keys[i], name) || (caseSensitive && keys[i] == None))
  {
    hide Stops, Answers;
    if keys != [] {
      StopsExactly(caseSensitive, keys[0], name);
      FirstStopExactly(caseSensitive, keys[1..], name);
    }
  }

  /** The first child whose key matches `name`; in case-sensitive mode no further than to an unnamed child. */
  method GetObjectItem(parent: Node?, name: Option<bytes>, caseSensitive: bool, ghost nodes: seq<Node>)
    returns (r: Node?)
    requires parent != null ==> Children(parent, nodes)
    ensures parent == null || name == None ==> r == null
    ensures parent != null && name.Some? ==>
              var i := FirstStop(caseSensitive, KeysOf(nodes), name.value);
              r == if i < |nodes| && nodes[i].key.Some? then nodes[i] else null
    ensures r != null ==>
              exists i | 0 <= i < |nodes| ::
                && r == nodes[i] && Answers(caseSensitive, nodes[i].key, name.value)
                && forall k | 0 <= k < i ::
                     !Answers(caseSensitive, nodes[k].key, name.value) && (caseSensitive ==> nodes[k].key.Some?)
    ensures parent != null && name.Some? && r == null ==>
              forall i | 0 <= i < |nodes| && (caseSensitive ==> forall k | 0 <= k < i :: nodes[k].key.Some?) ::
                !Answers(caseSensitive, nodes[i].key, name.value)
  {
    hide *;
    if name.Some? {
      FirstStopExactly(caseSensitive, KeysOf(nodes), name.value);
      NoKeyNoAnswer(caseSensitive, name.value);
    }
    if parent == null || name == None {
      return null;
    }
    if caseSensitive {
      r := WalkSensitive(parent, name.value, nodes);
    } else {
      r := WalkInsensitive(parent, name.value, nodes);
    }
    if r == null || r.key == None {
      return null;
    }
  }

  lemma NoKeyNoAnswer(caseSensitive: bool, name: bytes)
    ensures !Answers(caseSensitive, None, name)
  {
  }

  method WalkSensitive(parent: Node, name: bytes, ghost nodes: seq<Node>) returns (r: Node?)
    requires Children(parent, nodes)
    ensures var i := FirstStop(true, KeysOf(nodes), name); r == if i < |nodes| then nodes[i] else null
  {
    hide Children, CString;
    ChildIsFirst(parent, nodes);
    r := parent.child;
    ghost var i: nat := 0;
    while r != null && r.key != None && CString(name) != CString(r.key.value)
      invariant i <= |nodes| && r == if i < |nodes| then nodes[i] else null
      invariant forall k | 0 <= k < i :: !Stops(true, nodes[k].key, name)
      decreases |nodes| - i
    {
      Neighbours(parent, nodes, i);
      r, i := r.next, i + 1;
    }
    FirstStopIs(true, KeysOf(nodes), name, i);
  }

  method WalkInsensitive(parent: Node, name: bytes, ghost nodes: seq<Node>) returns (r: Node?)
    requires Children(parent, nodes)
    ensures var i := FirstStop(false, KeysOf(nodes), name); r == if i < |nodes| then nodes[i] else null
  {
    hide Children, CString, Canon;
    ChildIsFirst(parent, nodes);
    r := parent.child;
    ghost var i: nat := 0;
    while r != null
      invariant i <= |nodes| && r == if i < |nodes| then nodes[i] else null
      invariant forall k | 0 <= k < i :: !Stops(false, nodes[k].key, name)
      decreases |nodes| - i
    {
      Neighbours(parent, nodes, i);
      var d := CaseInsensitiveStrcmp(Some(name), r.key);
      if d == 0 {
        break;
      }
      r, i := r.next, i + 1;
    }
    FirstStopIs(false, KeysOf(nodes), name, i);
  }

  lemma ChildIsFirst(parent: Node, nodes: seq<Node>)
    requires Children(parent, nodes)
    ensures parent.child == if nodes == [] then null else nodes[0]
  {
  }
}
