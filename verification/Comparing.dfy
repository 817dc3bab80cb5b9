/** Comparison of two values, and exactly when it is equality of what they mean. */
module Comparing {
  import opened Bytes
  import opened JsonTree
  import opened Numbers
  import opened Lookup
  import LinkedTree

  const EPSILON: real := 1.0 / 4503599627370496.0

  function Abs(x: real): real { if x < 0.0 then -x else x }

  /** The comparison of two doubles, up to a relative error of `DBL_EPSILON`. */
  predicate CompareDouble(a: real, b: real) {
    var maxVal := if Abs(a) > Abs(b) then Abs(a) else Abs(b);
    Abs(a - b) <= maxVal * EPSILON
  }

  /** Neither difference, times two to the power of 52, is more than `m`. */
  predicate Within(a: real, b: real, m: real) {
    (a - b) * 4503599627370496.0 <= m && (b - a) * 4503599627370496.0 <= m
  }

  /** The difference, times two to the power of 52, is no more than the larger magnitude. */
  lemma ToleranceExactly(a: real, b: real)
    ensures CompareDouble(a, b) <==> Within(a, b, a) || Within(a, b, -a) || Within(a, b, b) || Within(a, b, -b)
  {
    var m := if Abs(a) > Abs(b) then Abs(a) else Abs(b);
    var gap := Abs(a - b);
    assert (m == a || m == -a || m == b || m == -b) && a <= m && -a <= m && b <= m && -b <= m;
    assert gap <= m * EPSILON <==> gap * 4503599627370496.0 <= m;
    assert Within(a, b, m) <==> gap * 4503599627370496.0 <= m;
  }

  /** The value of the first member whose key matches `name`. */
  function Find(caseSensitive: bool, members: Members, name: bytes): (r: Option<Json>)
    ensures r.Some? ==> Size(r.value) < MembersSize(members)
  {
    match members
    case NoMembers => None
    case Member(key, value, rest) =>
      if Canon(caseSensitive, key) == Canon(caseSensitive, name) then Some(value) else Find(caseSensitive, rest, name)
  }

  predicate Same(caseSensitive: bool, v: Json, w: Json)
    decreases Size(v) + Size(w), 1
  {
    match (v, w)
    case (Null, Null) => true
    case (False, False) => true
    case (True, True) => true
    case (Number(x), Number(y)) => CompareDouble(x, y)
    case (String(s), String(t)) => CString(s) == CString(t)
    case (Array(xs), Array(ys)) => SameItems(caseSensitive, xs, ys)
    case (Object(xs), Object(ys)) => Covered(caseSensitive, xs, ys) && Covered(caseSensitive, ys, xs)
    case _ => false
  }

  predicate SameItems(caseSensitive: bool, xs: Items, ys: Items)
    decreases ItemsSize(xs) + ItemsSize(ys), 0
  {
    if xs.Item? && ys.Item? then Same(caseSensitive, xs.head, ys.head) && SameItems(caseSensitive, xs.tail, ys.tail)
    else xs == ys
  }

  /** Every member of `xs` is the same as the first member of `ys` with its key. */
  predicate Covered(caseSensitive: bool, xs: Members, ys: Members)
    decreases MembersSize(xs) + MembersSize(ys), 0
  {
    match xs
    case NoMembers => true
    case Member(key, value, rest) =>
      var w := Find(caseSensitive, ys, key);
      w.Some? && Same(caseSensitive, value, w.value) && Covered(caseSensitive, rest, ys)
  }

  // ----- What a value means -----

  /** Arrays mean sequences, objects mean finite maps, strings mean C strings. */
  datatype Meaning =
    | Word(word: Json)
    | Amount(value: real)
    | Text(text: bytes)
    | List(elements: seq<Meaning>)
    | Dictionary(entries: map<bytes, Meaning>)

  function MeaningOf(caseSensitive: bool, v: Json): Meaning {
    match v
    case Number(value) => Amount(value)
    case String(text) => Text(CString(text))
    case Array(items) => List(Elements(caseSensitive, items))
    case Object(members) => Dictionary(Entries(caseSensitive, members))
    case _ => Word(v)
  }

  function Elements(caseSensitive: bool, items: Items): seq<Meaning> {
    match items
    case NoItems => []
    case Item(head, tail) => [MeaningOf(caseSensitive, head)] + Elements(caseSensitive, tail)
  }

  /** The first of several members with the same key counts. */
  function Entries(caseSensitive: bool, members: Members): map<bytes, Meaning> {
    match members
    case NoMembers => map[]
    case Member(key, value, rest) =>
      Entries(caseSensitive, rest)[Canon(caseSensitive, key) := MeaningOf(caseSensitive, value)]
  }

  /** No object in `v` gives one key two meanings. */
  predicate Consistent(caseSensitive: bool, v: Json) {
    match v
    case Array(items) => ItemsConsistent(caseSensitive, items)
    case Object(members) => Agrees(caseSensitive, members, Entries(caseSensitive, members))
    case _ => true
  }

  predicate ItemsConsistent(caseSensitive: bool, items: Items) {
    items.Item? ==> Consistent(caseSensitive, items.head) && ItemsConsistent(caseSensitive, items.tail)
  }

  /** Every member of `members` is consistent and has the meaning that `entries` gives its key. */
  predicate Agrees(caseSensitive: bool, members: Members, entries: map<bytes, Meaning>) {
    match members
    case NoMembers => true
    case Member(key, value, rest) =>
      var k := Canon(caseSensitive, key);
      && Consistent(caseSensitive, value)
      && k in entries && entries[k] == MeaningOf(caseSensitive, value)
      && Agrees(caseSensitive, rest, entries)
  }

  /** All numbers are C `int`s. */
  predicate Ints(v: Json) {
    match v
    case Number(value) => IsInt(value)
    case Array(items) => ItemsInts(items)
    case Object(members) => MembersInts(members)
    case _ => true
  }

  predicate ItemsInts(items: Items) {
    items.Item? ==> Ints(items.head) && ItemsInts(items.tail)
  }

  predicate MembersInts(members: Members) {
    members.Member? ==> Ints(members.value) && MembersInts(members.rest)
  }

  // ----- Comparison is equality of meanings -----

  /** On C `int`s the tolerance is too small to matter. */
  lemma IntsCompareExactly(a: real, b: real)
    requires IsInt(a) && IsInt(b)
    ensures CompareDouble(a, b) <==> a == b
  {
    var i, j := a.Floor, b.Floor;
    assert a == i as real && b == j as real;
    var most := if Abs(a) > Abs(b) then Abs(a) else Abs(b);
    assert most <= 2147483648.0;
    assert 0.0 <= most * EPSILON < 1.0 by { Small(most); }
    if i != j {
      assert Abs(a - b) == Abs((i - j) as real) >= 1.0;
    }
  }

  lemma Small(x: real)
    requires 0.0 <= x <= 2147483648.0
    ensures 0.0 <= x * EPSILON < 1.0
  {
    assert x * EPSILON == x / 4503599627370496.0;
  }

  lemma {:induction false} FindIsLookup(caseSensitive: bool, members: Members, name: bytes)
    ensures var r, entries := Find(caseSensitive, members, name), Entries(caseSensitive, members);
            var k := Canon(caseSensitive, name);
            && (r.Some? <==> k in entries)
            && (r.Some? ==> entries[k] == MeaningOf(caseSensitive, r.value))
  {
    hide Canon, MeaningOf;
    if members.Member? { FindIsLookup(caseSensitive, members.rest, name); }
  }

  lemma {:induction false} FoundInts(caseSensitive: bool, members: Members, name: bytes)
    requires MembersInts(members)
    ensures var r := Find(caseSensitive, members, name); r.Some? ==> Ints(r.value)
  {
    hide Canon, Ints;
    if members.Member? { FoundInts(caseSensitive, members.rest, name); }
  }

  lemma {:induction false} FoundConsistent(caseSensitive: bool, members: Members, name: bytes,
                                           entries: map<bytes, Meaning>)
    requires Agrees(caseSensitive, members, entries)
    ensures var r := Find(caseSensitive, members, name); r.Some? ==> Consistent(caseSensitive, r.value)
  {
    hide Canon, Consistent;
    if members.Member? { FoundConsistent(caseSensitive, members.rest, name, entries); }
  }

  /**
   * The comparison answers yes exactly when both values are free of contradictory members and mean the same: arrays
   * as sequences, objects as maps.
   */
  lemma {:induction false} ComparesMeanings(caseSensitive: bool, v: Json, w: Json)
    requires Ints(v) && Ints(w)
    ensures Same(caseSensitive, v, w) <==>
              && Consistent(caseSensitive, v) && Consistent(caseSensitive, w)
              && MeaningOf(caseSensitive, v) == MeaningOf(caseSensitive, w)
    decreases Size(v) + Size(w), 1
  {
    match (v, w)
    case (Number(x), Number(y)) => IntsCompareExactly(x, y);
    case (Array(xs), Array(ys)) => ItemsCompare(caseSensitive, xs, ys);
    case (Object(xs), Object(ys)) => MembersCompare(caseSensitive, xs, ys);
    case _ =>
  }

  lemma {:induction false} ItemsCompare(caseSensitive: bool, xs: Items, ys: Items)
    requires ItemsInts(xs) && ItemsInts(ys)
    ensures SameItems(caseSensitive, xs, ys) <==>
              && ItemsConsistent(caseSensitive, xs) && ItemsConsistent(caseSensitive, ys)
              && Elements(caseSensitive, xs) == Elements(caseSensitive, ys)
    decreases ItemsSize(xs) + ItemsSize(ys), 0
  {
    hide Same, MeaningOf, Consistent, Ints;
    if xs.Item? && ys.Item? {
      ComparesMeanings(caseSensitive, xs.head, ys.head);
      ItemsCompare(caseSensitive, xs.tail, ys.tail);
      var a, b := MeaningOf(caseSensitive, xs.head), MeaningOf(caseSensitive, ys.head);
      Cons(a, Elements(caseSensitive, xs.tail), b, Elements(caseSensitive, ys.tail));
    }
  }

  lemma Cons(a: Meaning, s: seq<Meaning>, b: Meaning, t: seq<Meaning>)
    ensures [a] + s == [b] + t <==> a == b && s == t
  {
    if [a] + s == [b] + t {
      assert a == ([a] + s)[0] && b == ([b] + t)[0];
      assert s == ([a] + s)[1..] && t == ([b] + t)[1..];
    }
  }

  lemma {:induction false} MembersCompare(caseSensitive: bool, xs: Members, ys: Members)
    requires MembersInts(xs) && MembersInts(ys)
    ensures Covered(caseSensitive, xs, ys) && Covered(caseSensitive, ys, xs) <==>
              && Agrees(caseSensitive, xs, Entries(caseSensitive, xs))
              && Agrees(caseSensitive, ys, Entries(caseSensitive, ys))
              && Entries(caseSensitive, xs) == Entries(caseSensitive, ys)
    decreases MembersSize(xs) + MembersSize(ys), 1
  {
    var d, e := Entries(caseSensitive, xs), Entries(caseSensitive, ys);
    hide Entries, Covered, Agrees;
    if Covered(caseSensitive, xs, ys) && Covered(caseSensitive, ys, xs) {
      CoveredAgrees(caseSensitive, xs, ys);
      CoveredAgrees(caseSensitive, ys, xs);
      AgreesIncludes(caseSensitive, xs, e);
      AgreesIncludes(caseSensitive, ys, d);
      assert d == e;
    }
    if Agrees(caseSensitive, xs, d) && Agrees(caseSensitive, ys, e) && d == e {
      AgreesCovered(caseSensitive, xs, ys);
      AgreesCovered(caseSensitive, ys, xs);
    }
  }

  lemma {:induction false} CoveredAgrees(caseSensitive: bool, xs: Members, ys: Members)
    requires MembersInts(xs) && MembersInts(ys) && Covered(caseSensitive, xs, ys)
    ensures Agrees(caseSensitive, xs, Entries(caseSensitive, ys))
    decreases MembersSize(xs) + MembersSize(ys), 0
  {
    hide Same, MeaningOf, Consistent, Ints, Canon, Find, Entries;
    if xs.Member? {
      FindIsLookup(caseSensitive, ys, xs.key);
      FoundInts(caseSensitive, ys, xs.key);
      ComparesMeanings(caseSensitive, xs.value, Find(caseSensitive, ys, xs.key).value);
      CoveredAgrees(caseSensitive, xs.rest, ys);
    }
  }

  lemma {:induction false} AgreesCovered(caseSensitive: bool, xs: Members, ys: Members)
    requires MembersInts(xs) && MembersInts(ys)
    requires Agrees(caseSensitive, xs, Entries(caseSensitive, ys))
    requires Agrees(caseSensitive, ys, Entries(caseSensitive, ys))
    ensures Covered(caseSensitive, xs, ys)
    decreases MembersSize(xs) + MembersSize(ys), 0
  {
    hide Same, MeaningOf, Consistent, Ints, Canon, Find, Entries;
    if xs.Member? {
      FindIsLookup(caseSensitive, ys, xs.key);
      FoundInts(caseSensitive, ys, xs.key);
      FoundConsistent(caseSensitive, ys, xs.key, Entries(caseSensitive, ys));
      ComparesMeanings(caseSensitive, xs.value, Find(caseSensitive, ys, xs.key).value);
      AgreesCovered(caseSensitive, xs.rest, ys);
    }
  }

  /** A map that agrees with the members contains the map they mean. */
  lemma {:induction false} AgreesIncludes(caseSensitive: bool, members: Members, entries: map<bytes, Meaning>)
    requires Agrees(caseSensitive, members, entries)
    ensures var own := Entries(caseSensitive, members);
            forall k | k in own :: k in entries && entries[k] == own[k]
  {
    hide MeaningOf, Consistent, Canon;
    if members.Member? { AgreesIncludes(caseSensitive, members.rest, entries); }
  }

  // ----- What follows -----

  /** The order of the operands does not matter, whatever numbers there are. */
  lemma {:induction false} Symmetric(caseSensitive: bool, v: Json, w: Json)
    ensures Same(caseSensitive, v, w) <==> Same(caseSensitive, w, v)
    decreases v
  {
    hide SameItems, Covered, CString;
    if v.Array? && w.Array? { ItemsSymmetric(caseSensitive, v.items, w.items); }
  }

  lemma {:induction false} ItemsSymmetric(caseSensitive: bool, xs: Items, ys: Items)
    ensures SameItems(caseSensitive, xs, ys) <==> SameItems(caseSensitive, ys, xs)
    decreases xs
  {
    hide Same;
    if xs.Item? && ys.Item? {
      Symmetric(caseSensitive, xs.head, ys.head);
      ItemsSymmetric(caseSensitive, xs.tail, ys.tail);
    }
  }

  lemma Transitive(caseSensitive: bool, u: Json, v: Json, w: Json)
    requires Ints(u) && Ints(v) && Ints(w)
    requires Same(caseSensitive, u, v) && Same(caseSensitive, v, w)
    ensures Same(caseSensitive, u, w)
  {
    hide *;
    ComparesMeanings(caseSensitive, u, v);
    ComparesMeanings(caseSensitive, v, w);
    ComparesMeanings(caseSensitive, u, w);
  }

  /** A value is the same as a copy of it exactly when no object in it gives one key two meanings. */
  lemma Reflexive(caseSensitive: bool, v: Json)
    requires Ints(v)
    ensures Same(caseSensitive, v, v) <==> Consistent(caseSensitive, v)
  {
    hide *;
    ComparesMeanings(caseSensitive, v, v);
  }

  /** Keys that are pairwise different make a value consistent. */
  predicate DistinctKeys(caseSensitive: bool, v: Json) {
    match v
    case Array(items) => ItemsDistinct(caseSensitive, items)
    case Object(members) => MembersDistinct(caseSensitive, members)
    case _ => true
  }

  predicate ItemsDistinct(caseSensitive: bool, items: Items) {
    items.Item? ==> DistinctKeys(caseSensitive, items.head) && ItemsDistinct(caseSensitive, items.tail)
  }

  predicate MembersDistinct(caseSensitive: bool, members: Members) {
    members.Member? ==>
      && Find(caseSensitive, members.rest, members.key) == None
      && DistinctKeys(caseSensitive, members.value) && MembersDistinct(caseSensitive, members.rest)
  }

  /** No two of the pairs have keys that match, and every value has distinct keys itself. */
  predicate PairsApart(caseSensitive: bool, pairs: seq<(bytes, Json)>) {
    && (forall i, j | 0 <= i < j < |pairs| :: !Matches(caseSensitive, pairs[j].0, pairs[i].0))
    && forall i | 0 <= i < |pairs| :: DistinctKeys(caseSensitive, pairs[i].1)
  }

  predicate NoneMatches(caseSensitive: bool, pairs: seq<(bytes, Json)>, name: bytes) {
    forall i | 0 <= i < |pairs| :: !Matches(caseSensitive, pairs[i].0, name)
  }

  lemma NoneMatchesStep(caseSensitive: bool, first: (bytes, Json), rest: seq<(bytes, Json)>, name: bytes)
    ensures NoneMatches(caseSensitive, [first] + rest, name) <==>
              !Matches(caseSensitive, first.0, name) && NoneMatches(caseSensitive, rest, name)
  {
    hide Matches;
    var pairs := [first] + rest;
    if NoneMatches(caseSensitive, pairs, name) {
      assert pairs[0] == first;
      forall i | 0 <= i < |rest| ensures !Matches(caseSensitive, rest[i].0, name) { assert rest[i] == pairs[i + 1]; }
    }
  }

  lemma PairsApartStep(caseSensitive: bool, first: (bytes, Json), rest: seq<(bytes, Json)>)
    ensures PairsApart(caseSensitive, [first] + rest) <==>
              && NoneMatches(caseSensitive, rest, first.0) && DistinctKeys(caseSensitive, first.1)
              && PairsApart(caseSensitive, rest)
  {
    hide Matches, DistinctKeys;
    var pairs := [first] + rest;
    assert pairs[0] == first;
    assert forall i | 0 <= i < |rest| :: rest[i] == pairs[i + 1];
    if PairsApart(caseSensitive, pairs) {
      forall i | 0 <= i < |rest| ensures !Matches(caseSensitive, rest[i].0, first.0) {
        assert !Matches(caseSensitive, pairs[i + 1].0, pairs[0].0);
      }
      forall i, j | 0 <= i < j < |rest| ensures !Matches(caseSensitive, rest[j].0, rest[i].0) {
        assert !Matches(caseSensitive, pairs[j + 1].0, pairs[i + 1].0);
      }
    }
  }

  /** In an object the keys are distinct when no two members match, and the values have distinct keys themselves. */
  lemma {:induction false} DistinctExactly(caseSensitive: bool, members: Members)
    ensures DistinctKeys(caseSensitive, Object(members)) <==>
              PairsApart(caseSensitive, LinkedTree.PairsOf(members))
  {
    hide Matches, Canon, Find, PairsApart, NoneMatches;
    if members.Member? {
      DistinctExactly(caseSensitive, members.rest);
      FoundNone(caseSensitive, members.rest, members.key);
      PairsApartStep(caseSensitive, (members.key, members.value), LinkedTree.PairsOf(members.rest));
    } else {
      assert PairsApart(caseSensitive, []) by { NothingApart(caseSensitive); }
    }
  }

  lemma NothingApart(caseSensitive: bool)
    ensures PairsApart(caseSensitive, [])
  {
  }

  lemma {:induction false} FoundNone(caseSensitive: bool, members: Members, name: bytes)
    ensures Find(caseSensitive, members, name) == None <==>
              NoneMatches(caseSensitive, LinkedTree.PairsOf(members), name)
  {
    hide Matches, Canon;
    if members.Member? {
      CanonExactly(caseSensitive, members.key, name);
      FoundNone(caseSensitive, members.rest, name);
      NoneMatchesStep(caseSensitive, (members.key, members.value), LinkedTree.PairsOf(members.rest), name);
      hide NoneMatches;
    }
  }

  lemma {:induction false} DistinctIsConsistent(caseSensitive: bool, v: Json)
    requires DistinctKeys(caseSensitive, v)
    ensures Consistent(caseSensitive, v)
  {
    match v
    case Array(items) => ItemsDistinctConsistent(caseSensitive, items);
    case Object(members) => MembersDistinctAgree(caseSensitive, members);
    case _ =>
  }

  lemma {:induction false} ItemsDistinctConsistent(caseSensitive: bool, items: Items)
    requires ItemsDistinct(caseSensitive, items)
    ensures ItemsConsistent(caseSensitive, items)
  {
    hide DistinctKeys, Consistent;
    if items.Item? {
      DistinctIsConsistent(caseSensitive, items.head);
      ItemsDistinctConsistent(caseSensitive, items.tail);
    }
  }

  lemma {:induction false} MembersDistinctAgree(caseSensitive: bool, members: Members)
    requires MembersDistinct(caseSensitive, members)
    ensures Agrees(caseSensitive, members, Entries(caseSensitive, members))
  {
    hide DistinctKeys, Consistent, MeaningOf, Canon, Find;
    if members.Member? {
      DistinctIsConsistent(caseSensitive, members.value);
      MembersDistinctAgree(caseSensitive, members.rest);
      FindIsLookup(caseSensitive, members.rest, members.key);
      AgreesWithMore(caseSensitive, members.rest, Entries(caseSensitive, members.rest),
                     Entries(caseSensitive, members));
    }
  }

  lemma {:induction false} AgreesWithMore(caseSensitive: bool, members: Members, d: map<bytes, Meaning>,
                                          e: map<bytes, Meaning>)
    requires Agrees(caseSensitive, members, d) && forall k | k in d :: k in e && e[k] == d[k]
    ensures Agrees(caseSensitive, members, e)
  {
    hide Consistent, MeaningOf, Canon;
    if members.Member? { AgreesWithMore(caseSensitive, members.rest, d, e); }
  }

  /** With a repeated key a value need not be the same as its copy. */
  lemma RepeatedKeyBreaksReflexivity(caseSensitive: bool, key: bytes)
    ensures var v := Object(Member(key, True, Member(key, False, NoMembers))); !Same(caseSensitive, v, v)
  {
    var ms := Member(key, True, Member(key, False, NoMembers));
    assert Find(caseSensitive, ms, key) == Some(True);
    assert !Covered(caseSensitive, ms.rest, ms);
  }

  /** Outside the integers the tolerance keeps the comparison from being transitive. */
  lemma TolerantComparisonIsNotTransitive()
    ensures CompareDouble(1.0, 1.0 + EPSILON) && CompareDouble(1.0 + EPSILON, 1.0 + 2.0 * EPSILON)
    ensures !CompareDouble(1.0, 1.0 + 2.0 * EPSILON)
  {
    assert (1.0 + EPSILON) * EPSILON >= EPSILON;
    assert (1.0 + 2.0 * EPSILON) * EPSILON < 2.0 * EPSILON;
  }
}
