/** What the recursive-descent parser computes: the value, the index after it, and where a failure is reported. */
module Grammar {
  import opened Bytes
  import opened JsonTree
  import opened Numbers
  import opened Strings

  predicate IsSpace(b: byte) { b <= 32 }

  function SpaceEnd(s: bytes, i: nat): (e: nat)
    requires i <= |s|
    ensures i <= e <= |s|
    ensures forall k | i <= k < e :: IsSpace(s[k])
    ensures e < |s| ==> !IsSpace(s[e])
    decreases |s| - i
  {
    if i < |s| && IsSpace(s[i]) then SpaceEnd(s, i + 1) else i
  }

  /** Skips white space; running off the buffer steps back onto its last byte. */
  function Skip(s: bytes, i: nat): (e: nat)
    requires Terminated(s) && i < |s|
    ensures i <= e < |s|
    ensures forall k | i <= k < e :: IsSpace(s[k])
    ensures !IsSpace(s[e]) || e == |s| - 1
  {
    var e := SpaceEnd(s, i);
    if e == |s| then e - 1 else e
  }

  /** `parse_number`: at most 63 number bytes are handed to `strtod`. */
  function ParseNumber(s: bytes, i: nat): (r: Parsed<Json>)
    requires i <= |s|
    ensures r.Ok? ==> i < r.next <= |s| && IsNumberByte(s[r.next - 1])
    ensures r.Err? ==> r.at == i
  {
    var c := Strtod(s[i..RunEnd(s, i, NUMBER_BUFFER)]);
    if c.used == 0 then Err(i) else Ok(Number(c.value), i + c.used)
  }

  datatype Word = Word(value: Json, text: bytes)

  /** The three words, in the order in which they are tried. */
  function WordAt(s: bytes, i: nat): (w: Option<Word>)
    ensures w.Some? ==> At(s, i, w.value.text) && 4 <= |w.value.text| <= 5 && NulFree(w.value.text)
  {
    if At(s, i, NULL_WORD) then Some(Word(Null, NULL_WORD))
    else if At(s, i, FALSE_WORD) then Some(Word(False, FALSE_WORD))
    else if At(s, i, TRUE_WORD) then Some(Word(True, TRUE_WORD))
    else None
  }

  /** `depth` is the number of containers already open. */
  function ParseValue(s: bytes, i: nat, depth: nat): (r: Parsed<Json>)
    requires Terminated(s) && i < |s|
    ensures r.Ok? ==> i < r.next < |s|
    ensures r.Err? ==> r.at <= |s|
    decreases |s| - i, 1
  {
    match WordAt(s, i)
    case Some(word) =>
      BeforeEnd(s, i, word.text);
      Ok(word.value, i + |word.text|)
    case None =>
      if s[i] == QUOTE then
        match ParseString(s, i)
        case Err(at) => Err(at)
        case Ok(text, next) =>
          StringBeforeEnd(s, next);
          Ok(String(text), next)
      else if s[i] == MINUS || IsDigit(s[i]) then ParseNumber(s, i)
      else if s[i] == LBRACKET then ParseArray(s, i, depth)
      else if s[i] == LBRACE then ParseObject(s, i, depth)
      else Err(i)
  }

  /** The closing bracket of a container that holds `value`. */
  function Closed(s: bytes, m: nat, close: byte, value: Json): (r: Parsed<Json>)
    requires Terminated(s) && m < |s| && close != NUL
    ensures r.Ok? ==> r.next == m + 1 < |s| && r.value == value
    ensures r.Err? ==> r.at == m
  {
    if s[m] == close then Ok(value, m + 1) else Err(m)
  }

  function ParseArray(s: bytes, i: nat, depth: nat): (r: Parsed<Json>)
    requires Terminated(s) && i < |s| && s[i] == LBRACKET
    ensures r.Ok? ==> i < r.next < |s| && r.value.Array?
    ensures r.Err? ==> r.at <= |s|
    decreases |s| - i, 0
  {
    if depth >= NESTING_LIMIT then Err(i)
    else
      var k := Skip(s, i + 1);
      if s[k] == RBRACKET then Ok(Array(NoItems), k + 1)
      else
        match ParseItems(s, k, depth + 1)
        case Err(at) => Err(at)
        case Ok(items, m) => Closed(s, m, RBRACKET, Array(items))
  }

  function ParseObject(s: bytes, i: nat, depth: nat): (r: Parsed<Json>)
    requires Terminated(s) && i < |s| && s[i] == LBRACE
    ensures r.Ok? ==> i < r.next < |s| && r.value.Object?
    ensures r.Err? ==> r.at <= |s|
    decreases |s| - i, 0
  {
    if depth >= NESTING_LIMIT then Err(i)
    else
      var k := Skip(s, i + 1);
      if s[k] == RBRACE then Ok(Object(NoMembers), k + 1)
      else
        match ParseMembers(s, k, depth + 1)
        case Err(at) => Err(at)
        case Ok(members, m) => Closed(s, m, RBRACE, Object(members))
  }

  /** The elements from `j` on; the index returned is that of the byte that is no comma. */
  function ParseItems(s: bytes, j: nat, depth: nat): (r: Parsed<Items>)
    requires Terminated(s) && j < |s|
    ensures r.Ok? ==> j < r.next < |s| && s[r.next] != COMMA
    ensures r.Err? ==> r.at <= |s|
    decreases |s| - j, 2
  {
    match ParseValue(s, Skip(s, j), depth)
    case Err(at) => Err(at)
    case Ok(value, next) =>
      var m := Skip(s, next);
      if s[m] == COMMA then
        match ParseItems(s, m + 1, depth)
        case Err(at) => Err(at)
        case Ok(tail, end) => Ok(Item(value, tail), end)
      else Ok(Item(value, NoItems), m)
  }

  /** The key at `j` and the colon behind it; the index returned is the one behind the colon. */
  function ParseKey(s: bytes, j: nat): (r: Parsed<bytes>)
    requires Terminated(s) && j < |s|
    ensures r.Ok? ==> j + 1 < r.next < |s|
    ensures r.Err? ==> r.at <= |s|
  {
    match ParseString(s, Skip(s, j))
    case Err(at) => Err(at)
    case Ok(key, next) =>
      StringBeforeEnd(s, next);
      var m := Skip(s, next);
      if s[m] == COLON then Ok(key, m + 1) else Err(m)
  }

  function ParseMembers(s: bytes, j: nat, depth: nat): (r: Parsed<Members>)
    requires Terminated(s) && j < |s|
    ensures r.Ok? ==> j < r.next < |s| && s[r.next] != COMMA
    ensures r.Err? ==> r.at <= |s|
    decreases |s| - j, 2
  {
    match ParseKey(s, j)
    case Err(at) => Err(at)
    case Ok(key, colon) =>
      match ParseValue(s, Skip(s, colon), depth)
      case Err(at) => Err(at)
      case Ok(value, next) =>
        var m := Skip(s, next);
        if s[m] == COMMA then
          match ParseMembers(s, m + 1, depth)
          case Err(at) => Err(at)
          case Ok(rest, end) => Ok(Member(key, value, rest), end)
        else Ok(Member(key, value, NoMembers), m)
  }

  /** A member put in front of what follows. */
  function Consed(key: bytes, value: Json, r: Parsed<Members>): Parsed<Members> {
    match r
    case Err(at) => Err(at)
    case Ok(rest, end) => Ok(Member(key, value, rest), end)
  }

  lemma MembersGoOn(s: bytes, j: nat, depth: nat, key: bytes, colon: nat, value: Json, next: nat, m: nat)
    requires Terminated(s) && j < |s| && colon < |s| && next < |s| && m == Skip(s, next) && m + 1 < |s|
    requires ParseKey(s, j) == Ok(key, colon)
    requires ParseValue(s, Skip(s, colon), depth) == Ok(value, next) && s[m] == COMMA
    ensures ParseMembers(s, j, depth) == Consed(key, value, ParseMembers(s, m + 1, depth))
  {
    hide ParseValue, ParseKey, Skip, Terminated;
  }

  lemma MembersStop(s: bytes, j: nat, depth: nat, key: bytes, colon: nat, value: Json, next: nat, m: nat)
    requires Terminated(s) && j < |s| && colon < |s| && next < |s| && m == Skip(s, next)
    requires ParseKey(s, j) == Ok(key, colon)
    requires ParseValue(s, Skip(s, colon), depth) == Ok(value, next) && s[m] != COMMA
    ensures ParseMembers(s, j, depth) == Ok(Member(key, value, NoMembers), m)
  {
    hide ParseValue, ParseKey, Skip, Terminated;
  }

  /** A text without a NUL that stands in a terminated buffer ends before the terminator. */
  lemma BeforeEnd(s: bytes, i: nat, t: bytes)
    requires Terminated(s) && At(s, i, t) && NulFree(t) && t != []
    ensures i + |t| < |s|
  {
    assert t[|t| - 1] == s[i..i + |t|][|t| - 1] == s[i + |t| - 1];
  }

  /** A closing quote is not the terminator. */
  lemma StringBeforeEnd(s: bytes, next: nat)
    requires Terminated(s) && 0 < next <= |s| && s[next - 1] == QUOTE
    ensures next < |s|
  {
  }

  /** Where the document starts: behind a byte order mark, if one leads a long enough buffer. */
  function BomEnd(s: bytes): nat {
    if |s| > 4 && At(s, 0, BOM) then 3 else 0
  }

  /** `cJSON_ParseWithLengthOpts` on a buffer; the index returned with the value is the reported end of the parse. */
  function ParseBuffer(s: bytes, requireEnd: bool): (r: Parsed<Json>)
    requires Terminated(s)
    ensures r.Ok? ==> r.next < |s|
    ensures r.Err? ==> r.at < |s|
  {
    match ParseValue(s, Skip(s, BomEnd(s)), 0)
    case Err(at) => Err(if at < |s| then at else |s| - 1)
    case Ok(value, next) =>
      if requireEnd then
        var m := Skip(s, next);
        if s[m] == NUL then Ok(value, m) else Err(m)
      else Ok(value, next)
  }

  /** `cJSON_ParseWithOpts` on a C string: the terminator is part of the buffer. */
  function ParseText(text: bytes, requireEnd: bool): (r: Parsed<Json>)
    ensures r.Ok? ==> r.next <= |text|
  {
    ParseBuffer(text + [NUL], requireEnd)
  }
}
