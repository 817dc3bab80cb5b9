/** The string codec: what the two passes of the parser and of the printer compute. */
module Strings {
  import opened Bytes
  import opened Utf

  // ----- Reading -----

  /** First pass: the index of the quote that closes a string whose text starts at `i`. */
  function ClosingQuote(s: bytes, i: nat): (r: Option<nat>)
    requires i <= |s|
    ensures r.Some? ==> i <= r.value < |s| && s[r.value] == QUOTE
    decreases |s| - i
  {
    if i == |s| then None
    else if s[i] == QUOTE then Some(i)
    else if s[i] == BACKSLASH then
      if i + 1 == |s| then None else ClosingQuote(s, i + 2)
    else ClosingQuote(s, i + 1)
  }

  /** The number of bytes and two-byte escapes between `i` and the closing quote. */
  function Units(s: bytes, i: nat): (n: nat)
    requires i <= |s| && ClosingQuote(s, i).Some?
    ensures i + n <= ClosingQuote(s, i).value
    decreases |s| - i
  {
    if s[i] == QUOTE then 0
    else if s[i] == BACKSLASH then 1 + Units(s, i + 2)
    else 1 + Units(s, i + 1)
  }

  datatype Step = BadStep | Step(width: nat, out: bytes)

  predicate IsSimpleEscape(b: byte) {
    b in {LOWER_B, LOWER_F, LOWER_N, LOWER_R, LOWER_T, QUOTE, BACKSLASH, SLASH}
  }

  /** The byte a two-byte escape stands for. */
  function SimpleEscape(b: byte): byte
    requires IsSimpleEscape(b)
  {
    if b == LOWER_B then BACKSPACE
    else if b == LOWER_F then FORM_FEED
    else if b == LOWER_N then NEWLINE
    else if b == LOWER_R then RETURN
    else if b == LOWER_T then TAB
    else b
  }

  /** The byte that a two-byte escape stands for, in code numbers: b, f, n, r, t, quote, backslash and slash. */
  predicate StandsFor(letter: byte, b: byte) {
    (letter, b) in {(98, 8), (102, 12), (110, 10), (114, 13), (116, 9), (34, 34), (92, 92), (47, 47)}
  }

  lemma SimpleEscapesExactly(letter: byte, b: byte)
    ensures IsSimpleEscape(letter) && SimpleEscape(letter) == b <==> StandsFor(letter, b)
  {
  }

  /** One turn of the second pass at `p`. The text `t` ends with its closing quote. */
  function UnescapeStep(t: bytes, p: nat): (r: Step)
    requires p + 1 < |t|
    ensures r.Step? ==> 0 < r.width && p + r.width <= |t|
  {
    if t[p] != BACKSLASH then Step(1, [t[p]])
    else if IsSimpleEscape(t[p + 1]) then Step(2, [SimpleEscape(t[p + 1])])
    else if t[p + 1] == LOWER_U then
      match ReadLiteral(t, p, |t| - 1)
      case BadLiteral => BadStep
      case Literal(width, codepoint) => Step(width, Encode(codepoint))
    else BadStep
  }

  datatype Unescaped = Plain(text: bytes) | Bad(at: nat)

  /** The second pass from `p` on. It may step over the closing quote, but by no more than that one byte. */
  function Unescape(t: bytes, p: nat): (r: Unescaped)
    requires |t| > 0 && p <= |t|
    ensures r.Bad? ==> p <= r.at < |t|
    decreases |t| - p
  {
    if p + 1 >= |t| then Plain([])
    else
      match UnescapeStep(t, p)
      case BadStep => Bad(p)
      case Step(width, out) => Prepend(out, Unescape(t, p + width))
  }

  function Prepend(out: bytes, r: Unescaped): Unescaped {
    match r
    case Bad(at) => r
    case Plain(text) => Plain(out + text)
  }

  lemma PrependTwice(a: bytes, b: bytes, r: Unescaped)
    ensures Prepend(a, Prepend(b, r)) == Prepend(a + b, r)
  {
    if r.Plain? { assert a + (b + r.text) == a + b + r.text; }
  }

  /** The string literal at `i`; its value is the C string in the output buffer. */
  function ParseString(s: bytes, i: nat): (r: Parsed<bytes>)
    requires i < |s|
    ensures r.Ok? ==> i < r.next <= |s| && s[r.next - 1] == QUOTE && NulFree(r.value)
    ensures r.Err? ==> i < r.at <= |s|
  {
    if s[i] != QUOTE then Err(i + 1)
    else
      match ClosingQuote(s, i + 1)
      case None => Err(i + 1)
      case Some(end) =>
        Delivered(Unescape(s[i + 1..end + 1], 0), i + 1, end + 1)
  }

  /** What the second pass has made of the text at `base`, which ends in front of `next`. */
  function Delivered(u: Unescaped, base: nat, next: nat): (r: Parsed<bytes>)
    ensures r.Ok? ==> r.next == next && NulFree(r.value)
    ensures r.Err? ==> u.Bad? && r.at == base + u.at
  {
    match u
    case Bad(at) => Err(base + at)
    case Plain(text) => Ok(CString(text), next)
  }

  // ----- Sizing: the first pass allots enough room for the second -----

  /**
   * Skipping `n` bytes from a place the first pass stops at leads to another such place, or into the middle of a
   * two-byte escape; either way at least half of the bytes were units of their own.
   */
  lemma {:induction false} UnitsSkipped(s: bytes, i: nat, n: nat)
    requires i <= |s| && ClosingQuote(s, i).Some? && i + n <= ClosingQuote(s, i).value
    ensures i + n < |s|
    ensures (ClosingQuote(s, i + n) == ClosingQuote(s, i) && Units(s, i) >= Units(s, i + n) + (n + 1) / 2)
            || (i + n + 1 < |s| && ClosingQuote(s, i + n + 1) == ClosingQuote(s, i)
                && Units(s, i) >= Units(s, i + n + 1) + (n + 2) / 2)
    decreases n
  {
    hide ClosingQuote, Units;
    if n > 0 {
      UnitsStep(s, i);
      if s[i] != BACKSLASH {
        UnitsSkipped(s, i + 1, n - 1);
      } else if n > 1 {
        UnitsSkipped(s, i + 2, n - 2);
      }
    }
  }

  /** One step of the first pass. */
  lemma UnitsStep(s: bytes, i: nat)
    requires i < |s| && ClosingQuote(s, i).Some? && ClosingQuote(s, i).value != i
    ensures var step := if s[i] == BACKSLASH then 2 else 1;
            && i + step <= ClosingQuote(s, i).value < |s| && ClosingQuote(s, i) == ClosingQuote(s, i + step)
            && Units(s, i) == 1 + Units(s, i + step)
  {
  }

  // ----- Writing -----

  function HexLower(d: nat): (b: byte)
    requires d < 16
    ensures IsHex(b) && HexDigit(b) == d
  {
    if d < 10 then 48 + d else 97 + d - 10
  }

  /** The two-byte escapes the printer uses. */
  predicate HasShortEscape(b: byte) {
    b in {QUOTE, BACKSLASH, BACKSPACE, FORM_FEED, NEWLINE, RETURN, TAB}
  }

  function ShortEscape(b: byte): (e: byte)
    requires HasShortEscape(b)
    ensures IsSimpleEscape(e) && SimpleEscape(e) == b
  {
    if b == BACKSPACE then LOWER_B
    else if b == FORM_FEED then LOWER_F
    else if b == NEWLINE then LOWER_N
    else if b == RETURN then LOWER_R
    else if b == TAB then LOWER_T
    else b
  }

  function EscapeByte(b: byte): (r: bytes)
    ensures NulFree(r) || b == NUL
  {
    if HasShortEscape(b) then [BACKSLASH, ShortEscape(b)]
    else if b < 32 then [BACKSLASH, LOWER_U, ZERO, ZERO, HexLower(b / 16), HexLower(b % 16)]
    else [b]
  }

  /** What is printed for each byte, in code numbers: two bytes, six with lower-case digits, or the byte itself. */
  lemma EscapedBytes(b: byte)
    ensures b == 8 ==> EscapeByte(b) == [92, 98]
    ensures b == 9 ==> EscapeByte(b) == [92, 116]
    ensures b == 10 ==> EscapeByte(b) == [92, 110]
    ensures b == 12 ==> EscapeByte(b) == [92, 102]
    ensures b == 13 ==> EscapeByte(b) == [92, 114]
    ensures b == 34 || b == 92 ==> EscapeByte(b) == [92, b]
    ensures b < 32 && b !in {8, 9, 10, 12, 13} ==>
              EscapeByte(b) == [92, 117, 48, 48, 48 + b / 16, if b % 16 < 10 then 48 + b % 16 else 87 + b % 16]
    ensures b >= 32 && b != 34 && b != 92 ==> EscapeByte(b) == [b]
  {
  }

  function Escape(s: bytes): (r: bytes)
  {
    if s == [] then [] else EscapeByte(s[0]) + Escape(s[1..])
  }

  /** A text is escaped byte by byte. */
  lemma {:induction false} EscapeJoin(s: bytes, t: bytes)
    ensures Escape(s + t) == Escape(s) + Escape(t)
    ensures Escape([]) == [] && forall b: byte :: Escape([b]) == EscapeByte(b)
  {
    hide EscapeByte;
    if s == [] {
      assert s + t == t;
    } else {
      EscapeJoin(s[1..], t);
      assert (s + t)[1..] == s[1..] + t;
    }
  }

  /** The literal the printer writes for `s`. */
  function Quoted(s: bytes): bytes {
    [QUOTE] + Escape(s) + [QUOTE]
  }

  lemma EscapeNulFree(s: bytes)
    requires NulFree(s)
    ensures NulFree(Escape(s))
  {
    if s != [] { EscapeNulFree(s[1..]); }
  }

  /** What both passes of the reader make of an escaped text that stands in front of the closing quote. */
  lemma {:induction false} EscapeReadsBackAt(t: bytes, p: nat, s: bytes)
    requires p < |t| && t[p..] == Escape(s) + [QUOTE] && NulFree(s)
    ensures ClosingQuote(t, p) == Some(|t| - 1)
    ensures Unescape(t, p) == Plain(s)
    decreases |s|
  {
    hide UnescapeStep, EscapeByte;
    if s == [] {
      assert t[p..] == [QUOTE];
      assert t[p] == QUOTE && p + 1 == |t|;
    } else {
      var e, rest := EscapeByte(s[0]), Escape(s[1..]) + [QUOTE];
      assert t[p..] == e + rest;
      SuffixSplit(t, p, e, rest);
      EscapeReadsBackAt(t, p + |e|, s[1..]);
      EscapedByteStep(t, p, s[0]);
      assert s == [s[0]] + s[1..];
    }
  }

  lemma SuffixSplit(t: bytes, p: nat, e: bytes, rest: bytes)
    requires p <= |t| && t[p..] == e + rest
    ensures p + |e| <= |t| && t[p + |e|..] == rest
    ensures forall k | 0 <= k < |e| :: t[p + k] == e[k]
  {
    assert |t[p..]| == |e| + |rest|;
    assert t[p + |e|..] == t[p..][|e|..];
    assert forall k | 0 <= k < |e| :: t[p + k] == t[p..][k];
  }

  /** One escaped byte is one turn of the second pass and a whole number of turns of the first. */
  lemma EscapedByteStep(t: bytes, p: nat, b: byte)
    requires b != NUL && p + |EscapeByte(b)| < |t|
    requires forall k | 0 <= k < |EscapeByte(b)| :: t[p + k] == EscapeByte(b)[k]
    ensures UnescapeStep(t, p) == Step(|EscapeByte(b)|, [b])
    ensures ClosingQuote(t, p) == ClosingQuote(t, p + |EscapeByte(b)|)
  {
    if b < 32 && !HasShortEscape(b) {
      var e := EscapeByte(b);
      assert t[p] == e[0] && t[p + 1] == e[1] && t[p + 2] == e[2];
      assert t[p + 3] == e[3] && t[p + 4] == e[4] && t[p + 5] == e[5];
      assert HexAt(t, p + 2);
      assert Hex4(t, p + 2) == b by { assert b == b / 16 * 16 + b % 16; }
      EncodeArithmetic(b);
      assert ClosingQuote(t, p + 2) == ClosingQuote(t, p + 3) == ClosingQuote(t, p + 4) == ClosingQuote(t, p + 5)
          == ClosingQuote(t, p + 6);
    } else {
      assert t[p] == EscapeByte(b)[0];
      if HasShortEscape(b) { assert t[p + 1] == EscapeByte(b)[1]; }
    }
  }

  /** Reading what the printer writes gives the string back, wherever it stands. */
  lemma QuotedReadsBack(s: bytes, i: nat, text: bytes)
    requires NulFree(text) && At(s, i, Quoted(text))
    ensures ParseString(s, i) == Ok(text, i + |Quoted(text)|)
  {
    hide Escape, ClosingQuote, Unescape, At;
    var t := Escape(text) + [QUOTE];
    assert Quoted(text) == [QUOTE] + t;
    AtSplit(s, i, [QUOTE], t);
    assert s[i] == QUOTE && s[i + 1..i + 1 + |t|] == t by { AtIs(s, i, [QUOTE]); AtIs(s, i + 1, t); }
    assert t[0..] == t;
    EscapeReadsBackAt(t, 0, text);
    ClosingQuoteLocal(s, i + 1, t, 0);
  }

  /** The first pass looks at nothing behind the closing quote. */
  lemma {:induction false} ClosingQuoteLocal(s: bytes, i: nat, t: bytes, p: nat)
    requires At(s, i, t) && p <= |t| && ClosingQuote(t, p).Some?
    ensures ClosingQuote(s, i + p) == Some(i + ClosingQuote(t, p).value)
    decreases |t| - p
  {
    assert s[i + p] == s[i..i + |t|][p];
    if t[p] == BACKSLASH {
      ClosingQuoteLocal(s, i, t, p + 2);
    } else if t[p] != QUOTE {
      ClosingQuoteLocal(s, i, t, p + 1);
    }
  }
}
