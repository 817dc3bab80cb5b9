/**
 * The `\uXXXX` literals of a JSON string: UTF-16 code units in hexadecimal (RFC 8259 section 7,
 * RFC 2781 section 2.2) turned into UTF-8 (RFC 3629 section 3).
 */
module Utf {
  import opened Bytes
  import opened Bits

  predicate IsHex(b: byte) { 48 <= b <= 57 || 65 <= b <= 70 || 97 <= b <= 102 }

  function HexDigit(b: byte): (d: nat)
    requires IsHex(b)
    ensures d < 16
  {
    if b <= 57 then b - 48 else if b <= 70 then b - 65 + 10 else b - 97 + 10
  }

  /** The digits 0 to 9 stand at code 48, those from 10 to 15 at 65 and again at 97. */
  predicate IsDigitOf(b: byte, d: nat) {
    (d < 10 && b == 48 + d) || (10 <= d < 16 && (b == 55 + d || b == 87 + d))
  }

  lemma HexDigits(b: byte, d: nat)
    ensures IsHex(b) && HexDigit(b) == d <==> IsDigitOf(b, d)
  {
  }

  /** Four hexadecimal digits stand at `i`. */
  predicate HexAt(t: bytes, i: nat) {
    i + 4 <= |t| && IsHex(t[i]) && IsHex(t[i + 1]) && IsHex(t[i + 2]) && IsHex(t[i + 3])
  }

  /** The number read from four bytes; a byte that is no hexadecimal digit makes it 0. */
  function Hex4(t: bytes, i: nat): (h: nat)
    requires i + 4 <= |t|
    ensures h < 0x1_0000
  {
    if HexAt(t, i) then
      ((HexDigit(t[i]) * 16 + HexDigit(t[i + 1])) * 16 + HexDigit(t[i + 2])) * 16 + HexDigit(t[i + 3])
    else 0
  }

  /** Four digits are read as one number, the first counting most. */
  lemma Hex4Exactly(t: bytes, i: nat, d: nat, e: nat, f: nat, g: nat)
    requires i + 4 <= |t|
    requires IsDigitOf(t[i], d) && IsDigitOf(t[i + 1], e) && IsDigitOf(t[i + 2], f) && IsDigitOf(t[i + 3], g)
    ensures HexAt(t, i) && Hex4(t, i) == 4096 * d + 256 * e + 16 * f + g
  {
    hide IsDigitOf;
    HexDigits(t[i], d);
    HexDigits(t[i + 1], e);
    HexDigits(t[i + 2], f);
    HexDigits(t[i + 3], g);
  }

  predicate IsHighSurrogate(c: nat) { 0xD800 <= c <= 0xDBFF }

  predicate IsLowSurrogate(c: nat) { 0xDC00 <= c <= 0xDFFF }

  /** A Unicode scalar value. */
  predicate IsScalar(c: nat) { c <= 0x10FFFF && !(0xD800 <= c <= 0xDFFF) }

  /** The code point of a surrogate pair, as computed with masks and shifts. */
  function Combine(first: nat, second: nat): nat {
    0x10000 + Or(ShiftLeft(And(first, 0x3FF), 10), And(second, 0x3FF))
  }

  function Utf8Length(c: nat): (n: nat)
    ensures 1 <= n <= 4
  {
    if c < 0x80 then 1 else if c < 0x800 then 2 else if c < 0x10000 then 3 else 4
  }

  function FirstByteMark(n: nat): nat {
    if n == 2 then 0xC0 else if n == 3 then 0xE0 else if n == 4 then 0xF0 else 0
  }

  /** The last `n` bytes of an encoding: six bits each, the lowest last. */
  function Continuations(c: nat, n: nat): (r: bytes)
    ensures |r| == n
    decreases n
  {
    if n == 0 then [] else Continuations(ShiftRight(c, 6), n - 1) + [ContinuationByte(c)]
  }

  function ContinuationByte(c: nat): byte {
    AndBound(Or(c, 0x80), 0xBF);
    And(Or(c, 0x80), 0xBF)
  }

  /** What is left of `c` when `n` continuation bytes have been split off. */
  function AfterContinuations(c: nat, n: nat): nat
    decreases n
  {
    if n == 0 then c else AfterContinuations(ShiftRight(c, 6), n - 1)
  }

  function FirstByte(c: nat, n: nat): byte {
    AndBound(Or(c, FirstByteMark(n)), 0xFF);
    AndBound(c, 0x7F);
    if n > 1 then And(Or(c, FirstByteMark(n)), 0xFF) else And(c, 0x7F)
  }

  /** The encoder, at the level of its bit operators. */
  function Encode(c: nat): (r: bytes)
    ensures |r| == Utf8Length(c)
  {
    var n := Utf8Length(c);
    [FirstByte(AfterContinuations(c, n - 1), n)] + Continuations(c, n - 1)
  }

  datatype Literal = BadLiteral | Literal(width: nat, codepoint: nat)

  /** Reads the literal at `p`; `end` is the index of the closing quote. */
  function ReadLiteral(t: bytes, p: nat, end: nat): (l: Literal)
    requires p <= end < |t|
    ensures l.Literal? ==> p + l.width <= end && l.codepoint <= 0x10FFFF && l.width in {6, 12}
  {
    if end - p < 6 then BadLiteral
    else
      var first := Hex4(t, p + 2);
      if IsLowSurrogate(first) then BadLiteral
      else if IsHighSurrogate(first) then
        var q := p + 6;
        if end - q < 6 || t[q] != BACKSLASH || t[q + 1] != LOWER_U then BadLiteral
        else
          var second := Hex4(t, q + 2);
          if !IsLowSurrogate(second) then BadLiteral
          else
            CombineIs(first, second);
            Literal(12, Combine(first, second))
      else Literal(6, first)
  }

  lemma CombineIs(first: nat, second: nat)
    requires IsHighSurrogate(first) && IsLowSurrogate(second)
    ensures Combine(first, second) == 0x10000 + (first - 0xD800) * 1024 + (second - 0xDC00)
  {
    hide And, Or;
    MaskTen(first);
    MaskTen(second);
    assert first % 1024 == first - 0xD800;
    assert second % 1024 == second - 0xDC00;
    ShiftByTen(first - 0xD800);
    OrDisjoint(first - 0xD800, second - 0xDC00, 10);
  }

  // ----- The encodings in arithmetic form, and the decoder they are unique under -----

  predicate IsContinuation(b: nat) { 0x80 <= b < 0xC0 }

  /** One UTF-8 sequence decoded by the table of RFC 3629 section 4: shortest forms of scalar values only. */
  function DecodeUtf8(b: seq<nat>): Option<nat> {
    if |b| == 1 && b[0] < 0x80 then Some(b[0])
    else if |b| == 2 && 0xC2 <= b[0] <= 0xDF && IsContinuation(b[1]) then
      Some((b[0] - 0xC0) * 64 + (b[1] - 0x80))
    else if |b| == 3 && 0xE0 <= b[0] <= 0xEF && IsContinuation(b[1]) && IsContinuation(b[2]) then
      var c: nat := ((b[0] - 0xE0) * 64 + (b[1] - 0x80)) * 64 + (b[2] - 0x80);
      if c >= 0x800 && IsScalar(c) then Some(c) else None
    else if |b| == 4 && 0xF0 <= b[0] <= 0xF4
            && IsContinuation(b[1]) && IsContinuation(b[2]) && IsContinuation(b[3]) then
      var c: nat := (((b[0] - 0xF0) * 64 + (b[1] - 0x80)) * 64 + (b[2] - 0x80)) * 64 + (b[3] - 0x80);
      if 0x10000 <= c <= 0x10FFFF then Some(c) else None
    else None
  }

  /** The bit-level encoding written with quotients and remainders. */
  lemma EncodeArithmetic(c: nat)
    requires c <= 0x10FFFF
    ensures c < 0x80 ==> Encode(c) == [c]
    ensures 0x80 <= c < 0x800 ==> Encode(c) == [0xC0 + c / 64, 0x80 + c % 64]
    ensures 0x800 <= c < 0x10000 ==> Encode(c) == [0xE0 + c / 64 / 64, 0x80 + c / 64 % 64, 0x80 + c % 64]
    ensures 0x10000 <= c ==>
              Encode(c) == [0xF0 + c / 64 / 64 / 64, 0x80 + c / 64 / 64 % 64, 0x80 + c / 64 % 64, 0x80 + c % 64]
  {
    if c < 0x80 {
      EncodeOne(c);
    } else if c < 0x800 {
      EncodeTwo(c);
    } else if c < 0x10000 {
      EncodeThree(c);
    } else {
      EncodeFour(c);
    }
  }

  lemma EncodeOne(c: nat)
    requires c < 0x80
    ensures Encode(c) == [c]
  {
    hide And, Or;
    Split(c, 0);
    MaskSeven(c);
  }

  lemma EncodeTwo(c: nat)
    requires 0x80 <= c < 0x800
    ensures Encode(c) == [0xC0 + c / 64, 0x80 + c % 64]
  {
    hide And, Or;
    Split(c, 1);
    Split(c / 64, 0);
    Leading(c / 64, 0xC0);
  }

  lemma EncodeThree(c: nat)
    requires 0x800 <= c < 0x10000
    ensures Encode(c) == [0xE0 + c / 64 / 64, 0x80 + c / 64 % 64, 0x80 + c % 64]
  {
    hide And, Or;
    var d := c / 64;
    Split(c, 2);
    Split(d, 1);
    Split(d / 64, 0);
    Leading(d / 64, 0xE0);
  }

  lemma EncodeFour(c: nat)
    requires 0x10000 <= c <= 0x10FFFF
    ensures Encode(c) == [0xF0 + c / 64 / 64 / 64, 0x80 + c / 64 / 64 % 64, 0x80 + c / 64 % 64, 0x80 + c % 64]
  {
    hide And, Or;
    var d := c / 64;
    var e := d / 64;
    Split(c, 3);
    Split(d, 2);
    Split(e, 1);
    Split(e / 64, 0);
    Leading(e / 64, 0xF0);
  }

  /** Splitting off the last continuation byte. */
  lemma Split(c: nat, n: nat)
    ensures n == 0 ==> Continuations(c, n) == [] && AfterContinuations(c, n) == c
    ensures n > 0 ==> Continuations(c, n) == Continuations(c / 64, n - 1) + [0x80 + c % 64]
    ensures n > 0 ==> AfterContinuations(c, n) == AfterContinuations(c / 64, n - 1)
  {
    ShiftBySix(c);
    Continuation(c);
  }

  /** The encoder produces the one byte sequence that decodes to the scalar value. */
  lemma EncodeIsTheUtf8Form(c: nat, b: seq<nat>)
    requires IsScalar(c)
    ensures DecodeUtf8(b) == Some(c) <==> b == Encode(c)
  {
    hide Encode;
    EncodeArithmetic(c);
    var d := c / 64;
    var e := d / 64;
    if c < 0x80 {
      assert DecodeUtf8([c]) == Some(c);
    } else if c < 0x800 {
      Rejoin(c);
    } else if c < 0x10000 {
      Rejoin(c);
      Rejoin(d);
    } else {
      Rejoin(c);
      Rejoin(d);
      Rejoin(e);
    }
    if DecodeUtf8(b) == Some(c) {
      DecodedIsEncoded(c, b);
    }
  }

  lemma Rejoin(c: nat)
    ensures c / 64 * 64 + c % 64 == c && c % 64 < 64
  {
  }

  lemma DecodedIsEncoded(c: nat, b: seq<nat>)
    requires DecodeUtf8(b) == Some(c)
    ensures c <= 0x10FFFF && b == Encode(c)
  {
    hide Encode;
    if |b| == 2 {
      DigitOf64(c, b[0] - 0xC0, b[1] - 0x80);
    } else if |b| == 3 {
      var d: nat := (b[0] - 0xE0) * 64 + (b[1] - 0x80);
      DigitOf64(c, d, b[2] - 0x80);
      DigitOf64(d, b[0] - 0xE0, b[1] - 0x80);
    } else if |b| == 4 {
      var e: nat := (b[0] - 0xF0) * 64 + (b[1] - 0x80);
      var d: nat := e * 64 + (b[2] - 0x80);
      DigitOf64(c, d, b[3] - 0x80);
      DigitOf64(d, e, b[2] - 0x80);
      DigitOf64(e, b[0] - 0xF0, b[1] - 0x80);
    }
    EncodeArithmetic(c);
  }

  lemma DigitOf64(c: nat, x: nat, y: nat)
    requires y < 64 && c == x * 64 + y
    ensures c / 64 == x && c % 64 == y
  {
  }

  // ----- Literals -----

  /** `\u` and four hexadecimal digits of either case stand at `p` and spell the code unit `u`. */
  predicate UnitAt(t: bytes, p: nat, u: nat) {
    p + 6 <= |t| && t[p] == BACKSLASH && t[p + 1] == LOWER_U && HexAt(t, p + 2) && Hex4(t, p + 2) == u
  }

  function SpellingWidth(c: nat): nat { if c < 0x10000 then 6 else 12 }

  /** The UTF-16 form of the scalar value `c` stands at `p`, one unit or a surrogate pair. */
  predicate Spells(t: bytes, p: nat, c: nat) {
    IsScalar(c)
    && (if c < 0x10000 then UnitAt(t, p, c)
        else UnitAt(t, p, 0xD800 + (c - 0x10000) / 1024) && UnitAt(t, p + 6, 0xDC00 + (c - 0x10000) % 1024))
  }

  /**
   * Where every unit read is made of hexadecimal digits, the literal is accepted exactly when it spells a scalar
   * value in front of the closing quote, and that value is what is read.
   */
  lemma LiteralIsSpelling(t: bytes, p: nat, end: nat, c: nat)
    requires p < end < |t| && t[p] == BACKSLASH && t[p + 1] == LOWER_U
    requires p + 6 <= end ==> HexAt(t, p + 2)
    ensures ReadLiteral(t, p, end) == Literal(SpellingWidth(c), c)
            <==> Spells(t, p, c) && p + SpellingWidth(c) <= end
  {
    if p + 6 <= end {
      var first := Hex4(t, p + 2);
      if IsHighSurrogate(first) && p + 12 <= end {
        var second := Hex4(t, p + 8);
        if IsLowSurrogate(second) {
          CombineIs(first, second);
          assert HexAt(t, p + 8);
          var rest := (first - 0xD800) * 1024 + (second - 0xDC00);
          assert rest / 1024 == first - 0xD800 && rest % 1024 == second - 0xDC00;
        }
      }
    }
  }
}
