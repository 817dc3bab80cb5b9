/** Bytes, byte strings and the C string view of a byte string. */
module Bytes {
  type byte = x: int | 0 <= x < 256
  type bytes = seq<byte>

  const NUL: byte := 0
  const BACKSPACE: byte := 8
  const TAB: byte := 9
  const NEWLINE: byte := 10
  const FORM_FEED: byte := 12
  const RETURN: byte := 13
  const SPACE: byte := 32
  const QUOTE: byte := 34
  const STAR: byte := 42
  const PLUS: byte := 43
  const COMMA: byte := 44
  const MINUS: byte := 45
  const DOT: byte := 46
  const SLASH: byte := 47
  const ZERO: byte := 48
  const NINE: byte := 57
  const COLON: byte := 58
  const UPPER_E: byte := 69
  const LBRACKET: byte := 91
  const BACKSLASH: byte := 92
  const RBRACKET: byte := 93
  const LOWER_B: byte := 98
  const LOWER_E: byte := 101
  const LOWER_F: byte := 102
  const LOWER_N: byte := 110
  const LOWER_R: byte := 114
  const LOWER_T: byte := 116
  const LOWER_U: byte := 117
  const LBRACE: byte := 123
  const RBRACE: byte := 125

  const NULL_WORD: bytes := [110, 117, 108, 108]
  const FALSE_WORD: bytes := [102, 97, 108, 115, 101]
  const TRUE_WORD: bytes := [116, 114, 117, 101]
  const BOM: bytes := [0xEF, 0xBB, 0xBF]

  /** The text `t` stands in `s` at index `i`. */
  predicate At(s: bytes, i: nat, t: bytes) {
    i + |t| <= |s| && s[i..i + |t|] == t
  }

  predicate NulFree(s: bytes) {
    forall i | 0 <= i < |s| :: s[i] != NUL
  }

  /** A C string stored with its terminator: the only thing the parser relies on is the last byte. */
  predicate Terminated(s: bytes) {
    |s| > 0 && s[|s| - 1] == NUL
  }

  /** What a C string pointer to the first byte of `b` denotes: everything in front of the first NUL. */
  function CString(b: bytes): (r: bytes)
    ensures NulFree(r) && r <= b
    ensures NulFree(b) ==> r == b
  {
    if b == [] || b[0] == NUL then []
    else [b[0]] + CString(b[1..])
  }

  /** A C string goes up to the first zero byte, or to the end if there is none. */
  lemma {:induction false} CStringExactly(b: bytes, r: bytes)
    ensures CString(b) == r <==> r <= b && 0 !in r && (|r| < |b| ==> b[|r|] == 0)
    decreases |b|
  {
    if b != [] && b[0] != 0 {
      if r != [] && r[0] == b[0] {
        CStringExactly(b[1..], r[1..]);
        assert r == [r[0]] + r[1..] && b == [b[0]] + b[1..];
        assert r <= b <==> r[1..] <= b[1..];
        assert 0 in r <==> 0 in r[1..];
      }
    }
  }

  /** What stands at an index has something in front of it and something behind it, and any text can stand there. */
  lemma AtExactly(s: bytes, i: nat, t: bytes, front: bytes, back: bytes, b: byte)
    ensures At(s, i, t) ==> i + |t| <= |s| && s == s[..i] + t + s[i + |t|..]
    ensures At(front + t + back, |front|, t)
    ensures NulFree(s) <==> 0 !in s
    ensures Terminated(s + [b]) <==> b == 0
  {
    assert (front + t + back)[|front|..|front| + |t|] == t;
  }

  /** The result of a scanning step: a value and the index after it, or the index of the failure. */
  datatype Parsed<+T> = Ok(value: T, next: nat) | Err(at: nat)

  datatype Option<+T> = None | Some(value: T)

  lemma AtIs(s: bytes, i: nat, t: bytes)
    requires At(s, i, t)
    ensures i + |t| <= |s| && s[i..i + |t|] == t
    ensures forall k | i <= k < i + |t| :: s[k] == t[k - i]
  {
    assert forall k | i <= k < i + |t| :: s[k] == s[i..i + |t|][k - i];
  }

  lemma AtSplit(s: bytes, i: nat, a: bytes, b: bytes)
    requires At(s, i, a + b)
    ensures At(s, i, a) && At(s, i + |a|, b)
  {
    var t := s[i..i + |a + b|];
    assert t == a + b;
    assert s[i..i + |a|] == t[..|a|] == a;
    assert s[i + |a|..i + |a| + |b|] == t[|a|..] == b;
  }

  lemma AtJoin(s: bytes, i: nat, a: bytes, b: bytes)
    requires At(s, i, a) && At(s, i + |a|, b)
    ensures At(s, i, a + b)
  {
    assert s[i..i + |a + b|] == s[i..i + |a|] + s[i + |a|..i + |a| + |b|];
  }

  lemma Glue(a: bytes, b: bytes)
    requires NulFree(a) && NulFree(b)
    ensures NulFree(a + b)
  {
  }

  lemma Regroup(a: bytes, b: bytes, c: bytes)
    ensures a + b + c == a + (b + c)
  {
  }
}
