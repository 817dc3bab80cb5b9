/** The in-place minifier: a filter over the text, run with a read and a write position in one array. */
module Minify {
  import opened Bytes

  predicate IsBlank(b: byte) { b in {SPACE, TAB, RETURN, NEWLINE} }

  /** What is left behind the end of a one-line comment. */
  function AfterLine(t: bytes): (r: bytes)
    ensures |r| <= |t|
    ensures NulFree(t) ==> NulFree(r)
  {
    if t == [] then [] else if t[0] == NEWLINE then t[1..] else AfterLine(t[1..])
  }

  /** What is left behind the end of a block comment. */
  function AfterBlock(t: bytes): (r: bytes)
    ensures |r| <= |t|
    ensures NulFree(t) ==> NulFree(r)
  {
    if t == [] then []
    else if |t| > 1 && t[0] == STAR && t[1] == SLASH then t[2..]
    else AfterBlock(t[1..])
  }

  /** What is kept of a text that starts outside a string. */
  function Outside(t: bytes): (r: bytes)
    ensures |r| <= |t|
    decreases |t|
  {
    if t == [] then []
    else if IsBlank(t[0]) then Outside(t[1..])
    else if t[0] == SLASH then
      if |t| > 1 && t[1] == SLASH then Outside(AfterLine(t[2..]))
      else if |t| > 1 && t[1] == STAR then Outside(AfterBlock(t[2..]))
      else Outside(t[1..])
    else if t[0] == QUOTE then [QUOTE] + Inside(t[1..])
    else [t[0]] + Outside(t[1..])
  }

  /** What is kept of a text that starts inside a string: everything, up to a quote with no backslash in front. */
  function Inside(t: bytes): (r: bytes)
    ensures |r| <= |t|
    decreases |t|
  {
    if t == [] then []
    else if t[0] == QUOTE then [QUOTE] + Outside(t[1..])
    else if t[0] == BACKSLASH && |t| > 1 && t[1] == QUOTE then [BACKSLASH, QUOTE] + Inside(t[2..])
    else [t[0]] + Inside(t[1..])
  }

  lemma {:induction false} FilterNulFree(t: bytes)
    requires NulFree(t)
    ensures NulFree(Outside(t)) && NulFree(Inside(t))
    decreases |t|
  {
    if t != [] {
      FilterNulFree(t[1..]);
      if |t| > 1 {
        FilterNulFree(t[2..]);
        FilterNulFree(AfterLine(t[2..]));
        FilterNulFree(AfterBlock(t[2..]));
      }
      OutsideNulFree(t);
      InsideNulFree(t);
    }
  }

  lemma OutsideNulFree(t: bytes)
    requires t != [] && NulFree(t) && NulFree(Outside(t[1..])) && NulFree(Inside(t[1..]))
    requires |t| > 1 ==> NulFree(Outside(AfterLine(t[2..]))) && NulFree(Outside(AfterBlock(t[2..])))
    ensures NulFree(Outside(t))
  {
    hide NulFree, AfterLine, AfterBlock, Inside;
    assert NulFree([t[0]]) by { One(t); }
    Glue([t[0]], Inside(t[1..]));
    Glue([t[0]], Outside(t[1..]));
    assert NulFree([]) by { Nothing(); }
  }

  lemma InsideNulFree(t: bytes)
    requires t != [] && NulFree(t) && NulFree(Outside(t[1..])) && NulFree(Inside(t[1..]))
    requires |t| > 1 ==> NulFree(Inside(t[2..]))
    ensures NulFree(Inside(t))
  {
    hide NulFree, AfterLine, AfterBlock, Outside;
    assert NulFree([t[0]]) by { One(t); }
    Glue([t[0]], Inside(t[1..]));
    Glue([t[0]], Outside(t[1..]));
    if |t| > 1 {
      assert NulFree([BACKSLASH, QUOTE]) by { Escaped(); }
      Glue([BACKSLASH, QUOTE], Inside(t[2..]));
    }
  }

  lemma One(t: bytes)
    requires t != [] && NulFree(t)
    ensures NulFree([t[0]])
  {
  }

  lemma Nothing()
    ensures NulFree([])
  {
  }

  lemma Escaped()
    ensures NulFree([BACKSLASH, QUOTE])
  {
  }

  /** Minifying a second time changes nothing. */
  lemma {:induction false} Idempotent(t: bytes)
    ensures Outside(Outside(t)) == Outside(t)
    ensures Inside(Inside(t)) == Inside(t)
    decreases |t|
  {
    if t != [] {
      Idempotent(t[1..]);
      if |t| > 1 {
        Idempotent(t[2..]);
        Idempotent(AfterLine(t[2..]));
        Idempotent(AfterBlock(t[2..]));
      }
      OutsideKeeps(t);
      InsideKeeps(t);
    }
  }

  lemma OutsideKeeps(t: bytes)
    requires t != [] && Outside(Outside(t[1..])) == Outside(t[1..]) && Inside(Inside(t[1..])) == Inside(t[1..])
    requires |t| > 1 ==> Outside(Outside(AfterLine(t[2..]))) == Outside(AfterLine(t[2..]))
    requires |t| > 1 ==> Outside(Outside(AfterBlock(t[2..]))) == Outside(AfterBlock(t[2..]))
    ensures Outside(Outside(t)) == Outside(t)
  {
    hide Outside, Inside, AfterLine, AfterBlock, IsBlank;
    OutsideIs(t);
    if !IsBlank(t[0]) && t[0] != SLASH {
      OutsideCons(t[0], if t[0] == QUOTE then Inside(t[1..]) else Outside(t[1..]));
    }
  }

  lemma OutsideIs(t: bytes)
    requires t != []
    ensures Outside(t) ==
            if IsBlank(t[0]) then Outside(t[1..])
            else if t[0] == SLASH then
              if |t| > 1 && t[1] == SLASH then Outside(AfterLine(t[2..]))
              else if |t| > 1 && t[1] == STAR then Outside(AfterBlock(t[2..]))
              else Outside(t[1..])
            else if t[0] == QUOTE then [QUOTE] + Inside(t[1..])
            else [t[0]] + Outside(t[1..])
  {
    hide Inside, AfterLine, AfterBlock, IsBlank;
  }

  lemma OutsideCons(b: byte, rest: bytes)
    requires !IsBlank(b) && b != SLASH
    ensures Outside([b] + rest) == [b] + if b == QUOTE then Inside(rest) else Outside(rest)
  {
    hide Inside;
    assert ([b] + rest)[1..] == rest;
  }

  lemma InsideKeeps(t: bytes)
    requires t != [] && Outside(Outside(t[1..])) == Outside(t[1..]) && Inside(Inside(t[1..])) == Inside(t[1..])
    requires |t| > 1 ==> Inside(Inside(t[2..])) == Inside(t[2..])
    ensures Inside(Inside(t)) == Inside(t)
  {
    hide Outside, Inside;
    InsideIs(t);
    if t[0] == QUOTE {
      InsideCons(QUOTE, Outside(t[1..]));
    } else if t[0] == BACKSLASH && |t| > 1 && t[1] == QUOTE {
      InsidePair(Inside(t[2..]));
    } else {
      InsideStarts(t[1..]);
      InsideCons(t[0], Inside(t[1..]));
    }
  }

  lemma InsideIs(t: bytes)
    requires t != []
    ensures Inside(t) ==
            if t[0] == QUOTE then [QUOTE] + Outside(t[1..])
            else if t[0] == BACKSLASH && |t| > 1 && t[1] == QUOTE then [BACKSLASH, QUOTE] + Inside(t[2..])
            else [t[0]] + Inside(t[1..])
  {
    hide Outside;
  }

  lemma InsideCons(b: byte, rest: bytes)
    ensures b == QUOTE ==> Inside([b] + rest) == [QUOTE] + Outside(rest)
    ensures b != QUOTE && !(b == BACKSLASH && rest != [] && rest[0] == QUOTE)
            ==> Inside([b] + rest) == [b] + Inside(rest)
  {
    hide Outside;
    var t := [b] + rest;
    assert t[1..] == rest;
    assert rest != [] ==> t[1] == rest[0];
  }

  lemma InsidePair(rest: bytes)
    ensures Inside([BACKSLASH, QUOTE] + rest) == [BACKSLASH, QUOTE] + Inside(rest)
  {
    hide Outside;
    var t := [BACKSLASH, QUOTE] + rest;
    assert t[2..] == rest;
  }

  /** Inside a string the first byte is kept. */
  lemma InsideStarts(t: bytes)
    ensures Inside(t) != [] ==> t != [] && Inside(t)[0] == t[0]
  {
  }

  /** One byte of the filter outside strings, in a text that stands at `s[i..n]`. */
  lemma OutsideStep(s: bytes, i: nat, n: nat)
    requires i < n <= |s|
    ensures Outside(s[i..n]) ==
            if IsBlank(s[i]) then Outside(s[i + 1..n])
            else if s[i] == SLASH then
              if i + 1 < n && s[i + 1] == SLASH then Outside(AfterLine(s[i + 2..n]))
              else if i + 1 < n && s[i + 1] == STAR then Outside(AfterBlock(s[i + 2..n]))
              else Outside(s[i + 1..n])
            else if s[i] == QUOTE then [QUOTE] + Inside(s[i + 1..n])
            else [s[i]] + Outside(s[i + 1..n])
  {
    hide Inside, AfterLine, AfterBlock;
    var t := s[i..n];
    assert t[0] == s[i] && t[1..] == s[i + 1..n];
    assert i + 1 < n ==> t[1] == s[i + 1] && t[2..] == s[i + 2..n];
  }

  /** One byte of the filter inside a string. */
  lemma InsideStep(s: bytes, i: nat, n: nat)
    requires i < n <= |s|
    ensures Inside(s[i..n]) ==
            if s[i] == QUOTE then [QUOTE] + Outside(s[i + 1..n])
            else if s[i] == BACKSLASH && i + 1 < n && s[i + 1] == QUOTE then [BACKSLASH, QUOTE] + Inside(s[i + 2..n])
            else [s[i]] + Inside(s[i + 1..n])
  {
    hide Outside;
    var t := s[i..n];
    assert t[0] == s[i] && t[1..] == s[i + 1..n];
    assert i + 1 < n ==> t[1] == s[i + 1] && t[2..] == s[i + 2..n];
  }

  lemma LineStep(s: bytes, i: nat, n: nat)
    requires i < n <= |s|
    ensures AfterLine(s[i..n]) == if s[i] == NEWLINE then s[i + 1..n] else AfterLine(s[i + 1..n])
  {
    var t := s[i..n];
    assert t[0] == s[i] && t[1..] == s[i + 1..n];
  }

  lemma BlockStep(s: bytes, i: nat, n: nat)
    requires i < n <= |s|
    ensures AfterBlock(s[i..n]) ==
            if i + 1 < n && s[i] == STAR && s[i + 1] == SLASH then s[i + 2..n] else AfterBlock(s[i + 1..n])
  {
    var t := s[i..n];
    assert t[0] == s[i] && t[1..] == s[i + 1..n];
    assert i + 1 < n ==> t[1] == s[i + 1] && t[2..] == s[i + 2..n];
  }

  // ----- The in-place program -----

  /** The contents `s` end as a C string at `n`. */
  ghost predicate EndsAt(s: bytes, n: nat) {
    n < |s| && s[n] == NUL && NulFree(s[..n])
  }

  /** From `i` on the array still holds its first contents `s`. */
  ghost predicate Unread(json: array<byte>, s: bytes, i: nat)
    reads json
  {
    json.Length == |s| && forall k | i <= k < |s| :: json[k] == s[k]
  }

  lemma EndOnly(s: bytes, n: nat, i: nat)
    requires EndsAt(s, n) && i <= n
    ensures s[i] == NUL <==> i == n
  {
    if i < n { assert s[i] == s[..n][i]; }
  }

  /** Moves the read position behind a one-line comment. */
  method SkipOnelineComment(json: array<byte>, input: nat, ghost s: bytes, ghost n: nat) returns (r: nat)
    requires n < |s| && EndsAt(s, n) && input + 2 <= n && Unread(json, s, input)
    ensures input < r <= n && s[r..n] == AfterLine(s[input + 2..n])
  {
    hide EndsAt, AfterLine;
    r := input + 2;
    EndOnly(s, n, r);
    while json[r] != NUL
      invariant input < r <= n && (json[r] == NUL <==> r == n)
      invariant AfterLine(s[r..n]) == AfterLine(s[input + 2..n])
      decreases n - r
    {
      LineStep(s, r, n);
      if json[r] == NEWLINE {
        r := r + 1;
        return;
      }
      r := r + 1;
      EndOnly(s, n, r);
    }
    assert s[n..n] == [] && AfterLine([]) == [] by { NothingLeft(); }
  }

  lemma NothingLeft()
    ensures AfterLine([]) == [] && AfterBlock([]) == [] && Outside([]) == [] && Inside([]) == []
  {
  }

  /** Moves the read position behind a block comment. */
  method SkipMultilineComment(json: array<byte>, input: nat, ghost s: bytes, ghost n: nat) returns (r: nat)
    requires n < |s| && EndsAt(s, n) && input + 2 <= n && Unread(json, s, input)
    ensures input < r <= n && s[r..n] == AfterBlock(s[input + 2..n])
  {
    hide EndsAt, AfterBlock, Unread;
    ghost var all := AfterBlock(s[input + 2..n]);
    r := input + 2;
    AtRead(json, s, input, r);
    EndOnly(s, n, r);
    while json[r] != NUL
      invariant input < r <= n < json.Length && (json[r] == NUL <==> r == n)
      invariant AfterBlock(s[r..n]) == all
      decreases n - r
    {
      BlockStep(s, r, n);
      EndOnly(s, n, r + 1);
      AtRead(json, s, input, r);
      AtRead(json, s, input, r + 1);
      if json[r] == STAR && json[r + 1] == SLASH {
        assert all == s[r + 2..n];
        r := r + 2;
        return;
      }
      r := r + 1;
    }
    assert s[n..n] == [] && AfterBlock([]) == [] by { NothingLeft(); }
  }

  lemma AtRead(json: array<byte>, s: bytes, i: nat, k: nat)
    requires Unread(json, s, i) && i <= k < |s|
    ensures k < json.Length == |s| && json[k] == s[k]
  {
  }

  lemma UnreadLater(json: array<byte>, s: bytes, i: nat)
    requires Unread(json, s, i)
    ensures Unread(json, s, i + 1)
  {
  }

  /** The front of the array holds `out`. */
  ghost predicate Holds(json: array<byte>, out: bytes)
    reads json
  {
    |out| <= json.Length && forall k | 0 <= k < |out| :: json[k] == out[k]
  }

  /** Writes one byte at the write position; what lies from `r` on is not touched. */
  method Put(json: array<byte>, w: nat, b: byte, ghost out: bytes, ghost s: bytes, ghost r: nat)
    requires w == |out| < r <= |s| && Holds(json, out) && Unread(json, s, r)
    modifies json
    ensures Holds(json, out + [b]) && Unread(json, s, r)
  {
    json[w] := b;
  }

  /** One turn of the copying loop leaves what is copied and what is left in balance. */
  lemma CopiedOne(s: bytes, r: nat, n: nat, out: bytes, all: bytes)
    requires r < n <= |s| && out + Inside(s[r..n]) == all
    ensures s[r] == QUOTE ==> out + [QUOTE] + Outside(s[r + 1..n]) == all
    ensures s[r] == BACKSLASH && r + 1 < n && s[r + 1] == QUOTE ==>
              out + [BACKSLASH] + [QUOTE] + Inside(s[r + 2..n]) == all
    ensures s[r] != QUOTE && !(s[r] == BACKSLASH && r + 1 < n && s[r + 1] == QUOTE) ==>
              out + [s[r]] + Inside(s[r + 1..n]) == all
  {
    hide Inside, Outside;
    InsideStep(s, r, n);
    if s[r] == QUOTE {
      Regroup(out, [QUOTE], Outside(s[r + 1..n]));
    } else if s[r] == BACKSLASH && r + 1 < n && s[r + 1] == QUOTE {
      assert out + [BACKSLASH] + [QUOTE] == out + [BACKSLASH, QUOTE];
      Regroup(out, [BACKSLASH, QUOTE], Inside(s[r + 2..n]));
    } else {
      Regroup(out, [s[r]], Inside(s[r + 1..n]));
    }
  }

  /** Copies a string token, moving both positions over it. What is not read yet stays as it is. */
  method MinifyString(json: array<byte>, input: nat, output: nat, ghost s: bytes, ghost n: nat, ghost before: bytes)
    returns (r: nat, w: nat, ghost out: bytes)
    requires n < |s| && EndsAt(s, n) && output <= input < n && Unread(json, s, input) && s[input] == QUOTE
    requires output == |before| && Holds(json, before)
    modifies json
    ensures input < r <= n && w == |out| <= r && Unread(json, s, r) && Holds(json, out)
    ensures out + Outside(s[r..n]) == before + ([QUOTE] + Inside(s[input + 1..n]))
  {
    hide EndsAt, Inside, Outside, Holds, Unread;
    ghost var all := before + ([QUOTE] + Inside(s[input + 1..n]));
    AtRead(json, s, input, input);
    UnreadLater(json, s, input);
    Put(json, output, json[input], before, s, input + 1);
    r, w, out := input + 1, output + 1, before + [QUOTE];
    Regroup(before, [QUOTE], Inside(s[r..n]));
    EndOnly(s, n, r);
    AtRead(json, s, r, r);
    while json[r] != NUL
      invariant input < r <= n < json.Length && w == |out| <= r && Unread(json, s, r) && Holds(json, out)
      invariant json[r] == s[r] && (json[r] == NUL <==> r == n)
      invariant out + Inside(s[r..n]) == all
      decreases n - r
    {
      CopiedOne(s, r, n, out, all);
      EndOnly(s, n, r + 1);
      var b := json[r];
      UnreadLater(json, s, r);
      Put(json, w, b, out, s, r + 1);
      if b == QUOTE {
        r, w, out := r + 1, w + 1, out + [QUOTE];
        return;
      }
      AtRead(json, s, r + 1, r + 1);
      if b == BACKSLASH && json[r + 1] == QUOTE {
        UnreadLater(json, s, r + 1);
        Put(json, w + 1, json[r + 1], out + [BACKSLASH], s, r + 2);
        r, w, out := r + 1, w + 1, out + [BACKSLASH] + [QUOTE];
        EndOnly(s, n, r + 1);
      } else {
        out := out + [b];
      }
      r, w := r + 1, w + 1;
      AtRead(json, s, r, r);
    }
    assert s[n..n] == [];
    NothingLeft();
  }

  /**
   * The minifier. Afterwards the array holds the filtered text and its terminator, and nothing behind the old
   * terminator has changed.
   */
  method MinifyInPlace(json: array<byte>, ghost n: nat)
    requires n < json.Length && EndsAt(json[..], n)
    modifies json
    ensures var kept := Outside(old(json[..n])); EndsAt(json[..], |kept|) && json[..|kept|] == kept
    ensures json[n + 1..] == old(json[n + 1..])
  {
    hide Outside, Inside, AfterLine, AfterBlock, EndsAt, Holds;
    ghost var s := json[..];
    assert s[0..n] == json[..n];
    ghost var all := Outside(s[0..n]);
    ghost var out: bytes := [];
    assert Holds(json, []) by { HoldsNothing(json); }
    var input, into := 0, 0;
    EndOnly(s, n, 0);
    while json[input] != NUL
      invariant into <= input <= n && Unread(json, s, input)
      invariant json[input] == NUL <==> input == n
      invariant into == |out| && Holds(json, out) && out + Outside(s[input..n]) == all
      decreases n - input
    {
      OutsideStep(s, input, n);
      EndOnly(s, n, input + 1);
      if json[input] == SPACE || json[input] == TAB || json[input] == RETURN || json[input] == NEWLINE {
        input := input + 1;
      } else if json[input] == SLASH {
        if json[input + 1] == SLASH {
          input := SkipOnelineComment(json, input, s, n);
        } else if json[input + 1] == STAR {
          input := SkipMultilineComment(json, input, s, n);
        } else {
          input := input + 1;
        }
      } else if json[input] == QUOTE {
        input, into, out := MinifyString(json, input, into, s, n, out);
      } else {
        Put(json, into, json[input], out, s, input + 1);
        Regroup(out, [s[input]], Outside(s[input + 1..n]));
        out := out + [s[input]];
        input := input + 1;
        into := into + 1;
      }
      EndOnly(s, n, input);
    }
    assert s[n..n] == [];
    NothingLeft();
    assert out == all;
    assert NulFree(out) by { assert NulFree(s[..n]) && s[..n] == s[0..n] by { Front(s, n); } FilterNulFree(s[0..n]); }
    Terminate(json, into, out, s, n + 1);
    assert json[n + 1..] == s[n + 1..];
  }

  /** Writes the terminator behind `out`. */
  method Terminate(json: array<byte>, into: nat, ghost out: bytes, ghost s: bytes, ghost r: nat)
    requires into == |out| < json.Length && Holds(json, out) && NulFree(out) && into < r && Unread(json, s, r)
    modifies json
    ensures EndsAt(json[..], |out|) && json[..|out|] == out && Unread(json, s, r)
  {
    json[into] := NUL;
    assert json[..|out|] == out;
    assert json[..][..|out|] == out;
  }

  lemma Front(s: bytes, n: nat)
    requires n < |s| && EndsAt(s, n)
    ensures NulFree(s[..n]) && s[..n] == s[0..n]
  {
  }

  lemma HoldsNothing(json: array<byte>)
    ensures Holds(json, [])
  {
  }
}
