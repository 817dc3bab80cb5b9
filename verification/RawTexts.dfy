/**
 * The texts of string tokens, piece by piece: plain bytes, two-byte escapes and `\u` literals. They are what the two
 * passes of the parser accept, and their UTF-8 forms put together are what it delivers.
 */
module RawTexts {
  import opened Bytes
  import opened Utf
  import opened Strings
  import opened Layout

  datatype Piece =
    | Byte(b: byte)
    | Short(letter: byte, stands: byte)
    | Spelled(spelling: bytes, scalar: nat, utf8: bytes)
    | Misspelt(digits: bytes)
    | Dangling

  datatype Pieces = NoPieces | Pieces(first: Piece, rest: Pieces)

  /**
   * A two-byte escape stands for the byte that the table of the eight letters gives; a literal spells a scalar value in
   * UTF-16, with digits of either case, and stands for its UTF-8 form.
   */
  predicate PieceWf(piece: Piece) {
    match piece
    case Byte(b) => b != QUOTE && b != BACKSLASH
    case Short(letter, stands) => StandsFor(letter, stands)
    case Spelled(spelling, scalar, utf8) =>
      |spelling| == SpellingWidth(scalar) && Spells(spelling, 0, scalar) && DecodeUtf8(utf8) == Some(scalar)
    case _ => false
  }

  predicate PiecesWf(pieces: Pieces) {
    pieces.Pieces? ==> PieceWf(pieces.first) && PiecesWf(pieces.rest)
  }

  function PieceText(piece: Piece): bytes {
    match piece
    case Byte(b) => [b]
    case Short(letter, _) => [BACKSLASH, letter]
    case Spelled(spelling, _, _) => spelling
    case Misspelt(digits) => [BACKSLASH, LOWER_U] + digits
    case Dangling => [BACKSLASH]
  }

  function PieceValue(piece: Piece): bytes
    requires PieceWf(piece)
  {
    match piece
    case Byte(b) => [b]
    case Short(_, stands) => [stands]
    case Spelled(_, _, utf8) => utf8
  }

  function PiecesText(pieces: Pieces): bytes {
    match pieces
    case NoPieces => []
    case Pieces(first, rest) => PieceText(first) + PiecesText(rest)
  }

  function PiecesValue(pieces: Pieces): bytes
    requires PiecesWf(pieces)
  {
    match pieces
    case NoPieces => []
    case Pieces(first, rest) => PieceValue(first) + PiecesValue(rest)
  }

  /** A `\u` without four hexadecimal digits, although there is room for them. */
  predicate Misspelled(raw: bytes, p: nat) {
    p + 6 <= |raw| && raw[p] == BACKSLASH && raw[p + 1] == LOWER_U && !HexAt(raw, p + 2)
  }

  /** Every `\u` from `p` on has its four digits. */
  predicate ProperDigits(raw: bytes, p: nat)
    decreases |raw| - p
  {
    p + 1 >= |raw|
    || (if raw[p] == BACKSLASH then (raw[p + 1] == LOWER_U ==> HexAt(raw, p + 2)) && ProperDigits(raw, p + 2)
        else ProperDigits(raw, p + 1))
  }

  // ----- Pieces are read -----

  /** Hexadecimal digits are plain bytes to the first pass. */
  lemma DigitsSkipped(t: bytes, p: nat, u: nat)
    requires UnitAt(t, p, u) && p + 6 <= |t|
    ensures ClosingQuote(t, p) == ClosingQuote(t, p + 6)
  {
    assert ClosingQuote(t, p) == ClosingQuote(t, p + 2);
    DigitSkipped(t, p + 2);
    DigitSkipped(t, p + 3);
    DigitSkipped(t, p + 4);
    DigitSkipped(t, p + 5);
  }

  lemma DigitSkipped(t: bytes, p: nat)
    requires p < |t| && IsHex(t[p])
    ensures ClosingQuote(t, p) == ClosingQuote(t, p + 1)
  {
  }

  lemma UnitMoves(t: bytes, p: nat, s: bytes, q: nat, u: nat)
    requires UnitAt(s, q, u) && p + 6 <= |t| && t[p..p + 6] == s[q..q + 6]
    ensures UnitAt(t, p, u)
  {
    var x := s[q..q + 6];
    assert s[q] == x[0] && s[q + 1] == x[1] && s[q + 2] == x[2];
    assert s[q + 3] == x[3] && s[q + 4] == x[4] && s[q + 5] == x[5];
    assert t[p] == x[0] && t[p + 1] == x[1] && t[p + 2] == x[2];
    assert t[p + 3] == x[3] && t[p + 4] == x[4] && t[p + 5] == x[5];
  }

  /** A spelling can be read wherever it stands. */
  lemma SpellingMoves(t: bytes, p: nat, s: bytes, q: nat, c: nat)
    requires var w := SpellingWidth(c); p + w <= |t| && q + w <= |s| && t[p..p + w] == s[q..q + w]
    requires Spells(s, q, c)
    ensures Spells(t, p, c)
  {
    hide UnitAt;
    var x := s[q..q + SpellingWidth(c)];
    assert t[p..p + 6] == x[..6] == s[q..q + 6];
    if c < 0x10000 {
      UnitMoves(t, p, s, q, c);
    } else {
      UnitMoves(t, p, s, q, 0xD800 + (c - 0x10000) / 1024);
      assert t[p + 6..p + 12] == x[6..12] == s[q + 6..q + 12];
      UnitMoves(t, p + 6, s, q + 6, 0xDC00 + (c - 0x10000) % 1024);
    }
  }

  /** A spelling is one turn of the second pass and a whole number of turns of the first. */
  lemma SpellingStep(t: bytes, p: nat, c: nat)
    requires Spells(t, p, c) && p + SpellingWidth(c) < |t|
    ensures UnescapeStep(t, p) == Step(SpellingWidth(c), Encode(c))
    ensures ClosingQuote(t, p) == ClosingQuote(t, p + SpellingWidth(c))
  {
    hide Encode, ReadLiteral, ClosingQuote, ProperDigits, HexAt, Hex4;
    FirstUnit(t, p, c);
    var u := if c < 0x10000 then c else 0xD800 + (c - 0x10000) / 1024;
    DigitsSkipped(t, p, u);
    if c >= 0x10000 {
      DigitsSkipped(t, p + 6, 0xDC00 + (c - 0x10000) % 1024);
    }
    LiteralIsSpelling(t, p, |t| - 1, c);
  }

  lemma FirstUnit(t: bytes, p: nat, c: nat)
    requires Spells(t, p, c)
    ensures p + 6 <= |t| && t[p] == BACKSLASH && t[p + 1] == LOWER_U && HexAt(t, p + 2)
    ensures SpellingWidth(c) == if c < 0x10000 then 6 else 12
    ensures UnitAt(t, p, if c < 0x10000 then c else 0xD800 + (c - 0x10000) / 1024)
    ensures c >= 0x10000 ==> UnitAt(t, p + 6, 0xDC00 + (c - 0x10000) % 1024)
  {
    hide Hex4;
  }

  lemma PieceStep(t: bytes, p: nat, piece: Piece)
    requires PieceWf(piece) && p + |PieceText(piece)| < |t|
    requires At(t, p, PieceText(piece))
    ensures var q := p + |PieceText(piece)|;
            && UnescapeStep(t, p) == Step(|PieceText(piece)|, PieceValue(piece)) && p < q
            && ClosingQuote(t, p) == ClosingQuote(t, q)
  {
    hide Spells, Encode, DecodeUtf8, ReadLiteral;
    if piece.Spelled? {
      DecodedIsEncoded(piece.scalar, piece.utf8);
      SpellingMoves(t, p, piece.spelling, 0, piece.scalar);
      SpellingStep(t, p, piece.scalar);
    } else {
      AtIs(t, p, PieceText(piece));
    }
  }

  /** Both passes go through the pieces to the closing quote. */
  lemma {:induction false} PiecesRead(t: bytes, p: nat, pieces: Pieces)
    requires p < |t| && PiecesWf(pieces) && t[p..] == PiecesText(pieces) + [QUOTE]
    ensures ClosingQuote(t, p) == Some(|t| - 1) && Unescape(t, p) == Plain(PiecesValue(pieces))
    decreases pieces
  {
    hide UnescapeStep, PieceText, PieceValue, PieceWf, HexAt;
    match pieces
    case NoPieces =>
      assert t[p..] == [QUOTE];
      assert t[p] == t[p..][0] && p + 1 == |t|;
    case Pieces(first, rest) =>
      Regroup(PieceText(first), PiecesText(rest), [QUOTE]);
      SuffixSplit(t, p, PieceText(first), PiecesText(rest) + [QUOTE]);
      PieceStep(t, p, first);
      PiecesRead(t, p + |PieceText(first)|, rest);
  }

  // ----- Pieces and the digits -----

  lemma DigitsProper(raw: bytes, p: nat, u: nat)
    requires UnitAt(raw, p, u)
    ensures ProperDigits(raw, p) <==> ProperDigits(raw, p + 6)
  {
    hide Hex4;
    assert ProperDigits(raw, p) == ProperDigits(raw, p + 2);
    DigitProper(raw, p + 2);
    DigitProper(raw, p + 3);
    DigitProper(raw, p + 4);
    DigitProper(raw, p + 5);
  }

  lemma DigitProper(raw: bytes, p: nat)
    requires p < |raw| && IsHex(raw[p])
    ensures ProperDigits(raw, p) <==> ProperDigits(raw, p + 1)
  {
  }

  lemma StepsOver(raw: bytes, p: nat, piece: Piece)
    requires PieceWf(piece) && At(raw, p, PieceText(piece))
    ensures ProperDigits(raw, p) <==> ProperDigits(raw, p + |PieceText(piece)|)
  {
    hide Spells, DecodeUtf8, HexAt, ProperDigits;
    AtIs(raw, p, PieceText(piece));
    if piece.Spelled? {
      var c := piece.scalar;
      SpellingMoves(raw, p, piece.spelling, 0, c);
      FirstUnit(raw, p, c);
      DigitsProper(raw, p, if c < 0x10000 then c else 0xD800 + (c - 0x10000) / 1024);
      if c >= 0x10000 { DigitsProper(raw, p + 6, 0xDC00 + (c - 0x10000) % 1024); }
    } else {
      ShortStep(raw, p);
    }
  }

  lemma ShortStep(raw: bytes, p: nat)
    requires p < |raw|
    ensures raw[p] != BACKSLASH ==> (ProperDigits(raw, p) <==> ProperDigits(raw, p + 1))
    ensures p + 1 < |raw| && raw[p] == BACKSLASH && raw[p + 1] != LOWER_U ==>
              (ProperDigits(raw, p) <==> ProperDigits(raw, p + 2))
  {
    hide HexAt;
  }

  /** Pieces keep in step with the search for bad digits. */
  lemma {:induction false} InStep(raw: bytes, p: nat, pieces: Pieces, at: nat)
    requires p <= at <= |raw| && PiecesWf(pieces) && raw[p..at] == PiecesText(pieces)
    ensures ProperDigits(raw, p) <==> ProperDigits(raw, at)
    decreases pieces
  {
    hide PieceText, PieceWf, HexAt, ProperDigits;
    match pieces
    case NoPieces =>
    case Pieces(first, rest) =>
      var q := p + |PieceText(first)|;
      SplitText(raw, p, at, PieceText(first), PiecesText(rest));
      InStep(raw, q, rest, at);
      StepsOver(raw, p, first);
  }

  lemma SplitText(raw: bytes, p: nat, at: nat, a: bytes, b: bytes)
    requires p <= at <= |raw| && raw[p..at] == a + b
    ensures p + |a| <= at && At(raw, p, a) && raw[p + |a|..at] == b
  {
    var x := raw[p..at];
    assert x[..|a|] == a && x[|a|..] == b;
    assert raw[p..p + |a|] == x[..|a|] && raw[p + |a|..at] == x[|a|..];
  }

  lemma NothingMisspelled(raw: bytes)
    ensures ProperDigits(raw, |raw|)
    ensures forall at :: Misspelled(raw, at) ==> !ProperDigits(raw, at)
  {
    hide HexAt;
  }

  /** Pieces put together are accepted, and so is their value. */
  lemma RawOfPieces(pieces: Pieces)
    requires PiecesWf(pieces)
    ensures IsRaw(PiecesText(pieces)) && RawValue(PiecesText(pieces)) == CString(PiecesValue(pieces))
    ensures ProperDigits(PiecesText(pieces), 0)
  {
    hide ClosingQuote, Unescape, CString, PiecesText, PiecesValue, ProperDigits;
    var t := PiecesText(pieces) + [QUOTE];
    assert t[0..] == t && t[..|t| - 1] == PiecesText(pieces);
    PiecesRead(t, 0, pieces);
    assert PiecesText(pieces)[0..|PiecesText(pieces)|] == PiecesText(pieces);
    InStep(PiecesText(pieces), 0, pieces, |PiecesText(pieces)|);
    NothingMisspelled(PiecesText(pieces));
  }

  // ----- What is read is made of pieces -----

  lemma {:induction false} SameFront(a: bytes, b: bytes, c: bytes)
    requires CString(b) == CString(c)
    ensures CString(a + b) == CString(a + c)
  {
    hide CString;
    if a == [] {
      assert a + b == b && a + c == c;
    } else {
      SameFront(a[1..], b, c);
      Fronted(a, b);
      Fronted(a, c);
    }
  }

  lemma Fronted(a: bytes, b: bytes)
    requires a != []
    ensures CString(a + b) == if a[0] == NUL then [] else [a[0]] + CString(a[1..] + b)
  {
    assert (a + b)[1..] == a[1..] + b;
  }

  /** The piece that one turn of the second pass reads, unless digits are bad. */
  lemma PieceFound(t: bytes, p: nat) returns (piece: Piece)
    requires p + 1 < |t| && ClosingQuote(t, p) == Some(|t| - 1) && UnescapeStep(t, p).Step?
    requires !Misspelled(t[..|t| - 1], p)
    ensures PieceWf(piece) && p + |PieceText(piece)| < |t|
    ensures At(t, p, PieceText(piece))
  {
    hide Spells, Encode, DecodeUtf8, ReadLiteral, HexAt, UnitAt;
    if t[p] != BACKSLASH {
      piece := Byte(t[p]);
    } else if IsSimpleEscape(t[p + 1]) {
      assert p + 2 < |t|;
      piece := Short(t[p + 1], SimpleEscape(t[p + 1]));
      SimpleEscapesExactly(t[p + 1], SimpleEscape(t[p + 1]));
    } else {
      piece := SpellingFound(t, p);
    }
  }

  lemma SpellingFound(t: bytes, p: nat) returns (piece: Piece)
    requires p + 1 < |t| && t[p] == BACKSLASH && t[p + 1] == LOWER_U && ReadLiteral(t, p, |t| - 1).Literal?
    requires !Misspelled(t[..|t| - 1], p)
    ensures PieceWf(piece) && p + |PieceText(piece)| < |t|
    ensures At(t, p, PieceText(piece))
  {
    hide Spells, Encode, DecodeUtf8, ReadLiteral, Hex4;
    var literal := ReadLiteral(t, p, |t| - 1);
    var c := literal.codepoint;
    WidthFits(t, p, |t| - 1);
    assert HexAt(t, p + 2);
    LiteralIsSpelling(t, p, |t| - 1, c);
    var spelling := t[p..p + SpellingWidth(c)];
    SpellingMoves(spelling, 0, t, p, c);
    EncodeIsTheUtf8Form(c, Encode(c));
    piece := Spelled(spelling, c, Encode(c));
  }

  lemma WidthFits(t: bytes, p: nat, end: nat)
    requires p <= end < |t| && ReadLiteral(t, p, end).Literal?
    ensures var l := ReadLiteral(t, p, end);
            l.width == SpellingWidth(l.codepoint) && IsScalar(l.codepoint) && p + 6 <= end
  {
    hide Hex4, Combine;
    var first := Hex4(t, p + 2);
    if IsHighSurrogate(first) { CombineIs(first, Hex4(t, p + 8)); }
  }

  /** A literal with bad digits reads as NUL, which ends the C string. */
  lemma MisspelledIsNul(t: bytes, p: nat)
    requires p + 1 < |t| && Misspelled(t[..|t| - 1], p)
    ensures UnescapeStep(t, p) == Step(6, [NUL])
  {
    assert !HexAt(t, p + 2);
    EncodeArithmetic(0);
  }

  /**
   * An accepted text is made of pieces up to its end or up to its first misspelled literal, and their UTF-8 is what
   * the C string keeps of the result.
   */
  lemma {:induction false} PiecesFound(t: bytes, p: nat) returns (pieces: Pieces, at: nat)
    requires p < |t| && ClosingQuote(t, p) == Some(|t| - 1) && Unescape(t, p).Plain?
    ensures PiecesWf(pieces) && p <= at < |t| && t[p..at] == PiecesText(pieces)
    ensures at == |t| - 1 || Misspelled(t[..|t| - 1], at)
    ensures CString(Unescape(t, p).text) == CString(PiecesValue(pieces))
    decreases |t| - p
  {
    hide ClosingQuote, UnescapeStep, PieceWf, PieceText, PieceValue, CString, Misspelled, At;
    if p == |t| - 1 {
      pieces, at := NoPieces, p;
    } else if Misspelled(t[..|t| - 1], p) {
      pieces, at := NoPieces, p;
      MisspelledIsNul(t, p);
      CutAtNul(t, p);
    } else {
      var first := PieceFound(t, p);
      PieceStep(t, p, first);
      var q := p + |PieceText(first)|;
      var rest;
      rest, at := PiecesFound(t, q);
      pieces := Pieces(first, rest);
      SameFront(PieceValue(first), Unescape(t, q).text, PiecesValue(rest));
      Slices(t, p, q, at);
      assert t[p..q] == PieceText(first) by { AtIs(t, p, PieceText(first)); }
    }
  }

  lemma Slices(t: bytes, p: nat, q: nat, at: nat)
    requires p <= q <= at <= |t|
    ensures t[p..at] == t[p..q] + t[q..at]
  {
  }

  lemma CutAtNul(t: bytes, p: nat)
    requires p + 1 < |t| && UnescapeStep(t, p) == Step(6, [NUL]) && Unescape(t, p).Plain?
    ensures CString(Unescape(t, p).text) == [] == CString(PiecesValue(NoPieces))
  {
    hide UnescapeStep;
  }

  /** The pieces of an accepted text, and where they end. */
  lemma PiecesOfRaw(raw: bytes) returns (pieces: Pieces, at: nat)
    requires IsRaw(raw)
    ensures PiecesWf(pieces) && at <= |raw| && raw[..at] == PiecesText(pieces)
    ensures RawValue(raw) == CString(PiecesValue(pieces))
    ensures at == |raw| || Misspelled(raw, at)
    ensures ProperDigits(raw, 0) ==> at == |raw|
  {
    hide ClosingQuote, Unescape, CString, PiecesText, PiecesValue, PiecesWf, ProperDigits, Misspelled;
    var t := raw + [QUOTE];
    assert t[..|t| - 1] == raw;
    pieces, at := PiecesFound(t, 0);
    assert t[0..at] == raw[..at];
    InStep(raw, 0, pieces, at);
    NothingMisspelled(raw);
  }

  /**
   * The language of string tokens: sequences of pieces are accepted, with their UTF-8 up to the first NUL as value, and
   * nothing else is among the texts whose `\u` all have four digits.
   */
  lemma RawTextsExactly(raw: bytes, text: bytes)
    ensures (exists pieces :: PiecesWf(pieces) && PiecesText(pieces) == raw && CString(PiecesValue(pieces)) == text)
            <==> IsRaw(raw) && RawValue(raw) == text && ProperDigits(raw, 0)
  {
    hide IsRaw, RawValue, PiecesText, PiecesValue, PiecesWf, ProperDigits, CString, Misspelled;
    if pieces :| PiecesWf(pieces) && PiecesText(pieces) == raw && CString(PiecesValue(pieces)) == text {
      RawOfPieces(pieces);
    }
    if IsRaw(raw) && RawValue(raw) == text && ProperDigits(raw, 0) {
      var pieces, at := PiecesOfRaw(raw);
      assert raw[..at] == raw;
    }
  }

  // ----- All accepted texts -----

  /** How many backslashes stand directly in front of `p`. */
  function Backslashes(raw: bytes, p: nat): nat
    requires p <= |raw|
  {
    if p > 0 && raw[p - 1] == BACKSLASH then 1 + Backslashes(raw, p - 1) else 0
  }

  predicate Escaped(raw: bytes, p: nat)
    requires p <= |raw|
  {
    Backslashes(raw, p) % 2 == 1
  }

  /** The quote behind the text is the first that is not escaped. */
  predicate Closes(raw: bytes, from: nat) {
    (forall p | from <= p < |raw| && raw[p] == QUOTE :: Escaped(raw, p)) && !Escaped(raw, |raw|)
  }

  /** The first pass finds the first quote that is not escaped. */
  lemma {:induction false} QuoteCloses(raw: bytes, p: nat)
    requires p <= |raw| && !Escaped(raw, p)
    ensures ClosingQuote(raw + [QUOTE], p) == Some(|raw|) <==> Closes(raw, p)
    decreases |raw| - p
  {
    var t := raw + [QUOTE];
    if p < |raw| && raw[p] == BACKSLASH {
      assert Backslashes(raw, p + 1) == 1 + Backslashes(raw, p);
      if p + 1 < |raw| {
        assert raw[p + 1] == QUOTE ==> Escaped(raw, p + 1);
        assert !Escaped(raw, p + 2);
        QuoteCloses(raw, p + 2);
      } else {
        assert ClosingQuote(t, p + 2) == None;
      }
    } else if p < |raw| && raw[p] != QUOTE {
      QuoteCloses(raw, p + 1);
    }
  }

  /**
   * Behind a misspelled literal the writing pass may be out of step: it may meet a quote as a plain byte, and at the
   * end a backslash that goes with the closing quote.
   */
  predicate LoosePiece(piece: Piece) {
    match piece
    case Byte(b) => b != BACKSLASH
    case Misspelt(digits) => |digits| == 4 && !HexAt(digits, 0)
    case Dangling => true
    case _ => PieceWf(piece)
  }

  predicate LooseWf(pieces: Pieces) {
    pieces.Pieces? ==>
      LoosePiece(pieces.first) && (pieces.first.Dangling? ==> pieces.rest.NoPieces?) && LooseWf(pieces.rest)
  }

  function LoosePieceValue(piece: Piece): bytes
    requires LoosePiece(piece)
  {
    match piece
    case Byte(b) => [b]
    case Misspelt(_) => [NUL]
    case Dangling => [QUOTE]
    case _ => PieceValue(piece)
  }

  function LooseValue(pieces: Pieces): bytes
    requires LooseWf(pieces)
  {
    match pieces
    case NoPieces => []
    case Pieces(first, rest) => LoosePieceValue(first) + LooseValue(rest)
  }

  lemma MisspeltStep(t: bytes, p: nat, digits: bytes)
    requires |digits| == 4 && p + 6 < |t| && At(t, p, [BACKSLASH, LOWER_U] + digits)
    ensures Misspelled(t[..|t| - 1], p) <==> !HexAt(digits, 0)
    ensures t[p] == BACKSLASH && t[p + 1] == LOWER_U
  {
    AtIs(t, p, [BACKSLASH, LOWER_U] + digits);
    var raw := t[..|t| - 1];
    assert forall k | 0 <= k < 4 :: raw[p + 2 + k] == ([BACKSLASH, LOWER_U] + digits)[2 + k] == digits[k];
  }

  lemma LooseStep(t: bytes, p: nat, piece: Piece)
    requires LoosePiece(piece) && !piece.Dangling? && p + |PieceText(piece)| < |t| && At(t, p, PieceText(piece))
    ensures p < p + |PieceText(piece)|
    ensures UnescapeStep(t, p) == Step(|PieceText(piece)|, LoosePieceValue(piece))
  {
    hide UnescapeStep, Misspelled, HexAt, PieceWf, PieceValue;
    match piece
    case Byte(b) => ByteStep(t, p, b);
    case Misspelt(digits) =>
      MisspeltStep(t, p, digits);
      MisspelledIsNul(t, p);
    case _ => PieceStep(t, p, piece);
  }

  lemma ByteStep(t: bytes, p: nat, b: byte)
    requires b != BACKSLASH && p + 1 < |t| && At(t, p, [b])
    ensures UnescapeStep(t, p) == Step(1, [b])
  {
    AtIs(t, p, [b]);
  }

  /** One piece of a text is one turn of the second pass. */
  lemma Turn(t: bytes, p: nat, width: nat, out: bytes)
    requires p + 1 < |t| && UnescapeStep(t, p) == Step(width, out) && width > 0 && p + width <= |t|
    ensures Unescape(t, p) == Prepend(out, Unescape(t, p + width))
  {
    hide UnescapeStep;
  }

  /** The second pass goes through loose pieces to the end. */
  lemma {:induction false} LooseRead(t: bytes, p: nat, pieces: Pieces)
    requires p < |t| && t[|t| - 1] == QUOTE && LooseWf(pieces) && t[p..] == PiecesText(pieces) + [QUOTE]
    ensures Unescape(t, p) == Plain(LooseValue(pieces))
    decreases pieces
  {
    hide UnescapeStep, Unescape, PieceText, LoosePiece, LoosePieceValue;
    match pieces
    case NoPieces =>
      assert t[p..] == [QUOTE];
      NothingLeft(t, p);
    case Pieces(first, rest) =>
      Regroup(PieceText(first), PiecesText(rest), [QUOTE]);
      SuffixSplit(t, p, PieceText(first), PiecesText(rest) + [QUOTE]);
      if first.Dangling? {
        DanglingStep(t, p, rest);
      } else {
        var q := p + |PieceText(first)|;
        assert t[p..q] == PieceText(first);
        LooseStep(t, p, first);
        Turn(t, p, |PieceText(first)|, LoosePieceValue(first));
        LooseRead(t, q, rest);
      }
  }

  lemma NothingLeft(t: bytes, p: nat)
    requires t != [] && p <= |t| <= p + 1
    ensures Unescape(t, p) == Plain([])
  {
  }

  /** A backslash in front of the closing quote is taken for an escaped quote. */
  lemma DanglingStep(t: bytes, p: nat, rest: Pieces)
    requires p < |t| && t[|t| - 1] == QUOTE && rest == NoPieces
    requires t[p..] == PieceText(Dangling) + (PiecesText(rest) + [QUOTE])
    ensures Unescape(t, p) == Plain(LooseValue(Pieces(Dangling, rest)))
  {
    assert t[p..] == [BACKSLASH, QUOTE];
    assert t[p] == t[p..][0] && t[p + 1] == t[p..][1] && |t| == p + 2;
    Turn(t, p, 2, [QUOTE]);
    NothingLeft(t, p + 2);
  }

  /** Whatever the second pass gets through is made of loose pieces. */
  lemma {:induction false} LooseFound(t: bytes, p: nat) returns (pieces: Pieces)
    requires p < |t| && t[|t| - 1] == QUOTE && Unescape(t, p).Plain?
    ensures LooseWf(pieces) && t[p..|t| - 1] == PiecesText(pieces)
    ensures Unescape(t, p).text == LooseValue(pieces)
    decreases |t| - p
  {
    hide UnescapeStep, Unescape, PieceText, LoosePiece, LoosePieceValue, Misspelled, At;
    if p == |t| - 1 {
      pieces := NoPieces;
      NothingLeft(t, p);
    } else if p == |t| - 2 && t[p] == BACKSLASH {
      pieces := Pieces(Dangling, NoPieces);
      assert t[p..] == [BACKSLASH, QUOTE];
      DanglingFound(t, p);
    } else {
      StepTaken(t, p);
      var first := LoosePieceFound(t, p);
      LooseStep(t, p, first);
      var q := p + |PieceText(first)|;
      Turn(t, p, |PieceText(first)|, LoosePieceValue(first));
      var rest := LooseFound(t, q);
      pieces := Pieces(first, rest);
      Slices(t, p, q, |t| - 1);
      assert t[p..q] == PieceText(first) by { AtIs(t, p, PieceText(first)); }
    }
  }

  lemma DanglingFound(t: bytes, p: nat)
    requires p + 2 == |t| && t[p..] == [BACKSLASH, QUOTE]
    ensures LooseWf(Pieces(Dangling, NoPieces)) && t[p..|t| - 1] == PiecesText(Pieces(Dangling, NoPieces))
    ensures Unescape(t, p) == Plain(LooseValue(Pieces(Dangling, NoPieces)))
  {
    assert t[p] == t[p..][0] && t[p + 1] == t[p..][1];
    DanglingStep(t, p, NoPieces);
  }

  lemma StepTaken(t: bytes, p: nat)
    requires p + 1 < |t| && Unescape(t, p).Plain?
    ensures UnescapeStep(t, p).Step?
  {
    hide UnescapeStep;
  }

  lemma LoosePieceFound(t: bytes, p: nat) returns (piece: Piece)
    requires p + 1 < |t| && UnescapeStep(t, p).Step? && !(p == |t| - 2 && t[p] == BACKSLASH)
    ensures LoosePiece(piece) && !piece.Dangling? && p + |PieceText(piece)| < |t| && At(t, p, PieceText(piece))
  {
    hide Spells, Encode, DecodeUtf8, ReadLiteral, HexAt, UnitAt;
    if t[p] != BACKSLASH {
      piece := Byte(t[p]);
    } else if IsSimpleEscape(t[p + 1]) {
      piece := Short(t[p + 1], SimpleEscape(t[p + 1]));
      SimpleEscapesExactly(t[p + 1], SimpleEscape(t[p + 1]));
    } else if Misspelled(t[..|t| - 1], p) {
      var digits := t[p + 2..p + 6];
      piece := Misspelt(digits);
      assert t[p..p + 6] == [BACKSLASH, LOWER_U] + digits;
      MisspeltStep(t, p, digits);
    } else {
      piece := SpellingFound(t, p);
    }
  }

  /**
   * The whole language of string tokens: a text between quotes is accepted with a value if and only if the quote behind
   * it is the first that is not escaped and it is made of plain bytes, two-byte escapes, literals and misspelled
   * literals, which stand for NUL, with that value up to the first NUL.
   */
  lemma StringTextsExactly(raw: bytes, text: bytes)
    ensures IsRaw(raw) && RawValue(raw) == text
            <==> Closes(raw, 0)
                 && exists pieces :: LooseWf(pieces) && PiecesText(pieces) == raw && CString(LooseValue(pieces)) == text
  {
    hide Unescape, ClosingQuote, PiecesText, LooseValue, LooseWf, CString, Closes;
    var t := raw + [QUOTE];
    assert t[0..] == t && t[0..|t| - 1] == raw;
    QuoteCloses(raw, 0);
    if IsRaw(raw) && RawValue(raw) == text {
      var pieces := LooseFound(t, 0);
    }
    if pieces :| LooseWf(pieces) && PiecesText(pieces) == raw && CString(LooseValue(pieces)) == text {
      LooseRead(t, 0, pieces);
    }
  }
}
