/** The named bytes, as the characters they are in ASCII, and what the named bounds are in numerals. */
module Characters {
  import opened Bytes
  import opened JsonTree
  import Numbers
  import Grammar
  import Minify
  import Utf

  predicate Ascii(s: string) { forall i | 0 <= i < |s| :: 0 < s[i] as int < 128 }

  /** The bytes of an ASCII text. */
  function Codes(s: string): (b: bytes)
    requires Ascii(s)
    ensures |b| == |s| && forall i | 0 <= i < |b| :: b[i] == s[i] as int
  {
    seq(|s|, i requires 0 <= i < |s| => s[i] as int)
  }

  /** Every named byte is the character that its name says. */
  lemma NamedBytes()
    ensures NUL == '\0' as int == 0 && BACKSPACE == 8 && TAB == '\t' as int == 9 && NEWLINE == '\n' as int == 10
    ensures FORM_FEED == 12 && RETURN == '\r' as int == 13 && SPACE == ' ' as int == 32 && QUOTE == '\"' as int == 34
    ensures STAR == '*' as int && PLUS == '+' as int && COMMA == ',' as int && MINUS == '-' as int && DOT == '.' as int
    ensures SLASH == '/' as int && ZERO == '0' as int && NINE == '9' as int && COLON == ':' as int
    ensures UPPER_E == 'E' as int && LOWER_E == 'e' as int && BACKSLASH == '\\' as int
    ensures LBRACKET == '[' as int && RBRACKET == ']' as int && LBRACE == '{' as int && RBRACE == '}' as int
    ensures LOWER_B == 'b' as int && LOWER_F == 'f' as int && LOWER_N == 'n' as int && LOWER_R == 'r' as int
    ensures LOWER_T == 't' as int && LOWER_U == 'u' as int
  {
  }

  /** The three words are spelled as they are named, and the byte order mark is the UTF-8 form of U+FEFF. */
  lemma NamedTexts()
    ensures NULL_WORD == Codes("null") && FALSE_WORD == Codes("false") && TRUE_WORD == Codes("true")
    ensures Utf.DecodeUtf8(BOM) == Some(0xFEFF)
  {
  }

  /** The classes of bytes that decide what is skipped and what belongs to a number. */
  lemma ByteClasses(b: byte)
    ensures Grammar.IsSpace(b) <==> b <= 32
    ensures Minify.IsBlank(b) <==> b == 32 || b == 9 || b == 13 || b == 10
    ensures Numbers.IsDigit(b) <==> 48 <= b <= 57
    ensures Numbers.IsNumberByte(b) <==> 48 <= b <= 57 || b == 43 || b == 45 || b == 46 || b == 69 || b == 101
  {
  }

  lemma Bounds()
    ensures INT_MAX == 2147483647 && INT_MIN == -2147483648 && NESTING_LIMIT == 1000 && Numbers.NUMBER_BUFFER == 63
  {
  }
}
