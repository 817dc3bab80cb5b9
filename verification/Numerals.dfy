/** The numerals that number parsing uses up completely, part by part, and what they are worth. */
module Numerals {
  import opened Bytes
  import opened Numbers

  datatype Exponent = NoExponent | Exponent(mark: byte, sign: bytes, digits: bytes)

  datatype Numeral = Numeral(sign: bytes, whole: bytes, dot: bool, fraction: bytes, exponent: Exponent)

  predicate SignPart(t: bytes) { t == [] || t == [PLUS] || t == [MINUS] }

  predicate AllDigits(t: bytes) { forall k | 0 <= k < |t| :: IsDigit(t[k]) }

  predicate ExponentWf(e: Exponent) {
    e.Exponent? ==>
      (e.mark == LOWER_E || e.mark == UPPER_E) && SignPart(e.sign) && AllDigits(e.digits) && e.digits != []
  }

  /** A digit is needed in front of or behind the dot, and in an exponent. */
  predicate NumeralWf(n: Numeral) {
    && SignPart(n.sign) && AllDigits(n.whole) && AllDigits(n.fraction) && ExponentWf(n.exponent)
    && (n.fraction != [] ==> n.dot) && n.whole + n.fraction != []
  }

  function ExponentText(e: Exponent): bytes {
    match e
    case NoExponent => []
    case Exponent(mark, sign, digits) => [mark] + (sign + digits)
  }

  function DotText(n: Numeral): bytes { if n.dot then [DOT] + n.fraction else [] }

  function NumeralText(n: Numeral): bytes { n.sign + (n.whole + (DotText(n) + ExponentText(n.exponent))) }

  /** All digits read as one integer, with the decimal point moved by the fraction. */
  function Magnitude(n: Numeral): real
    requires NumeralWf(n)
  {
    AllDigitsJoin(n.whole, n.fraction);
    DigitsValue(n.whole + n.fraction) as real / Pow10(|n.fraction|)
  }

  /** The sign and the exponent applied to it. */
  function NumeralValue(n: Numeral): real
    requires NumeralWf(n)
  {
    Scaled(if n.sign == [MINUS] then -Magnitude(n) else Magnitude(n), n.exponent)
  }

  lemma AllDigitsJoin(a: bytes, b: bytes)
    requires AllDigits(a) && AllDigits(b)
    ensures AllDigits(a + b)
  {
  }

  lemma DigitsSnoc(t: bytes, d: byte)
    requires AllDigits(t) && IsDigit(d)
    ensures AllDigits(t + [d]) && DigitsValue(t + [d]) == 10 * DigitsValue(t) + (d - ZERO)
  {
    assert (t + [d])[..|t|] == t;
  }

  lemma {:induction false} DigitsJoin(a: bytes, b: bytes)
    requires AllDigits(a) && AllDigits(b)
    ensures AllDigits(a + b) && DigitsValue(a + b) == DigitsValue(a) * Pow(|b|) + DigitsValue(b)
    decreases |b|
  {
    hide DigitsValue;
    AllDigitsJoin(a, b);
    if b == [] {
      assert a + b == a;
      NothingBehind();
    } else {
      var d, x := b[..|b| - 1], b[|b| - 1];
      DigitsJoin(a, d);
      assert a + b == (a + d) + [x] && b == d + [x];
      DigitsSnoc(a + d, x);
      DigitsSnoc(d, x);
      Tenfold(DigitsValue(a), Pow(|d|), DigitsValue(d));
    }
  }

  lemma Tenfold(a: int, p: int, d: int)
    ensures 10 * (a * p + d) == a * (10 * p) + 10 * d
  {
  }

  lemma {:induction false} PowerIsReal(n: nat)
    ensures Pow10(n) == Pow(n) as real > 0.0
  {
    if n > 0 { PowerIsReal(n - 1); }
  }

  lemma FractionValue(whole: bytes, fraction: bytes)
    requires AllDigits(whole) && AllDigits(fraction)
    ensures AllDigits(whole + fraction)
    ensures DigitsValue(whole + fraction) as real / Pow10(|fraction|)
         == DigitsValue(whole) as real + DigitsValue(fraction) as real / Pow10(|fraction|)
  {
    hide DigitsValue, Pow10, Pow;
    DigitsJoin(whole, fraction);
    PowerIsReal(|fraction|);
    Divided(DigitsValue(whole), Pow(|fraction|), DigitsValue(fraction));
  }

  lemma Divided(a: int, p: int, f: int)
    requires p as real > 0.0
    ensures (a * p + f) as real / p as real == a as real + f as real / p as real
  {
    ProductIsReal(a, p);
    var x, y, z := a as real, p as real, f as real;
    assert (x * y + z) / y == x + z / y;
  }

  lemma ProductIsReal(a: int, p: int)
    ensures (a * p) as real == a as real * p as real
  {
  }

  lemma {:induction false} DigitsEndIs(t: bytes, i: nat, e: nat)
    requires i <= e <= |t| && (forall k | i <= k < e :: IsDigit(t[k])) && (e < |t| ==> !IsDigit(t[e]))
    ensures DigitsEnd(t, i) == e
    decreases e - i
  {
    if i < e { DigitsEndIs(t, i + 1, e); }
  }

  lemma ExponentParts(t: bytes, k: nat, mark: byte, sign: bytes, digits: bytes)
    requires k <= |t| && t[k..] == [mark] + (sign + digits) && SignPart(sign) && AllDigits(digits) && digits != []
    ensures var m := k + 1 + |sign|;
            && k + 1 < |t| && t[k] == mark && (t[k + 1] == MINUS <==> sign == [MINUS])
            && AfterSign(t, k + 1) == m < |t| && DigitsEnd(t, m) == |t| && t[m..|t|] == digits
  {
    hide *;
    Behind(t, k, [mark], sign + digits);
    NoSign(digits);
    SignIsRead(t, k + 1, sign, digits);
    Behind(t, k + 1, sign, digits);
    LastDigits(t, k + 1 + |sign|, digits);
  }

  lemma LastDigits(t: bytes, m: nat, digits: bytes)
    requires m <= |t| && t[m..] == digits && AllDigits(digits)
    ensures DigitsEnd(t, m) == |t| == m + |digits| && t[m..|t|] == digits
  {
    hide *;
    Stands(t, m, digits);
    assert digits + [] == digits;
    DigitsAreRead(t, m, digits, []);
  }

  lemma NoSign(digits: bytes)
    requires AllDigits(digits) && digits != []
    ensures !IsSign(digits[0]) && digits[0] != MINUS
  {
  }

  lemma SignIsRead(t: bytes, i: nat, sign: bytes, rest: bytes)
    requires i <= |t| && t[i..] == sign + rest && SignPart(sign) && rest != [] && !IsSign(rest[0])
    ensures i < |t| && AfterSign(t, i) == i + |sign| && (t[i] == MINUS <==> sign == [MINUS])
  {
    Behind(t, i, sign, rest);
  }

  lemma DigitsAreRead(t: bytes, i: nat, digits: bytes, rest: bytes)
    requires i <= |t| && t[i..] == digits + rest && AllDigits(digits) && (rest != [] ==> !IsDigit(rest[0]))
    ensures var e := i + |digits|; e <= |t| && DigitsEnd(t, i) == e && t[i..e] == digits && t[e..] == rest
  {
    hide DigitsEnd, IsDigit;
    Behind(t, i, digits, rest);
    Stands(t, i + |digits|, rest);
    forall j | i <= j < i + |digits| ensures IsDigit(t[j]) {
      assert t[j] == t[i..i + |digits|][j - i];
    }
    DigitsEndIs(t, i, i + |digits|);
  }

  /** What follows `i` in two parts. */
  lemma Behind(t: bytes, i: nat, a: bytes, b: bytes)
    requires i <= |t| && t[i..] == a + b
    ensures i + |a| <= |t| && t[i..i + |a|] == a && t[i + |a|..] == b
    ensures i < |t| ==> t[i] == (a + b)[0]
  {
    assert forall j | i <= j < |t| :: t[j] == t[i..][j - i];
    assert t[i..][|a|..] == b && t[i..][..|a|] == a;
    assert t[i + |a|..] == t[i..][|a|..];
    assert t[i..i + |a|] == t[i..][..|a|];
  }

  lemma Stands(t: bytes, i: nat, a: bytes)
    requires i <= |t| && t[i..] == a
    ensures i < |t| ==> t[i] == a[0]
    ensures t[i..|t|] == a && |t| == i + |a|
  {
  }

  function Scaled(mantissa: real, e: Exponent): real
    requires ExponentWf(e)
  {
    match e
    case NoExponent => mantissa
    case Exponent(_, sign, digits) =>
      if sign == [MINUS] then mantissa / Pow10(DigitsValue(digits)) else mantissa * Pow10(DigitsValue(digits))
  }

  lemma ScaleReads(t: bytes, k: nat, mantissa: real, e: Exponent)
    requires k <= |t| && t[k..] == ExponentText(e) && ExponentWf(e)
    ensures Scale(t, k, mantissa) == Conversion(|t|, Scaled(mantissa, e))
  {
    hide Pow10, DigitsValue, DigitsEnd, AfterSign;
    if e.Exponent? { ExponentParts(t, k, e.mark, e.sign, e.digits); }
  }

  /** Where the parts of a numeral stand. */
  lemma NumeralParts(n: Numeral)
    requires NumeralWf(n)
    ensures var t, from, j := NumeralText(n), |n.sign|, |n.sign| + |n.whole|;
            && from <= j <= |t| && AfterSign(t, 0) == from && DigitsEnd(t, from) == j && t[from..j] == n.whole
            && t[j..] == DotText(n) + ExponentText(n.exponent)
            && (n.dot <==> j < |t| && t[j] == DOT) && (|t| > 0 && t[0] == MINUS <==> n.sign == [MINUS])
  {
    hide DigitsEnd, DotText, ExponentText, AfterSign, AllDigits, SignPart, IsDigit, ExponentWf;
    var t, from := NumeralText(n), |n.sign|;
    var rest := DotText(n) + ExponentText(n.exponent);
    assert t[0..] == t;
    RestStarts(n);
    DigitOrDot(n, rest);
    SignIsRead(t, 0, n.sign, n.whole + rest);
    Behind(t, 0, n.sign, n.whole + rest);
    DigitsAreRead(t, from, n.whole, rest);
    Stands(t, from + |n.whole|, rest);
  }

  lemma DigitOrDot(n: Numeral, rest: bytes)
    requires NumeralWf(n) && (n.dot ==> rest != [] && rest[0] == DOT)
    ensures n.whole + rest != [] && !IsSign((n.whole + rest)[0])
  {
    if n.whole != [] { NoSign(n.whole); }
  }

  /** What follows the whole digits. */
  lemma RestStarts(n: Numeral)
    requires NumeralWf(n)
    ensures var rest := DotText(n) + ExponentText(n.exponent);
            (rest != [] ==> !IsDigit(rest[0])) && (n.dot <==> rest != [] && rest[0] == DOT)
  {
    hide ExponentText;
    ExponentStarts(n.exponent);
  }

  lemma ExponentStarts(e: Exponent)
    requires ExponentWf(e)
    ensures ExponentText(e) != [] ==> !IsDigit(ExponentText(e)[0]) && ExponentText(e)[0] != DOT
  {
  }

  lemma FractionParts(t: bytes, j: nat, fraction: bytes, e: Exponent)
    requires j <= |t| && t[j..] == [DOT] + fraction + ExponentText(e) && AllDigits(fraction) && ExponentWf(e)
    ensures var k := j + 1 + |fraction|;
            j < k <= |t| && DigitsEnd(t, j + 1) == k && t[j + 1..k] == fraction && t[k..] == ExponentText(e)
  {
    hide DigitsEnd, ExponentText, AllDigits, ExponentWf;
    assert [DOT] + fraction + ExponentText(e) == [DOT] + (fraction + ExponentText(e));
    Behind(t, j, [DOT], fraction + ExponentText(e));
    ExponentStarts(e);
    DigitsAreRead(t, j + 1, fraction, ExponentText(e));
  }

  /** What `strtod` makes of a text whose sign and whole digits are known. */
  lemma StrtodIs(t: bytes, from: nat, j: nat)
    requires AfterSign(t, 0) == from && DigitsEnd(t, from) == j
    ensures from <= j <= |t| && AllDigits(t[from..j])
    ensures (j < |t| && t[j] == DOT) ==>
              var k := DigitsEnd(t, j + 1);
              && AllDigits(t[j + 1..k])
              && (j > from || k > j + 1 ==>
                    Strtod(t) == Scale(t, k, Signed(t, 0, DigitsValue(t[from..j]) as real
                                                          + DigitsValue(t[j + 1..k]) as real / Pow10(k - j - 1))))
    ensures !(j < |t| && t[j] == DOT) && j > from ==>
              Strtod(t) == Scale(t, j, Signed(t, 0, DigitsValue(t[from..j]) as real))
  {
    hide DigitsValue, Pow10, Scale, Signed, DigitsEnd, AfterSign;
  }

  lemma DottedIsRead(n: Numeral)
    requires NumeralWf(n) && n.dot
    ensures var magnitude := Magnitude(n); var t := NumeralText(n);
            Strtod(t) == Conversion(|t|, Scaled(Signed(t, 0, magnitude), n.exponent))
  {
    hide *;
    var t, from, j := NumeralText(n), |n.sign|, |n.sign| + |n.whole|;
    NumeralParts(n);
    WfParts(n);
    FractionParts(t, j, n.fraction, n.exponent);
    FractionValue(n.whole, n.fraction);
    MagnitudeIs(n);
    StrtodIs(t, from, j);
    ScaleReads(t, j + 1 + |n.fraction|, Signed(t, 0, Magnitude(n)), n.exponent);
  }

  lemma UndottedIsRead(n: Numeral)
    requires NumeralWf(n) && !n.dot
    ensures var magnitude := Magnitude(n); var t := NumeralText(n);
            Strtod(t) == Conversion(|t|, Scaled(Signed(t, 0, magnitude), n.exponent))
  {
    hide *;
    var t, from, j := NumeralText(n), |n.sign|, |n.sign| + |n.whole|;
    NumeralParts(n);
    WfParts(n);
    NothingBehind();
    FractionValue(n.whole, n.fraction);
    MagnitudeIs(n);
    StrtodIs(t, from, j);
    ScaleReads(t, j, Signed(t, 0, Magnitude(n)), n.exponent);
  }

  lemma WfParts(n: Numeral)
    requires NumeralWf(n)
    ensures AllDigits(n.whole) && AllDigits(n.fraction) && ExponentWf(n.exponent) && |n.whole| + |n.fraction| > 0
    ensures if n.dot then DotText(n) + ExponentText(n.exponent) == [DOT] + n.fraction + ExponentText(n.exponent)
            else n.fraction == [] && DotText(n) + ExponentText(n.exponent) == ExponentText(n.exponent)
  {
    hide AllDigits, ExponentWf, ExponentText;
  }

  lemma MagnitudeIs(n: Numeral)
    requires NumeralWf(n)
    ensures AllDigits(n.whole + n.fraction)
    ensures Magnitude(n) == DigitsValue(n.whole + n.fraction) as real / Pow10(|n.fraction|)
  {
  }

  /** Every numeral is read completely, to the value of its parts. */
  lemma NumeralIsRead(n: Numeral)
    requires NumeralWf(n)
    ensures Strtod(NumeralText(n)) == Conversion(|NumeralText(n)|, NumeralValue(n))
  {
    hide Strtod, NumeralText, Magnitude, Scaled, NumeralWf, ExponentWf, DotText, ExponentText, DigitsEnd, AfterSign;
    NumeralParts(n);
    if n.dot { DottedIsRead(n); } else { UndottedIsRead(n); }
  }

  lemma NothingBehind()
    ensures DigitsValue([]) == 0 && Pow10(0) == 1.0 && Pow(0) == 1
  {
  }

  lemma ScaleFound(t: bytes, k: nat, mantissa: real) returns (e: Exponent)
    requires k <= |t| && Scale(t, k, mantissa).used == |t|
    ensures ExponentWf(e) && ExponentText(e) == t[k..]
  {
    hide Pow10, DigitsValue;
    if k == |t| {
      e := NoExponent;
    } else {
      var m := AfterSign(t, k + 1);
      e := Exponent(t[k], t[k + 1..m], t[m..]);
    }
  }

  /** A text that is used up completely is a numeral. */
  lemma NumeralFound(t: bytes) returns (n: Numeral)
    requires t != [] && Strtod(t).used == |t|
    ensures NumeralWf(n) && NumeralText(n) == t
  {
    hide Pow10, DigitsValue, Scale, ExponentText, ExponentWf, DigitsEnd, AfterSign, AllDigits, SignPart;
    var from := AfterSign(t, 0);
    var j := DigitsEnd(t, from);
    var dot := j < |t| && t[j] == DOT;
    var k := if dot then DigitsEnd(t, j + 1) else j;
    var whole := DigitsValue(t[from..j]) as real;
    var magnitude := if dot then whole + DigitsValue(t[j + 1..k]) as real / Pow10(k - j - 1) else whole;
    var e := ScaleFound(t, k, Signed(t, 0, magnitude));
    n := Numeral(t[..from], t[from..j], dot, if dot then t[j + 1..k] else [], e);
    PartsFound(t, from, j, dot, k);
    FourParts(t, from, j, k);
  }

  lemma PartsFound(t: bytes, from: nat, j: nat, dot: bool, k: nat)
    requires from == AfterSign(t, 0) && j == DigitsEnd(t, from) && (dot <==> j < |t| && t[j] == DOT)
    requires k == if dot then DigitsEnd(t, j + 1) else j
    ensures SignPart(t[..from]) && AllDigits(t[from..j]) && AllDigits([])
    ensures if dot then AllDigits(t[j + 1..k]) && t[j..k] == [DOT] + t[j + 1..k] else t[j..k] == []
  {
    hide DigitsEnd;
  }

  lemma FourParts(t: bytes, i: nat, j: nat, k: nat)
    requires i <= j <= k <= |t|
    ensures t == t[..i] + (t[i..j] + (t[j..k] + t[k..]))
  {
    assert t[j..] == t[j..k] + t[k..];
    assert t[i..] == t[i..j] + t[j..];
  }

  /** The number texts that are used up completely are the numerals: sign, digits with an optional dot, exponent. */
  lemma NumeralsExactly(t: bytes)
    requires t != []
    ensures Strtod(t).used == |t| <==> exists n :: NumeralWf(n) && NumeralText(n) == t
  {
    hide *;
    if Strtod(t).used == |t| {
      var n := NumeralFound(t);
    }
    if n :| NumeralWf(n) && NumeralText(n) == t {
      NumeralIsRead(n);
    }
  }
}
