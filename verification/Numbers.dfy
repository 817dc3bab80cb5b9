/** Number texts: the exact decimal value `strtod` assigns, saturation to `int`, and the `%d` text. */
module Numbers {
  import opened Bytes
  import opened JsonTree

  const NUMBER_BUFFER: nat := 63

  predicate IsDigit(b: byte) { ZERO <= b <= NINE }

  predicate IsSign(b: byte) { b == PLUS || b == MINUS }

  predicate IsNumberByte(b: byte) {
    IsDigit(b) || IsSign(b) || b == LOWER_E || b == UPPER_E || b == DOT
  }

  /** The end of the run of number bytes at `i`, cut after `room` bytes. */
  function RunEnd(s: bytes, i: nat, room: nat): (e: nat)
    requires i <= |s|
    ensures i <= e <= |s| && e <= i + room
    ensures forall k | i <= k < e :: IsNumberByte(s[k])
    ensures e == |s| || e == i + room || !IsNumberByte(s[e])
    decreases room
  {
    if room == 0 || i == |s| || !IsNumberByte(s[i]) then i
    else RunEnd(s, i + 1, room - 1)
  }

  function DigitsEnd(t: bytes, i: nat): (e: nat)
    requires i <= |t|
    ensures i <= e <= |t|
    ensures forall k | i <= k < e :: IsDigit(t[k])
    ensures e < |t| ==> !IsDigit(t[e])
    decreases |t| - i
  {
    if i < |t| && IsDigit(t[i]) then DigitsEnd(t, i + 1) else i
  }

  function DigitsValue(t: bytes): nat
    requires forall k | 0 <= k < |t| :: IsDigit(t[k])
  {
    if t == [] then 0
    else
      assert IsDigit(t[|t| - 1]);
      10 * DigitsValue(t[..|t| - 1]) + (t[|t| - 1] - ZERO)
  }

  function Pow10(n: nat): (p: real)
    ensures p > 0.0
  {
    if n == 0 then 1.0 else 10.0 * Pow10(n - 1)
  }

  /** `used == 0` says that no conversion was possible. */
  datatype Conversion = Conversion(used: nat, value: real)

  /** Skips one optional sign at `i`. */
  function AfterSign(t: bytes, i: nat): (j: nat)
    requires i <= |t|
    ensures i <= j <= |t|
  {
    if i < |t| && IsSign(t[i]) then i + 1 else i
  }

  function Signed(t: bytes, i: nat, magnitude: real): real
    requires i <= |t|
  {
    if i < |t| && t[i] == MINUS then -magnitude else magnitude
  }

  /** The exponent part at `k`, if there is one with at least one digit. */
  function Scale(t: bytes, k: nat, mantissa: real): (c: Conversion)
    requires k <= |t|
    ensures c.used <= |t|
    ensures k <= c.used
  {
    if k < |t| && (t[k] == LOWER_E || t[k] == UPPER_E) then
      var m := AfterSign(t, k + 1);
      var e := DigitsEnd(t, m);
      if e == m then Conversion(k, mantissa)
      else
        var power := Pow10(DigitsValue(t[m..e]));
        Conversion(e, if t[k + 1] == MINUS then mantissa / power else mantissa * power)
    else Conversion(k, mantissa)
  }

  /** `strtod` on a text of number bytes, with the exact decimal value in place of the nearest double. */
  function Strtod(t: bytes): (c: Conversion)
    ensures c.used <= |t|
  {
    var from := AfterSign(t, 0);
    var j := DigitsEnd(t, from);
    var whole := DigitsValue(t[from..j]) as real;
    if j < |t| && t[j] == DOT then
      var k := DigitsEnd(t, j + 1);
      if j == from && k == j + 1 then Conversion(0, 0.0)
      else Scale(t, k, Signed(t, 0, whole + DigitsValue(t[j + 1..k]) as real / Pow10(k - j - 1)))
    else if j == from then Conversion(0, 0.0)
    else Scale(t, j, Signed(t, 0, whole))
  }

  /** Conversion of a double to the `valueint` field, saturating at both ends. */
  function Saturate(d: real): (n: int)
    ensures INT_MIN <= n <= INT_MAX
  {
    if d >= INT_MAX as real then INT_MAX
    else if d <= INT_MIN as real then INT_MIN
    else if d >= 0.0 then d.Floor
    else -((-d).Floor)
  }

  /** The numbers that take the `%d` branch of the printer: exactly the C `int` values. */
  predicate IsInt(d: real) { d == Saturate(d) as real }

  /** Outside the range of a C `int` the nearest bound is taken, inside it the fraction is cut off. */
  lemma Saturates(d: real)
    ensures d >= 2147483647.0 ==> Saturate(d) == 2147483647
    ensures d <= -2147483648.0 ==> Saturate(d) == -2147483648
    ensures 0.0 <= d < 2147483647.0 ==> Saturate(d) as real <= d < Saturate(d) as real + 1.0
    ensures -2147483648.0 < d <= 0.0 ==> Saturate(d) as real - 1.0 < d <= Saturate(d) as real
  {
  }

  /** The numbers printed as integers are the integers from -2147483648 to 2147483647. */
  lemma IsIntExactly(d: real)
    ensures IsInt(d) <==> d == d.Floor as real && -2147483648 <= d.Floor <= 2147483647
  {
    hide Saturate;
    Saturates(d);
    if d == d.Floor as real && -2147483648 < d.Floor < 2147483647 { Between(Saturate(d), d.Floor); }
  }

  lemma Between(a: int, n: int)
    requires a as real <= n as real < a as real + 1.0 || a as real - 1.0 < n as real <= a as real
    ensures a == n
  {
    assert (a as real + 1.0) == (a + 1) as real && (a as real - 1.0) == (a - 1) as real;
  }

  function Digits(n: nat): (t: bytes)
    ensures |t| > 0 && forall k | 0 <= k < |t| :: IsDigit(t[k])
  {
    if n < 10 then [ZERO + n] else Digits(n / 10) + [ZERO + n % 10]
  }

  /** The `%d` text. */
  function Decimal(n: int): (t: bytes)
    ensures |t| > 0 && forall k | 0 <= k < |t| :: IsNumberByte(t[k])
  {
    if n < 0 then [MINUS] + Digits(-n) else Digits(n)
  }

  lemma DigitsDenote(n: nat)
    ensures DigitsValue(Digits(n)) == n
  {
    if n >= 10 {
      DigitsDenote(n / 10);
      var t := Digits(n);
      assert t[..|t| - 1] == Digits(n / 10);
    } else {
      assert Digits(n)[..0] == [];
    }
  }

  lemma DigitsEndAll(t: bytes, i: nat)
    requires i <= |t| && forall k | i <= k < |t| :: IsDigit(t[k])
    ensures DigitsEnd(t, i) == |t|
    decreases |t| - i
  {
    if i < |t| { DigitsEndAll(t, i + 1); }
  }

  /** No digit is wasted: one zero for zero, else no leading zero, and a minus sign in front of the negative ones. */
  lemma DecimalCanonical(n: int)
    ensures n == 0 ==> Decimal(n) == [48]
    ensures n > 0 ==> 49 <= Decimal(n)[0] <= 57 && forall k | 0 <= k < |Decimal(n)| :: 48 <= Decimal(n)[k] <= 57
    ensures n < 0 ==> Decimal(n) == [45] + Decimal(-n)
  {
    hide Digits;
    if n > 0 { LeadingDigit(n); } else if n == 0 { ZeroDigit(); }
  }

  lemma ZeroDigit()
    ensures Digits(0) == [48]
  {
  }

  lemma {:induction false} LeadingDigit(n: nat)
    requires n > 0
    ensures 49 <= Digits(n)[0] <= 57
  {
    if n >= 10 { LeadingDigit(n / 10); }
  }

  /** Reading back the `%d` text gives the number that was written and uses all of it. */
  lemma DecimalReadsBack(n: int)
    ensures Strtod(Decimal(n)) == Conversion(|Decimal(n)|, n as real)
  {
    var t := Decimal(n);
    var digits := Digits(if n < 0 then -n else n);
    DigitsDenote(if n < 0 then -n else n);
    var from := AfterSign(t, 0);
    assert t[from..] == digits;
    assert forall k | from <= k < |t| :: t[k] == digits[k - from];
    DigitsEndAll(t, from);
    assert t[from..|t|] == digits;
  }

  function Pow(n: nat): (p: nat)
    ensures p > 0
  {
    if n == 0 then 1 else 10 * Pow(n - 1)
  }

  lemma {:induction false} DigitsShort(n: nat, k: nat)
    requires k > 0 && n < Pow(k)
    ensures |Digits(n)| <= k
  {
    if n >= 10 {
      assert Pow(k) == 10 * Pow(k - 1);
      assert k > 1;
      DigitsShort(n / 10, k - 1);
    }
  }

  /** The `%d` text of a C `int` fits the 26-byte scratch buffer of the printer and the 63-byte one of the parser. */
  lemma DecimalShort(n: int)
    requires INT_MIN <= n <= INT_MAX
    ensures |Decimal(n)| <= 11
  {
    calc {
      Pow(10); 10 * Pow(9); 100 * Pow(8); 1000 * Pow(7); 10000 * Pow(6); 100000 * Pow(5);
      1000000 * Pow(4); 10000000 * Pow(3); 100000000 * Pow(2); 1000000000 * Pow(1); 10_000_000_000;
    }
    DigitsShort(if n < 0 then -n else n, 10);
  }
}
