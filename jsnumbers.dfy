/**
 * The JavaScript number conversions the formatter applies to XML text:
 * the global `parseInt(string)` (no radix) and `parseFloat(string)` of
 * ECMA-262 (sections 19.2.5 and 19.2.4 of the 2024 edition), and the
 * `x || 0` fallback that turns NaN (and -0) into 0.
 * Integers and reals are exact here: the rounding to a binary double is not modelled.
 */
module JsNumbers {
  import opened Wrappers

  /** StrWhiteSpaceChar: the WhiteSpace and LineTerminator code points that string-to-number conversion skips. */
  predicate IsStrWhiteSpace(c: char) {
    || c == '\t' || c == '\U{B}' || c == '\U{C}' || c == ' ' || c == '\U{A0}' || c == '\U{FEFF}'
    || c == '\U{1680}' || ('\U{2000}' <= c <= '\U{200A}') || c == '\U{202F}' || c == '\U{205F}' || c == '\U{3000}'
    || c == '\n' || c == '\r' || c == '\U{2028}' || c == '\U{2029}'
  }

  /** The string with its leading white space removed (TrimString(s, start)). */
  function TrimStart(s: string): (r: string)
    ensures |r| <= |s| && r == s[|s| - |r|..]
    ensures forall i :: 0 <= i < |s| - |r| ==> IsStrWhiteSpace(s[i])
    ensures r == [] || !IsStrWhiteSpace(r[0])
  {
    if s != [] && IsStrWhiteSpace(s[0]) then TrimStart(s[1..]) else s
  }

  predicate IsDecimalDigit(c: char) {
    '0' <= c <= '9'
  }

  /** The value of a digit character in radix 36 ('0'-'9', then 'a'/'A' = 10 up to 'z'/'Z' = 35), or 36 for any other character. */
  function DigitValue(c: char): (d: nat)
    ensures d <= 36
    ensures d < 10 <==> IsDecimalDigit(c)
  {
    if '0' <= c <= '9' then c as nat - '0' as nat
    else if 'a' <= c <= 'z' then c as nat - 'a' as nat + 10
    else if 'A' <= c <= 'Z' then c as nat - 'A' as nat + 10
    else 36
  }

  /** The longest prefix of `s` made of digits of the given radix. */
  function DigitPrefix(s: string, radix: nat): (r: string)
    ensures |r| <= |s| && r == s[..|r|]
    ensures forall i :: 0 <= i < |r| ==> DigitValue(r[i]) < radix
    ensures |r| < |s| ==> DigitValue(s[|r|]) >= radix
  {
    if s != [] && DigitValue(s[0]) < radix then [s[0]] + DigitPrefix(s[1..], radix) else []
  }

  /** The number a string of radix digits denotes, most significant digit first. */
  function DigitsValue(ds: string, radix: nat): nat
  {
    if ds == [] then 0 else DigitsValue(ds[..|ds| - 1], radix) * radix + DigitValue(ds[|ds| - 1])
  }

  /** Whether the trimmed text starts with a minus sign. */
  predicate IsNegative(t: string) {
    |t| > 0 && t[0] == '-'
  }

  /** The trimmed text without its leading sign, if it has one. */
  function Unsigned(t: string): (u: string)
    ensures |u| <= |t|
  {
    if |t| > 0 && (t[0] == '-' || t[0] == '+') then t[1..] else t
  }

  /** Whether unsigned text opens with the hexadecimal prefix "0x" or "0X". */
  predicate HasHexPrefix(u: string) {
    |u| >= 2 && u[0] == '0' && (u[1] == 'x' || u[1] == 'X')
  }

  /** The magnitude `parseInt` reads from unsigned text: radix 16 after "0x", radix 10 otherwise; None when no digit follows. */
  function UnsignedInt(u: string): Option<nat> {
    var radix := if HasHexPrefix(u) then 16 else 10;
    var digits := DigitPrefix(if HasHexPrefix(u) then u[2..] else u, radix);
    if digits == [] then None else Some(DigitsValue(digits, radix))
  }

  /** `parseInt(s)`; None stands for NaN. */
  function ParseInt(s: string): (r: Option<int>)
  {
    var t := TrimStart(s);
    match UnsignedInt(Unsigned(t))
    case None => None
    case Some(m) => var v: int := m; Some(if IsNegative(t) then -v else v)
  }

  /** A JavaScript number other than NaN: finite (as an exact real) or an infinity. */
  datatype Number = Finite(value: real) | Infinity(negative: bool)

  function Pow10(n: nat): (p: nat)
    ensures p >= 1
  {
    if n == 0 then 1 else 10 * Pow10(n - 1)
  }

  /** 10 raised to an integer power, as a real. */
  function Scale10(k: int): real {
    if k >= 0 then Pow10(k) as real else 1.0 / Pow10(-k) as real
  }

  /** The exponent of a decimal literal's ExponentPart at the head of `s`, or 0 when there is no complete one. */
  function ExponentOf(s: string): int {
    if |s| >= 2 && (s[0] == 'e' || s[0] == 'E') then
      var signed := s[1] == '+' || s[1] == '-';
      var digits := DigitPrefix(if signed then s[2..] else s[1..], 10);
      var e: int := DigitsValue(digits, 10);
      if s[1] == '-' then -e else e
    else 0
  }

  /** The value of an unsigned decimal literal whose whole and fraction digits are given, followed by `rest`. */
  function DecimalValue(whole: string, fraction: string, rest: string): real {
    DigitsValue(whole + fraction, 10) as real * Scale10(ExponentOf(rest) - |fraction|)
  }

  /** The magnitude `parseFloat` reads from unsigned text: "Infinity" or the longest decimal literal; None when there is none. */
  function UnsignedFloat(u: string): Option<Number> {
    if |u| >= 8 && u[..8] == "Infinity" then Some(Infinity(false))
    else
      var whole := DigitPrefix(u, 10);
      var afterWhole := u[|whole|..];
      var hasDot := |afterWhole| > 0 && afterWhole[0] == '.';
      var fraction := if hasDot then DigitPrefix(afterWhole[1..], 10) else [];
      var rest := if hasDot then afterWhole[1 + |fraction|..] else afterWhole;
      if whole == [] && fraction == [] then None
      else Some(Finite(DecimalValue(whole, fraction, rest)))
  }

  /** `parseFloat(s)`; None stands for NaN. */
  function ParseFloat(s: string): (r: Option<Number>)
  {
    var t := TrimStart(s);
    match UnsignedFloat(Unsigned(t))
    case None => None
    case Some(Infinity(_)) => Some(Infinity(IsNegative(t)))
    case Some(Finite(m)) => Some(Finite(if IsNegative(t) then -m else m))
  }

  /** `parseInt(s) || 0`: NaN and zero both give 0. */
  function IntOrZero(n: Option<int>): (r: int)
    ensures n.None? ==> r == 0
    ensures n.Some? ==> r == n.value
  {
    n.GetOr(0)
  }

  /** `parseFloat(s) || 0`: NaN and zero both give 0. */
  function NumberOrZero(n: Option<Number>): (r: Number)
    ensures n.None? ==> r == Finite(0.0)
    ensures n.Some? ==> r == n.value
  {
    n.GetOr(Finite(0.0))
  }

  /** The decimal numeral of a natural number, without leading zeros. */
  function DecimalString(n: nat): (s: string)
    ensures |s| >= 1
    ensures forall i :: 0 <= i < |s| ==> IsDecimalDigit(s[i])
    ensures |s| >= 2 ==> s[0] != '0'
  {
    var last := ['0' + (n % 10) as char];
    if n < 10 then last else DecimalString(n / 10) + last
  }

  // ---------------------------------------------------------------------------
  // Lemmas
  // ---------------------------------------------------------------------------

  lemma DigitPrefixAllDigits(s: string, radix: nat)
    requires forall i :: 0 <= i < |s| ==> DigitValue(s[i]) < radix
    ensures DigitPrefix(s, radix) == s
  {
    if s != [] {
      DigitPrefixAllDigits(s[1..], radix);
    }
  }

  lemma {:induction false} DecimalStringValue(n: nat)
    ensures DigitsValue(DecimalString(n), 10) == n
  {
    var s := DecimalString(n);
    if n >= 10 {
      DecimalStringValue(n / 10);
      assert s[..|s| - 1] == DecimalString(n / 10);
    }
  }

  lemma UnsignedIntAllDigits(s: string)
    requires |s| >= 1 && forall i :: 0 <= i < |s| ==> IsDecimalDigit(s[i])
    ensures UnsignedInt(s) == Some(DigitsValue(s, 10))
  {
    assert !HasHexPrefix(s) by {
      if |s| >= 2 { assert IsDecimalDigit(s[1]); }
    }
    DigitPrefixAllDigits(s, 10);
  }

  /** A string of decimal digits with nothing around it parses to the number it spells. */
  lemma ParseIntAllDigits(s: string)
    requires |s| >= 1 && forall i :: 0 <= i < |s| ==> IsDecimalDigit(s[i])
    ensures ParseInt(s) == Some(DigitsValue(s, 10) as int)
  {
    assert !IsStrWhiteSpace(s[0]);
    assert TrimStart(s) == s;
    assert Unsigned(s) == s && !IsNegative(s);
    UnsignedIntAllDigits(s);
  }

  /** Round trip: `parseInt` reads back the decimal numeral of every natural number. */
  lemma ParseIntDecimalString(n: nat)
    ensures ParseInt(DecimalString(n)) == Some(n)
  {
    ParseIntAllDigits(DecimalString(n));
    DecimalStringValue(n);
  }

  /**
   * Unsigned text `parseInt` reads no digit from: after a "0x" prefix no hexadecimal digit
   * follows, otherwise the text does not start with a decimal digit.
   */
  predicate NoIntLiteral(u: string) {
    if HasHexPrefix(u) then |u| == 2 || DigitValue(u[2]) >= 16
    else u == [] || !IsDecimalDigit(u[0])
  }

  /** `parseInt` gives NaN exactly when, after white space and an optional sign, no integer literal starts. */
  lemma ParseIntNaNIff(s: string)
    ensures ParseInt(s).None? <==> NoIntLiteral(Unsigned(TrimStart(s)))
  {
    var u := Unsigned(TrimStart(s));
    if HasHexPrefix(u) {
      assert |u| > 2 ==> u[2..][0] == u[2];
    }
  }

  /** Text that does not start with 'I' does not start with "Infinity". */
  lemma NotInfinity(s: string)
    requires |s| >= 1 && s[0] != 'I'
    ensures !(|s| >= 8 && s[..8] == "Infinity")
  {
    if |s| >= 8 {
      assert s[..8][0] == s[0];
    }
  }

  /** A literal without fraction or exponent denotes its whole digits. */
  lemma WholeDecimalValue(whole: string)
    ensures DecimalValue(whole, [], []) == DigitsValue(whole, 10) as real
  {
    assert whole + [] == whole;
    assert ExponentOf([]) == 0;
    assert Scale10(0) == 1.0;
  }

  lemma UnsignedFloatAllDigits(s: string)
    requires |s| >= 1 && forall i :: 0 <= i < |s| ==> IsDecimalDigit(s[i])
    ensures UnsignedFloat(s) == Some(Finite(DigitsValue(s, 10) as real))
  {
    assert s[0] != 'I' by {
      assert IsDecimalDigit(s[0]);
    }
    NotInfinity(s);
    DigitPrefixAllDigits(s, 10);
    assert s[|s|..] == [];
    WholeDecimalValue(s);
  }

  /** A string of decimal digits parses, as a float, to the whole number it spells. */
  lemma ParseFloatAllDigits(s: string)
    requires |s| >= 1 && forall i :: 0 <= i < |s| ==> IsDecimalDigit(s[i])
    ensures ParseFloat(s) == Some(Finite(DigitsValue(s, 10) as real))
  {
    assert !IsStrWhiteSpace(s[0]);
    assert TrimStart(s) == s;
    assert Unsigned(s) == s && !IsNegative(s);
    UnsignedFloatAllDigits(s);
  }

  /**
   * Unsigned text `parseFloat` reads no number from: it does not start with "Infinity",
   * nor with a decimal digit, nor with '.' followed by a decimal digit.
   */
  predicate NoFloatLiteral(u: string) {
    && !(|u| >= 8 && u[..8] == "Infinity")
    && (u == [] || !IsDecimalDigit(u[0]))
    && !(|u| >= 2 && u[0] == '.' && IsDecimalDigit(u[1]))
  }

  /** `parseFloat` gives NaN exactly when, after white space and an optional sign, no decimal literal starts. */
  lemma ParseFloatNaNIff(s: string)
    ensures ParseFloat(s).None? <==> NoFloatLiteral(Unsigned(TrimStart(s)))
  {
    var u := Unsigned(TrimStart(s));
    var whole := DigitPrefix(u, 10);
    assert whole == [] <==> u == [] || !IsDecimalDigit(u[0]);
    if whole == [] {
      assert u[|whole|..] == u;
      if |u| >= 2 && u[0] == '.' {
        assert u[1..][0] == u[1];
      }
    }
  }
}
