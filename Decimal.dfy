/**
 * Swift's `Double(_: String)` on decimal text, as an exact `real`: an
 * optional sign, digits with an optional fraction, and an optional exponent,
 * with nothing before or after (no surrounding whitespace, no unit).
 */
module Decimal {

  import opened Wrappers
  import opened Strings

  /** Every character a decimal literal may use. */
  const DecimalAlphabet: set<char> :=
    {'0', '1', '2', '3', '4', '5', '6', '7', '8', '9', '.', '+', '-', 'e', 'E'}

  function DigitValue(c: char): (d: nat)
    requires IsDigit(c)
    ensures d < 10
  {
    c as int - '0' as int
  }

  function DigitChar(d: nat): (c: char)
    requires d < 10
    ensures IsDigit(c) && DigitValue(c) == d
  {
    ('0' as int + d) as char
  }

  /** The value of a run of decimal digits, most significant first. */
  function DigitsValue(s: string): nat
    requires AllDigits(s)
    decreases |s|
  {
    if s == [] then 0 else 10 * DigitsValue(s[..|s| - 1]) + DigitValue(s[|s| - 1])
  }

  function Pow10(n: nat): (r: nat)
    ensures r >= 1
  {
    if n == 0 then 1 else 10 * Pow10(n - 1)
  }

  /** `x` times ten to the power `e`, for an exponent of either sign. */
  function Scale(x: real, e: int): real
  {
    if e >= 0 then x * Pow10(e) as real else x / Pow10(-e) as real
  }

  /** An optional leading `+` or `-`: whether the number is negative, and the rest. */
  function SplitSign(s: string): (r: (bool, string))
    ensures |r.1| <= |s| && r.1 == s[|s| - |r.1|..]
  {
    if s != [] && (s[0] == '+' || s[0] == '-') then (s[0] == '-', s[1..]) else (false, s)
  }

  /** A non-empty run of digits. */
  function ParseDigits(s: string): (r: Option<nat>)
    ensures r.Some? ==> s != [] && AllDigits(s)
  {
    if s != [] && AllDigits(s) then Some(DigitsValue(s)) else None
  }

  /** `digits`, `digits.`, `.digits` or `digits.digits`, with at least one digit. */
  function ParseMantissa(s: string): (r: Option<real>)
    ensures r.Some? ==> forall i :: 0 <= i < |s| ==> IsDigit(s[i]) || s[i] == '.'
  {
    match IndexOf(s, ".")
    case None =>
      if s != [] && AllDigits(s) then Some(DigitsValue(s) as real) else None
    case Some(i) =>
      var whole, fraction := s[..i], s[i + 1..];
      if AllDigits(whole) && AllDigits(fraction) && |whole| + |fraction| > 0 then
        assert forall j :: 0 <= j < |s| && j != i ==>
          (j < i && s[j] == whole[j]) || (j > i && s[j] == fraction[j - i - 1]);
        Some(DigitsValue(whole) as real + DigitsValue(fraction) as real / Pow10(|fraction|) as real)
      else None
  }

  /** An exponent after `e` or `E`: an optional sign and a non-empty run of digits. */
  function ParseExponent(s: string): (r: Option<int>)
    ensures r.Some? ==> forall i :: 0 <= i < |s| ==> IsDigit(s[i]) || s[i] == '+' || s[i] == '-'
  {
    var (negative, digits) := SplitSign(s);
    match ParseDigits(digits)
    case None => None
    case Some(n) =>
      assert forall i :: 0 <= i < |s| - |digits| ==> s[i] == '+' || s[i] == '-';
      assert forall i :: |s| - |digits| <= i < |s| ==> s[i] == digits[i - (|s| - |digits|)];
      Some(if negative then -(n as int) else n)
  }

  /** The index of the first `e` or `E`. */
  function ExponentMarker(s: string): (r: Option<nat>)
    ensures r.Some? ==> r.value < |s| && (s[r.value] == 'e' || s[r.value] == 'E')
    ensures r.Some? ==> forall j :: 0 <= j < r.value ==> s[j] != 'e' && s[j] != 'E'
    ensures r.None? ==> forall j :: 0 <= j < |s| ==> s[j] != 'e' && s[j] != 'E'
    decreases |s|
  {
    if s == [] then None
    else if s[0] == 'e' || s[0] == 'E' then Some(0)
    else match ExponentMarker(s[1..])
      case None => None
      case Some(i) => Some(i + 1)
  }

  /** A mantissa scaled by an exponent, the two parts around `e`/`E`. */
  function ParseScaled(mantissa: string, exponent: string): (r: Option<real>)
  {
    match ParseMantissa(mantissa)
    case None => None
    case Some(m) =>
      match ParseExponent(exponent)
      case None => None
      case Some(e) => Some(Scale(m, e))
  }

  /** Unsigned decimal text: a mantissa, then an optional exponent. */
  function ParseUnsigned(body: string): (r: Option<real>)
  {
    match ExponentMarker(body)
    case None => ParseMantissa(body)
    case Some(i) => ParseScaled(body[..i], body[i + 1..])
  }

  /** `Double(text)` on decimal text: `None` where Swift gives `nil`. */
  function ParseDecimal(text: string): (r: Option<real>)
  {
    var (negative, body) := SplitSign(text);
    match ParseUnsigned(body)
    case None => None
    case Some(m) => Some(if negative then -m else m)
  }

  lemma UnsignedAlphabet(body: string)
    requires ParseUnsigned(body).Some?
    ensures body != []
    ensures forall i :: 0 <= i < |body| ==> body[i] in DecimalAlphabet
  {
    match ExponentMarker(body)
    case None =>
    case Some(k) =>
      var m, e := body[..k], body[k + 1..];
      assert ParseMantissa(m).Some? && ParseExponent(e).Some?;
      forall j | 0 <= j < |body| ensures body[j] in DecimalAlphabet {
        if j < k {
          assert body[j] == m[j];
        } else if j > k {
          assert body[j] == e[j - k - 1];
        }
      }
  }

  /** Decimal text uses only digits, the point, signs and the exponent mark. */
  lemma ParseDecimalAlphabet(text: string)
    requires ParseDecimal(text).Some?
    ensures text != []
    ensures forall i :: 0 <= i < |text| ==> text[i] in DecimalAlphabet
  {
    var (negative, body) := SplitSign(text);
    UnsignedAlphabet(body);
    var offset := |text| - |body|;
    forall i | 0 <= i < |text| ensures text[i] in DecimalAlphabet {
      if i >= offset {
        assert text[i] == body[i - offset];
      }
    }
  }

  /** The decimal spelling of a natural number, as `String(n)` writes it. */
  function NatToString(n: nat): (s: string)
    ensures s != [] && AllDigits(s)
  {
    if n < 10 then [DigitChar(n)] else NatToString(n / 10) + [DigitChar(n % 10)]
  }

  lemma {:induction false} NatToStringValue(n: nat)
    ensures DigitsValue(NatToString(n)) == n
  {
    var s := NatToString(n);
    if n >= 10 {
      NatToStringValue(n / 10);
      assert s[..|s| - 1] == NatToString(n / 10);
    }
  }

  /** Plain digits have no exponent marker. */
  lemma DigitsHaveNoExponent(s: string)
    requires AllDigits(s)
    ensures ExponentMarker(s) == None
  {
  }

  /** Plain digits have no decimal point. */
  lemma DigitsHaveNoPoint(s: string)
    requires AllDigits(s)
    ensures IndexOf(s, ".") == None
  {
    forall j: nat | j + 1 <= |s| ensures !OccursAt(s, ".", j) {
      assert s[j..j + 1][0] == s[j];
    }
  }

  /** Plain digits parse as their value. */
  lemma DigitsParse(s: string)
    requires s != [] && AllDigits(s)
    ensures ParseDecimal(s) == Some(DigitsValue(s) as real)
  {
    assert SplitSign(s) == (false, s) by {
      assert IsDigit(s[0]);
    }
    DigitsHaveNoExponent(s);
    DigitsHaveNoPoint(s);
    assert ParseMantissa(s) == Some(DigitsValue(s) as real);
  }

  /** `Double(String(n)) == n` for every natural number `n`. */
  lemma {:induction false} ParseDecimalOfNat(n: nat)
    ensures ParseDecimal(NatToString(n)) == Some(n as real)
  {
    NatToStringValue(n);
    DigitsParse(NatToString(n));
  }
}
