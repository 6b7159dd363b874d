/**
 * C#'s `decimal`: an integer coefficient and a power-of-ten scale, so that 10.50m keeps its
 * two fraction digits. Text is written under the invariant culture: an optional '-', the
 * integer digits and, when the scale is positive, '.' and exactly `scale` fraction digits.
 * It is read as `NumberStyles.Number` reads it: white space around, one sign in front or
 * behind, and digits with at most one '.', on either side of which the digits may be missing.
 */
module Decimals {
  import opened Wrappers
  import opened Strings
  import opened Numerals

  /** The number `units / 10^scale`. */
  datatype Decimal = Decimal(units: int, scale: nat)

  /** The exact value a decimal denotes. */
  function Value(d: Decimal): real {
    d.units as real / Pow10(d.scale) as real
  }

  const Zero: Decimal := Decimal(0, 0)

  /** A whole number, written without fraction digits. */
  function FromInt(n: int): (d: Decimal)
    ensures Value(d) == n as real
  {
    Decimal(n, 0)
  }

  /** `a * b`: coefficients multiply and scales add, so the product is exact. */
  function Mul(a: Decimal, b: Decimal): (r: Decimal)
    ensures Value(r) == Value(a) * Value(b)
    ensures r.scale == a.scale + b.scale
  {
    var r := Decimal(a.units * b.units, a.scale + b.scale);
    MulValue(a, b);
    r
  }

  lemma MulValue(a: Decimal, b: Decimal)
    ensures Value(Decimal(a.units * b.units, a.scale + b.scale)) == Value(a) * Value(b)
  {
    Pow10Add(a.scale, b.scale);
    var m, n := Pow10(a.scale), Pow10(b.scale);
    IntProductAsReal(m, n);
    IntProductAsReal(a.units, b.units);
    RealFractions(a.units as real, m as real, b.units as real, n as real);
  }

  lemma IntProductAsReal(x: int, y: int)
    ensures (x * y) as real == x as real * y as real
  {
  }

  lemma RealFractions(x: real, p: real, y: real, q: real)
    requires p > 0.0 && q > 0.0
    ensures (x * y) / (p * q) == (x / p) * (y / q)
  {
  }

  function Abs(n: int): nat {
    if n < 0 then -n else n
  }

  /** The digits of the coefficient, padded so that at least one digit stands before the point. */
  function CoefficientDigits(d: Decimal): (s: string)
    ensures AllDigits(s) && |s| >= d.scale + 1
    ensures DigitsValue(s) == Abs(d.units)
  {
    PadLeftValue(NatToDigits(Abs(d.units)), d.scale + 1);
    PadLeft(NatToDigits(Abs(d.units)), d.scale + 1)
  }

  /** `d.ToString()` */
  function Format(d: Decimal): string {
    if d.units < 0 then "-" + UnsignedText(d) else UnsignedText(d)
  }

  /** The text starts with a '-' or a digit, ends in a digit, and holds nothing but digits, '-' and '.'. */
  lemma FormatChars(d: Decimal)
    ensures var s := Format(d);
      && s != [] && IsDigit(s[|s| - 1]) && (s[0] == '-' || IsDigit(s[0]))
      && forall k :: 0 <= k < |s| ==> s[k] == '-' || s[k] == '.' || IsDigit(s[k])
  {
    var body := UnsignedText(d);
    UnsignedTextChars(d);
    if d.units < 0 {
      var s := "-" + body;
      assert forall k :: 1 <= k < |s| ==> s[k] == body[k - 1];
    }
  }

  /** The unsigned text starts and ends with a digit and holds nothing but digits and '.'. */
  lemma UnsignedTextChars(d: Decimal)
    ensures var body := UnsignedText(d);
      && body != [] && IsDigit(body[0]) && IsDigit(body[|body| - 1])
      && forall k :: 0 <= k < |body| ==> body[k] == '.' || IsDigit(body[k])
  {
    var digits := CoefficientDigits(d);
    if d.scale != 0 {
      PointInserted(digits, |digits| - d.scale);
    }
  }

  /** Digits with a '.' put in between two of them. */
  lemma PointInserted(digits: string, k: nat)
    requires AllDigits(digits) && 1 <= k < |digits|
    ensures var body := digits[..k] + "." + digits[k..];
      && IsDigit(body[0]) && IsDigit(body[|body| - 1])
      && forall j :: 0 <= j < |body| ==> body[j] == '.' || IsDigit(body[j])
  {
    var body := digits[..k] + "." + digits[k..];
    forall j | 0 <= j < |body| ensures body[j] == '.' || IsDigit(body[j]) {
      if j < k {
        assert body[j] == digits[j];
      } else if j > k {
        assert body[j] == digits[j - 1];
      }
    }
    assert body[0] == digits[0] && body[|body| - 1] == digits[|digits| - 1];
  }

  /** `decimal.TryParse(s, out v) ? Some(v) : None` */
  function Parse(s: string): Option<Decimal> {
    ParseSigned(Trim(s))
  }

  /** A leading sign, else a trailing one, and the rest; a sign stands on one side only. */
  function SplitSign(t: string): (r: (bool, string))
    ensures |r.1| <= |t|
  {
    if t != [] && (t[0] == '-' || t[0] == '+') then SignAndBody(t)
    else if t != [] && (t[|t| - 1] == '-' || t[|t| - 1] == '+') then (t[|t| - 1] == '-', t[..|t| - 1])
    else (false, t)
  }

  function ParseSigned(t: string): Option<Decimal> {
    var (neg, body) := SplitSign(t);
    match ParseUnsigned(body)
    case None => None
    case Some(d) => Some(if neg then Decimal(0 - d.units, d.scale) else d)
  }

  /**
   * Digits with at most one '.'; the digits before or after the point may be missing, but not
   * both, so ".5" and "5." are numbers and "." is not. Each fraction digit adds one to the scale.
   */
  function ParseUnsigned(body: string): (r: Option<Decimal>)
    ensures r.Some? ==> r.value.units >= 0
  {
    var parts := Split(body, '.');
    if |parts| > 2 then None
    else
      var whole := parts[0];
      var fraction := if |parts| == 2 then parts[1] else "";
      if !AllDigits(whole) || !AllDigits(fraction) || whole + fraction == [] then None
      else Some(Decimal(DigitsValue(whole + fraction), |fraction|))
  }

  /** With no digits before the point, ".5" reads as 0.5: the fraction digits give coefficient and scale. */
  lemma {:induction false} ParseWithoutWholeDigits(f: string)
    requires f != [] && AllDigits(f)
    ensures Parse("." + f) == Some(Decimal(DigitsValue(f), |f|))
  {
    var t := "." + f;
    assert t[|t| - 1] == f[|f| - 1] && IsDigit(f[|f| - 1]);
    TrimUntouched(t);
    assert SplitSign(t) == (false, t);
    ParseWithFraction("", f);
    assert "" + "." + f == t && "" + f == f;
  }

  /** With no digits after the point, "5." reads as the whole number, with scale 0. */
  lemma {:induction false} ParseWithoutFractionDigits(w: string)
    requires w != [] && AllDigits(w)
    ensures Parse(w + ".") == Some(Decimal(DigitsValue(w), 0))
  {
    var t := w + ".";
    assert t[0] == w[0] && IsDigit(w[0]);
    TrimUntouched(t);
    assert SplitSign(t) == (false, t);
    ParseWithFraction(w, "");
    assert w + "." + "" == t && w + "" == w;
  }

  /** A sign may also stand behind the digits: "5-" reads as -5. */
  lemma {:induction false} ParseTrailingSign(w: string)
    requires w != [] && AllDigits(w)
    ensures Parse(w + "-") == Some(Decimal(0 - DigitsValue(w), 0))
  {
    var t := w + "-";
    assert t[0] == w[0] && IsDigit(w[0]);
    TrimUntouched(t);
    assert t[..|t| - 1] == w;
    assert SplitSign(t) == (true, w);
    ParseWhole(w);
  }

  /** The text `Format` writes after the sign. */
  function UnsignedText(d: Decimal): string {
    var digits := CoefficientDigits(d);
    var k := |digits| - d.scale;
    if d.scale == 0 then digits else digits[..k] + "." + digits[k..]
  }

  /** Every decimal is read back exactly, coefficient and scale, from its text. */
  lemma ParseFormat(d: Decimal)
    ensures Parse(Format(d)) == Some(d)
  {
    FormatTrimmed(d);
    FormatSign(d);
    ParseUnsignedText(d);
  }

  /** The text has no white space at either end, so `Trim` leaves it alone. */
  lemma FormatTrimmed(d: Decimal)
    ensures Trim(Format(d)) == Format(d)
  {
    var s := Format(d);
    FormatChars(d);
    assert !IsWhiteSpace(s[0]) && !IsWhiteSpace(s[|s| - 1]);
    TrimUntouched(s);
  }

  /** A '-' is written exactly for a negative coefficient, followed by the unsigned text. */
  lemma FormatSign(d: Decimal)
    ensures SplitSign(Format(d)) == (d.units < 0, UnsignedText(d))
  {
    var body := UnsignedText(d);
    UnsignedTextChars(d);
    FormatChars(d);
    if d.units < 0 {
      assert Format(d)[1..] == body;
    }
  }

  lemma ParseUnsignedText(d: Decimal)
    ensures ParseUnsigned(UnsignedText(d)) == Some(Decimal(Abs(d.units), d.scale))
  {
    var digits := CoefficientDigits(d);
    var k := |digits| - d.scale;
    if d.scale == 0 {
      assert UnsignedText(d) == digits;
      ParseWhole(digits);
    } else {
      var w, f := digits[..k], digits[k..];
      assert UnsignedText(d) == w + "." + f;
      assert AllDigits(w) && AllDigits(f) && w != [] && f != [] && |f| == d.scale;
      ParseWithFraction(w, f);
      assert w + f == digits;
    }
  }

  lemma ParseWhole(w: string)
    requires w != [] && AllDigits(w)
    ensures ParseUnsigned(w) == Some(Decimal(DigitsValue(w), 0))
  {
    assert '.' !in w by { assert forall j :: 0 <= j < |w| ==> IsDigit(w[j]); }
    SplitWithoutSeparator(w, '.');
    assert w + "" == w;
  }

  lemma ParseWithFraction(w: string, f: string)
    requires AllDigits(w) && AllDigits(f) && w + f != []
    ensures ParseUnsigned(w + "." + f) == Some(Decimal(DigitsValue(w + f), |f|))
  {
    assert '.' !in w by { assert forall j :: 0 <= j < |w| ==> IsDigit(w[j]); }
    assert '.' !in f by { assert forall j :: 0 <= j < |f| ==> IsDigit(f[j]); }
    assert Join([w, f], '.') == w + "." + f;
    SplitJoin([w, f], '.');
  }
}
