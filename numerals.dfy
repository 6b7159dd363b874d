/**
 * Decimal digit strings and 32-bit integers: `int.ToString()` and `int.TryParse` under the
 * invariant culture (optional sign, ASCII digits, surrounding white space ignored).
 */
module Numerals {
  import opened Wrappers
  import opened Strings

  function Pow10(n: nat): (p: nat)
    ensures p >= 1
  {
    if n == 0 then 1 else 10 * Pow10(n - 1)
  }

  lemma {:induction false} Pow10Add(a: nat, b: nat)
    ensures Pow10(a + b) == Pow10(a) * Pow10(b)
    decreases b
  {
    if b > 0 {
      Pow10Add(a, b - 1);
      calc {
        Pow10(a + b);
        10 * Pow10(a + b - 1);
        10 * (Pow10(a) * Pow10(b - 1));
        Pow10(a) * (10 * Pow10(b - 1));
      }
    }
  }

  lemma {:induction false} Pow10Monotone(a: nat, b: nat)
    ensures a <= b ==> Pow10(a) <= Pow10(b)
    decreases b
  {
    if a < b {
      Pow10Monotone(a, b - 1);
    }
  }

  predicate IsDigit(c: char) {
    '0' <= c <= '9'
  }

  predicate AllDigits(s: string) {
    forall i :: 0 <= i < |s| ==> IsDigit(s[i])
  }

  function DigitChar(d: nat): (c: char)
    requires d < 10
    ensures IsDigit(c)
  {
    ('0' as int + d) as char
  }

  function DigitValue(c: char): (d: nat)
    requires IsDigit(c)
    ensures d < 10 && DigitChar(d) == c
  {
    c as int - '0' as int
  }

  /** The number a string of decimal digits denotes (leading zeros allowed). */
  function DigitsValue(s: string): (n: nat)
    requires AllDigits(s)
    ensures n < Pow10(|s|)
  {
    if s == [] then 0 else DigitsValue(s[..|s| - 1]) * 10 + DigitValue(s[|s| - 1])
  }

  /** The shortest digit string of `n`, as `n.ToString()` writes it. */
  function NatToDigits(n: nat): (s: string)
    ensures 1 <= |s| && AllDigits(s)
    ensures DigitsValue(s) == n
    ensures |s| == 1 || n >= Pow10(|s| - 1)
  {
    if n < 10 then [DigitChar(n)]
    else
      var s := NatToDigits(n / 10) + [DigitChar(n % 10)];
      assert s[..|s| - 1] == NatToDigits(n / 10);
      s
  }

  function Zeros(k: nat): (z: string)
    ensures |z| == k && AllDigits(z)
  {
    seq(k, i => '0')
  }

  /** `s.PadLeft(width, '0')` */
  function PadLeft(s: string, width: nat): (r: string)
    requires AllDigits(s)
    ensures AllDigits(r)
    ensures |r| == if |s| < width then width else |s|
  {
    if |s| < width then Zeros(width - |s|) + s else s
  }

  lemma {:induction false} DigitsValueAppend(a: string, b: string)
    requires AllDigits(a) && AllDigits(b)
    ensures DigitsValue(a + b) == DigitsValue(a) * Pow10(|b|) + DigitsValue(b)
    decreases |b|
  {
    if b != [] {
      var ab := a + b;
      assert ab[..|ab| - 1] == a + b[..|b| - 1];
      assert ab[|ab| - 1] == b[|b| - 1];
      assert DigitsValue(ab) == DigitsValue(a + b[..|b| - 1]) * 10 + DigitValue(b[|b| - 1]);
      assert DigitsValue(b) == DigitsValue(b[..|b| - 1]) * 10 + DigitValue(b[|b| - 1]);
      DigitsValueAppend(a, b[..|b| - 1]);
      ShiftDigit(DigitsValue(a), Pow10(|b| - 1), DigitsValue(b[..|b| - 1]), DigitValue(b[|b| - 1]));
    } else {
      assert a + b == a;
    }
  }

  lemma ShiftDigit(x: int, p: int, y: int, d: int)
    ensures (x * p + y) * 10 + d == x * (10 * p) + (y * 10 + d)
  {
  }

  lemma {:induction false} ZerosValue(k: nat)
    ensures DigitsValue(Zeros(k)) == 0
    decreases k
  {
    if k > 0 {
      assert Zeros(k)[..k - 1] == Zeros(k - 1);
      ZerosValue(k - 1);
    }
  }

  lemma ZeroTimes(x: int, p: int)
    requires x == 0
    ensures x * p == 0
  {
  }

  /** Padding with zeros keeps the value. */
  lemma PadLeftValue(s: string, width: nat)
    requires AllDigits(s)
    ensures DigitsValue(PadLeft(s, width)) == DigitsValue(s)
  {
    if |s| < width {
      var z := Zeros(width - |s|);
      assert PadLeft(s, width) == z + s;
      DigitsValueAppend(z, s);
      ZerosValue(width - |s|);
      ZeroTimes(DigitsValue(z), Pow10(|s|));
    }
  }

  /** A number below 10^width is written in at most `width` digits, so padding gives exactly `width`. */
  lemma PadLeftWidth(n: nat, width: nat)
    requires 1 <= width && n < Pow10(width)
    ensures |PadLeft(NatToDigits(n), width)| == width
  {
    var s := NatToDigits(n);
    Pow10Monotone(width, |s| - 1);
  }

  // ---------------------------------------------------------------------------
  // Signs and 32-bit integers
  // ---------------------------------------------------------------------------

  /** A leading '-' or '+' and the rest. */
  function SignAndBody(s: string): (r: (bool, string))
    ensures r.1 == (if s != [] && (s[0] == '-' || s[0] == '+') then s[1..] else s)
    ensures r.0 <==> s != [] && s[0] == '-'
  {
    if s != [] && s[0] == '-' then (true, s[1..])
    else if s != [] && s[0] == '+' then (false, s[1..])
    else (false, s)
  }

  const Int32Min: int := -0x8000_0000
  const Int32Max: int := 0x7FFF_FFFF

  predicate InInt32(i: int) {
    Int32Min <= i <= Int32Max
  }

  /** `i.ToString()` */
  function FormatInt(i: int): (s: string)
    ensures s != [] && IsDigit(s[|s| - 1]) && (s[0] == '-' || IsDigit(s[0]))
    ensures forall k :: 0 <= k < |s| ==> s[k] == '-' || IsDigit(s[k])
  {
    if i < 0 then "-" + NatToDigits(-i) else NatToDigits(i)
  }

  /** `int.TryParse(s, out v) ? Some(v) : None` */
  function ParseInt32(s: string): (r: Option<int>)
    ensures r.Some? ==> InInt32(r.value)
  {
    ParseSignedInt32(Trim(s))
  }

  function ParseSignedInt32(t: string): (r: Option<int>)
    ensures r.Some? ==> InInt32(r.value)
  {
    var (neg, body) := SignAndBody(t);
    if body == [] || !AllDigits(body) then None
    else
      var v: int := if neg then 0 - DigitsValue(body) else DigitsValue(body);
      if InInt32(v) then Some(v) else None
  }

  /** Every 32-bit integer is read back from its text. */
  lemma ParseFormatInt(i: int)
    requires InInt32(i)
    ensures ParseInt32(FormatInt(i)) == Some(i)
  {
    var s := FormatInt(i);
    assert !IsWhiteSpace(s[0]) && !IsWhiteSpace(s[|s| - 1]);
    TrimUntouched(s);
    ParseSignedFormat(i);
  }

  lemma ParseSignedFormat(i: int)
    requires InInt32(i)
    ensures ParseSignedInt32(FormatInt(i)) == Some(i)
  {
    if i < 0 {
      var digits := NatToDigits(-i);
      assert FormatInt(i)[1..] == digits;
      assert SignAndBody(FormatInt(i)) == (true, digits);
    } else {
      var digits := NatToDigits(i);
      assert SignAndBody(FormatInt(i)) == (false, digits);
    }
  }
}
