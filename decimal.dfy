/** Decimal rendering of serial numbers, as `fmt.Sprintf("%08d", n)` does it
    for a non-negative `n`: the shortest decimal form of `n`, padded on the
    left with '0' up to the field width, never truncated. */
module Decimal {

  predicate IsDigit(c: char) {
    '0' <= c <= '9'
  }

  predicate AllDigits(s: string) {
    forall i | 0 <= i < |s| :: IsDigit(s[i])
  }

  function Pow10(k: nat): (p: nat)
    ensures p >= 1
  {
    if k == 0 then 1 else 10 * Pow10(k - 1)
  }

  function DigitChar(d: nat): (c: char)
    requires d < 10
    ensures IsDigit(c)
  {
    "0123456789"[d]
  }

  function DigitValue(c: char): (d: nat)
    requires IsDigit(c)
    ensures d < 10
  {
    c as int - '0' as int
  }

  lemma DigitValueOfChar(d: nat)
    requires d < 10
    ensures DigitValue(DigitChar(d)) == d
  {
  }

  /** The shortest decimal form of `n` (Go's `%d`): no leading zeros, "0" for zero. */
  function Digits(n: nat): (s: string)
    decreases n
  {
    if n < 10 then [DigitChar(n)] else Digits(n / 10) + [DigitChar(n % 10)]
  }

  function Zeros(k: nat): (s: string) {
    seq(k, _ => '0')
  }

  /** Go's `%0<width>d` for a non-negative argument. */
  function ZeroPad(n: nat, width: nat): string {
    var d := Digits(n);
    (if |d| < width then Zeros(width - |d|) else []) + d
  }

  /** `fmt.Sprintf("%08d", n)` */
  function Format08(n: nat): string {
    ZeroPad(n, 8)
  }

  /** The value of a string of decimal digits, most significant first. */
  function ParseDecimal(s: string): nat
    requires AllDigits(s)
  {
    if s == [] then 0
    else
      assert AllDigits(s[..|s| - 1]);
      ParseDecimal(s[..|s| - 1]) * 10 + DigitValue(s[|s| - 1])
  }

  lemma {:induction false} DigitsRoundTrip(n: nat)
    ensures |Digits(n)| >= 1
    ensures AllDigits(Digits(n))
    ensures ParseDecimal(Digits(n)) == n
    decreases n
  {
    if n >= 10 {
      DigitsRoundTrip(n / 10);
      var s := Digits(n);
      assert s[..|s| - 1] == Digits(n / 10);
      DigitValueOfChar(n % 10);
    } else {
      DigitValueOfChar(n);
    }
  }

  /** A number below `10^k` needs at most `k` decimal digits (for `k >= 1`). */
  lemma {:induction false} DigitsLength(n: nat, k: nat)
    requires k >= 1 && n < Pow10(k)
    ensures |Digits(n)| <= k
    decreases n
  {
    if n >= 10 {
      assert k >= 2;
      assert n / 10 < Pow10(k - 1);
      DigitsLength(n / 10, k - 1);
    }
  }

  /** Leading zeros do not change the value of a digit string. */
  lemma {:induction false} LeadingZeros(k: nat, s: string)
    requires AllDigits(s)
    ensures AllDigits(Zeros(k) + s)
    ensures ParseDecimal(Zeros(k) + s) == ParseDecimal(s)
    decreases |s|
  {
    var t := Zeros(k) + s;
    assert AllDigits(t) by {
      forall i | 0 <= i < |t| ensures IsDigit(t[i]) {
        if i < k { assert t[i] == '0'; } else { assert t[i] == s[i - k]; }
      }
    }
    if s == [] {
      assert t == Zeros(k);
      ZerosValue(k);
    } else {
      var p := s[..|s| - 1];
      assert AllDigits(p) by {
        forall i | 0 <= i < |p| ensures IsDigit(p[i]) { assert p[i] == s[i]; }
      }
      LeadingZeros(k, p);
      assert t[..|t| - 1] == Zeros(k) + p;
      assert t[|t| - 1] == s[|s| - 1];
    }
  }

  lemma {:induction false} ZerosValue(k: nat)
    ensures AllDigits(Zeros(k))
    ensures ParseDecimal(Zeros(k)) == 0
    decreases k
  {
    if k > 0 {
      ZerosValue(k - 1);
      assert Zeros(k)[..k - 1] == Zeros(k - 1);
    }
  }

  /** The zero-padded serial is all digits, at least as wide as the field,
      exactly as wide as the field when the number fits in it, and parses
      back to the number it was made from. */
  lemma ZeroPadSpec(n: nat, width: nat)
    ensures AllDigits(ZeroPad(n, width))
    ensures ParseDecimal(ZeroPad(n, width)) == n
    ensures |ZeroPad(n, width)| >= width
    ensures width >= 1 && n < Pow10(width) ==> |ZeroPad(n, width)| == width
  {
    var d := Digits(n);
    DigitsRoundTrip(n);
    if |d| < width {
      LeadingZeros(width - |d|, d);
    } else {
      assert ZeroPad(n, width) == d;
    }
    if width >= 1 && n < Pow10(width) {
      DigitsLength(n, width);
    }
  }

  /** Every serial that fits in eight digits renders as exactly eight decimal
      digits that parse back to it. */
  lemma Format08Spec(n: nat)
    requires n < Pow10(8)
    ensures |Format08(n)| == 8
    ensures AllDigits(Format08(n))
    ensures ParseDecimal(Format08(n)) == n
  {
    ZeroPadSpec(n, 8);
  }

  /** Distinct serials never share a rendering. */
  lemma Format08Injective(m: nat, n: nat)
    requires m != n
    ensures Format08(m) != Format08(n)
  {
    ZeroPadSpec(m, 8);
    ZeroPadSpec(n, 8);
  }

  /** A digit string of length `k` is worth less than `10^k`. */
  lemma {:induction false} ParseBound(s: string)
    requires AllDigits(s)
    ensures ParseDecimal(s) < Pow10(|s|)
    decreases |s|
  {
    if s != [] {
      ParseBound(s[..|s| - 1]);
    }
  }

  /** A digit string worth zero is all zeros. */
  lemma {:induction false} ZeroValueIsZeros(s: string)
    requires AllDigits(s) && ParseDecimal(s) == 0
    ensures s == Zeros(|s|)
    decreases |s|
  {
    if s != [] {
      var p := s[..|s| - 1];
      ZeroValueIsZeros(p);
      assert s == p + [s[|s| - 1]];
    }
  }

  /** Appending a digit to the shortest form of a positive number. */
  lemma DigitsAppend(q: nat, d: nat)
    requires q >= 1 && d < 10
    ensures Digits(q * 10 + d) == Digits(q) + [DigitChar(d)]
  {
    var n := q * 10 + d;
    assert n >= 10;
    assert n / 10 == q && n % 10 == d;
  }

  lemma CharOfDigitValue(c: char)
    requires IsDigit(c)
    ensures DigitChar(DigitValue(c)) == c
  {
  }

  /** Splits a non-empty digit string into the value of its prefix and its
      last digit. */
  lemma LastDigit(s: string) returns (p: string, q: nat, d: nat)
    requires AllDigits(s) && |s| >= 1
    ensures p == s[..|s| - 1] && AllDigits(p) && q == ParseDecimal(p)
    ensures d < 10 && DigitChar(d) == s[|s| - 1]
    ensures ParseDecimal(s) == q * 10 + d
    ensures s == p + [DigitChar(d)]
  {
    p := s[..|s| - 1];
    q := ParseDecimal(p);
    d := DigitValue(s[|s| - 1]);
    CharOfDigitValue(s[|s| - 1]);
  }

  /** A digit string of value zero followed by one digit. */
  lemma ZeroPrefix(p: string, d: nat)
    requires AllDigits(p) && ParseDecimal(p) == 0 && d < 10
    ensures p + [DigitChar(d)] == Zeros(|p|) + Digits(d)
  {
    ZeroValueIsZeros(p);
  }

  /** A non-empty digit string is the shortest form of its value with
      leading zeros in front. */
  lemma {:induction false} StripLeadingZeros(s: string)
    requires AllDigits(s) && |s| >= 1
    ensures |Digits(ParseDecimal(s))| <= |s|
    ensures s == Zeros(|s| - |Digits(ParseDecimal(s))|) + Digits(ParseDecimal(s))
    decreases |s|
  {
    var p, q, d := LastDigit(s);
    if q == 0 {
      ZeroPrefix(p, d);
    } else {
      StripLeadingZeros(p);
      DigitsAppend(q, d);
      var z := |p| - |Digits(q)|;
      assert s == (Zeros(z) + Digits(q)) + [DigitChar(d)];
    }
  }

  /** Every eight-digit string is the rendering of exactly one serial below
      `10^8`: the one it parses to. */
  lemma Format08Onto(s: string)
    requires |s| == 8 && AllDigits(s)
    ensures ParseDecimal(s) < Pow10(8)
    ensures Format08(ParseDecimal(s)) == s
  {
    ParseBound(s);
    StripLeadingZeros(s);
    var d := Digits(ParseDecimal(s));
    if |d| == 8 {
      assert Zeros(0) + d == d;
    }
  }
}
