/** Decimal digit strings as Python builds and reads them: `str(n)`,
    `int(s)` and `s.zfill(width)`. */
module Digits {
  import opened Lex

  predicate IsDigit(ch: char)
  {
    '0' <= ch <= '9'
  }

  predicate AllDigits(s: string)
  {
    forall i :: 0 <= i < |s| ==> IsDigit(s[i])
  }

  function DigitChar(d: nat): (ch: char)
    requires d < 10
    ensures IsDigit(ch)
  {
    ('0' as int + d) as char
  }

  function DigitValue(ch: char): (d: nat)
    requires IsDigit(ch)
    ensures d < 10 && DigitChar(d) == ch
  {
    ch as int - '0' as int
  }

  function Pow10(k: nat): (p: nat)
    ensures p > 0
  {
    if k == 0 then 1 else 10 * Pow10(k - 1)
  }

  /** `int(s)` for a string of ASCII digits. */
  function Parse(s: string): nat
    requires AllDigits(s)
  {
    if s == [] then 0 else 10 * Parse(s[..|s| - 1]) + DigitValue(s[|s| - 1])
  }

  /** A string of k digits reads below 10^k. */
  lemma {:induction false} ParseBound(s: string)
    requires AllDigits(s)
    ensures Parse(s) < Pow10(|s|)
  {
    if s != [] {
      ParseBound(s[..|s| - 1]);
    }
  }

  /** `str(n)` for a non-negative integer; `int` reads it back as `n`. */
  function Decimal(n: nat): (s: string)
    ensures |s| > 0 && AllDigits(s)
    ensures Parse(s) == n
  {
    if n < 10 then
      [DigitChar(n)]
    else
      var s := Decimal(n / 10) + [DigitChar(n % 10)];
      assert s[..|s| - 1] == Decimal(n / 10);
      s
  }

  function Zeros(k: nat): (z: string)
    ensures |z| == k && AllDigits(z)
  {
    seq(k, _ => '0')
  }

  /** `s.zfill(width)` for a string without a sign: `s` left-padded with
      zeros to `width` characters, never cut. */
  function ZFill(s: string, width: nat): (r: string)
    ensures |r| == if |s| < width then width else |s|
    ensures r[|r| - |s|..] == s
    ensures forall i :: 0 <= i < |r| - |s| ==> r[i] == '0'
  {
    if |s| >= width then s else Zeros(width - |s|) + s
  }

  lemma {:induction false} ParseZeros(k: nat)
    ensures Parse(Zeros(k)) == 0
  {
    if k > 0 {
      assert Zeros(k)[..k - 1] == Zeros(k - 1);
      ParseZeros(k - 1);
    }
  }

  /** Leading zeros do not change the value `int` reads. */
  lemma {:induction false} ParseLeadingZeros(k: nat, s: string)
    requires AllDigits(s)
    ensures AllDigits(Zeros(k) + s) && Parse(Zeros(k) + s) == Parse(s)
  {
    if s == [] {
      assert Zeros(k) + s == Zeros(k);
      ParseZeros(k);
    } else {
      var z := Zeros(k) + s;
      assert z[..|z| - 1] == Zeros(k) + s[..|s| - 1];
      ParseLeadingZeros(k, s[..|s| - 1]);
    }
  }

  /** `zfill` keeps the value of a digit string. */
  lemma ZFillValue(s: string, width: nat)
    requires AllDigits(s)
    ensures AllDigits(ZFill(s, width)) && Parse(ZFill(s, width)) == Parse(s)
  {
    if |s| < width {
      ParseLeadingZeros(width - |s|, s);
    }
  }

  /** A number below 10^k has at most k decimal digits. */
  lemma {:induction false} DecimalFits(n: nat, k: nat)
    requires 0 < k && n < Pow10(k)
    ensures |Decimal(n)| <= k
  {
    if n >= 10 {
      DecimalFits(n / 10, k - 1);
    }
  }

  /** A number in [10^(k-1), 10^k) has exactly k decimal digits. */
  lemma {:induction false} DecimalLength(n: nat, k: nat)
    requires 0 < k && Pow10(k - 1) <= n < Pow10(k)
    ensures |Decimal(n)| == k
  {
    if k > 1 {
      DecimalLength(n / 10, k - 1);
    }
  }

  /** On digit strings of equal length, Python's string order agrees with
      the order of the numbers `int` reads, and equal numbers mean equal
      strings. */
  lemma {:induction false} ParseOrder(s: string, t: string)
    requires |s| == |t| && AllDigits(s) && AllDigits(t)
    ensures Parse(s) < Parse(t) ==> Below(s, t)
    ensures Parse(s) == Parse(t) ==> s == t
  {
    if |s| > 0 {
      var n := |s|;
      var s', t' := s[..n - 1], t[..n - 1];
      ParseOrder(s', t');
      BelowSnoc(s, t);
      assert s == s' + [s[n - 1]] && t == t' + [t[n - 1]];
    }
  }

  lemma ParseBelow(s: string, t: string)
    requires |s| == |t| && AllDigits(s) && AllDigits(t)
    requires Below(s, t)
    ensures Parse(s) < Parse(t)
  {
    ParseOrder(t, s);
    BelowAsymmetric(s, t);
    BelowIrreflexive(s);
  }
}
