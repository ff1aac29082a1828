/** Unsigned decimal numbers as the standard library prints and parses them. */
module Decimal {
  import opened Wrappers

  predicate IsDigit(c: char) {
    '0' <= c <= '9'
  }

  function DigitValue(c: char): (d: nat)
    requires IsDigit(c)
    ensures d < 10
  {
    c as int - '0' as int
  }

  function DigitChar(d: nat): (c: char)
    requires d < 10
    ensures IsDigit(c) && DigitValue(c) == d
  {
    ('0' as int + d) as char
  }

  predicate AllDigits(s: string) {
    forall i :: 0 <= i < |s| ==> IsDigit(s[i])
  }

  function Value(s: string): nat
    requires AllDigits(s)
  {
    if s == [] then 0 else 10 * Value(s[..|s| - 1]) + DigitValue(s[|s| - 1])
  }

  /** An optional plus sign, then digits, for a value that fits. */
  function ParseUnsigned(s: string, max: nat): Option<nat> {
    var digits := if s != [] && s[0] == '+' then s[1..] else s;
    if digits == [] || !AllDigits(digits) || Value(digits) > max then None else Some(Value(digits))
  }

  function Print(n: nat): (s: string)
    ensures s != [] && AllDigits(s)
  {
    if n < 10 then [DigitChar(n)] else Print(n / 10) + [DigitChar(n % 10)]
  }

  function Zeros(k: nat): (s: string)
    ensures |s| == k && forall i :: 0 <= i < k ==> s[i] == '0'
  {
    seq(k, i => '0')
  }

  /** At least `width` digits, zero-padded on the left. */
  function PrintPadded(n: nat, width: nat): (s: string)
    ensures AllDigits(s) && |s| >= width && s != []
  {
    var s := Print(n);
    if |s| >= width then s else Zeros(width - |s|) + s
  }

  lemma {:induction false} ValueOfPrint(n: nat)
    ensures Value(Print(n)) == n
  {
    if n >= 10 {
      ValueOfPrint(n / 10);
      assert Print(n)[..|Print(n)| - 1] == Print(n / 10);
    }
  }

  lemma {:induction false} ValueOfZeros(k: nat, s: string)
    requires AllDigits(s)
    ensures AllDigits(Zeros(k) + s) && Value(Zeros(k) + s) == Value(s)
  {
    if s == [] {
      if k > 0 {
        assert (Zeros(k) + s)[..k - 1] == Zeros(k - 1) + s;
        ValueOfZeros(k - 1, s);
      }
    } else {
      ValueOfZeros(k, s[..|s| - 1]);
      assert (Zeros(k) + s)[..k + |s| - 1] == Zeros(k) + s[..|s| - 1];
    }
  }

  lemma ValueOfPadded(n: nat, width: nat)
    ensures Value(PrintPadded(n, width)) == n
    ensures |PrintPadded(n, width)| == if |Print(n)| >= width then |Print(n)| else width
  {
    ValueOfPrint(n);
    if |Print(n)| < width {
      ValueOfZeros(width - |Print(n)|, Print(n));
    }
  }

  /** Parsing undoes padded printing. */
  lemma ParsesPrinted(n: nat, width: nat, max: nat)
    requires n <= max
    ensures ParseUnsigned(PrintPadded(n, width), max) == Some(n)
  {
    ValueOfPadded(n, width);
  }

  // ----- Which digit strings are printed -----

  function Pow10(k: nat): (p: nat)
    ensures p > 0
  {
    if k == 0 then 1 else 10 * Pow10(k - 1)
  }

  lemma {:induction false} ValueBound(s: string)
    requires AllDigits(s)
    ensures Value(s) < Pow10(|s|)
    ensures s != [] && s[0] != '0' ==> Value(s) >= Pow10(|s| - 1)
    ensures s != [] && s[0] == '0' ==> Value(s) < Pow10(|s| - 1)
  {
    if s != [] {
      ValueBound(s[..|s| - 1]);
    }
  }

  lemma {:induction false} SameLengthSameValue(s: string, t: string)
    requires AllDigits(s) && AllDigits(t) && |s| == |t| && Value(s) == Value(t)
    ensures s == t
  {
    if s != [] {
      var n := |s| - 1;
      SameLengthSameValue(s[..n], t[..n]);
      assert s == s[..n] + [s[n]] && t == t[..n] + [t[n]];
    }
  }

  lemma {:induction false} Pow10Monotone(a: nat, b: nat)
    requires a <= b
    ensures Pow10(a) <= Pow10(b)
    decreases b
  {
    if a < b { Pow10Monotone(a, b - 1); }
  }

  lemma {:induction false} PrintHasNoLeadingZero(n: nat)
    requires n > 0
    ensures Print(n)[0] != '0'
  {
    if n >= 10 { PrintHasNoLeadingZero(n / 10); }
  }

  /** The length of a number is fixed by the powers of ten around it. */
  lemma PrintLength(n: nat, k: nat)
    requires k > 0 && n < Pow10(k) && (k == 1 || n >= Pow10(k - 1))
    ensures |Print(n)| == k
  {
    ValueOfPrint(n);
    ValueBound(Print(n));
    if n > 0 {
      PrintHasNoLeadingZero(n);
      var m := |Print(n)|;
      if m < k { Pow10Monotone(m, k - 1); }
      if m > k { Pow10Monotone(k, m - 1); }
    }
  }

  lemma {:induction false} PrintAtMost(n: nat, k: nat)
    requires k > 0 && n < Pow10(k)
    ensures |Print(n)| <= k
    decreases k
  {
    if k == 1 || n >= Pow10(k - 1) { PrintLength(n, k); } else { PrintAtMost(n, k - 1); }
  }

  /** Printing a parsed digit string gives it back exactly when it has the width, or is longer without a leading zero. */
  lemma PrintsParsed(s: string, width: nat)
    requires s != [] && AllDigits(s) && width > 0
    ensures PrintPadded(Value(s), width) == s <==> |s| == width || (|s| > width && s[0] != '0')
  {
    hide *;
    var n := Value(s);
    ValueBound(s);
    PrintAtMost(n, |s|);
    ValueOfPadded(n, width);
    if |s| > width && s[0] != '0' {
      PrintLength(n, |s|);
    } else if |s| > width {
      PrintAtMost(n, |s| - 1);
    }
    if |PrintPadded(n, width)| == |s| {
      SameLengthSameValue(PrintPadded(n, width), s);
    }
  }

  // ----- What is parsed -----

  /** Digits that spell `n`. */
  predicate IsNumeral(s: string, n: nat) {
    s != "" && (forall i :: 0 <= i < |s| ==> '0' <= s[i] <= '9') && AllDigits(s) && Value(s) == n
  }

  /** A plus sign may stand before the digits. */
  lemma ParsesExactly(s: string, max: nat, n: nat)
    ensures ParseUnsigned(s, max) == Some(n) <==> n <= max && (IsNumeral(s, n) || (s != "" && s[0] == '+' && IsNumeral(s[1..], n)))
  {
  }

  /** The digits in order, and what a number of several is worth. */
  lemma DigitsExactly(d: nat, s: string)
    requires d < 10
    ensures DigitChar(d) == "0123456789"[d]
    ensures AllDigits(s) ==> Value(s + ["0123456789"[d]]) == 10 * Value(s) + d
  {
    var t := s + [DigitChar(d)];
    assert t[..|s|] == s && "0123456789"[d] == DigitChar(d);
  }
}
