/**
 Decimal numerals: `std::to_string`, the value of a string of digits, and how comparing numerals
 character by character agrees with comparing numbers.
 */
module Decimals {

  predicate IsDigit(c: char) {
    '0' <= c <= '9'
  }

  ghost predicate AllDigits(s: string) {
    forall i :: 0 <= i < |s| ==> IsDigit(s[i])
  }

  function DigitValue(c: char): (d: nat)
    requires IsDigit(c)
    ensures d <= 9
  {
    (c as int) - ('0' as int)
  }

  function DigitChar(d: nat): (c: char)
    requires d <= 9
    ensures IsDigit(c) && DigitValue(c) == d
  {
    (d + '0' as int) as char
  }

  /** `std::to_string` of a number that is not negative. */
  function Decimal(n: nat): (s: string)
    ensures s != ""
  {
    if n < 10 then [DigitChar(n)] else Decimal(n / 10) + [DigitChar(n % 10)]
  }

  /** The value of a string of digits; leading zeros do not matter (`stoll`). */
  ghost function Val(s: string): nat
    requires AllDigits(s)
  {
    if s == "" then 0 else 10 * Val(s[..|s| - 1]) + DigitValue(s[|s| - 1])
  }

  /** A numeral without leading zeros. */
  ghost predicate Canonical(s: string) {
    s != "" && AllDigits(s) && (s[0] == '0' ==> |s| == 1)
  }

  /** Comparison of strings of the same length, character by character. */
  ghost predicate LexLe(a: string, b: string)
    requires |a| == |b|
  {
    a == "" || a[0] < b[0] || (a[0] == b[0] && LexLe(a[1..], b[1..]))
  }

  /** Comparison of numerals: the shorter one is less. */
  ghost predicate NumLe(a: string, b: string) {
    |a| < |b| || (|a| == |b| && LexLe(a, b))
  }

  lemma {:induction false} LexRefl(a: string)
    ensures LexLe(a, a)
  {
    if a != "" {
      LexRefl(a[1..]);
    }
  }

  lemma {:induction false} LexTransitive(a: string, b: string, c: string)
    requires |a| == |b| == |c| && LexLe(a, b) && LexLe(b, c)
    ensures LexLe(a, c)
  {
    if a != "" && a[0] == b[0] == c[0] {
      LexTransitive(a[1..], b[1..], c[1..]);
    }
  }

  /** Comparing from the front is the same as comparing from the back. */
  lemma {:induction false} LexSnoc(a: string, b: string, x: char, y: char)
    requires |a| == |b|
    ensures LexLe(a + [x], b + [y]) <==> if a == b then x <= y else LexLe(a, b)
  {
    if a == "" {
      assert a + [x] == [x] && b + [y] == [y];
    } else {
      assert (a + [x])[1..] == a[1..] + [x] && (b + [y])[1..] == b[1..] + [y];
      LexSnoc(a[1..], b[1..], x, y);
      assert a == b <==> a[0] == b[0] && a[1..] == b[1..];
      if a == b {
        LexRefl(a);
      }
    }
  }

  lemma {:induction false} ValInjective(a: string, b: string)
    requires |a| == |b| && AllDigits(a) && AllDigits(b) && Val(a) == Val(b)
    ensures a == b
  {
    if a != "" {
      var n := |a| - 1;
      ValInjective(a[..n], b[..n]);
      assert a == a[..n] + [a[n]] && b == b[..n] + [b[n]];
    }
  }

  /** For numerals of the same length, comparing characters compares values. */
  lemma {:induction false} LexIsVal(a: string, b: string)
    requires |a| == |b| && AllDigits(a) && AllDigits(b)
    ensures LexLe(a, b) <==> Val(a) <= Val(b)
    decreases |a|
  {
    if a != "" {
      var n := |a| - 1;
      var a', b' := a[..n], b[..n];
      assert a == a' + [a[n]] && b == b' + [b[n]];
      LexSnoc(a', b', a[n], b[n]);
      LexIsVal(a', b');
      LexIsVal(b', a');
      if Val(a') == Val(b') {
        ValInjective(a', b');
      }
    }
  }

  lemma {:induction false} ValPositive(s: string)
    requires s != "" && AllDigits(s) && s[0] != '0'
    ensures Val(s) >= 1
  {
    if |s| > 1 {
      ValPositive(s[..|s| - 1]);
    }
  }

  /** A longer numeral without leading zeros is greater. */
  lemma {:induction false} LongerIsGreater(a: string, b: string)
    requires AllDigits(a) && AllDigits(b) && |a| < |b| && b[0] != '0'
    ensures Val(a) < Val(b)
  {
    if a == "" {
      ValPositive(b);
    } else {
      LongerIsGreater(a[..|a| - 1], b[..|b| - 1]);
    }
  }

  lemma {:induction false} NumLeIsVal(a: string, b: string)
    requires Canonical(a) && Canonical(b)
    ensures NumLe(a, b) <==> Val(a) <= Val(b)
  {
    if |a| < |b| {
      LongerIsGreater(a, b);
    } else if |b| < |a| {
      LongerIsGreater(b, a);
    } else {
      LexIsVal(a, b);
    }
  }

  lemma {:induction false} DecimalIsCanonical(n: nat)
    ensures Canonical(Decimal(n)) && Val(Decimal(n)) == n
    ensures n > 0 ==> Decimal(n)[0] != '0'
  {
    if n < 10 {
      assert Decimal(n)[..0] == "";
    } else {
      DecimalIsCanonical(n / 10);
      assert Decimal(n)[..|Decimal(n)| - 1] == Decimal(n / 10);
    }
  }

  /** Every numeral without leading zeros is the numeral of its value. */
  lemma {:induction false} CanonicalIsDecimal(s: string)
    requires Canonical(s)
    ensures Decimal(Val(s)) == s
  {
    var n := |s| - 1;
    if n == 0 {
      assert s[..0] == "" && s == [s[0]];
    } else {
      CanonicalIsDecimal(s[..n]);
      ValPositive(s[..n]);
      LastDigit(Val(s[..n]), DigitValue(s[n]));
      assert s == s[..n] + [s[n]];
    }
  }

  lemma LastDigit(v: nat, d: nat)
    requires d <= 9
    ensures (10 * v + d) / 10 == v && (10 * v + d) % 10 == d
  {
  }

  /** `n` times the same character. */
  function Repeated(c: char, n: nat): (s: string)
    ensures |s| == n && forall i :: 0 <= i < n ==> s[i] == c
  {
    seq(n, _ => c)
  }

  lemma {:induction false} ZerosLeast(s: string)
    requires AllDigits(s)
    ensures LexLe(Repeated('0', |s|), s)
  {
    if s != "" {
      ZerosLeast(s[1..]);
      assert Repeated('0', |s|)[1..] == Repeated('0', |s| - 1);
    }
  }

  lemma {:induction false} NinesGreatest(s: string)
    requires AllDigits(s)
    ensures LexLe(s, Repeated('9', |s|))
  {
    if s != "" {
      NinesGreatest(s[1..]);
      assert Repeated('9', |s|)[1..] == Repeated('9', |s| - 1);
    }
  }
}
