/** Decimal printing of unsigned integers, as `format!("{n}")` does it. */
module Decimals {

  const DIGITS := "0123456789"

  predicate IsDigit(c: char) { '0' <= c <= '9' }

  predicate AllDigits(s: string) { forall i :: 0 <= i < |s| ==> IsDigit(s[i]) }

  function Decimal(n: nat): (s: string)
    ensures s != "" && AllDigits(s)
  {
    if n < 10 then [DIGITS[n]] else Decimal(n / 10) + [DIGITS[n % 10]]
  }

  function Value(s: string): nat
    requires AllDigits(s)
  {
    if s == "" then 0 else 10 * Value(s[..|s| - 1]) + (s[|s| - 1] as int - '0' as int)
  }

  lemma {:induction false} ValueOfDecimal(n: nat)
    ensures Value(Decimal(n)) == n
  {
    if n >= 10 {
      ValueOfDecimal(n / 10);
      var s := Decimal(n);
      assert s[..|s| - 1] == Decimal(n / 10);
    }
  }

  lemma DecimalIsInjective(m: nat, n: nat)
    ensures Decimal(m) == Decimal(n) <==> m == n
  {
    ValueOfDecimal(m);
    ValueOfDecimal(n);
  }

  /** How many digits a text starts with. */
  function Span(s: string): (n: nat)
    ensures n <= |s| && AllDigits(s[..n])
    ensures n < |s| ==> !IsDigit(s[n])
  {
    if s == "" || !IsDigit(s[0]) then 0 else 1 + Span(s[1..])
  }

  lemma {:induction false} SpanOf(a: string, x: string)
    requires AllDigits(a) && (x == "" || !IsDigit(x[0]))
    ensures Span(a + x) == |a| && (a + x)[..|a|] == a && (a + x)[|a|..] == x
  {
    if a == "" {
      assert a + x == x;
    } else {
      assert (a + x)[1..] == a[1..] + x;
      SpanOf(a[1..], x);
    }
  }

  /** A run of digits ends where the digits end: two texts that start with one agree on it and on the rest. */
  lemma DigitsEndWhereTheyEnd(a: string, x: string, b: string, y: string)
    requires AllDigits(a) && AllDigits(b)
    requires (x == "" || !IsDigit(x[0])) && (y == "" || !IsDigit(y[0]))
    requires a + x == b + y
    ensures a == b && x == y
  {
    SpanOf(a, x);
    SpanOf(b, y);
  }
}
