/** Decimal numerals as `%d`, `strconv.Itoa` and `strconv.ParseUint` handle them. */
module Decimal {
  import opened Strings

  /** A `uint` of a 64-bit Go platform is below this. */
  const UINT_LIMIT: nat := 0x1_0000_0000_0000_0000

  predicate IsDigit(c: char) { '0' <= c <= '9' }

  predicate AllDigits(s: string) { s != "" && forall i | 0 <= i < |s| :: IsDigit(s[i]) }

  /** No zero in front, unless the numeral is "0" itself. */
  predicate Canonical(s: string) { AllDigits(s) && (s[0] == '0' ==> s == "0") }

  function DigitChar(d: nat): (c: char)
    requires d < 10
    ensures IsDigit(c) && DigitValue(c) == d && c == "0123456789"[d]
  {
    '0' + d as char
  }

  function DigitValue(c: char): (d: nat)
    requires IsDigit(c)
    ensures d < 10
  {
    c as nat - '0' as nat
  }

  /** `%d` of a non-negative number. */
  function Digits(n: nat): (s: string)
    ensures Canonical(s) && Value(s) == n
    ensures s[0] == '0' <==> n == 0
  {
    if n < 10 then [DigitChar(n)]
    else
      var s := Digits(n / 10) + [DigitChar(n % 10)];
      assert s[..|s| - 1] == Digits(n / 10);
      s
  }

  function Value(s: string): nat
    requires AllDigits(s)
  {
    if |s| == 1 then DigitValue(s[0])
    else 10 * Value(s[..|s| - 1]) + DigitValue(s[|s| - 1])
  }

  /** A canonical numeral is determined by its value. */
  lemma {:induction false} DigitsOfValue(s: string)
    requires Canonical(s)
    ensures Digits(Value(s)) == s
    decreases |s|
  {
    if |s| == 1 {
      assert s == [s[0]];
    } else {
      var front := s[..|s| - 1];
      assert front[0] == s[0];
      DigitsOfValue(front);
      assert Value(front) != 0;
      assert s == front + [s[|s| - 1]];
      assert Value(s) / 10 == Value(front) && Value(s) % 10 == DigitValue(s[|s| - 1]);
    }
  }

  lemma DigitsInjective(m: nat, n: nat)
    requires Digits(m) == Digits(n)
    ensures m == n
  {
    assert Value(Digits(m)) == m && Value(Digits(n)) == n;
  }

  function Pow10(n: nat): (r: nat)
    ensures r > 0
  {
    if n == 0 then 1 else 10 * Pow10(n - 1)
  }

  /** A numeral of `n` digits is below 10 to the `n`, and without a zero in front not below 10 to the `n - 1`. */
  lemma {:induction false} ValueRange(s: string)
    requires AllDigits(s)
    ensures Value(s) < Pow10(|s|)
    ensures s[0] != '0' ==> Value(s) >= Pow10(|s| - 1)
    decreases |s|
  {
    if |s| > 1 {
      var front := s[..|s| - 1];
      assert front[0] == s[0];
      ValueRange(front);
    }
  }

  lemma {:induction false} Pow10Grows(m: nat, n: nat)
    requires m <= n
    ensures Pow10(m) <= Pow10(n)
  {
    if m < n { Pow10Grows(m, n - 1); }
  }

  /** Of two canonical numerals the longer one is the larger. */
  lemma LongerIsLarger(x: string, y: string)
    requires Canonical(x) && Canonical(y) && |x| < |y|
    ensures Value(x) < Value(y)
  {
    ValueRange(x);
    ValueRange(y);
    Pow10Grows(|x|, |y| - 1);
  }

  /** More than 20 digits never fit. */
  lemma LongDoesNotFit(y: string)
    requires Canonical(y) && |y| > 20
    ensures Value(y) >= UINT_LIMIT
  {
    ValueRange(y);
    Pow10Grows(20, |y| - 1);
    assert Pow10(10) == 10_000_000_000;
    assert Pow10(20) == 100_000_000_000_000_000_000;
  }

  /** Numerals of the same length are ordered as text. */
  lemma {:induction false} SameLengthText(x: string, y: string)
    requires AllDigits(x) && AllDigits(y) && |x| == |y|
    ensures Value(x) < Value(y) <==> Compare(x, y) < 0
    ensures Value(x) == Value(y) <==> x == y
    decreases |x|
  {
    var n := |x| - 1;
    CompareLast(x[..n], x[n], y[..n], y[n]);
    assert x == x[..n] + [x[n]] && y == y[..n] + [y[n]];
    if n > 0 {
      SameLengthText(x[..n], y[..n]);
    }
  }

  lemma {:induction false} CompareLast(a: string, c: char, b: string, d: char)
    requires |a| == |b|
    ensures Compare(a + [c], b + [d]) == if a != b then Compare(a, b) else if c < d then -1 else if c > d then 1 else 0
  {
    if a != "" {
      CompareLast(a[1..], c, b[1..], d);
      assert (a + [c])[1..] == a[1..] + [c] && (b + [d])[1..] == b[1..] + [d];
      assert a == [a[0]] + a[1..] && b == [b[0]] + b[1..];
    }
  }

  lemma DigitsFreeOf(n: nat, c: char)
    requires !IsDigit(c)
    ensures c !in Digits(n)
  {
  }

  /** `strconv.ParseUint(s, 10, 0)`, None for either of its errors. */
  function ParseUint(s: string): (r: Option<nat>)
    ensures r.Some? ==> r.value < UINT_LIMIT && AllDigits(s) && Value(s) == r.value
  {
    if AllDigits(s) && Value(s) < UINT_LIMIT then Some(Value(s)) else None
  }
}
