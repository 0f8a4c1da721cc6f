/** Decimal numerals: fixed width and zero padded, or as short as possible. */
module Decimal {
  import opened Text

  function Digit(d: nat): char
    requires d < 10
  {
    '0' + d as char
  }

  predicate IsDigit(c: char)
  {
    '0' <= c <= '9'
  }

  predicate AllDigits(s: string)
  {
    forall i :: 0 <= i < |s| ==> IsDigit(s[i])
  }

  function DigitValue(c: char): nat
    requires IsDigit(c)
  {
    (c - '0') as nat
  }

  function Value(s: string): nat
    requires AllDigits(s)
  {
    if s == [] then 0 else 10 * Value(s[..|s| - 1]) + DigitValue(s[|s| - 1])
  }

  function Pow10(n: nat): (p: nat)
    ensures p >= 1
  {
    if n == 0 then 1 else 10 * Pow10(n - 1)
  }

  // ---- Fixed width ----

  /** The `w` low digits of `n`. */
  function Fixed(n: nat, w: nat): (s: string)
    ensures |s| == w && AllDigits(s)
  {
    if w == 0 then "" else Fixed(n / 10, w - 1) + [Digit(n % 10)]
  }

  lemma {:induction false} FixedValue(n: nat, w: nat)
    requires n < Pow10(w)
    ensures Value(Fixed(n, w)) == n
  {
    if w > 0 {
      FixedValue(n / 10, w - 1);
      assert Fixed(n, w)[..w - 1] == Fixed(n / 10, w - 1);
    }
  }

  lemma {:induction false} ValueFixed(s: string)
    requires AllDigits(s)
    ensures Value(s) < Pow10(|s|) && Fixed(Value(s), |s|) == s
  {
    if s != [] {
      var front := s[..|s| - 1];
      ValueFixed(front);
      assert Value(s) / 10 == Value(front) && Value(s) % 10 == DigitValue(s[|s| - 1]);
      assert s == front + [s[|s| - 1]];
    }
  }

  lemma DigitOrder(a: nat, b: nat)
    requires a < 10 && b < 10
    ensures Le([Digit(a)], [Digit(b)]) <==> a <= b
  {
    assert [Digit(a)][1..] == [];
  }

  lemma FixedInjective(a: nat, b: nat, w: nat)
    requires a < Pow10(w) && b < Pow10(w)
    ensures Fixed(a, w) == Fixed(b, w) <==> a == b
  {
    FixedValue(a, w);
    FixedValue(b, w);
  }

  /** Numerals of one width are ordered as texts just as their values are as numbers. */
  lemma {:induction false} FixedOrder(a: nat, b: nat, w: nat)
    requires a < Pow10(w) && b < Pow10(w)
    ensures Le(Fixed(a, w), Fixed(b, w)) <==> a <= b
  {
    hide Le, Digit;
    if w > 0 {
      FixedOrder(a / 10, b / 10, w - 1);
      LeConcat(Fixed(a / 10, w - 1), Fixed(b / 10, w - 1), [Digit(a % 10)], [Digit(b % 10)]);
      FixedInjective(a / 10, b / 10, w - 1);
      DigitOrder(a % 10, b % 10);
    } else {
      LeReflexive("");
    }
  }

  // ---- Shortest form ----

  /** `%d` of a count. */
  function Digits(n: nat): (s: string)
    ensures s != [] && AllDigits(s)
  {
    if n < 10 then [Digit(n)] else Digits(n / 10) + [Digit(n % 10)]
  }

  lemma {:induction false} DigitsValue(n: nat)
    ensures Value(Digits(n)) == n
  {
    if n >= 10 {
      DigitsValue(n / 10);
      assert Digits(n)[..|Digits(n)| - 1] == Digits(n / 10);
    } else {
      assert Digits(n)[..0] == [];
    }
  }

  lemma {:induction false} DigitsLength(n: nat, w: nat)
    requires Pow10(w) <= n
    ensures |Digits(n)| > w
  {
    if w > 0 {
      DigitsLength(n / 10, w - 1);
    }
  }

  lemma {:induction false} DigitsFixed(n: nat, w: nat)
    requires w > 0 && Pow10(w - 1) <= n < Pow10(w)
    ensures Digits(n) == Fixed(n, w)
  {
    if w > 1 {
      DigitsFixed(n / 10, w - 1);
    } else {
      assert Pow10(0) == 1 && Pow10(1) == 10;
      assert Fixed(n / 10, 0) == "" && n % 10 == n;
    }
  }

  /** The number that the first four digits of a numeral show. */
  function Leading(n: nat): (r: nat)
    ensures r <= 9999 && (n >= 1000 ==> r >= 1000)
  {
    if n <= 9999 then n else Leading(n / 10)
  }

  lemma {:induction false} DigitsLeading(n: nat)
    requires n >= 1000
    ensures |Digits(n)| >= 4 && Digits(n)[..4] == Fixed(Leading(n), 4)
    ensures n > 9999 ==> |Digits(n)| > 4
  {
    if n > 9999 {
      DigitsLeading(n / 10);
    } else {
      assert Pow10(3) == 1000 && Pow10(4) == 10000;
      DigitsFixed(n, 4);
    }
  }

  /** Splits off the longest numeral a text begins with. */
  function Span(s: string): (r: (string, string))
    ensures AllDigits(r.0) && s == r.0 + r.1
  {
    if s == [] || !IsDigit(s[0]) then ([], s)
    else
      var (d, rest) := Span(s[1..]);
      assert s == [s[0]] + s[1..];
      ([s[0]] + d, rest)
  }

  lemma {:induction false} SpanSplits(d: string, rest: string)
    requires AllDigits(d) && (rest == [] || !IsDigit(rest[0]))
    ensures Span(d + rest) == (d, rest)
  {
    if d == [] {
      assert d + rest == rest;
    } else {
      assert (d + rest)[1..] == d[1..] + rest && (d + rest)[0] == d[0];
      SpanSplits(d[1..], rest);
      assert [d[0]] + d[1..] == d;
    }
  }

  // ---- Fractions without trailing zeros ----

  function TrimZeros(s: string): (r: string)
    ensures |r| <= |s| && s[..|r|] == r
  {
    if s != [] && s[|s| - 1] == '0' then TrimZeros(s[..|s| - 1]) else s
  }

  /** What a fraction's digits stand for at a given number of places. */
  function Scaled(f: string, places: nat): nat
    requires AllDigits(f) && |f| <= places
  {
    Value(f) * Pow10(places - |f|)
  }

  lemma {:induction false} TrimKeepsValue(s: string)
    requires AllDigits(s)
    ensures AllDigits(TrimZeros(s)) && Scaled(TrimZeros(s), |s|) == Value(s)
  {
    if s != [] && s[|s| - 1] == '0' {
      var front := s[..|s| - 1];
      TrimKeepsValue(front);
      ScaleUp(TrimZeros(front), |front|);
    } else {
      assert Pow10(0) == 1;
    }
  }

  lemma {:induction false} ScaledBound(f: string, places: nat)
    requires AllDigits(f) && |f| <= places
    ensures Scaled(f, places) < Pow10(places)
    decreases places
  {
    ValueFixed(f);
    if |f| < places {
      ScaledBound(f, places - 1);
      ScaleUp(f, places - 1);
    }
  }

  lemma ScaleUp(f: string, places: nat)
    requires AllDigits(f) && |f| <= places
    ensures Scaled(f, places + 1) == 10 * Scaled(f, places)
  {
    hide Value;
    var v, p := Value(f), Pow10(places - |f|);
    assert Pow10(places + 1 - |f|) == 10 * p;
    assert v * (10 * p) == 10 * (v * p);
  }
}
