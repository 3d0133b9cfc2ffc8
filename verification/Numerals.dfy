/** Numbers written with digits, most significant first, in any base from 2 to 36. */
module Numerals {
  import opened Division

  predicate Base(b: nat) { 2 <= b <= 36 }

  /** `r < 10 ? '0' + r : 'a' + r - 10` */
  function DigitChar(r: nat): (c: char)
    requires r < 36
  {
    if r < 10 then '0' + r as char else 'a' + (r - 10) as char
  }

  predicate IsDigit(c: char, b: nat) {
    DigitVal(c) < b
  }

  /** The value of a digit; 36 for a character that is none. */
  function DigitVal(c: char): (r: nat)
    ensures r <= 36
  {
    if '0' <= c <= '9' then (c - '0') as nat else if 'a' <= c <= 'z' then (c - 'a') as nat + 10 else 36
  }

  lemma DigitRoundTrip(r: nat, c: char)
    requires r < 36
    ensures DigitVal(DigitChar(r)) == r
    ensures DigitVal(c) < 36 ==> DigitChar(DigitVal(c)) == c
    ensures DigitChar(r) == '0' <==> r == 0
  {
  }

  /** The digits of `n`, none for zero. */
  function Digits(n: nat, b: nat): (s: string)
    requires Base(b)
    ensures n > 0 ==> s != []
  {
    if n == 0 then [] else Shrink(n, b); Digits(n / b, b) + [DigitChar(n % b)]
  }

  lemma Shrink(n: nat, b: nat)
    requires Base(b) && n > 0
    ensures n / b < n && n % b < b
  {
    if n / b >= n {
      assert n == b * (n / b) + n % b;
      MulGap(b, n, n / b, 0);
      assert false;
    }
  }

  function Numeral(n: nat, b: nat): (s: string)
    requires Base(b)
    ensures s != []
  {
    if n == 0 then "0" else Digits(n, b)
  }

  /** The positional value. */
  function Value(s: string, b: nat): nat {
    if s == [] then 0 else b * Value(s[..|s| - 1], b) + DigitVal(s[|s| - 1])
  }

  lemma ValueLast(s: string, c: char, b: nat)
    ensures Value(s + [c], b) == b * Value(s, b) + DigitVal(c)
  {
    assert (s + [c])[..|s|] == s;
  }

  ghost predicate AllDigits(s: string, b: nat) {
    forall i :: 0 <= i < |s| ==> IsDigit(s[i], b)
  }

  /** Digits only, at least one, and no superfluous zero in front. */
  ghost predicate Canonical(s: string, b: nat) {
    s != [] && AllDigits(s, b) && (|s| > 1 ==> s[0] != '0')
  }

  lemma {:induction false} DigitsValue(n: nat, b: nat)
    requires Base(b)
    ensures Value(Digits(n, b), b) == n
    ensures AllDigits(Digits(n, b), b)
    ensures n > 0 ==> Digits(n, b)[0] != '0'
  {
    hide DigitChar, DigitVal, Value;
    if n == 0 {
      ValueEmpty(b);
    } else {
      Shrink(n, b);
      DigitsValue(n / b, b);
      ValueLast(Digits(n / b, b), DigitChar(n % b), b);
      DigitRoundTrip(n % b, '0');
      QuotientRemainder(n, b);
    }
  }

  lemma ValueEmpty(b: nat)
    ensures Value([], b) == 0
  {
  }

  lemma QuotientRemainder(n: nat, b: nat)
    requires b > 0
    ensures n == b * (n / b) + n % b && (n / b == 0 ==> n % b == n)
  {
    assert b * 0 == 0;
  }

  /** Writing a number gives a canonical numeral of exactly that value. */
  lemma NumeralValue(n: nat, b: nat)
    requires Base(b)
    ensures Value(Numeral(n, b), b) == n && Canonical(Numeral(n, b), b)
  {
    DigitsValue(n, b);
    if n == 0 {
      assert Value([], b) == 0 && "0"[..0] == [];
      assert b * 0 == 0;
    }
  }

  /** Different numbers are written differently. */
  lemma NumeralInjective(m: nat, n: nat, b: nat)
    requires Base(b) && Numeral(m, b) == Numeral(n, b)
    ensures m == n
  {
    NumeralValue(m, b);
    NumeralValue(n, b);
  }

  /** Digits that do not start with a zero are the digits of their value. */
  lemma {:induction false} DigitsOfValue(s: string, b: nat)
    requires Base(b) && AllDigits(s, b) && (s != [] ==> s[0] != '0')
    ensures Digits(Value(s, b), b) == s && (s != [] ==> Value(s, b) > 0)
    decreases |s|
  {
    hide DigitChar, DigitVal, Value, Digits;
    if s == [] {
      ValueEmpty(b);
      NoDigits(b);
    } else {
      var k := |s| - 1;
      var rest, c := s[..k], s[k];
      assert s == rest + [c];
      DigitsOfValue(rest, b);
      ValueLast(rest, c, b);
      assert IsDigit(c, b);
      LastDigit(Value(rest, b), c, b);
      if rest == [] { ValueEmpty(b); }
    }
  }

  lemma NoDigits(b: nat)
    requires Base(b)
    ensures Digits(0, b) == []
  {
  }

  lemma LastDigit(v: nat, c: char, b: nat)
    requires Base(b) && IsDigit(c, b) && (v == 0 ==> c != '0')
    ensures b * v + DigitVal(c) > 0 && Digits(b * v + DigitVal(c), b) == Digits(v, b) + [c]
  {
    hide DigitChar, DigitVal;
    DivModUnique(b * v + DigitVal(c), b, v, DigitVal(c));
    DigitRoundTrip(DigitVal(c), c);
    if v > 0 { MulAtLeast(b, v); }
  }

  /** Every canonical numeral is what its value is written as: writing and reading are inverse
      to each other. */
  lemma CanonicalIsNumeral(s: string, b: nat)
    requires Base(b) && Canonical(s, b)
    ensures Numeral(Value(s, b), b) == s
  {
    if s[0] == '0' {
      assert s == "0" && s[..0] == [];
      assert Value([], b) == 0 && b * 0 == 0;
    } else {
      DigitsOfValue(s, b);
    }
  }

  // ------------------------------------------------------------------ length

  /** A number below the `k`-th power of the base has at most `k` digits. */
  lemma {:induction false} DigitsLength(n: nat, b: nat, k: nat)
    requires Base(b) && n < Power(b, k)
    ensures |Digits(n, b)| <= k
    decreases k
  {
    if n > 0 && k > 0 {
      Shrink(n, b);
      assert n == b * (n / b) + n % b;
      if n / b >= Power(b, k - 1) {
        MulGap(b, Power(b, k - 1), n / b, 0);
        assert false;
      }
      DigitsLength(n / b, b, k - 1);
    }
  }

  function Power(b: nat, k: nat): nat {
    if k == 0 then 1 else b * Power(b, k - 1)
  }

  lemma {:induction false} PowerMonotone(a: nat, b: nat, k: nat)
    requires a <= b
    ensures Power(a, k) <= Power(b, k)
  {
    if k > 0 {
      PowerMonotone(a, b, k - 1);
      MulGap(a, Power(a, k - 1), Power(b, k - 1), 0);
      MulGap(Power(b, k - 1), a, b, 0);
      assert a * Power(b, k - 1) == Power(b, k - 1) * a && b * Power(b, k - 1) == Power(b, k - 1) * b;
    }
  }

  /** Numbers of 64 bits take at most 20 digits in base 10 and above. */
  lemma SixtyFourBits(n: nat, b: nat)
    requires 10 <= b <= 36 && n < 0x1_0000_0000_0000_0000
    ensures |Numeral(n, b)| <= 20
  {
    TenToThe20();
    PowerMonotone(10, b, 20);
    DigitsLength(n, b, 20);
  }

  /** Numbers of 32 bits take at most 10 in base 10. */
  lemma ThirtyTwoBits(n: nat)
    requires n < 0x1_0000_0000
    ensures |Numeral(n, 10)| <= 10
  {
    TenToThe10();
    DigitsLength(n, 10, 10);
  }

  lemma TenToThe10()
    ensures Power(10, 10) == 10_000_000_000
  {
    assert Power(10, 5) == 100_000;
  }

  lemma TenToThe20()
    ensures Power(10, 20) == 100_000_000_000_000_000_000
  {
    assert Power(10, 5) == 100_000;
    assert Power(10, 10) == 10_000_000_000;
    assert Power(10, 15) == 1_000_000_000_000_000;
  }

  /** The digits are these, in this order. */
  lemma OneDigit(r: nat, b: nat)
    requires Base(b) && r < b
    ensures Numeral(r, b) == ["0123456789abcdefghijklmnopqrstuvwxyz"[r]]
  {
    if r > 0 {
      SmallMod(r, b);
      assert Digits(r, b) == Digits(0, b) + [DigitChar(r)];
    }
    DigitIs(r);
  }

  lemma DigitIs(r: nat)
    requires r < 36
    ensures DigitChar(r) == "0123456789abcdefghijklmnopqrstuvwxyz"[r]
  {
  }

  /** And one more digit is written behind the others. */
  lemma MoreDigits(n: nat, r: nat, b: nat)
    requires Base(b) && r < b && n > 0
    ensures Numeral(b * n + r, b) == Numeral(n, b) + Numeral(r, b)
  {
    DivModUnique(b * n + r, b, n, r);
    OneDigit(r, b);
    DigitIs(r);
  }
}
