/** Bitwise operators on unsigned words, digit by digit, and what masks do. */
module Bits {
  import opened Division

  /** `a & b` */
  function And(a: nat, b: nat): nat {
    if a == 0 || b == 0 then 0
    else 2 * And(a / 2, b / 2) + if a % 2 == 1 && b % 2 == 1 then 1 else 0
  }

  /** `a | b` */
  function Or(a: nat, b: nat): nat
    decreases a + b
  {
    if a == 0 && b == 0 then 0
    else 2 * Or(a / 2, b / 2) + if a % 2 == 1 || b % 2 == 1 then 1 else 0
  }

  // ------------------------------------------------------------------ bit by bit

  predicate Bit(a: nat, k: nat) {
    if k == 0 then a % 2 == 1 else Bit(a / 2, k - 1)
  }

  lemma {:induction false} AndBits(a: nat, b: nat, k: nat)
    ensures Bit(And(a, b), k) <==> Bit(a, k) && Bit(b, k)
    decreases k
  {
    AndDigit(a, b);
    if k > 0 { AndBits(a / 2, b / 2, k - 1); }
  }

  lemma OrDigits(a: nat, b: nat)
    requires a != 0 || b != 0
    ensures Or(a, b) / 2 == Or(a / 2, b / 2) && (Or(a, b) % 2 == 1 <==> a % 2 == 1 || b % 2 == 1)
    ensures Or(a, b) != 0
  {
    if a % 2 == 0 && b % 2 == 0 { OrNonZero(a / 2, b / 2); }
  }

  lemma {:induction false} OrNonZero(a: nat, b: nat)
    requires a != 0 || b != 0
    ensures Or(a, b) != 0
    decreases a + b
  {
    if a % 2 == 0 && b % 2 == 0 { OrNonZero(a / 2, b / 2); }
  }

  lemma {:induction false} OrBits(a: nat, b: nat, k: nat)
    ensures Bit(Or(a, b), k) <==> Bit(a, k) || Bit(b, k)
    decreases k
  {
    if a == 0 && b == 0 {
      NoBits(k);
    } else {
      hide Or;
      OrDigits(a, b);
      if k > 0 { OrBits(a / 2, b / 2, k - 1); }
    }
  }

  lemma {:induction false} SomeBit(a: nat) returns (k: nat)
    requires a != 0
    ensures Bit(a, k)
    decreases a
  {
    if a % 2 == 1 { k := 0; } else { k := SomeBit(a / 2); k := k + 1; }
  }

  lemma {:induction false} NoBits(k: nat)
    ensures !Bit(0, k)
  {
    if k > 0 { NoBits(k - 1); }
  }

  /** The two numbers have a bit in common. */
  ghost predicate Shares(a: nat, b: nat) {
    exists k: nat :: Bit(a, k) && Bit(b, k)
  }

  lemma CommonBit(a: nat, b: nat)
    ensures And(a, b) != 0 <==> Shares(a, b)
  {
    if Shares(a, b) {
      var k: nat :| Bit(a, k) && Bit(b, k);
      AndBits(a, b, k);
      NoBits(k);
    }
    if And(a, b) != 0 {
      var k := SomeBit(And(a, b));
      AndBits(a, b, k);
    }
  }

  // ------------------------------------------------------------------ masks

  /** A mask with a single bit tests that bit. */
  lemma {:induction false} OneBit(a: nat, k: nat)
    ensures And(a, Pow2(k)) != 0 <==> Bit(a, k)
    decreases k
  {
    AndDigit(a, Pow2(k));
    if k > 0 { OneBit(a / 2, k - 1); } else { AndZero(a / 2); }
  }

  lemma AndZero(a: nat)
    ensures And(a, 0) == 0
  {
  }

  function Pow2(k: nat): (p: nat)
    ensures p >= 1 && (k > 0 ==> p % 2 == 0)
  {
    if k == 0 then 1 else 2 * Pow2(k - 1)
  }

  lemma Powers()
    ensures Pow2(2) == 4 && Pow2(7) == 128 && Pow2(12) == 4096 && Pow2(32) == 0x1_0000_0000
  {
    assert Pow2(8) == 256;
    assert Pow2(16) == 65536;
    assert Pow2(24) == 0x100_0000;
  }

  /** Remainders by powers of two, one digit at a time. */
  lemma ModDigit(a: nat, k: nat)
    requires k > 0
    ensures a % Pow2(k) == 2 * (a / 2 % Pow2(k - 1)) + a % 2
  {
    var p, q := Pow2(k - 1), a / 2 / Pow2(k - 1);
    assert a / 2 == p * q + a / 2 % p;
    assert a == 2 * (a / 2) + a % 2;
    assert 2 * p * q == 2 * (p * q);
    DivModUnique(a, 2 * p, q, 2 * (a / 2 % p) + a % 2);
  }

  lemma AndDigit(a: nat, b: nat)
    ensures And(a, b) == 2 * And(a / 2, b / 2) + if a % 2 == 1 && b % 2 == 1 then 1 else 0
  {
  }

  lemma PowStep(k: nat)
    requires k > 0
    ensures Pow2(k) == 2 * Pow2(k - 1)
  {
  }

  /** A mask of ones keeps the low digits. */
  lemma {:induction false} AndLow(a: nat, k: nat)
    ensures And(a, Pow2(k) - 1) == a % Pow2(k)
    decreases k
  {
    if k > 0 {
      var m := Pow2(k) - 1;
      assert m / 2 == Pow2(k - 1) - 1 && m % 2 == 1;
      AndLow(a / 2, k - 1);
      ModDigit(a, k);
      AndDigit(a, m);
    }
  }

  /** A mask of ones followed by `k` zeros clears the low digits. */
  lemma {:induction false} AndHigh(a: nat, k: nat, n: nat)
    requires k <= n && a < Pow2(n)
    ensures Pow2(k) <= Pow2(n) && And(a, Pow2(n) - Pow2(k)) == a - a % Pow2(k)
    decreases n
  {
    hide And, Pow2;
    if k == 0 {
      AndLow(a, n);
      SmallMod(a, Pow2(n));
      PowZero();
    } else {
      PowStep(n);
      PowStep(k);
      AndHigh(a / 2, k - 1, n - 1);
      ModDigit(a, k);
      AndEven(a, Pow2(n - 1) - Pow2(k - 1));
      assert a == 2 * (a / 2) + a % 2;
    }
  }

  lemma AndEven(a: nat, m: nat)
    ensures And(a, 2 * m) == 2 * And(a / 2, m)
  {
    AndDigit(a, 2 * m);
    assert 2 * m / 2 == m;
  }

  lemma PowZero()
    ensures Pow2(0) == 1
  {
  }

  /** Words without a common digit are simply added. */
  lemma {:induction false} OrApart(a: nat, b: nat, k: nat)
    requires a % Pow2(k) == 0 && b < Pow2(k)
    ensures Or(a, b) == a + b
    decreases k
  {
    if k == 0 {
      OrZero(a);
    } else if a != 0 || b != 0 {
      ModDigit(a, k);
      OrApart(a / 2, b / 2, k - 1);
    }
  }

  lemma {:induction false} OrZero(a: nat)
    ensures Or(a, 0) == a
  {
    if a > 0 { OrZero(a / 2); }
  }
}
