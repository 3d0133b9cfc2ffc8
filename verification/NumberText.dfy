/** The conversions between numbers and strings of kernel/generic.c and libc/libc.c. */
module NumberText {
  import opened Numerals
  import opened CStrings
  import opened Words

  type int32 = x: int | -0x8000_0000 <= x < 0x8000_0000
  type int64 = x: int | -0x8000_0000_0000_0000 <= x < 0x8000_0000_0000_0000

  const MIN32: int := -0x8000_0000
  const MIN64: int := -0x8000_0000_0000_0000

  /** What is kept of a number in 32 bits. */
  function Wrap32(x: int): (r: int32)
    ensures -0x8000_0000 <= x < 0x8000_0000 ==> r == x
  {
    (x + 0x8000_0000) % WORD - 0x8000_0000
  }

  /** The text of int_to_str.  The least number has no negative, and no digits. */
  function IntText(n: int64, b: nat): string
    requires Base(b)
  {
    if n == 0 then "0"
    else if n < 0 then "-" + (if n == MIN64 then "" else Digits(Abs(n), b))
    else Digits(n, b)
  }

  /** The text of itoa: only base 10 knows negative numbers. */
  function ItoaText(n: int32, b: nat): string
    requires Base(b)
  {
    if n == 0 then "0"
    else if n < 0 then if b != 10 then "" else "-" + (if n == MIN32 then "" else Digits(Abs(n), b))
    else Digits(n, b)
  }

  /** The digits a string starts with. */
  function Leading(s: string): (r: string)
    ensures r <= s && AllDigits(r, 10)
  {
    if s != [] && IsDigit(s[0], 10) then [s[0]] + Leading(s[1..]) else []
  }

  /** The number atoi reads. */
  function Atoi(s: string): int32 {
    if s != [] && s[0] == '-' then Wrap32(-1 * Value(Leading(s[1..]), 10)) else Wrap32(Value(Leading(s), 10))
  }

  // ------------------------------------------------------------------ the loops

  /** `while (n > 0) { tmp[i++] = digit; n /= base; }` */
  method StoreDigits(n: int, b: nat, tmp: array<char>) returns (i: nat)
    requires Base(b) && (n > 0 ==> |Digits(n, b)| <= tmp.Length)
    modifies tmp
    ensures i <= tmp.Length && Reversed(tmp[..i]) == if n > 0 then Digits(n, b) else []
  {
    hide DigitChar, Reversed, Digits;
    i := 0;
    ReversedNone();
    assert tmp[..0] == [];
    var k := n;
    while k > 0
      invariant i <= tmp.Length
      invariant n > 0 ==> k >= 0 && Digits(n, b) == Digits(k, b) + Reversed(tmp[..i])
      invariant n <= 0 ==> k == n && i == 0
      decreases k
    {
      StoredDigit(Digits(n, b), k, b, tmp[..i]);
      ghost var stored := tmp[..i];
      tmp[i] := DigitChar(k % b);
      assert tmp[..i + 1] == stored + [DigitChar(k % b)];
      i := i + 1;
      k := k / b;
    }
    NoDigits(b);
  }

  /** Of what is still to be written the last digit is written next, in front of the others. */
  lemma StoredDigit(all: string, k: nat, b: nat, stored: string)
    requires Base(b) && k > 0 && all == Digits(k, b) + Reversed(stored)
    ensures 0 <= k % b < b && 0 <= k / b < k && |stored| < |all|
    ensures all == Digits(k / b, b) + Reversed(stored + [DigitChar(k % b)])
  {
    hide DigitChar, Reversed, Digits;
    Shrink(k, b);
    LastDigit(k, b);
    ReversedLast(stored, DigitChar(k % b));
    var q, c := Digits(k / b, b), DigitChar(k % b);
    assert q + [c] + Reversed(stored) == q + ([c] + Reversed(stored));
  }

  lemma LastDigit(k: nat, b: nat)
    requires Base(b) && k > 0
    ensures 0 <= k % b < b && 0 <= k / b && Digits(k, b) == Digits(k / b, b) + [DigitChar(k % b)]
  {
    hide DigitChar;
    Shrink(k, b);
  }

  ghost function Reversed(s: string): (r: string)
    ensures |r| == |s|
  {
    seq(|s|, k requires 0 <= k < |s| => s[|s| - 1 - k])
  }

  lemma ReversedNone()
    ensures Reversed([]) == []
  {
  }

  lemma ReversedLast(s: string, c: char)
    ensures Reversed(s + [c]) == [c] + Reversed(s)
  {
  }

  /** `buf` holds the string `s` at `p` and is otherwise as before. */
  ghost predicate Wrote(before: seq<char>, after: seq<char>, p: nat, s: string) {
    && |after| == |before| && p + |s| < |after|
    && forall k :: 0 <= k < |after| ==>
      after[k] == if p <= k < p + |s| then s[k - p] else if k == p + |s| then '\0' else before[k]
  }

  /** Without a NUL of its own it is the string found there. */
  lemma WroteString(before: seq<char>, after: seq<char>, p: nat, s: string)
    requires Wrote(before, after, p, s) && '\0' !in s
    ensures IsString(after, p) && CStr(after, p) == s
  {
    assert after[p..p + |s|] == s;
    CStrIs(after, p, s);
  }

  /** `while (i > 0) buf[j++] = tmp[--i];` and the closing NUL. */
  method CopyReversed(tmp: array<char>, i: nat, buf: array<char>, p: nat)
    requires i <= tmp.Length && tmp != buf && p + i < buf.Length
    modifies buf
    ensures Wrote(old(buf[..]), buf[..], p, Reversed(tmp[..i]))
  {
    for j := 0 to i
      invariant forall k :: 0 <= k < buf.Length ==> buf[k] == if p <= k < p + j then tmp[i - 1 - (k - p)] else old(buf[k])
    {
      buf[p + j] := tmp[i - 1 - j];
    }
    buf[p + i] := '\0';
  }

  method UintToStr(n: nat, b: nat, buf: array<char>, p: nat)
    requires Base(b) && |Numeral(n, b)| <= 32 && p + |Numeral(n, b)| < buf.Length
    modifies buf
    ensures Wrote(old(buf[..]), buf[..], p, Numeral(n, b))
  {
    if n == 0 {
      buf[p], buf[p + 1] := '0', '\0';
      return;
    }
    var tmp := new char[32];
    var i := StoreDigits(n, b, tmp);
    CopyReversed(tmp, i, buf, p);
  }

  method IntToStr(n: int64, b: nat, buf: array<char>, p: nat)
    requires Base(b) && |IntText(n, b)| <= 32 && p + |IntText(n, b)| < buf.Length
    modifies buf
    ensures Wrote(old(buf[..]), buf[..], p, IntText(n, b))
  {
    if n == 0 {
      buf[p], buf[p + 1] := '0', '\0';
      return;
    }
    var tmp := new char[32];
    var neg, k: int := false, n;
    if n < 0 {
      neg := true;
      k := if n == MIN64 then n else Abs(n);
    }
    var i := StoreDigits(k, b, tmp);
    if neg {
      ReversedLast(tmp[..i], '-');
      tmp[i] := '-';
      i := i + 1;
      assert tmp[..i] == tmp[..i - 1] + ['-'];
    }
    CopyReversed(tmp, i, buf, p);
  }

  method Itoa(n: int32, b: nat, buf: array<char>, p: nat)
    requires Base(b) && |ItoaText(n, b)| <= 32 && p + |ItoaText(n, b)| < buf.Length
    modifies buf
    ensures Wrote(old(buf[..]), buf[..], p, ItoaText(n, b))
  {
    if n == 0 {
      buf[p], buf[p + 1] := '0', '\0';
      return;
    }
    var tmp := new char[32];
    var neg, k: int := false, n;
    if n < 0 && b == 10 {
      neg := true;
      k := if n == MIN32 then n else Abs(n);
    }
    var i := StoreDigits(k, b, tmp);
    if neg {
      ReversedLast(tmp[..i], '-');
      tmp[i] := '-';
      i := i + 1;
      assert tmp[..i] == tmp[..i - 1] + ['-'];
    }
    CopyReversed(tmp, i, buf, p);
  }

  /** atoi: the accumulator wraps around at 32 bits. */
  method ReadInt(mem: array<char>, start: nat) returns (r: int32)
    requires start < mem.Length && IsString(mem[..], start)
    ensures r == Atoi(CStr(mem[..], start))
  {
    hide Value, Wrap32, Leading, AllDigits;
    ghost var s := CStr(mem[..], start);
    var result: int32, negative, p := 0, false, start;
    ghost var digits := s;
    if mem[p] == '-' { negative := true; p := p + 1; digits := s[1..]; }
    ghost var first := p;
    ghost var end := StrEnd(mem[..], start);
    assert |digits| == end - first && forall k :: 0 <= k < |digits| ==> digits[k] == mem[first + k];
    NothingRead(digits);
    while '0' <= mem[p] <= '9'
      invariant first <= p <= end
      invariant AllDigits(digits[..p - first], 10) && result == Wrap32(Value(digits[..p - first], 10))
      decreases end - p
    {
      assert digits[p - first] == mem[first + (p - first)];
      OneMore(digits, p - first);
      result := Wrap32(result * 10 + (mem[p] - '0') as int);
      p := p + 1;
    }
    assert p < end ==> digits[p - first] == mem[first + (p - first)];
    LeadingIs(digits, p - first);
    WrapNegative(Value(digits[..p - first], 10));
    r := if negative then Wrap32(-1 * result) else result;
  }

  lemma NothingRead(s: string)
    ensures Wrap32(Value(s[..0], 10)) == 0 && AllDigits(s[..0], 10)
  {
  }

  lemma OneMore(s: string, n: nat)
    requires n < |s| && '0' <= s[n] <= '9' && AllDigits(s[..n], 10)
    ensures AllDigits(s[..n + 1], 10)
    ensures Wrap32(Wrap32(Value(s[..n], 10)) * 10 + (s[n] - '0') as int) == Wrap32(Value(s[..n + 1], 10))
  {
    assert s[..n + 1] == s[..n] + [s[n]];
    ValueLast(s[..n], s[n], 10);
    WrapDigit(Value(s[..n], 10), DigitVal(s[n]));
  }

  lemma WrapDigit(v: int, d: int)
    ensures Wrap32(Wrap32(v) * 10 + d) == Wrap32(10 * v + d)
  {
    var k := (v + 0x8000_0000) / WORD;
    assert Wrap32(v) == v - WORD * k;
    WrapMultiple(10 * v + d, -10 * k);
  }

  lemma WrapNegative(v: int)
    ensures Wrap32(-1 * Wrap32(v)) == Wrap32(-1 * v)
  {
    var k := (v + 0x8000_0000) / WORD;
    assert Wrap32(v) == v - WORD * k;
    WrapMultiple(-1 * v, k);
  }

  lemma WrapMultiple(x: int, k: int)
    ensures Wrap32(x + WORD * k) == Wrap32(x)
  {
    var y := x + 0x8000_0000;
    Division.DivModUnique(y + WORD * k, WORD, y / WORD + k, y % WORD);
  }

  lemma {:induction false} LeadingIs(s: string, n: nat)
    requires n <= |s| && AllDigits(s[..n], 10) && (n < |s| ==> !IsDigit(s[n], 10))
    ensures Leading(s) == s[..n]
    decreases n
  {
    if n > 0 {
      assert IsDigit(s[..n][0], 10);
      assert s[1..][..n - 1] == s[..n][1..];
      LeadingIs(s[1..], n - 1);
    }
  }

  // ------------------------------------------------------------------ round trips

  lemma ReadsBack(n: nat)
    ensures Leading(Numeral(n, 10)) == Numeral(n, 10) && Value(Numeral(n, 10), 10) == n && Numeral(n, 10)[0] != '-'
  {
    hide Value, Numeral, Leading, DigitVal;
    NumeralValue(n, 10);
    var s := Numeral(n, 10);
    assert s[..|s|] == s;
    LeadingIs(s, |s|);
    assert IsDigit(s[0], 10);
    DigitNotMinus(s[0]);
  }

  lemma DigitNotMinus(c: char)
    requires DigitVal(c) < 36
    ensures c != '-'
  {
  }

  /** atoi takes the sign and the digits the string begins with, and what follows them, be it
      nothing or anything but a digit, does not matter. */
  lemma AtoiReads(d: string, rest: string)
    requires AllDigits(d, 10) && (rest != "" ==> !IsDigit(rest[0], 10))
    ensures Atoi("-" + d + rest) == Wrap32(-1 * Value(d, 10))
    ensures d != "" || rest == "" || rest[0] != '-' ==> Atoi(d + rest) == Wrap32(Value(d, 10))
  {
    hide Value, DigitVal, Wrap32;
    assert (d + rest)[..|d|] == d;
    LeadingIs(d + rest, |d|);
    assert ("-" + d + rest)[1..] == d + rest;
    if d != "" { assert IsDigit(d[0], 10); DigitNotMinus(d[0]); }
  }

  /** What int_to_str writes: the digits, behind a minus sign for a negative number; of the least
      number the sign alone. */
  lemma IntTextIs(n: int64, b: nat)
    requires Base(b)
    ensures n >= 0 ==> IntText(n, b) == Numeral(n, b)
    ensures MIN64 < n < 0 ==> IntText(n, b) == "-" + Numeral(-n, b)
    ensures n == MIN64 ==> IntText(n, b) == "-"
  {
  }

  /** What itoa writes: the same in base 10, and nothing at all for a negative number in any other. */
  lemma ItoaTextIs(n: int32, b: nat)
    requires Base(b)
    ensures n >= 0 ==> ItoaText(n, b) == Numeral(n, b)
    ensures n < 0 && b != 10 ==> ItoaText(n, b) == ""
    ensures MIN32 < n < 0 && b == 10 ==> ItoaText(n, b) == "-" + Numeral(-n, b)
    ensures n == MIN32 && b == 10 ==> ItoaText(n, b) == "-"
  {
  }

  /** atoi reads back what itoa wrote, for every number except the least. */
  lemma AtoiOfItoaIff(n: int32)
    ensures Atoi(ItoaText(n, 10)) == n <==> n != MIN32
  {
    hide Value, Digits, Leading;
    if n == MIN32 {
      AtoiOfMinus();
    } else {
      var m := Abs(n);
      ReadsBack(m);
      assert n < 0 ==> ItoaText(n, 10)[1..] == Numeral(m, 10);
    }
  }

  lemma AtoiOfMinus()
    ensures Atoi("-") == 0
  {
    assert "-"[1..] == [];
  }

  /** It reads back what int_to_str wrote for every 32-bit number, the least one included. */
  lemma AtoiOfIntText(n: int32)
    ensures Atoi(IntText(n, 10)) == n
  {
    hide Value, Digits, Leading;
    var m := Abs(n);
    ReadsBack(m);
    assert n < 0 ==> IntText(n, 10)[1..] == Numeral(m, 10);
    if n == MIN32 { LeastWraps(); }
  }

  lemma LeastWraps()
    ensures Wrap32(0x8000_0000) == MIN32 && Wrap32(-MIN32) == MIN32
  {
  }

  /** The two signed conversions agree on every 32-bit number but the least. */
  lemma SignedAgreeIff(n: int32)
    ensures ItoaText(n, 10) == IntText(n, 10) <==> n != MIN32
  {
    if n == MIN32 { DigitsValue(-MIN32, 10); assert Digits(-MIN32, 10) != []; }
  }

  /** int_to_str writes different numbers differently, in every base; the least number, which
      comes out as a lone minus sign, is no exception. */
  lemma IntTextInjective(m: int64, n: int64, b: nat)
    requires Base(b) && IntText(m, b) == IntText(n, b)
    ensures m == n
  {
    hide Digits, Value, DigitVal;
    Signs(m, b);
    Signs(n, b);
    var k, l := Abs(m), Abs(n);
    if m != MIN64 && n != MIN64 {
      assert m < 0 ==> IntText(m, b)[1..] == Numeral(k, b);
      assert n < 0 ==> IntText(n, b)[1..] == Numeral(l, b);
      NumeralInjective(k, l, b);
    }
  }

  /** The first character tells the sign, and only the least number has nothing after it. */
  lemma Signs(n: int64, b: nat)
    requires Base(b)
    ensures IntText(n, b) != [] && (IntText(n, b)[0] == '-' <==> n < 0)
    ensures n < 0 ==> (|IntText(n, b)| == 1 <==> n == MIN64)
  {
    var k := Abs(n);
    NumeralValue(k, b);
    assert IsDigit(Numeral(k, b)[0], b);
  }
}
