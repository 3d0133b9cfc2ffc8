/** network/network.c's net_checksum: the Internet checksum of section 2 of RFC 1071 over
    little-endian 16-bit words. */
module Checksum {
  import opened Words
  import opened Bits
  import opened Division

  // ------------------------------------------------------------------ sums of words

  /** The 16-bit words in memory order; a single byte left over counts as a word. */
  function WordsOf(data: seq<byte>): (r: seq<nat>)
    ensures |r| == (|data| + 1) / 2
    ensures forall i :: 0 <= i < |r| ==> r[i] < 65536
  {
    if data == [] then []
    else if |data| == 1 then [data[0]]
    else [Word16(data[0], data[1])] + WordsOf(data[2..])
  }

  function Word16(lo: nat, hi: nat): nat {
    lo + 256 * hi
  }

  function Sum(ws: seq<nat>): nat {
    if ws == [] then 0 else ws[0] + Sum(ws[1..])
  }

  /** What the bytes are worth: those at even places once, those at odd places 256 times. */
  function Weight(data: seq<byte>, i: nat): nat
    decreases |data| - i
  {
    if i >= |data| then 0 else (if i % 2 == 0 then data[i] else 256 * data[i]) + Weight(data, i + 1)
  }

  /** The sum of the words is what all bytes together are worth, the last one of an odd number
      included. */
  lemma {:induction false} SumByBytes(data: seq<byte>)
    ensures Sum(WordsOf(data)) == Weight(data, 0)
    decreases |data|
  {
    if |data| == 1 {
      SumOne(data[0]);
    } else if |data| > 1 {
      SumByBytes(data[2..]);
      WeightLater(data, 0);
      assert WordsOf(data)[1..] == WordsOf(data[2..]);
    }
  }

  lemma {:induction false} WeightLater(data: seq<byte>, i: nat)
    requires |data| >= 2
    ensures Weight(data, i + 2) == Weight(data[2..], i)
    decreases |data| - i
  {
    if i + 2 < |data| {
      assert (i + 2) % 2 == i % 2;
      WeightLater(data, i + 1);
    }
  }

  lemma {:induction false} SumSplit(a: seq<nat>, b: seq<nat>)
    ensures Sum(a + b) == Sum(a) + Sum(b)
    decreases |a|
  {
    if a == [] {
      assert a + b == b;
    } else {
      SumSplit(a[1..], b);
      assert (a + b)[1..] == a[1..] + b;
    }
  }

  /** The order of the words does not matter. */
  lemma {:induction false} SumPermuted(a: seq<nat>, b: seq<nat>)
    requires multiset(a) == multiset(b)
    ensures Sum(a) == Sum(b)
    decreases |a|
  {
    if a == [] {
      assert |multiset(b)| == 0;
    } else {
      hide Sum;
      assert a[0] in multiset(b);
      var i :| 0 <= i < |b| && b[i] == a[0];
      var rest := Without(a, 0);
      var rest' := Without(b, i);
      assert multiset(rest) == multiset(a) - multiset{a[0]} == multiset(rest');
      SumPermuted(rest, rest');
    }
  }

  lemma Without(b: seq<nat>, i: nat) returns (rest: seq<nat>)
    requires i < |b|
    ensures |rest| == |b| - 1 && multiset(b) == multiset(rest) + multiset{b[i]} && Sum(b) == b[i] + Sum(rest)
  {
    hide Sum;
    var l, r := b[..i], b[i + 1..];
    rest := l + r;
    assert b == l + ([b[i]] + r);
    SumSplit(l, r);
    SumSplit(l, [b[i]] + r);
    SumSplit([b[i]], r);
    SumOne(b[i]);
  }

  lemma SumOne(w: nat)
    ensures Sum([w]) == w
  {
    assert [w][1..] == [];
  }

  lemma {:induction false} SumBound(ws: seq<nat>)
    requires forall i :: 0 <= i < |ws| ==> ws[i] < 65536
    ensures Sum(ws) <= 65535 * |ws|
  {
    if ws != [] { SumBound(ws[1..]); }
  }

  /** 65537 words always fit the 32-bit accumulator. */
  lemma NoOverflow(data: seq<byte>)
    requires |data| <= 2 * 65537
    ensures Sum(WordsOf(data)) < WORD
  {
    hide Sum, WordsOf;
    var ws := WordsOf(data);
    SumBound(ws);
    assert 65535 * |ws| <= 65535 * 65537;
  }

  // ------------------------------------------------------------------ end-around carry

  /** What folding the carries ends with: the representative of `s` modulo 65535 that is zero
      only for zero. */
  function Folded(s: nat): (r: nat)
    ensures r < 65536 && (r == 0 <==> s == 0)
  {
    if s == 0 then 0 else (s - 1) % 65535 + 1
  }

  /** It is the only number up to 65535 congruent to `s` and zero exactly when `s` is. */
  lemma FoldedUnique(s: nat, r: nat, q: int)
    requires r < 65536 && s == r + 65535 * q && (r == 0 <==> s == 0)
    ensures Folded(s) == r
  {
    if s > 0 {
      ModMultiple(r - 1, 65535, q);
      SmallMod(r - 1, 65535);
    }
  }

  lemma FoldedCongruent(s: nat) returns (q: nat)
    ensures s == Folded(s) + 65535 * q
  {
    if s == 0 { q := 0; } else { q := (s - 1) / 65535; }
  }

  /** One round of the folding loop. */
  lemma FoldStep(s: nat)
    ensures Folded(s % 65536 + s / 65536) == Folded(s)
    ensures s >= 65536 ==> s % 65536 + s / 65536 < s
  {
    var h := s / 65536;
    var q := FoldedCongruent(s);
    assert s % 65536 + h == s - 65535 * h;
    assert s % 65536 + h == Folded(s) + 65535 * (q - h);
    FoldedUnique(s % 65536 + h, Folded(s), q - h);
  }

  lemma SmallFolded(s: nat)
    requires s < 65536
    ensures Folded(s) == s
  {
    FoldedUnique(s, s, 0);
  }

  // ------------------------------------------------------------------ the method

  /** The result of net_checksum when the accumulator holds a 32-bit word. */
  function Checksum(data: seq<byte>): (c: nat)
    ensures c < 65536
  {
    65535 - Folded(Sum(WordsOf(data)) % WORD)
  }

  lemma Low16(a: nat)
    ensures And(a, 0xFFFF) == a % 65536
  {
    Powers();
    assert Pow2(16) == 65536;
    AndLow(a, 16);
  }

  method NetChecksum(data: array<byte>, start: nat, size: nat) returns (c: nat)
    requires start + size <= data.Length
    ensures c == Checksum(data[start..start + size])
  {
    hide Folded, And, Sum, WordsOf;
    var sum, p, n := 0, start, size;
    ghost var all := data[start..start + size];
    ghost var done: nat := 0;
    while n > 1
      invariant start <= p && p + n == start + size && done + Sum(WordsOf(data[p..start + size])) == Sum(WordsOf(all))
      invariant sum == done % WORD
    {
      SumHead(data[p..start + size]);
      assert data[p..start + size][2..] == data[p + 2..start + size];
      AddWrapped(done, Word16(data[p], data[p + 1]));
      sum := (sum + Word16(data[p], data[p + 1])) % WORD;
      done := done + Word16(data[p], data[p + 1]);
      p := p + 2;
      n := n - 2;
    }
    assert n == 0 ==> data[p..start + size] == [];
    assert n == 1 ==> data[p..start + size] == [data[p]];
    if n != 0 {
      AddWrapped(done, data[p]);
      sum := (sum + data[p]) % WORD;
    }
    Rest(data[start + size - n..start + size]);
    while sum / 65536 > 0
      invariant 0 <= sum && Folded(sum) == Folded(Sum(WordsOf(all)) % WORD)
      decreases sum
    {
      FoldStep(sum);
      Low16(sum);
      sum := And(sum, 0xFFFF) + sum / 65536;
    }
    SmallFolded(sum);
    c := 65535 - sum;
  }

  lemma SumHead(data: seq<byte>)
    requires |data| >= 2
    ensures Sum(WordsOf(data)) == Word16(data[0], data[1]) + Sum(WordsOf(data[2..]))
  {
    assert WordsOf(data)[1..] == WordsOf(data[2..]);
  }

  lemma Rest(data: seq<byte>)
    requires |data| <= 1
    ensures Sum(WordsOf(data)) == if |data| == 0 then 0 else data[0]
  {
    if |data| == 1 { assert WordsOf(data)[1..] == []; }
  }

  lemma AddWrapped(a: nat, b: nat)
    ensures (a % WORD + b) % WORD == (a + b) % WORD
  {
    var q := a / WORD;
    var k, r := (a % WORD + b) / WORD, (a % WORD + b) % WORD;
    assert a + b == WORD * (q + k) + r;
    DivModUnique(a + b, WORD, q + k, r);
  }

  // ------------------------------------------------------------------ what the checksum is for

  lemma ComplementArith(s: nat)
    requires s / WORD < 65535
    ensures (s + 65535 - Folded(s % WORD)) % 65535 == 0 <==> s < WORD
  {
    hide Folded;
    var over, low := s / WORD, s % WORD;
    assert s == WORD * over + low;
    var q := FoldedCongruent(low);
    assert s + 65535 - Folded(low) == over + 65535 * (65537 * over + q + 1);
    ModMultiple(over, 65535, 65537 * over + q + 1);
    SmallMod(over, 65535);
  }

  /** Words and checksum together are a multiple of 65535, if and only if the accumulator did
      not overflow; the size of the data is a 32-bit number. */
  lemma ComplementsIff(data: seq<byte>)
    requires |data| < WORD
    ensures (Sum(WordsOf(data)) + Checksum(data)) % 65535 == 0 <==> Sum(WordsOf(data)) < WORD
  {
    hide WordsOf, Sum, Folded;
    SumBound(WordsOf(data));
    Carries(Sum(WordsOf(data)), |WordsOf(data)|);
    ComplementArith(Sum(WordsOf(data)));
  }

  lemma Carries(s: nat, n: nat)
    requires s <= 65535 * n && n <= 0x8000_0000
    ensures s / WORD < 65535
  {
    assert s < WORD * 65535;
  }

  /** The checksum is zero exactly when the words add up to a positive multiple of 65535. */
  lemma ZeroIff(data: seq<byte>)
    requires Sum(WordsOf(data)) < WORD
    ensures Checksum(data) == 0 <==> Sum(WordsOf(data)) > 0 && Sum(WordsOf(data)) % 65535 == 0
  {
    hide WordsOf, Sum, Folded;
    SmallMod(Sum(WordsOf(data)), WORD);
    ZeroArith(Sum(WordsOf(data)));
  }

  lemma ZeroArith(s: nat)
    ensures Folded(s) == 65535 <==> s > 0 && s % 65535 == 0
  {
    hide Folded;
    var q := FoldedCongruent(s);
    ModMultiple(Folded(s), 65535, q);
    if Folded(s) < 65535 { SmallMod(Folded(s), 65535); }
  }

  /** `data` with the word at offset `2 * k` replaced. */
  function Patch(data: seq<byte>, k: nat, w: nat): (r: seq<byte>)
    requires 2 * k + 1 < |data| && w < 65536
    ensures |r| == |data|
  {
    data[2 * k := w % 256][2 * k + 1 := w / 256]
  }

  lemma {:induction false} PatchWords(data: seq<byte>, k: nat, w: nat)
    requires 2 * k + 1 < |data| && w < 65536
    ensures WordsOf(Patch(data, k, w)) == WordsOf(data)[k := w]
    decreases k
  {
    var p := Patch(data, k, w);
    if k == 0 {
      assert p[2..] == data[2..];
    } else {
      assert p[2..] == Patch(data[2..], k - 1, w);
      PatchWords(data[2..], k - 1, w);
    }
  }

  lemma {:induction false} SumUpdate(ws: seq<nat>, k: nat, w: nat)
    requires k < |ws|
    ensures Sum(ws[k := w]) + ws[k] == Sum(ws) + w
    decreases k
  {
    if k == 0 {
      assert ws[0 := w][1..] == ws[1..];
    } else {
      assert ws[k := w][1..] == ws[1..][k - 1 := w];
      SumUpdate(ws[1..], k - 1, w);
    }
  }

  /** Computed over data whose checksum field is zero, and stored there, it makes the checksum
      of the whole zero. */
  lemma StoredChecksumVerifies(data: seq<byte>, k: nat)
    requires 2 * k + 1 < |data| <= 2 * 65537 && WordsOf(data)[k] == 0
    ensures Checksum(Patch(data, k, Checksum(data))) == 0
  {
    hide WordsOf, Sum, Folded, Patch;
    var c := Checksum(data);
    var p := Patch(data, k, c);
    PatchWords(data, k, c);
    SumUpdate(WordsOf(data), k, c);
    NoOverflow(data);
    NoOverflow(p);
    ComplementsIff(data);
    ZeroIff(p);
    SmallMod(Sum(WordsOf(data)), WORD);
  }

  /** Any change of a single word of verified data is detected, except one between 0 and 65535,
      which is not, as long as some word remains that is not zero. */
  lemma SingleWordErrors(data: seq<byte>, k: nat, w: nat)
    requires 2 * k + 1 < |data| <= 2 * 65537 && w < 65536 && Checksum(data) == 0 && w != WordsOf(data)[k]
    ensures Checksum(Patch(data, k, w)) == 0 <==>
      Sum(WordsOf(data)) - WordsOf(data)[k] + w > 0 && {w, WordsOf(data)[k]} == {0, 65535}
  {
    hide WordsOf, Sum, Checksum, Patch;
    PatchWords(data, k, w);
    SumUpdate(WordsOf(data), k, w);
    NoOverflow(data);
    NoOverflow(Patch(data, k, w));
    ZeroIff(data);
    ZeroIff(Patch(data, k, w));
    ChangeArith(Sum(WordsOf(data)), WordsOf(data)[k], w);
  }

  lemma ChangeArith(s: nat, v: nat, w: nat)
    requires s % 65535 == 0 && v < 65536 && w < 65536 && v != w
    ensures (s - v + w) % 65535 == 0 <==> {w, v} == {0, 65535}
  {
    var q := s / 65535;
    assert s - v + w == (w - v) + 65535 * q;
    ModMultiple(w - v, 65535, q);
    if 0 < w - v < 65535 { SmallMod(w - v, 65535); }
    if 0 < v - w < 65535 { DivModUnique(w - v, 65535, -1, 65535 - (v - w)); }
    Ends(v, w);
  }

  lemma Ends(v: nat, w: nat)
    requires v < 65536 && w < 65536
    ensures {w, v} == {0, 65535} <==> w - v == 65535 || v - w == 65535
  {
    assert 0 in {0, 65535} && 65535 in {0, 65535};
  }

  // ------------------------------------------------------------------ where it fails

  /** `n` words of all ones. */
  ghost function Ones(n: nat): (r: seq<byte>)
    ensures |r| == 2 * n
  {
    seq(2 * n, _ => 255)
  }

  lemma {:induction false} SumOfOnes(n: nat)
    ensures Sum(WordsOf(Ones(n))) == 65535 * n
  {
    if n > 0 {
      assert Ones(n)[2..] == Ones(n - 1);
      assert WordsOf(Ones(n))[1..] == WordsOf(Ones(n - 1));
      SumOfOnes(n - 1);
    }
  }

  /** 65538 of them overflow the accumulator, and words and checksum do not add up. */
  lemma Overflows()
    ensures var data := Ones(65538);
      Sum(WordsOf(data)) >= WORD && (Sum(WordsOf(data)) + Checksum(data)) % 65535 != 0
  {
    hide Sum, WordsOf, Ones, Checksum;
    SumOfOnes(65538);
    ComplementsIff(Ones(65538));
  }

  /** Nobody notices when the second of the words 65535 and 0 becomes 65535. */
  lemma Undetected()
    ensures var data := [255, 255, 0, 0];
      && Patch(data, 1, 65535) == [255, 255, 255, 255]
      && Checksum(data) == 0 && Checksum(Patch(data, 1, 65535)) == 0
  {
    var data: seq<byte> := [255, 255, 0, 0];
    assert data[2..] == [0, 0] && data[2..][2..] == [];
    assert WordsOf(data[2..]) == [0];
    assert WordsOf(data) == [65535, 0];
    SumOne(0);
    assert [65535, 0][1..] == [0];
    assert Sum(WordsOf(data)) == 65535;
    SingleWordErrors(data, 1, 65535);
  }

  // ------------------------------------------------------------------ order

  /** Rearranging whole words does not change the checksum. */
  lemma OrderOfWords(a: seq<byte>, b: seq<byte>)
    requires multiset(WordsOf(a)) == multiset(WordsOf(b))
    ensures Checksum(a) == Checksum(b)
  {
    SumPermuted(WordsOf(a), WordsOf(b));
  }

  function Swap(w: nat): (r: nat)
    requires w < 65536
    ensures r < 65536
  {
    w % 256 * 256 + w / 256
  }

  /** Exchanging the two bytes multiplies by 256, modulo 65535. */
  lemma SwapIs(w: nat)
    requires w < 65536
    ensures Swap(w) == 256 * w - 65535 * (w / 256) && (Swap(w) == 0 <==> w == 0)
    ensures Swap(65535 - w) == 65535 - Swap(w)
  {
    DivModUnique(65535 - w, 256, 255 - w / 256, 255 - w % 256);
  }

  function SwapBytes(data: seq<byte>): (r: seq<byte>)
    requires |data| % 2 == 0
    ensures |r| == |data|
  {
    if data == [] then [] else [data[1], data[0]] + SwapBytes(data[2..])
  }

  lemma {:induction false} SwappedSum(data: seq<byte>) returns (q: nat)
    requires |data| % 2 == 0
    ensures Sum(WordsOf(SwapBytes(data))) + 65535 * q == 256 * Sum(WordsOf(data))
    ensures Sum(WordsOf(SwapBytes(data))) == 0 <==> Sum(WordsOf(data)) == 0
    decreases |data|
  {
    if data == [] { return 0; }
    var r := SwappedSum(data[2..]);
    SumHead(data);
    SumHead(SwapBytes(data));
    assert SwapBytes(data)[2..] == SwapBytes(data[2..]);
    q := r + data[1];
  }

  /** The sum may be computed in either byte order: on data with the bytes of every word
      exchanged the result has its bytes exchanged. */
  lemma ByteOrder(data: seq<byte>)
    requires |data| % 2 == 0 && |data| <= 2 * 65537
    ensures Checksum(SwapBytes(data)) == Swap(Checksum(data))
  {
    hide WordsOf, Sum, Folded, SwapBytes, Swap;
    var s, t := Sum(WordsOf(data)), Sum(WordsOf(SwapBytes(data)));
    NoOverflow(data);
    NoOverflow(SwapBytes(data));
    SmallMod(s, WORD);
    SmallMod(t, WORD);
    var q := SwappedSum(data);
    SwapArith(s, t, q);
  }

  lemma SwapArith(s: nat, t: nat, q: nat)
    requires t + 65535 * q == 256 * s && (t == 0 <==> s == 0)
    ensures 65535 - Folded(t) == Swap(65535 - Folded(s))
  {
    hide Folded, Swap;
    var k := FoldedCongruent(s);
    var f := Folded(s);
    SwapIs(f);
    assert t == Swap(f) + 65535 * (256 * k + f / 256 - q);
    FoldedUnique(t, Swap(f), 256 * k + f / 256 - q);
  }
}
