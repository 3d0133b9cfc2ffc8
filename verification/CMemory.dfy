/** Byte and character memory as the C runtime of the kernel sees it: one array, with
    indices for addresses.  The block moves and string routines of libc/libc.c and
    kernel/generic.c are loops over that array; each is proved against what the cells
    of the memory are afterwards. */
module CMemory {
  // ---------------------------------------------------------------- block moves

  /** The memory `s` after `n` cells have been moved from `src` to `dst` as if through a
      copy on the side. */
  ghost function Moved<T>(s: seq<T>, dst: nat, src: nat, n: nat): (r: seq<T>)
    requires dst + n <= |s| && src + n <= |s|
    ensures |r| == |s|
  {
    s[..dst] + s[src..src + n] + s[dst + n..]
  }

  /** Cell by cell: inside the destination those of the source, elsewhere no change. */
  lemma MovedCells<T>(s: seq<T>, dst: nat, src: nat, n: nat, k: nat)
    requires dst + n <= |s| && src + n <= |s| && k < |s|
    ensures Moved(s, dst, src, n)[k] == if dst <= k < dst + n then s[src + (k - dst)] else s[k]
  {
  }

  /** The cells `lo..hi` of `mem` hold what `s` has `gap` cells further up; the others are as
      in `s`. */
  ghost predicate Shifted<T>(mem: seq<T>, s: seq<T>, lo: nat, hi: nat, gap: int) {
    && |mem| == |s| && lo <= hi <= |s| && 0 <= lo + gap && hi + gap <= |s|
    && (forall k :: 0 <= k < lo ==> mem[k] == s[k])
    && (forall k :: lo <= k < hi ==> mem[k] == s[k + gap])
    && (forall k :: hi <= k < |s| ==> mem[k] == s[k])
  }

  lemma ShiftedIsMoved<T>(mem: seq<T>, s: seq<T>, dst: nat, src: nat, n: nat)
    requires Shifted(mem, s, dst, dst + n, src - dst)
    ensures mem == Moved(s, dst, src, n)
  {
  }

  /** libc/libc.c's memmove: ascending when the destination is below the source. */
  method Memmove<T>(mem: array<T>, dst: nat, src: nat, n: nat)
    requires dst + n <= mem.Length && src + n <= mem.Length
    modifies mem
    ensures mem[..] == Moved(old(mem[..]), dst, src, n)
  {
    ghost var s := mem[..];
    if dst < src {
      for i := 0 to n
        invariant Shifted(mem[..], s, dst, dst + i, src - dst)
      {
        assert mem[src + i] == s[src + i];
        mem[dst + i] := mem[src + i];
      }
    } else {
      for i := n downto 0
        invariant Shifted(mem[..], s, dst + i, dst + n, src - dst)
      {
        assert mem[src + i] == s[src + i];
        mem[dst + i] := mem[src + i];
      }
    }
    ShiftedIsMoved(mem[..], s, dst, src, n);
  }

  /** kernel/generic.c's memcpy: always ascending.  When the destination lies above an
      overlapping source the loop reads back its own output, so it is the new memory that
      repeats itself with the period `dst - src`. */
  method Memcpy<T>(mem: array<T>, dst: nat, src: nat, n: nat)
    requires dst + n <= mem.Length && src + n <= mem.Length
    modifies mem
    ensures dst <= src || src + n <= dst ==> mem[..] == Moved(old(mem[..]), dst, src, n)
    ensures forall k :: 0 <= k < mem.Length && !(dst <= k < dst + n) ==> mem[k] == old(mem[k])
    ensures src < dst ==> forall k :: dst <= k < dst + n ==> mem[k] == mem[k - dst + src]
  {
    ghost var s := mem[..];
    for i := 0 to n
      invariant |s| == mem.Length
      invariant forall k :: 0 <= k < mem.Length && !(dst <= k < dst + i) ==> mem[k] == s[k]
      invariant dst <= src || src + n <= dst ==> forall k :: dst <= k < dst + i ==> mem[k] == s[k - dst + src]
      invariant src < dst ==> forall k :: dst <= k < dst + i ==> mem[k] == mem[k - dst + src]
    {
      mem[dst + i] := mem[src + i];
    }
    if dst <= src || src + n <= dst { ShiftedIsMoved(mem[..], s, dst, src, n); }
  }
}
