/** NUL-terminated strings inside character memory.  The scanning loops are those of
    kernel/generic.c. */
module CStrings {
  /** Address of the first NUL at or after `p`; the end of memory when there is none. */
  function StrEnd(m: seq<char>, p: nat): (e: nat)
    requires p <= |m|
    ensures p <= e <= |m|
    ensures forall k :: p <= k < e ==> m[k] != '\0'
    ensures e < |m| ==> m[e] == '\0'
    decreases |m| - p
  {
    if p == |m| || m[p] == '\0' then p else StrEnd(m, p + 1)
  }

  /** A NUL ends the string at `p`. */
  predicate IsString(m: seq<char>, p: nat) {
    p < |m| && StrEnd(m, p) < |m|
  }

  /** The string at address `p`. */
  function CStr(m: seq<char>, p: nat): string
    requires p <= |m|
  {
    m[p..StrEnd(m, p)]
  }

  /** A first NUL is where the string ends. */
  lemma StrEndIs(m: seq<char>, p: nat, e: nat)
    requires p <= e < |m| && m[e] == '\0' && forall k :: p <= k < e ==> m[k] != '\0'
    ensures StrEnd(m, p) == e && IsString(m, p) && CStr(m, p) == m[p..e]
  {
    var f := StrEnd(m, p);
    assert f <= e;
    assert f >= e;
  }

  /** Reading a string that lies at `p` as characters followed by a NUL. */
  lemma CStrIs(m: seq<char>, p: nat, s: string)
    requires p + |s| < |m| && m[p..p + |s|] == s && m[p + |s|] == '\0' && '\0' !in s
    ensures IsString(m, p) && CStr(m, p) == s && StrEnd(m, p) == p + |s|
  {
    forall k | p <= k < p + |s| ensures m[k] != '\0' {
      assert m[k] == s[k - p];
    }
    StrEndIs(m, p, p + |s|);
  }

  method Strlen(mem: array<char>, p: nat) returns (n: nat)
    requires p <= mem.Length && IsString(mem[..], p)
    ensures p + n == StrEnd(mem[..], p) && n == |CStr(mem[..], p)|
  {
    n := 0;
    while mem[p + n] != '\0'
      invariant p + n <= StrEnd(mem[..], p)
      decreases StrEnd(mem[..], p) - (p + n)
    {
      n := n + 1;
    }
  }

  /** The two strings agree up to position `i` and not further. */
  ghost predicate FirstDifference(s: string, t: string, i: nat) {
    i <= |s| && i <= |t| && s[..i] == t[..i] && (i < |s| && i < |t| ==> s[i] != t[i])
  }

  /** The character code at a position, 0 for the NUL at the end. */
  function CodeAt(s: string, i: nat): int {
    if i < |s| then s[i] as int else 0
  }

  /** The result is the difference of the first character codes that differ, and zero exactly
      for equal strings. */
  method Strcmp(a: array<char>, p: nat, b: array<char>, q: nat) returns (r: int)
    requires p <= a.Length && IsString(a[..], p) && q <= b.Length && IsString(b[..], q)
    ensures r == 0 <==> CStr(a[..], p) == CStr(b[..], q)
    ensures exists i :: FirstDifference(CStr(a[..], p), CStr(b[..], q), i) && r == CodeAt(CStr(a[..], p), i) - CodeAt(CStr(b[..], q), i)
  {
    ghost var s, t := CStr(a[..], p), CStr(b[..], q);
    var i := 0;
    while a[p + i] != '\0' && b[q + i] != '\0' && a[p + i] == b[q + i]
      invariant i <= |s| && i <= |t| && s[..i] == t[..i]
      decreases |s| - i
    {
      assert s[i] == t[i];
      i := i + 1;
    }
    assert a[p + i] as int == CodeAt(s, i) && b[q + i] as int == CodeAt(t, i);
    assert FirstDifference(s, t, i);
    r := a[p + i] as int - b[q + i] as int;
    if r == 0 {
      assert i == |s| && i == |t|;
      assert s == s[..i] && t == t[..i];
    }
  }

  /** The buffer of `n` characters after strncpy: the string cut to `n`, padded with NULs. */
  method Strncpy(dst: array<char>, src: string, n: nat)
    requires n <= dst.Length && '\0' !in src
    modifies dst
    ensures forall k :: 0 <= k < n ==> dst[k] == if k < |src| then src[k] else '\0'
    ensures forall k :: n <= k < dst.Length ==> dst[k] == old(dst[k])
    ensures |src| < n ==> IsString(dst[..], 0) && CStr(dst[..], 0) == src
  {
    var i := 0;
    while i < n && i < |src|
      invariant i <= n && i <= |src|
      invariant forall k :: 0 <= k < i ==> dst[k] == src[k]
      invariant forall k :: i <= k < dst.Length ==> dst[k] == old(dst[k])
    {
      dst[i] := src[i];
      i := i + 1;
    }
    while i < n
      invariant i <= n && (i < |src| ==> i == n)
      invariant forall k :: 0 <= k < i ==> dst[k] == if k < |src| then src[k] else '\0'
      invariant forall k :: i <= k < dst.Length ==> dst[k] == old(dst[k])
    {
      dst[i] := '\0';
      i := i + 1;
    }
    if |src| < n { CStrIs(dst[..], 0, src); }
  }
}
