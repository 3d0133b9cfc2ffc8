/** kernel/generic.c's strtok: it writes a NUL over the delimiter that ends a token and keeps
    its position in a hidden pointer between calls. */
module Strtok {
  import opened Options
  import opened Tokenizing
  import opened CStrings

  class Tokenizer {
    var mem: array?<char>  // what the hidden pointer points into; null before the first call
    var ptr: nat           // its offset there

    constructor ()
      ensures mem == null
    {
      mem, ptr := null, 0;
    }

    /** The memory and the address a call with argument `str` starts from. */
    ghost function Memory(str: array?<char>): array?<char>
      reads this
    {
      if str != null then str else mem
    }

    ghost function Start(str: array?<char>): nat
      reads this
    {
      if str != null then 0 else ptr
    }

    /** What is still to be cut: the string at the starting point, if there is one. */
    ghost function Rest(str: array?<char>): string
      reads this, Memory(str)
    {
      var m := Memory(str);
      if m == null || Start(str) > m.Length then "" else CStr(m[..], Start(str))
    }

    ghost predicate Callable(str: array?<char>)
      reads this, Memory(str)
    {
      var m := Memory(str);
      m != null ==> Start(str) <= m.Length && IsString(m[..], Start(str))
    }

    /** One call.  The token found is the first one of what was left, it is readable as a
        string of its own at the address returned, and what is left afterwards has exactly the
        other tokens.  Nothing before the starting point is touched. */
    method Next(str: array?<char>, d: string) returns (token: Option<nat>)
      requires Callable(str) && '\0' !in d
      modifies this, Memory(str)
      ensures mem == old(Memory(str)) && Callable(null)
      ensures token.None? <==> Tokens(old(Rest(str)), d) == []
      ensures token.None? ==> Rest(null) == ""
      ensures token.Some? ==>
        && mem != null && old(Start(str)) <= token.value <= ptr && IsString(mem[..], token.value)
        && [CStr(mem[..], token.value)] + Tokens(Rest(null), d) == Tokens(old(Rest(str)), d)
        && (forall k :: 0 <= k < old(Start(str)) ==> mem[k] == old(Memory(str)[k]))
    {
      if str != null { mem, ptr := str, 0; }
      if mem == null { return None; }
      var t, p := CutToken(mem, ptr, d);
      token, ptr := t, p;
    }
  }

  /** The two loops of strtok on the memory the pointer points into, and the NUL between them
      and the rest. */
  method CutToken(mem: array<char>, at: nat, d: string) returns (token: Option<nat>, p: nat)
    requires at <= mem.Length && IsString(mem[..], at) && '\0' !in d
    modifies mem
    ensures p <= mem.Length && IsString(mem[..], p)
    ensures var s, rest := old(CStr(mem[..], at)), CStr(mem[..], p);
      if Tokens(s, d) == [] then token.None? && rest == ""
      else
        && token.Some? && at <= token.value <= p && IsString(mem[..], token.value)
        && [CStr(mem[..], token.value)] + Tokens(rest, d) == Tokens(s, d)
    ensures forall k :: 0 <= k < at ==> mem[k] == old(mem[k])
  {
    hide Tokens, RunLength, CutInto, StrEnd;
    ghost var m := mem[..];
    var e;
    p, e := FindToken(mem, at, d);
    assert mem[..] == m;
    TokenInPlace(m, at, CStr(m, at), p - at);
    if mem[p] == '\0' { return None, p; }
    token := Some(p);
    p := EndToken(mem, at, p, e, d);
  }

  /** The two loops: where the first token starts and ends, if the string does not end first. */
  method FindToken(mem: array<char>, at: nat, d: string) returns (b: nat, e: nat)
    requires at <= mem.Length && IsString(mem[..], at)
    ensures at <= b <= e <= StrEnd(mem[..], at)
    ensures var s := CStr(mem[..], at);
      if mem[b] == '\0' then b == StrEnd(mem[..], at) && Tokens(s, d) == []
      else CutInto(s, d, b - at, e - at) && Tokens(s, d) != []
  {
    hide Tokens, RunLength, StrEnd;
    ghost var m, s := mem[..], CStr(mem[..], at);
    b := SkipDelimiters(mem, at, d);
    assert mem[..] == m;
    if mem[b] == '\0' { return b, b; }
    TokenInPlace(m, at, s, b - at);
    e := SkipRun(mem, b, d);
    assert mem[..] == m;
    CutHere(s, d, b - at, e - at);
  }

  /** The last line of strtok: end the token that occupies `b..e`, and step over its delimiter. */
  method EndToken(mem: array<char>, ghost at: nat, ghost b: nat, e: nat, ghost d: string) returns (p: nat)
    requires at <= mem.Length && IsString(mem[..], at) && at <= b <= e <= StrEnd(mem[..], at)
    requires CutInto(CStr(mem[..], at), d, b - at, e - at)
    modifies mem
    ensures e <= p <= mem.Length && IsString(mem[..], p) && IsString(mem[..], b)
    ensures [CStr(mem[..], b)] + Tokens(CStr(mem[..], p), d) == Tokens(old(CStr(mem[..], at)), d)
    ensures forall k :: 0 <= k < at ==> mem[k] == old(mem[k])
  {
    hide Tokens, RunLength, StrEnd;
    ghost var m, s := mem[..], CStr(mem[..], at);
    if mem[e] != '\0' {
      mem[e] := '\0';
      p := e + 1;
      CutMemory(m, mem[..], at, s, b - at, e - at);
    } else {
      p := e;
      LastToken(m, at, s, d, b - at);
    }
  }

  /** The first token of `s` is `s[b..e]`, and the others come after it. */
  ghost predicate CutInto(s: string, d: string, b: nat, e: nat) {
    && b <= e <= |s|
    && Tokens(s, d) == [s[b..e]] + Tokens(s[e..], d)
    && (e < |s| ==> Tokens(s, d) == [s[b..e]] + Tokens(s[e + 1..], d))
  }

  /** The first loop of strtok. */
  method SkipDelimiters(mem: array<char>, at: nat, d: string) returns (p: nat)
    requires at <= mem.Length && IsString(mem[..], at)
    ensures var s := CStr(mem[..], at);
      && at <= p <= at + |s|
      && Tokens(s[p - at..], d) == Tokens(s, d)
      && (if mem[p] == '\0' then p == at + |s| && Tokens(s, d) == [] else p < at + |s| && s[p - at] !in d)
  {
    ghost var s := CStr(mem[..], at);
    p := at;
    while mem[p] != '\0' && mem[p] in d
      invariant at <= p <= at + |s|
      invariant Tokens(s[p - at..], d) == Tokens(s, d)
      decreases at + |s| - p
    {
      TokensUnfold(s, d, p - at);
      p := p + 1;
    }
  }

  /** The second loop of strtok. */
  method SkipRun(mem: array<char>, b: nat, d: string) returns (p: nat)
    requires b <= mem.Length && IsString(mem[..], b)
    ensures var s := CStr(mem[..], b);
      && b <= p <= b + |s|
      && (forall k :: 0 <= k < p - b ==> s[k] !in d)
      && (if mem[p] == '\0' then p == b + |s| else p < b + |s| && s[p - b] in d)
  {
    p := b;
    while mem[p] != '\0' && mem[p] !in d
      invariant b <= p <= StrEnd(mem[..], b)
      invariant forall k :: b <= k < p ==> mem[k] !in d
      decreases StrEnd(mem[..], b) - p
    {
      p := p + 1;
    }
  }

  lemma CutHere(s: string, d: string, b: nat, e: nat)
    requires b < |s| && s[b] !in d && b <= e <= |s|
    requires (forall k :: 0 <= k < e - b ==> s[b..][k] !in d) && (e < |s| ==> s[b..][e - b] in d)
    requires Tokens(s[b..], d) == Tokens(s, d)
    ensures b < e && CutInto(s, d, b, e)
  {
    assert s[b..][0] == s[b];
    assert forall k :: b <= k < e ==> s[k] == s[b..][k - b];
    assert e < |s| ==> s[e] == s[b..][e - b];
    assert RunEnd(s, d, b) == e;
    TokensUnfold(s, d, b);
    if e < |s| { TokensUnfold(s, d, e); }
  }

  /** Writing a NUL at the end of a token leaves two strings: the token and what follows it. */
  lemma CutMemory(m: seq<char>, m': seq<char>, at: nat, s: string, b: nat, e: nat)
    requires at <= |m| && IsString(m, at) && s == CStr(m, at) && b <= e < |s|
    requires |m'| == |m| && m'[at + e] == '\0' && forall k :: 0 <= k < |m| && k != at + e ==> m'[k] == m[k]
    ensures IsString(m', at + b) && CStr(m', at + b) == s[b..e]
    ensures IsString(m', at + e + 1) && CStr(m', at + e + 1) == s[e + 1..]
  {
    StrEndIs(m', at + b, at + e);
    StrEndIs(m', at + e + 1, at + |s|);
    assert forall k :: 0 <= k < |s| ==> s[k] == m[at + k];
  }

  lemma TokenInPlace(m: seq<char>, at: nat, s: string, b: nat)
    requires at <= |m| && IsString(m, at) && s == CStr(m, at) && b <= |s|
    ensures IsString(m, at + b) && CStr(m, at + b) == s[b..]
    ensures IsString(m, at + |s|) && CStr(m, at + |s|) == "" == s[|s|..]
  {
    StrEndIs(m, at + b, at + |s|);
    StrEndIs(m, at + |s|, at + |s|);
  }

  lemma LastToken(m: seq<char>, at: nat, s: string, d: string, b: nat)
    requires at <= |m| && IsString(m, at) && s == CStr(m, at) && b <= |s|
    requires Tokens(s, d) == [s[b..|s|]] + Tokens(s[|s|..], d)
    ensures IsString(m, at + b) && IsString(m, at + |s|)
    ensures [CStr(m, at + b)] + Tokens(CStr(m, at + |s|), d) == Tokens(s, d)
  {
    hide Tokens;
    hide RunLength;
    TokenInPlace(m, at, s, b);
    TokenInPlace(m, at, s, |s|);
    assert s[b..|s|] == s[b..];
  }

  // ------------------------------------------------------------------ a whole run

  /** `strtok(str, d)` and then `strtok(NULL, d)` until it returns NULL: what the calls return
      are the tokens of the original string, all of them and in order. */
  method AllTokens(str: array<char>, d: string) returns (tokens: seq<string>)
    requires IsString(str[..], 0) && '\0' !in d
    modifies str
    ensures tokens == Tokens(old(CStr(str[..], 0)), d)
  {
    hide Tokens, CStr, IsString;
    ghost var all := Tokens(CStr(str[..], 0), d);
    var strtok := new Tokenizer();
    tokens := [];
    var token: Option<nat> := strtok.Next(str, d);
    while token.Some?
      invariant fresh(strtok) && strtok.mem == str && strtok.Callable(null)
      invariant token.Some? ==> token.value <= str.Length
      invariant tokens + (if token.None? then [] else [CStr(str[..], token.value)] + Tokens(strtok.Rest(null), d)) == all
      decreases if token.None? then 0 else 1 + |Tokens(strtok.Rest(null), d)|
    {
      tokens := tokens + [CStr(str[..], token.value)];
      token := strtok.Next(null, d);
    }
  }

  // ------------------------------------------------------------------ paths

  /** The components strtok has not handed out yet. */
  ghost function Remaining(strtok: Tokenizer): seq<string>
    reads strtok, strtok.mem
  {
    Tokens(strtok.Rest(null), "/")
  }

  /** The components still to be followed: the one in hand and those strtok has not cut yet. */
  ghost function Pending(strtok: Tokenizer, token: Option<string>): seq<string>
    reads strtok, strtok.mem
  {
    if token.None? then [] else [token.value] + Remaining(strtok)
  }

  /** `strtok(NULL, "/")` */
  method NextComponent(strtok: Tokenizer) returns (w: Option<string>)
    requires strtok.Callable(null)
    modifies strtok, strtok.mem
    ensures strtok.mem == old(strtok.mem) && strtok.Callable(null)
    ensures old(Remaining(strtok)) == if w.None? then [] else [w.value] + Remaining(strtok)
  {
    var token := strtok.Next(null, "/");
    w := if token.None? then None else Some(CStr(strtok.mem[..], token.value));
  }
}
