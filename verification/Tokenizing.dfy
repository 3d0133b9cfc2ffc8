/** What it means to cut a string at delimiter characters, independent of any strtok. */
module Tokenizing {

  /** Length of the longest prefix of `s` without a character of `d`. */
  function RunLength(s: string, d: string): (e: nat)
    ensures e <= |s|
    ensures forall k :: 0 <= k < e ==> s[k] !in d
    ensures e < |s| ==> s[e] in d
  {
    if s == "" || s[0] in d then 0 else 1 + RunLength(s[1..], d)
  }

  /** The tokens of `s`, in order: skip a delimiter, or take the longest run without one. */
  function Tokens(s: string, d: string): (t: seq<string>)
    decreases |s|
  {
    if s == "" then []
    else if s[0] in d then Tokens(s[1..], d)
    else var e := RunLength(s, d); [s[..e]] + Tokens(s[e..], d)
  }

  /** The first position from `b` on that holds a delimiter, or the end. */
  function RunEnd(s: string, d: string, b: nat): (e: nat)
    requires b <= |s|
    ensures b <= e <= |s|
    ensures forall k :: b <= k < e ==> s[k] !in d
    ensures e < |s| ==> s[e] in d
    decreases |s| - b
  {
    if b == |s| || s[b] in d then b else RunEnd(s, d, b + 1)
  }

  /** The half-open index ranges the tokens of `s` from `at` on occupy. */
  function Spans(s: string, d: string, at: nat): (r: seq<(nat, nat)>)
    requires at <= |s|
    decreases |s| - at
  {
    if at == |s| then []
    else if s[at] in d then Spans(s, d, at + 1)
    else var e := RunEnd(s, d, at); [(at, e)] + Spans(s, d, e)
  }

  /** `b..e` is a non-empty run of `s` without delimiters that cannot be made longer. */
  ghost predicate MaximalRun(s: string, d: string, b: nat, e: nat) {
    && b < e <= |s|
    && (forall k :: b <= k < e ==> s[k] !in d)
    && (b == 0 || s[b - 1] in d)
    && (e == |s| || s[e] in d)
  }

  ghost predicate Increasing(r: seq<(nat, nat)>) {
    forall i, j :: 0 <= i < j < |r| ==> r[i].1 < r[j].0
  }

  // ------------------------------------------------------------ the characterisation

  lemma RunLengthIs(s: string, d: string, e: nat)
    requires e <= |s| && (forall k :: 0 <= k < e ==> s[k] !in d) && (e < |s| ==> s[e] in d)
    ensures RunLength(s, d) == e
  {
    var f := RunLength(s, d);
    assert f >= e;
    assert f <= e;
  }

  /** `r` lists exactly the maximal runs of `s` that start at `at` or later, left to right. */
  ghost predicate ListsRunsFrom(s: string, d: string, at: nat, r: seq<(nat, nat)>) {
    && (forall b: nat, e: nat :: (b, e) in r <==> MaximalRun(s, d, b, e) && at <= b)
    && Increasing(r)
  }

  /** From a position whose left neighbour is a delimiter or the start, the spans are exactly
      the maximal runs of the string from there on. */
  lemma {:induction false} SpansFrom(s: string, d: string, at: nat)
    requires at <= |s|
    requires at == 0 || at == |s| || s[at] in d || s[at - 1] in d
    ensures ListsRunsFrom(s, d, at, Spans(s, d, at))
    decreases |s| - at
  {
    if at == |s| {
      ListsNone(s, d);
    } else if s[at] in d {
      SpansFrom(s, d, at + 1);
      SkipOne(s, d, at, Spans(s, d, at + 1));
    } else {
      var e := RunEnd(s, d, at);
      SpansFrom(s, d, e);
      PrependRun(s, d, at, e, Spans(s, d, e));
    }
  }

  lemma ListsNone(s: string, d: string)
    ensures ListsRunsFrom(s, d, |s|, [])
  {
  }

  lemma SkipOne(s: string, d: string, at: nat, t: seq<(nat, nat)>)
    requires at < |s| && s[at] in d && ListsRunsFrom(s, d, at + 1, t)
    ensures ListsRunsFrom(s, d, at, t)
  {
    forall b: nat, e: nat | MaximalRun(s, d, b, e) && at <= b ensures at + 1 <= b {
    }
  }

  lemma PrependRun(s: string, d: string, b: nat, e: nat, t: seq<(nat, nat)>)
    requires MaximalRun(s, d, b, e) && ListsRunsFrom(s, d, e, t)
    ensures ListsRunsFrom(s, d, b, [(b, e)] + t)
  {
    forall b': nat, e': nat | MaximalRun(s, d, b', e') && b <= b' && (b', e') != (b, e)
      ensures e < b'
    {
      RunsDisjoint(s, d, b, e, b', e');
    }
    forall j | 0 <= j < |t| ensures e < t[j].0 {
      assert (t[j].0, t[j].1) in t;
      RunsDisjoint(s, d, b, e, t[j].0, t[j].1);
    }
  }

  lemma RunsDisjoint(s: string, d: string, b: nat, e: nat, b': nat, e': nat)
    requires MaximalRun(s, d, b, e) && MaximalRun(s, d, b', e') && b <= b' && (b, e) != (b', e')
    ensures e < b'
  {
    assert e' < |s| ==> s[e'] in d;
    assert e < |s| ==> s[e] in d;
    assert b' > 0 ==> s[b' - 1] in d;
  }

  /** The spans of `s` are its maximal delimiter-free runs, every one of them, left to right. */
  lemma SpansAreMaximalRuns(s: string, d: string)
    ensures ListsRunsFrom(s, d, 0, Spans(s, d, 0))
  {
    SpansFrom(s, d, 0);
  }

  lemma {:induction false} RunLengthAt(s: string, d: string, at: nat)
    requires at <= |s|
    ensures at + RunLength(s[at..], d) == RunEnd(s, d, at)
    decreases |s| - at
  {
    if at < |s| && s[at] !in d {
      assert s[at..][1..] == s[at + 1..];
      RunLengthAt(s, d, at + 1);
    }
  }

  lemma TokensStep(s: string, d: string)
    requires s != ""
    ensures Tokens(s, d) ==
      if s[0] in d then Tokens(s[1..], d) else [s[..RunLength(s, d)]] + Tokens(s[RunLength(s, d)..], d)
  {
  }

  lemma TokensUnfold(s: string, d: string, at: nat)
    requires at < |s|
    ensures s[at] in d ==> Tokens(s[at..], d) == Tokens(s[at + 1..], d)
    ensures s[at] !in d ==> var e := RunEnd(s, d, at); Tokens(s[at..], d) == [s[at..e]] + Tokens(s[e..], d)
  {
    hide Tokens, RunLength, RunEnd;
    var u := s[at..];
    TokensStep(u, d);
    if s[at] in d {
      assert u[1..] == s[at + 1..];
    } else {
      RunLengthAt(s, d, at);
      var n, e := RunLength(u, d), RunEnd(s, d, at);
      assert u[n..] == s[e..];
      assert u[..n] == s[at..e];
    }
  }

  /** The tokens are the strings at the spans. */
  lemma {:induction false} TokensAtSpans(s: string, d: string, at: nat)
    requires at <= |s|
    ensures var r := Spans(s, d, at); var t := Tokens(s[at..], d);
      |t| == |r| && forall i :: 0 <= i < |r| ==> r[i].0 <= r[i].1 <= |s| && t[i] == s[r[i].0..r[i].1]
    decreases |s| - at
  {
    if at < |s| {
      TokensUnfold(s, d, at);
      TokensAtSpans(s, d, if s[at] in d then at + 1 else RunEnd(s, d, at));
    }
  }

  /** What ISO C11 section 7.24.5.8 promises of a sequence of strtok calls: the tokens are the
      maximal runs of the original string without delimiters, each exactly once, in order. */
  lemma TokensAreMaximalRuns(s: string, d: string)
    ensures var r := Spans(s, d, 0); var t := Tokens(s, d);
      && |t| == |r| && Increasing(r)
      && (forall i :: 0 <= i < |r| ==> MaximalRun(s, d, r[i].0, r[i].1) && t[i] == s[r[i].0..r[i].1])
      && (forall b: nat, e: nat :: MaximalRun(s, d, b, e) ==> (b, e) in r)
  {
    assert s[0..] == s;
    SpansAreMaximalRuns(s, d);
    TokensAtSpans(s, d, 0);
    var r := Spans(s, d, 0);
    forall i | 0 <= i < |r| ensures MaximalRun(s, d, r[i].0, r[i].1) {
      assert (r[i].0, r[i].1) in r;
    }
  }

  // ------------------------------------------------------------ composing strings

  /** A delimiter separates: what is before it and what is after it are cut independently. */
  lemma {:induction false} TokensOfJoin(a: string, c: char, b: string, d: string)
    requires c in d
    ensures Tokens(a + [c] + b, d) == Tokens(a, d) + Tokens(b, d)
    decreases |a|
  {
    hide Tokens, RunLength;
    var s := a + [c] + b;
    TokensStep(s, d);
    if a == "" {
      NoTokens(d);
      assert s[1..] == b;
    } else {
      assert s[0] == a[0];
      TokensStep(a, d);
      if a[0] in d {
        assert s[1..] == a[1..] + [c] + b;
        TokensOfJoin(a[1..], c, b, d);
      } else {
        var n := RunLength(a, d);
        RunOfJoin(a, c, b, d);
        assert s[..n] == a[..n] && s[n..] == a[n..] + [c] + b;
        TokensOfJoin(a[n..], c, b, d);
      }
    }
  }

  lemma NoTokens(d: string)
    ensures Tokens("", d) == []
  {
  }

  lemma RunOfJoin(a: string, c: char, b: string, d: string)
    requires c in d && a != "" && a[0] !in d
    ensures 0 < RunLength(a, d) <= |a| && RunLength(a + [c] + b, d) == RunLength(a, d)
  {
    var s, n := a + [c] + b, RunLength(a, d);
    assert n < |a| ==> s[n] == a[n];
    RunLengthIs(s, d, n);
  }

  /** A string without delimiters is its own single token, or none when it is empty. */
  lemma TokensOfRun(s: string, d: string)
    requires forall k :: 0 <= k < |s| ==> s[k] !in d
    ensures Tokens(s, d) == if s == "" then [] else [s]
  {
    RunLengthIs(s, d, |s|);
    assert s[..|s|] == s && s[|s|..] == "";
  }

  lemma {:induction false} TokensNonEmpty(s: string, d: string)
    ensures forall i :: 0 <= i < |Tokens(s, d)| ==> Tokens(s, d)[i] != ""
    decreases |s|
  {
    if s == "" {
    } else if s[0] in d {
      TokensNonEmpty(s[1..], d);
    } else {
      TokensNonEmpty(s[RunLength(s, d)..], d);
    }
  }
}
