/** An editor of one string with a cursor offset, and the proof that the line editor is the
    same editor for as long as no limit of its buffers is met. */
module FlatEditor {
  import opened LineEditor

  datatype FlatEd = FlatEd(text: string, at: nat)

  // ------------------------------------------------------------------ the flat editor

  function Newlines(s: string): nat {
    if s == "" then 0 else (if s[0] == '\n' then 1 else 0) + Newlines(s[1..])
  }

  /** Length of the line that `s` starts with. */
  function LineLength(s: string): (n: nat)
    ensures n <= |s|
    ensures n < |s| ==> s[n] == '\n'
    ensures '\n' !in s[..n]
  {
    if s == "" || s[0] == '\n' then 0 else 1 + LineLength(s[1..])
  }

  /** Where line number `r` of `s` starts. */
  function LineStart(s: string, r: nat): (k: nat)
    ensures k <= |s|
    decreases r
  {
    var n := LineLength(s);
    if r == 0 || n == |s| then 0 else n + 1 + LineStart(s[n + 1..], r - 1)
  }

  /** The line the cursor is on, and the column. */
  function RowOf(f: FlatEd): nat
    requires f.at <= |f.text|
  {
    Newlines(f.text[..f.at])
  }

  function ColOf(f: FlatEd): int
    requires f.at <= |f.text|
  {
    f.at - LineStart(f.text, RowOf(f))
  }

  function FlatMove(f: FlatEd, dl: int, dc: int): (g: FlatEd)
    requires f.at <= |f.text|
    ensures g.text == f.text && g.at <= |g.text|
  {
    var s := LineStart(f.text, Clamp(RowOf(f) + dl, Newlines(f.text)));
    FlatEd(f.text, s + Clamp(ColOf(f) + dc, LineLength(f.text[s..])))
  }

  function FlatStep(f: FlatEd, ev: Event): (g: FlatEd)
    requires f.at <= |f.text|
    ensures g.at <= |g.text|
  {
    match ev
    case MoveBy(dl, dc) => FlatMove(f, dl, dc)
    case Key(c) =>
      if c == BACKSPACE then if f.at == 0 then f else FlatEd(Delete(f.text, f.at - 1), f.at - 1)
      else if c == '\n' || Printable(c) then FlatEd(Insert(f.text, f.at, c), f.at + 1)
      else f
  }

  // ------------------------------------------------------------------ lines as one string

  /** The lines joined by newlines. */
  function Flat(ls: seq<string>): string {
    if ls == [] then "" else if |ls| == 1 then ls[0] else ls[0] + ['\n'] + Flat(ls[1..])
  }

  /** What precedes and what follows line number `r` in the joined text. */
  function Pre(ls: seq<string>): string {
    if ls == [] then "" else Flat(ls) + ['\n']
  }

  function Post(ls: seq<string>): string {
    if ls == [] then "" else ['\n'] + Flat(ls)
  }

  function ToFlat(e: Ed): FlatEd
    requires e.row < |e.lines|
  {
    FlatEd(Flat(e.lines), |Pre(e.lines[..e.row])| + e.col)
  }

  lemma FlatOne(s: string)
    ensures Flat([s]) == s
  {
  }

  lemma FlatCons(s: string, ls: seq<string>)
    requires ls != []
    ensures Flat([s] + ls) == s + ['\n'] + Flat(ls)
  {
    assert ([s] + ls)[1..] == ls;
  }

  lemma {:induction false} FlatConcat(a: seq<string>, b: seq<string>)
    requires b != []
    ensures Flat(a + b) == Pre(a) + Flat(b)
    decreases |a|
  {
    hide Flat;
    if a == [] {
      assert a + b == b;
    } else {
      var s, t := a[0], a[1..];
      assert a == [s] + t && a + b == [s] + (t + b);
      FlatCons(s, t + b);
      FlatConcat(t, b);
      var y := Flat(b);
      if t == [] {
        FlatOne(s);
        assert a == [s];
      } else {
        FlatCons(s, t);
        var x := Flat(t);
        assert s + ['\n'] + ((x + ['\n']) + y) == (s + ['\n'] + x + ['\n']) + y;
      }
    }
  }

  lemma FlatAround(a: seq<string>, m: seq<string>, b: seq<string>)
    requires m != []
    ensures Flat(a + m + b) == Pre(a) + Flat(m) + Post(b)
  {
    hide Flat;
    FlatConcat(a, m);
    if b == [] {
      assert a + m + b == a + m;
    } else {
      FlatConcat(a + m, b);
      var x, y, z := Pre(a), Flat(m), Flat(b);
      assert (x + y + ['\n']) + z == x + y + (['\n'] + z);
    }
  }

  lemma FlatTwo(s: string, u: string)
    ensures Flat([s, u]) == s + ['\n'] + u
  {
    assert [s, u][1..] == [u];
  }

  /** The text around line `r`. */
  lemma FlatAt(ls: seq<string>, r: nat)
    requires r < |ls|
    ensures Flat(ls) == Pre(ls[..r]) + ls[r] + Post(ls[r + 1..])
  {
    hide Flat;
    hide Pre;
    hide Post;
    var a, s, b := ls[..r], ls[r], ls[r + 1..];
    TakenApart(ls, r);
    FlatOne(s);
    FlatAround(a, [s], b);
  }

  lemma TakenApart(ls: seq<string>, r: nat)
    requires r < |ls|
    ensures ls == ls[..r] + [ls[r]] + ls[r + 1..]
  {
  }

  // ------------------------------------------------------------------ keys

  lemma InsertInside(p: string, s: string, q: string, at: nat, c: char)
    requires at <= |s|
    ensures Insert(p + s + q, |p| + at, c) == p + Insert(s, at, c) + q
  {
    assert (p + s + q)[..|p| + at] == p + s[..at];
    assert (p + s + q)[|p| + at..] == s[at..] + q;
  }

  lemma DeleteInside(p: string, s: string, q: string, at: nat)
    requires at < |s|
    ensures Delete(p + s + q, |p| + at) == p + Delete(s, at) + q
  {
    assert (p + s + q)[..|p| + at] == p + s[..at];
    assert (p + s + q)[|p| + at + 1..] == s[at + 1..] + q;
  }

  lemma ReplaceLine(ls: seq<string>, r: nat, s: string)
    requires r < |ls|
    ensures Flat(ls[r := s]) == Pre(ls[..r]) + s + Post(ls[r + 1..])
  {
    var ls' := ls[r := s];
    FlatAt(ls', r);
    assert ls'[..r] == ls[..r] && ls'[r + 1..] == ls[r + 1..];
  }

  lemma PutIsFlat(e: Ed, c: char)
    requires Ok(e) && |e.lines[e.row]| < EDIT_MAX_LINE_LEN - 1
    ensures ToFlat(e).at <= |Flat(e.lines)|
    ensures ToFlat(Put(e, c)) == FlatEd(Insert(Flat(e.lines), ToFlat(e).at, c), ToFlat(e).at + 1)
  {
    hide Flat;
    hide Pre;
    hide Post;
    hide Insert;
    var s := e.lines[e.row];
    FlatAt(e.lines, e.row);
    ReplaceLine(e.lines, e.row, Insert(s, e.col, c));
    InsertInside(Pre(e.lines[..e.row]), s, Post(e.lines[e.row + 1..]), e.col, c);
    assert Put(e, c).lines[..e.row] == e.lines[..e.row];
  }

  lemma BreakIsFlat(e: Ed)
    requires Ok(e) && |e.lines| < EDIT_MAX_LINES
    ensures ToFlat(e).at <= |Flat(e.lines)|
    ensures ToFlat(Break(e)) == FlatEd(Insert(Flat(e.lines), ToFlat(e).at, '\n'), ToFlat(e).at + 1)
  {
    hide Flat;
    var s, a, b := e.lines[e.row], e.lines[..e.row], e.lines[e.row + 1..];
    var two := [s[..e.col], s[e.col..]];
    FlatAt(e.lines, e.row);
    FlatAround(a, two, b);
    FlatTwo(s[..e.col], s[e.col..]);
    assert Flat(two) == Insert(s, e.col, '\n');
    InsertInside(Pre(a), s, Post(b), e.col, '\n');
    BreakOffset(e);
  }

  lemma BreakOffset(e: Ed)
    requires Ok(e) && |e.lines| < EDIT_MAX_LINES
    ensures ToFlat(Break(e)).at == ToFlat(e).at + 1
  {
    FlatOne(e.lines[e.row][..e.col]);
    hide Flat;
    var s, a := e.lines[e.row], e.lines[..e.row];
    assert Break(e).lines[..e.row + 1] == a + [s[..e.col]];
    FlatConcat(a, [s[..e.col]]);
  }

  lemma BackInLineIsFlat(e: Ed)
    requires Ok(e) && e.col > 0
    ensures 0 < ToFlat(e).at <= |Flat(e.lines)|
    ensures ToFlat(Back(e)) == FlatEd(Delete(Flat(e.lines), ToFlat(e).at - 1), ToFlat(e).at - 1)
  {
    hide Flat;
    hide Pre;
    hide Post;
    hide Delete;
    var s := e.lines[e.row];
    FlatAt(e.lines, e.row);
    ReplaceLine(e.lines, e.row, Delete(s, e.col - 1));
    DeleteInside(Pre(e.lines[..e.row]), s, Post(e.lines[e.row + 1..]), e.col - 1);
    assert Back(e).lines[..e.row] == e.lines[..e.row];
  }

  lemma BackJoiningIsFlat(e: Ed)
    requires Ok(e) && e.col == 0 && e.row > 0
    requires |e.lines[e.row - 1]| + |e.lines[e.row]| < EDIT_MAX_LINE_LEN
    ensures 0 < ToFlat(e).at <= |Flat(e.lines)|
    ensures ToFlat(Back(e)) == FlatEd(Delete(Flat(e.lines), ToFlat(e).at - 1), ToFlat(e).at - 1)
  {
    hide Flat;
    hide Pre;
    hide Post;
    hide Delete;
    JoinIsFlat(e.lines, e.row);
    assert Back(e).lines[..e.row - 1] == e.lines[..e.row - 1];
  }

  lemma JoinIsFlat(ls: seq<string>, r: nat)
    requires 0 < r < |ls|
    ensures var a, p, s, b := ls[..r - 1], ls[r - 1], ls[r], ls[r + 1..];
      && |Pre(ls[..r])| == |Pre(a)| + |p| + 1 <= |Flat(ls)|
      && Flat(a + [p + s] + b) == Delete(Flat(ls), |Pre(a)| + |p|)
  {
    hide Flat;
    var a, p, s, b := ls[..r - 1], ls[r - 1], ls[r], ls[r + 1..];
    FlatOne(p);
    FlatOne(p + s);
    FlatTwo(p, s);
    assert ls == a + [p, s] + b;
    FlatAround(a, [p, s], b);
    FlatAround(a, [p + s], b);
    var two := p + ['\n'] + s;
    assert Delete(two, |p|) == p + s;
    DeleteInside(Pre(a), two, Post(b), |p|);
    assert ls[..r] == a + [p];
    FlatConcat(a, [p]);
  }
}
