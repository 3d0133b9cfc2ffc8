/** The editing operations of texteditor/blockedit.c on a list of lines with a cursor, and the
    proof that they are the operations of an editor of one flat string. */
module LineEditor {
  import opened Words

  const EDIT_MAX_LINES: nat := 4096
  const EDIT_MAX_LINE_LEN: nat := 1024
  const BACKSPACE: char := '\U{0008}'

  datatype Ed = Ed(lines: seq<string>, row: nat, col: nat)

  predicate LineOk(s: string) {
    |s| < EDIT_MAX_LINE_LEN && '\n' !in s && '\0' !in s
  }

  /** What every operation keeps: the buffers are not exceeded and the cursor is on a
      character of a line or just behind its last one. */
  ghost predicate Ok(e: Ed) {
    && 1 <= |e.lines| <= EDIT_MAX_LINES
    && (forall i :: 0 <= i < |e.lines| ==> LineOk(e.lines[i]))
    && e.row < |e.lines| && e.col <= |e.lines[e.row]|
  }

  const Empty: Ed := Ed([""], 0, 0)

  // ------------------------------------------------------------------ operations

  function Insert(s: string, at: nat, c: char): string
    requires at <= |s|
  {
    s[..at] + [c] + s[at..]
  }

  function Delete(s: string, at: nat): string
    requires at < |s|
  {
    s[..at] + s[at + 1..]
  }

  /** The character comes to stand where it was put, those behind it one place further on; and
      deleting it is the reverse. */
  lemma InsertPlaces(s: string, at: nat, c: char, k: nat)
    requires at <= |s| && k <= |s|
    ensures |Insert(s, at, c)| == |s| + 1
    ensures Insert(s, at, c)[k] == if k < at then s[k] else if k == at then c else s[k - 1]
    ensures Delete(Insert(s, at, c), at) == s
  {
  }

  /** An ordinary character; refused when the line is full. */
  function Put(e: Ed, c: char): Ed
    requires e.row < |e.lines| && e.col <= |e.lines[e.row]|
  {
    if |e.lines[e.row]| >= EDIT_MAX_LINE_LEN - 1 then e
    else Ed(e.lines[e.row := Insert(e.lines[e.row], e.col, c)], e.row, e.col + 1)
  }

  /** Enter; refused when there are as many lines as the editor can hold. */
  function Break(e: Ed): Ed
    requires e.row < |e.lines| && e.col <= |e.lines[e.row]|
  {
    var s := e.lines[e.row];
    if |e.lines| >= EDIT_MAX_LINES then e
    else Ed(e.lines[..e.row] + [s[..e.col], s[e.col..]] + e.lines[e.row + 1..], e.row + 1, 0)
  }

  /** Joining two lines keeps no more than a line can hold. */
  function Joined(a: string, b: string): (r: string)
    ensures r <= a + b && |r| == if |a| + |b| < EDIT_MAX_LINE_LEN then |a| + |b| else EDIT_MAX_LINE_LEN - 1
  {
    if |a| + |b| < EDIT_MAX_LINE_LEN then a + b else (a + b)[..EDIT_MAX_LINE_LEN - 1]
  }

  /** Backspace. */
  function Back(e: Ed): Ed
    requires e.row < |e.lines| && e.col <= |e.lines[e.row]|
  {
    var s := e.lines[e.row];
    if e.col > 0 then Ed(e.lines[e.row := Delete(s, e.col - 1)], e.row, e.col - 1)
    else if e.row > 0 then
      var p := e.lines[e.row - 1];
      Ed(e.lines[..e.row - 1] + [Joined(p, s)] + e.lines[e.row + 1..], e.row - 1, |p|)
    else e
  }

  function Clamp(x: int, hi: nat): (r: nat)
    ensures r <= hi
  {
    if x < 0 then 0 else if x > hi then hi else x
  }

  function Move(e: Ed, dl: int, dc: int): Ed
    requires |e.lines| > 0
  {
    var row := Clamp(e.row + dl, |e.lines| - 1);
    Ed(e.lines, row, Clamp(e.col + dc, |e.lines[row]|))
  }

  datatype Event = Key(c: char) | MoveBy(dl: int, dc: int)

  /** A character edit_handle_key inserts: from the space on, in a signed char. */
  predicate Printable(c: char) {
    32 <= c as int < 128
  }

  function Step(e: Ed, ev: Event): Ed
    requires e.row < |e.lines| && e.col <= |e.lines[e.row]|
  {
    match ev
    case MoveBy(dl, dc) => Move(e, dl, dc)
    case Key(c) => if c == BACKSPACE then Back(e) else if c == '\n' then Break(e) else if Printable(c) then Put(e, c) else e
  }

  lemma JoinedOk(a: string, b: string)
    requires LineOk(a) && LineOk(b)
    ensures LineOk(Joined(a, b))
  {
    var r := Joined(a, b);
    forall c | c in r ensures c in a || c in b { assert c in a + b; }
  }

  lemma MoveOk(e: Ed, dl: int, dc: int)
    requires Ok(e)
    ensures |e.lines| > 0 && Ok(Move(e, dl, dc))
  {
  }

  /** The cursor goes to the line that exists nearest to the one asked for, and in it to the
      column that exists nearest to the one asked for. */
  lemma MoveIsNearest(e: Ed, dl: int, dc: int, r: nat, c: nat)
    requires r < |e.lines|
    ensures var m := Move(e, dl, dc);
      && m.lines == e.lines && m.row < |e.lines| && m.col <= |e.lines[m.row]|
      && Abs(e.row + dl - m.row) <= Abs(e.row + dl - r)
      && (c <= |e.lines[m.row]| ==> Abs(e.col + dc - m.col) <= Abs(e.col + dc - c))
  {
  }

  /** The characters a key can bring into the text: those from the space to code 127, and the
      line break; all others but Backspace do nothing at all. */
  lemma KeysThatInsert(e: Ed, c: char)
    requires Ok(e) && |e.lines[e.row]| < EDIT_MAX_LINE_LEN - 1 && |e.lines| < EDIT_MAX_LINES && c != BACKSPACE
    ensures Step(e, Key(c)) != e <==> c == '\n' || ' ' <= c <= '\U{7F}'
    ensures ' ' <= c <= '\U{7F}' ==>
      Step(e, Key(c)).row == e.row && Step(e, Key(c)).col == e.col + 1 && Step(e, Key(c)).lines[e.row][e.col] == c
  {
  }

  lemma StepOk(e: Ed, ev: Event)
    requires Ok(e)
    ensures Ok(Step(e, ev))
  {
    match ev
    case MoveBy(dl, dc) =>
    case Key(c) =>
      if c == BACKSPACE { BackOk(e); }
      else if c == '\n' { BreakOk(e); }
      else if Printable(c) { PutOk(e, c); }
  }

  lemma PutOk(e: Ed, c: char)
    requires Ok(e) && c != '\n' && c != '\0'
    ensures Ok(Put(e, c))
  {
  }

  lemma BreakOk(e: Ed)
    requires Ok(e)
    ensures Ok(Break(e))
  {
  }

  lemma BackOk(e: Ed)
    requires Ok(e)
    ensures Ok(Back(e))
  {
    if e.col == 0 && e.row > 0 { JoinedOk(e.lines[e.row - 1], e.lines[e.row]); }
  }

  // ------------------------------------------------------------------ undoing

  /** Backspace takes back the character just typed. */
  lemma BackUndoesPut(e: Ed, c: char)
    requires Ok(e) && |e.lines[e.row]| < EDIT_MAX_LINE_LEN - 1
    ensures Back(Put(e, c)) == e
  {
    var s := e.lines[e.row];
    assert Delete(Insert(s, e.col, c), e.col) == s;
    assert e.lines[e.row := Insert(s, e.col, c)][e.row := s] == e.lines;
  }

  /** Backspace takes back a line break, wherever it was made. */
  lemma BackUndoesBreak(e: Ed)
    requires Ok(e) && |e.lines| < EDIT_MAX_LINES
    ensures Back(Break(e)) == e
  {
    var s, b := e.lines[e.row], Break(e);
    assert s[..e.col] + s[e.col..] == s;
    assert b.lines[..e.row] + [s] + b.lines[e.row + 2..] == e.lines;
  }

  /** A tab is four spaces; with room for them, four Backspaces take it back. */
  function Tab(e: Ed): Ed
    requires e.row < |e.lines| && e.col <= |e.lines[e.row]|
  {
    Put(Put(Put(Put(e, ' '), ' '), ' '), ' ')
  }

  /** The first `n` of those spaces. */
  ghost function Spaces(e: Ed, n: nat): (r: Ed)
    requires Ok(e)
    ensures Ok(r)
  {
    if n == 0 then e else PutOk(Spaces(e, n - 1), ' '); Put(Spaces(e, n - 1), ' ')
  }

  lemma FourSpaces(e: Ed)
    requires Ok(e)
    ensures Spaces(e, 4) == Tab(e)
  {
    assert Spaces(e, 1) == Put(e, ' ');
    assert Spaces(e, 2) == Put(Put(e, ' '), ' ');
  }

  lemma BackUndoesTab(e: Ed)
    requires Ok(e) && |e.lines[e.row]| + 4 < EDIT_MAX_LINE_LEN
    ensures Ok(Tab(e)) && Tab(e).col == e.col + 4
    ensures Back(Back(Back(Back(Tab(e))))) == e
  {
    var a := Put(e, ' ');
    var b := Put(a, ' ');
    var c := Put(b, ' ');
    PutOk(e, ' ');
    PutOk(a, ' ');
    PutOk(b, ' ');
    PutOk(c, ' ');
    BackUndoesPut(c, ' ');
    BackUndoesPut(b, ' ');
    BackUndoesPut(a, ' ');
    BackUndoesPut(e, ' ');
  }
}
