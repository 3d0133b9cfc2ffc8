/** Cursor positions of the line editor read off the flat text, and whole editing sessions. */
module EditorRuns {
  import opened LineEditor
  import opened FlatEditor

  // ------------------------------------------------------------------ lines of a text

  lemma {:induction false} NewlinesConcat(a: string, b: string)
    ensures Newlines(a + b) == Newlines(a) + Newlines(b)
  {
    if a == "" {
      assert a + b == b;
    } else {
      assert (a + b)[1..] == a[1..] + b;
      NewlinesConcat(a[1..], b);
    }
  }

  lemma {:induction false} NoNewlines(s: string)
    requires '\n' !in s
    ensures Newlines(s) == 0
  {
    if s != "" { NoNewlines(s[1..]); }
  }

  ghost predicate Plain(ls: seq<string>) {
    forall i :: 0 <= i < |ls| ==> '\n' !in ls[i]
  }

  /** Each line but the last ends in the only newline it contributes. */
  lemma {:induction false} NewlinesOfFlat(ls: seq<string>)
    requires Plain(ls) && ls != []
    ensures Newlines(Flat(ls)) == |ls| - 1
    ensures Newlines(Pre(ls)) == |ls|
    decreases |ls|
  {
    NoNewlines(ls[0]);
    if |ls| > 1 {
      NewlinesOfFlat(ls[1..]);
      NewlinesConcat(ls[0] + ['\n'], Flat(ls[1..]));
      NewlinesConcat(ls[0], ['\n']);
    }
    NewlinesConcat(Flat(ls), ['\n']);
  }

  lemma {:induction false} LineLengthIs(s: string, q: string)
    requires '\n' !in s && (q == "" || q[0] == '\n')
    ensures LineLength(s + q) == |s|
  {
    if s == "" {
      assert s + q == q;
    } else {
      assert (s + q)[1..] == s[1..] + q;
      LineLengthIs(s[1..], q);
    }
  }

  lemma FirstLine(ls: seq<string>)
    requires |ls| > 1 && '\n' !in ls[0]
    ensures var f, n := Flat(ls), |ls[0]|;
      LineLength(f) == n < |f| && f[..n] == ls[0] && f[n + 1..] == Flat(ls[1..])
  {
    var q := ['\n'] + Flat(ls[1..]);
    assert Flat(ls) == ls[0] + q;
    LineLengthIs(ls[0], q);
  }

  /** Line number `r` of the joined lines starts behind the first `r` lines. */
  lemma {:induction false} LineStartIs(ls: seq<string>, r: nat)
    requires Plain(ls) && r < |ls|
    ensures LineStart(Flat(ls), r) == |Pre(ls[..r])|
    decreases r
  {
    hide Flat;
    hide Pre;
    hide LineLength;
    if r == 0 {
      EmptyPre();
      assert ls[..0] == [];
    } else {
      var t := ls[1..];
      FirstLine(ls);
      LineStartIs(t, r - 1);
      assert LineStart(Flat(ls), r) == |ls[0]| + 1 + LineStart(Flat(t), r - 1);
      assert ls[..r] == [ls[0]] + t[..r - 1];
      PreCons(ls[0], t[..r - 1]);
    }
  }

  lemma EmptyPre()
    ensures Pre([]) == ""
  {
  }

  lemma PreCons(s: string, ls: seq<string>)
    ensures |Pre([s] + ls)| == |s| + 1 + |Pre(ls)|
  {
    if ls != [] { assert ([s] + ls)[1..] == ls; }
  }

  lemma PlainSlices(ls: seq<string>, r: nat)
    requires Plain(ls) && r < |ls|
    ensures Plain(ls[..r]) && '\n' !in ls[r]
  {
  }

  /** The text in front of the cursor and the one behind it. */
  lemma CursorInText(e: Ed)
    requires Ok(e)
    ensures var s := e.lines[e.row];
      && ToFlat(e).at <= |Flat(e.lines)|
      && Flat(e.lines)[..ToFlat(e).at] == Pre(e.lines[..e.row]) + s[..e.col]
      && Flat(e.lines)[|Pre(e.lines[..e.row])|..] == s + Post(e.lines[e.row + 1..])
  {
    hide Flat;
    hide Pre;
    hide Post;
    FlatAt(e.lines, e.row);
  }

  /** Row and column of the cursor can be read off the flat text and the offset. */
  lemma CursorFromText(e: Ed)
    requires Ok(e)
    ensures ToFlat(e).at <= |Flat(e.lines)|
    ensures RowOf(ToFlat(e)) == e.row && ColOf(ToFlat(e)) == e.col
  {
    hide LineStart;
    var s, p := e.lines[e.row], Pre(e.lines[..e.row]);
    CursorInText(e);
    PlainSlices(e.lines, e.row);
    NoNewlines(s[..e.col]);
    NewlinesConcat(p, s[..e.col]);
    if e.row > 0 { NewlinesOfFlat(e.lines[..e.row]); }
    LineStartIs(e.lines, e.row);
  }

  lemma LineLengthAt(e: Ed)
    requires Ok(e)
    ensures |Pre(e.lines[..e.row])| <= |Flat(e.lines)|
    ensures LineLength(Flat(e.lines)[|Pre(e.lines[..e.row])|..]) == |e.lines[e.row]|
  {
    CursorInText(e);
    LineLengthIs(e.lines[e.row], Post(e.lines[e.row + 1..]));
  }

  /** Moving the cursor in the lines is moving it in the text. */
  lemma MoveIsFlat(e: Ed, dl: int, dc: int)
    requires Ok(e)
    ensures ToFlat(e).at <= |Flat(e.lines)| && Ok(Move(e, dl, dc))
    ensures ToFlat(Move(e, dl, dc)) == FlatMove(ToFlat(e), dl, dc)
  {
    hide Flat;
    hide Pre;
    hide Newlines;
    hide LineStart;
    hide LineLength;
    var e' := Move(e, dl, dc);
    CursorFromText(e);
    assert Plain(e.lines);
    NewlinesOfFlat(e.lines);
    LineStartIs(e.lines, e'.row);
    LineLengthAt(e');
  }

  // ------------------------------------------------------------------ the text determines the lines

  /** The lines a text is made of. */
  function Lines(s: string): seq<string>
    decreases |s|
  {
    var n := LineLength(s);
    if n == |s| then [s] else [s[..n]] + Lines(s[n + 1..])
  }

  lemma {:induction false} LinesOfFlat(ls: seq<string>)
    requires Plain(ls) && ls != []
    ensures Lines(Flat(ls)) == ls
    decreases |ls|
  {
    if |ls| == 1 {
      LineLengthIs(ls[0], "");
      assert ls[0] + "" == ls[0];
    } else {
      FirstLine(ls);
      LinesOfFlat(ls[1..]);
    }
  }

  /** Two editors that show the same text with the cursor at the same offset are the same. */
  lemma SameTextSameEditor(e: Ed, e': Ed)
    requires Ok(e) && Ok(e') && ToFlat(e) == ToFlat(e')
    ensures e == e'
  {
    hide Flat;
    hide RowOf;
    hide ColOf;
    assert Plain(e.lines) && Plain(e'.lines);
    LinesOfFlat(e.lines);
    LinesOfFlat(e'.lines);
    CursorFromText(e);
    CursorFromText(e');
  }

  // ------------------------------------------------------------------ sessions

  /** The event does not meet a limit: the line has room for one more character, the editor
      for one more line, the line for what Backspace would join to it. */
  predicate Fits(e: Ed, ev: Event)
    requires e.row < |e.lines|
  {
    match ev
    case MoveBy(dl, dc) => true
    case Key(c) =>
      if c == BACKSPACE then
        e.col > 0 || e.row == 0 || |e.lines[e.row - 1]| + |e.lines[e.row]| < EDIT_MAX_LINE_LEN
      else if c == '\n' then |e.lines| < EDIT_MAX_LINES
      else Printable(c) ==> |e.lines[e.row]| < EDIT_MAX_LINE_LEN - 1
  }

  /** Any session keeps the cursor in the text and the buffers within their bounds. */
  ghost function Run(e: Ed, evs: seq<Event>): (r: Ed)
    requires Ok(e)
    ensures Ok(r)
    decreases |evs|
  {
    if evs == [] then e else StepOk(e, evs[0]); Run(Step(e, evs[0]), evs[1..])
  }

  ghost predicate AllFit(e: Ed, evs: seq<Event>)
    requires Ok(e)
    decreases |evs|
  {
    evs == [] || (StepOk(e, evs[0]); Fits(e, evs[0]) && AllFit(Step(e, evs[0]), evs[1..]))
  }

  function FlatRun(f: FlatEd, evs: seq<Event>): FlatEd
    requires f.at <= |f.text|
    decreases |evs|
  {
    if evs == [] then f else FlatRun(FlatStep(f, evs[0]), evs[1..])
  }

  lemma AtStart(e: Ed)
    requires Ok(e)
    ensures ToFlat(e).at <= |Flat(e.lines)|
    ensures ToFlat(e).at == 0 <==> e.col == 0 && e.row == 0
  {
    CursorInText(e);
  }

  lemma FittingStepIsFlat(e: Ed, ev: Event)
    requires Ok(e) && Fits(e, ev)
    ensures ToFlat(e).at <= |Flat(e.lines)|
    ensures ToFlat(Step(e, ev)) == FlatStep(ToFlat(e), ev)
  {
    AtStart(e);
    match ev
    case MoveBy(dl, dc) => MoveIsFlat(e, dl, dc);
    case Key(c) =>
      if c == BACKSPACE {
        if e.col > 0 { BackInLineIsFlat(e); } else if e.row > 0 { BackJoiningIsFlat(e); }
      } else if c == '\n' {
        BreakIsFlat(e);
      } else if Printable(c) {
        PutIsFlat(e, c);
      }
  }

  /** Joining lines that are too long together loses text. */
  lemma JoinLosesText(e: Ed)
    requires Ok(e) && e.col == 0 && e.row > 0
    requires |e.lines[e.row - 1]| + |e.lines[e.row]| >= EDIT_MAX_LINE_LEN
    ensures |ToFlat(Back(e)).text| < |ToFlat(e).text| - 1
  {
    hide Flat;
    hide Pre;
    hide Post;
    var a, p, s, b := e.lines[..e.row - 1], e.lines[e.row - 1], e.lines[e.row], e.lines[e.row + 1..];
    JoinIsFlat(e.lines, e.row);
    FlatOne(Joined(p, s));
    FlatOne(p + s);
    FlatAround(a, [Joined(p, s)], b);
    FlatAround(a, [p + s], b);
  }

  /** An event does to the lines what it does to the flat text if and only if it meets no
      limit: otherwise it is refused, or text is cut off. */
  lemma StepIsFlat(e: Ed, ev: Event)
    requires Ok(e)
    ensures ToFlat(e).at <= |Flat(e.lines)|
    ensures ToFlat(Step(e, ev)) == FlatStep(ToFlat(e), ev) <==> Fits(e, ev)
  {
    AtStart(e);
    if Fits(e, ev) {
      FittingStepIsFlat(e, ev);
    } else if ev.c == BACKSPACE {
      JoinLosesText(e);
    }
  }

  /** A session within the limits, starting from any text, is a session of the flat editor. */
  lemma {:induction false} RunIsFlat(e: Ed, evs: seq<Event>)
    requires Ok(e) && AllFit(e, evs)
    ensures ToFlat(e).at <= |Flat(e.lines)|
    ensures ToFlat(Run(e, evs)) == FlatRun(ToFlat(e), evs)
    decreases |evs|
  {
    AtStart(e);
    if evs != [] {
      hide FlatStep;
      StepOk(e, evs[0]);
      StepIsFlat(e, evs[0]);
      RunIsFlat(Step(e, evs[0]), evs[1..]);
    }
  }

  /** Nothing but characters from the space to code 127 in any line. */
  ghost predicate Clean(e: Ed) {
    forall i :: 0 <= i < |e.lines| ==> CleanLine(e.lines[i])
  }

  ghost predicate CleanLine(s: string) {
    forall k :: 0 <= k < |s| ==> ' ' <= s[k] <= '\U{7F}'
  }

  lemma CleanParts(s: string, at: nat)
    requires CleanLine(s) && at <= |s|
    ensures CleanLine(s[..at]) && CleanLine(s[at..])
  {
  }

  lemma CleanSum(s: string, t: string)
    requires CleanLine(s) && CleanLine(t)
    ensures CleanLine(s + t)
  {
  }

  lemma StepStaysClean(e: Ed, ev: Event)
    requires Ok(e) && Clean(e)
    ensures Clean(Step(e, ev))
  {
    hide Clean;
    match ev
    case MoveBy(dl, dc) => MoveStaysClean(e, dl, dc);
    case Key(c) =>
      if c == BACKSPACE { BackStaysClean(e); }
      else if c == '\n' { BreakStaysClean(e); }
      else if Printable(c) { PutStaysClean(e, c); }
  }

  lemma MoveStaysClean(e: Ed, dl: int, dc: int)
    requires Ok(e) && Clean(e)
    ensures Clean(Move(e, dl, dc))
  {
  }

  lemma PutStaysClean(e: Ed, c: char)
    requires Ok(e) && Clean(e) && ' ' <= c <= '\U{7F}'
    ensures Clean(Put(e, c))
  {
    hide CleanLine;
    var s := e.lines[e.row];
    CleanParts(s, e.col);
    CleanOne(c);
    CleanSum(s[..e.col], [c]);
    CleanSum(s[..e.col] + [c], s[e.col..]);
  }

  lemma CleanOne(c: char)
    requires ' ' <= c <= '\U{7F}'
    ensures CleanLine([c])
  {
  }

  lemma BreakStaysClean(e: Ed)
    requires Ok(e) && Clean(e)
    ensures Clean(Break(e))
  {
    hide CleanLine;
    CleanParts(e.lines[e.row], e.col);
  }

  lemma BackStaysClean(e: Ed)
    requires Ok(e) && Clean(e)
    ensures Clean(Back(e))
  {
    hide CleanLine;
    var s := e.lines[e.row];
    if e.col > 0 {
      CleanParts(s, e.col - 1);
      CleanParts(s, e.col);
      CleanSum(s[..e.col - 1], s[e.col..]);
    } else if e.row > 0 {
      var p := e.lines[e.row - 1];
      CleanSum(p, s);
      if |p| + |s| >= EDIT_MAX_LINE_LEN { CleanParts(p + s, EDIT_MAX_LINE_LEN - 1); }
    }
  }

  /** No session ever gets a control character into the text. */
  lemma {:induction false} RunStaysClean(e: Ed, evs: seq<Event>)
    requires Ok(e) && Clean(e)
    ensures Clean(Run(e, evs))
    decreases |evs|
  {
    if evs != [] {
      hide Step, Clean;
      StepOk(e, evs[0]);
      StepStaysClean(e, evs[0]);
      RunStaysClean(Step(e, evs[0]), evs[1..]);
    }
  }
}
