/** A session from the empty editor in which Backspace loses text. */
module EditorExamples {
  import opened LineEditor
  import opened FlatEditor
  import opened EditorRuns

  lemma {:induction false} RunSplit(e: Ed, a: seq<Event>, b: seq<Event>)
    requires Ok(e)
    ensures Run(e, a + b) == Run(Run(e, a), b)
    decreases |a|
  {
    hide Step, Ok;
    if a == [] {
      assert a + b == b;
    } else {
      StepOk(e, a[0]);
      InBounds(e);
      RunSplit(Step(e, a[0]), a[1..], b);
      assert (a + b)[1..] == a[1..] + b;
    }
  }

  lemma InBounds(e: Ed)
    requires Ok(e)
    ensures e.row < |e.lines| && e.col <= |e.lines[e.row]|
  {
  }

  lemma OneMore(e: Ed, a: seq<Event>, ev: Event)
    requires Ok(e)
    ensures Ok(Run(e, a)) && Run(e, a + [ev]) == Step(Run(e, a), ev)
  {
    RunSplit(e, a, [ev]);
    hide Step;
  }

  function Xs(n: nat): (s: string)
    ensures |s| == n && forall i :: 0 <= i < n ==> s[i] == 'x'
  {
    seq(n, _ => 'x')
  }

  ghost function Typed(n: nat): (evs: seq<Event>)
    ensures |evs| == n
  {
    seq(n, _ => Key('x'))
  }

  /** One line of `n` characters. */
  lemma {:induction false} Typing(n: nat)
    requires n < EDIT_MAX_LINE_LEN
    ensures Ok(Empty) && Run(Empty, Typed(n)) == Ed([Xs(n)], 0, n)
  {
    if n > 0 {
      Typing(n - 1);
      assert Typed(n) == Typed(n - 1) + [Key('x')];
      OneMore(Empty, Typed(n - 1), Key('x'));
      assert Insert(Xs(n - 1), n - 1, 'x') == Xs(n);
    } else {
      assert Typed(0) == [] && Xs(0) == "";
    }
  }

  /** A full line, Enter, one more character, one step to the left. */
  ghost function Session(): seq<Event> {
    Typed(1023) + [Key('\n')] + [Key('x')] + [MoveBy(0, -1)]
  }

  lemma AfterSession()
    ensures Ok(Empty) && Run(Empty, Session()) == Ed([Xs(1023), "x"], 1, 0)
  {
    hide Run, Xs, Typed;
    Typing(1023);
    OneMore(Empty, Typed(1023), Key('\n'));
    OneMore(Empty, Typed(1023) + [Key('\n')], Key('x'));
    OneMore(Empty, Typed(1023) + [Key('\n')] + [Key('x')], MoveBy(0, -1));
    var full := Xs(1023);
    assert full[..1023] == full && full[1023..] == "";
    assert Insert("", 0, 'x') == "x";
  }

  /** Backspace then joins two lines of 1023 and 1 characters: it removes the line break, and
      one character with it. */
  lemma LongLinesAreCut()
    ensures Ok(Empty)
    ensures var e := Run(Empty, Session());
      && e.row < |e.lines| && e.col <= |e.lines[e.row]|
      && |ToFlat(Step(e, Key(BACKSPACE))).text| < |ToFlat(e).text| - 1
  {
    hide Run, Session, ToFlat;
    AfterSession();
    JoinLosesText(Run(Empty, Session()));
  }
}
