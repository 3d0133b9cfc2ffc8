/** texteditor/blockedit.c: the editor's state and the calls that change it. */
module BlockEdit {
  import opened LineEditor
  import opened EditBuffer

  class Editor {
    const mem: array<char>   // g_ed.lines
    var lineCount: nat
    var cursorLine: nat
    var cursorCol: nat
    var scrollLine: int
    var modified: bool
    ghost var lines: seq<string>

    ghost function View(): Ed
      reads this
    {
      Ed(lines, cursorLine, cursorCol)
    }

    ghost predicate Valid()
      reads this, mem
    {
      && mem.Length == EDIT_MAX_LINES * EDIT_MAX_LINE_LEN
      && lineCount == |lines| && Ok(View()) && Text(mem[..], lines)
    }

    /** edit_init. */
    constructor ()
      ensures Valid() && View() == Empty && !modified
    {
      mem := new char[EDIT_MAX_LINES * EDIT_MAX_LINE_LEN](_ => '\0');
      lineCount, cursorLine, cursorCol, scrollLine := 1, 0, 0, 0;
      modified := false;
      lines := [""];
    }

    /** The branch of edit_insert_char for Enter. */
    method InsertBreak(len: nat)
      requires Valid() && len == |lines[cursorLine]| && lineCount < EDIT_MAX_LINES
      modifies this`lineCount, this`cursorLine, this`cursorCol, this`modified, this`lines, mem
      ensures Valid() && View() == Break(old(View())) && modified
    {
      hide Text;
      hide LineOk;
      BreakOk(View());
      BreakRow(mem, lines, cursorLine, cursorCol, len, lineCount);
      lines := Break(View()).lines;
      lineCount := lineCount + 1;
      cursorLine := cursorLine + 1;
      cursorCol := 0;
      modified := true;
    }

    /** The branch for an ordinary character. */
    method InsertPlain(c: char, len: nat)
      requires Valid() && len == |lines[cursorLine]| < EDIT_MAX_LINE_LEN - 1 && c != '\n' && c != '\0'
      modifies this`lineCount, this`cursorLine, this`cursorCol, this`modified, this`lines, mem
      ensures Valid() && View() == Put(old(View()), c) && modified
    {
      hide Text;
      hide LineOk;
      PutOk(View(), c);
      InsertInRow(mem, lines, cursorLine, cursorCol, len, c);
      lines := Put(View(), c).lines;
      cursorCol := cursorCol + 1;
      modified := true;
    }

    /** strlen of the line the cursor is on. */
    method CursorLineLength() returns (len: nat)
      requires Valid()
      ensures len == |lines[cursorLine]| < EDIT_MAX_LINE_LEN
    {
      assert Holds(mem[..], cursorLine, lines[cursorLine]);
      len := RowLength(mem, cursorLine, lines[cursorLine]);
    }

    /** edit_insert_char.  The text counts as modified exactly when something was inserted. */
    method InsertChar(c: char)
      requires Valid() && c != '\0'
      modifies this`lineCount, this`cursorLine, this`cursorCol, this`modified, this`lines, mem
      ensures Valid()
      ensures View() == if c == '\n' then Break(old(View())) else if c == '\t' then Tab(old(View())) else Put(old(View()), c)
      ensures modified <==> old(modified) || View() != old(View())
      decreases c == '\t'
    {
      hide Text;
      hide LineOk;
      var len := CursorLineLength();
      if c == '\n' {
        if lineCount >= EDIT_MAX_LINES { return; }
        InsertBreak(len);
      } else if c == '\t' {
        InsertTab();
      } else {
        if len >= EDIT_MAX_LINE_LEN - 1 { return; }
        InsertPlain(c, len);
      }
    }

    /** The branch for a tab: four spaces, as many of them as fit. */
    method InsertTab()
      requires Valid()
      modifies this`lineCount, this`cursorLine, this`cursorCol, this`modified, this`lines, mem
      ensures Valid() && View() == Tab(old(View()))
      ensures modified <==> old(modified) || View() != old(View())
      decreases true, 0
    {
      hide Text;
      hide LineOk;
      ghost var e := View();
      for i := 0 to 4
        invariant Valid() && View() == Spaces(e, i)
        invariant modified <==> old(modified) || View() != e
        invariant View() == e || cursorCol > e.col
      {
        ghost var e' := View();
        InsertChar(' ');
        assert View() == e' || cursorCol == e'.col + 1;
      }
      FourSpaces(e);
    }

    /** The branch of edit_delete_char that joins two lines. */
    method JoinWithPrevious()
      requires Valid() && cursorCol == 0 && cursorLine > 0
      modifies this`lineCount, this`cursorLine, this`cursorCol, this`modified, this`lines, mem
      ensures Valid() && View() == Back(old(View())) && modified == old(modified)
    {
      hide Text;
      hide LineOk;
      hide Joined;
      BackOk(View());
      assert Holds(mem[..], cursorLine - 1, lines[cursorLine - 1]) by { LineHeld(mem[..], lines, cursorLine - 1); }
      var pl := RowLength(mem, cursorLine - 1, lines[cursorLine - 1]);
      JoinRows(mem, lines, cursorLine, lineCount, pl);
      lines := Back(View()).lines;
      lineCount := lineCount - 1;
      cursorLine := cursorLine - 1;
      cursorCol := pl;
    }

    /** edit_delete_char. */
    method DeleteChar()
      requires Valid()
      modifies this`lineCount, this`cursorLine, this`cursorCol, this`modified, this`lines, mem
      ensures Valid() && View() == Back(old(View())) && modified
    {
      hide Text;
      hide LineOk;
      var len := CursorLineLength();
      if cursorCol > 0 {
        BackOk(View());
        DeleteInRow(mem, lines, cursorLine, cursorCol - 1, len);
        lines := Back(View()).lines;
        cursorCol := cursorCol - 1;
      } else if cursorLine > 0 {
        JoinWithPrevious();
      }
      modified := true;
    }

    /** edit_move_cursor.  Afterwards the cursor is among the thirty lines shown, which stay the
        same when it already was. */
    method MoveCursor(dl: int, dc: int)
      requires Valid()
      modifies this`cursorLine, this`cursorCol, this`scrollLine
      ensures Valid() && View() == Move(old(View()), dl, dc)
      ensures scrollLine <= cursorLine < scrollLine + 30
      ensures old(scrollLine) <= cursorLine < old(scrollLine) + 30 ==> scrollLine == old(scrollLine)
      ensures scrollLine == old(scrollLine) || scrollLine == cursorLine || scrollLine == cursorLine - 29
    {
      hide Text, Ok, Holds;
      MoveOk(View(), dl, dc);
      var line, col := cursorLine + dl, cursorCol + dc;
      if line < 0 { line := 0; }
      if line >= lineCount { line := lineCount - 1; }
      LineHeld(mem[..], lines, line);
      var ll := RowLength(mem, line, lines[line]);
      if col < 0 { col := 0; }
      if col > ll { col := ll; }
      cursorLine, cursorCol := line, col;
      if cursorLine < scrollLine { scrollLine := cursorLine; }
      if cursorLine >= scrollLine + 30 { scrollLine := cursorLine - 29; }
    }

    /** edit_handle_key. */
    method HandleKey(key: char)
      requires Valid()
      modifies this`lineCount, this`cursorLine, this`cursorCol, this`modified, this`lines, mem
      ensures Valid() && View() == Step(old(View()), Key(key))
      ensures modified <==> old(modified) || key == BACKSPACE || View() != old(View())
    {
      hide Text;
      hide LineOk;
      if key == BACKSPACE {
        DeleteChar();
      } else if key == '\n' {
        InsertChar('\n');
      } else if 32 <= key as int < 128 {
        InsertChar(key);
      }
    }
  }

  lemma LineHeld(m: seq<char>, ls: seq<string>, i: nat)
    requires Text(m, ls) && i < |ls|
    ensures Holds(m, i, ls[i])
  {
  }
}
