/** The line buffers of texteditor/blockedit.c: 4096 rows of 1024 characters, one behind the
    other in memory, each holding a NUL-terminated string.  The primitive changes the editor
    makes to them with memmove, memcpy and strncat are proved against the lines they hold. */
module EditBuffer {
  import opened CMemory
  import opened CStrings
  import opened LineEditor

  /** `lines[i]` as an address. */
  function Addr(i: nat): nat {
    1024 * i
  }

  /** Row `i` of memory holds the string `s`. */
  ghost predicate Holds(m: seq<char>, i: nat, s: string) {
    && Addr(i) + 1024 <= |m| && |s| < 1024 && '\0' !in s
    && (forall k :: 0 <= k < |s| ==> m[Addr(i) + k] == s[k])
    && m[Addr(i) + |s|] == '\0'
  }

  ghost predicate Text(m: seq<char>, ls: seq<string>) {
    forall i :: 0 <= i < |ls| ==> Holds(m, i, ls[i])
  }

  /** The rows of two memories agree from one address to another. */
  ghost predicate SameRow(m: seq<char>, m': seq<char>, i: nat) {
    |m| == |m'| && Addr(i) + 1024 <= |m| && forall k :: Addr(i) <= k < Addr(i) + 1024 ==> m'[k] == m[k]
  }

  lemma HoldsStill(m: seq<char>, m': seq<char>, i: nat, s: string)
    requires Holds(m, i, s) && SameRow(m, m', i)
    ensures Holds(m', i, s)
  {
  }

  /** strlen of a row. */
  method RowLength(mem: array<char>, i: nat, ghost s: string) returns (n: nat)
    requires Holds(mem[..], i, s)
    ensures n == |s|
  {
    assert mem[..][Addr(i)..Addr(i) + |s|] == s;
    CStrIs(mem[..], Addr(i), s);
    n := Strlen(mem, Addr(i));
  }

  // ------------------------------------------------------------------ one character

  lemma RowAfterInsert(m: seq<char>, i: nat, s: string, col: nat, c: char)
    requires Holds(m, i, s) && col <= |s| < 1023 && c != '\0'
    ensures var m' := Moved(m, Addr(i) + col + 1, Addr(i) + col, |s| - col + 1)[Addr(i) + col := c];
      Holds(m', i, Insert(s, col, c))
  {
    var a, t := Addr(i), Insert(s, col, c);
    var m' := Moved(m, a + col + 1, a + col, |s| - col + 1)[a + col := c];
    forall k | 0 <= k < |t| ensures m'[a + k] == t[k] {
      if k < col { assert t[k] == s[k]; } else if k > col { assert t[k] == s[k - 1] && m'[a + k] == m[a + (k - 1)]; }
    }
    assert m'[a + |t|] == m[a + |s|];
  }

  lemma RowAfterDelete(m: seq<char>, i: nat, s: string, at: nat)
    requires Holds(m, i, s) && at < |s|
    ensures var m' := Moved(m, Addr(i) + at, Addr(i) + at + 1, |s| - at);
      Holds(m', i, Delete(s, at))
  {
    var a, t := Addr(i), Delete(s, at);
    var m' := Moved(m, a + at, a + at + 1, |s| - at);
    forall k | 0 <= k < |t| ensures m'[a + k] == t[k] {
      if k < at { assert t[k] == s[k]; } else { assert t[k] == s[k + 1] && m'[a + k] == m[a + (k + 1)]; }
    }
    assert m'[a + |t|] == m[a + |s|];
  }

  /** Only row `i` differs. */
  ghost predicate OnlyRow(m: seq<char>, m': seq<char>, i: nat) {
    |m'| == |m| && forall k :: 0 <= k < |m| && !(Addr(i) <= k < Addr(i) + 1024) ==> m'[k] == m[k]
  }

  lemma TextAfter(m: seq<char>, m': seq<char>, ls: seq<string>, i: nat, s: string)
    requires Text(m, ls) && i < |ls| && OnlyRow(m, m', i) && Holds(m', i, s)
    ensures Text(m', ls[i := s])
  {
    forall j | 0 <= j < |ls| && j != i ensures Holds(m', j, ls[j]) {
      assert Holds(m, j, ls[j]);
      HoldsStill(m, m', j, ls[j]);
    }
  }

  /** The memmove and the store of edit_insert_char. */
  method InsertInRow(mem: array<char>, ghost ls: seq<string>, row: nat, col: nat, len: nat, c: char)
    requires Text(mem[..], ls) && row < |ls| && len == |ls[row]| < 1023 && col <= len && c != '\0'
    requires Addr(row) + 1024 <= mem.Length
    modifies mem
    ensures Text(mem[..], ls[row := Insert(ls[row], col, c)])
  {
    hide Holds;
    ghost var m := mem[..];
    assert Holds(m, row, ls[row]);
    RowAfterInsert(m, row, ls[row], col, c);
    Memmove(mem, Addr(row) + col + 1, Addr(row) + col, len - col + 1);
    mem[Addr(row) + col] := c;
    assert mem[..] == Moved(m, Addr(row) + col + 1, Addr(row) + col, len - col + 1)[Addr(row) + col := c];
    TextAfter(m, mem[..], ls, row, Insert(ls[row], col, c));
  }

  /** The memmove of edit_delete_char. */
  method DeleteInRow(mem: array<char>, ghost ls: seq<string>, row: nat, at: nat, len: nat)
    requires Text(mem[..], ls) && row < |ls| && len == |ls[row]| < 1024 && at < len
    requires Addr(row) + 1024 <= mem.Length
    modifies mem
    ensures Text(mem[..], ls[row := Delete(ls[row], at)])
  {
    hide Holds;
    ghost var m := mem[..];
    assert Holds(m, row, ls[row]);
    RowAfterDelete(m, row, ls[row], at);
    Memmove(mem, Addr(row) + at, Addr(row) + at + 1, len - at);
    TextAfter(m, mem[..], ls, row, Delete(ls[row], at));
  }

  // ------------------------------------------------------------------ whole rows

  /** Rows `lo..hi` hold `ls[lo + shift..hi + shift]`. */
  ghost predicate Rows(m: seq<char>, ls: seq<string>, lo: nat, hi: nat, shift: int) {
    forall j :: lo <= j < hi ==> HoldsLine(m, ls, j, shift)
  }

  ghost predicate HoldsLine(m: seq<char>, ls: seq<string>, j: nat, shift: int) {
    0 <= j + shift < |ls| && Holds(m, j, ls[j + shift])
  }

  /** The memory after a row has been copied. */
  ghost predicate Copied(m: seq<char>, m': seq<char>, dst: nat, src: nat) {
    OnlyRow(m, m', dst) && Addr(dst) + 1024 <= |m| && Addr(src) + 1024 <= |m|
    && m'[Addr(dst)..Addr(dst) + 1024] == m[Addr(src)..Addr(src) + 1024]
  }

  /** memcpy of a whole row. */
  method CopyRow(mem: array<char>, dst: nat, src: nat)
    requires Addr(dst) + 1024 <= mem.Length && Addr(src) + 1024 <= mem.Length && dst != src
    modifies mem
    ensures Copied(old(mem[..]), mem[..], dst, src)
  {
    Memcpy(mem, Addr(dst), Addr(src), 1024);
  }

  lemma HoldsInCopy(m: seq<char>, m': seq<char>, dst: nat, src: nat, s: string)
    requires Copied(m, m', dst, src) && Holds(m, src, s)
    ensures Holds(m', dst, s)
  {
    var a, b := m'[Addr(dst)..Addr(dst) + 1024], m[Addr(src)..Addr(src) + 1024];
    assert forall k :: 0 <= k < 1024 ==> a[k] == b[k];
    forall k | 0 <= k < |s| ensures m'[Addr(dst) + k] == s[k] {
      assert a[k] == m'[Addr(dst) + k] && b[k] == m[Addr(src) + k] == s[k];
    }
    assert a[|s|] == m'[Addr(dst) + |s|] && b[|s|] == m[Addr(src) + |s|];
  }

  lemma RowsElsewhere(m: seq<char>, m': seq<char>, ls: seq<string>, lo: nat, hi: nat, shift: int, i: nat)
    requires Rows(m, ls, lo, hi, shift) && OnlyRow(m, m', i) && (i < lo || hi <= i)
    ensures Rows(m', ls, lo, hi, shift)
  {
    forall j | lo <= j < hi ensures HoldsLine(m', ls, j, shift) {
      assert HoldsLine(m, ls, j, shift);
      HoldsStill(m, m', j, ls[j + shift]);
    }
  }

  lemma RowsExtendDown(m: seq<char>, ls: seq<string>, lo: nat, hi: nat, shift: int)
    requires 0 < lo && Rows(m, ls, lo, hi, shift) && HoldsLine(m, ls, lo - 1, shift)
    ensures Rows(m, ls, lo - 1, hi, shift)
  {
    hide Holds;
  }

  lemma RowsExtendUp(m: seq<char>, ls: seq<string>, lo: nat, hi: nat, shift: int)
    requires Rows(m, ls, lo, hi, shift) && HoldsLine(m, ls, hi, shift)
    ensures Rows(m, ls, lo, hi + 1, shift)
  {
    hide Holds;
  }

  /** The first loop of Enter: the rows below the cursor's move one down, the last one first. */
  method ShiftRowsDown(mem: array<char>, ghost ls: seq<string>, row: nat, count: nat)
    requires Rows(mem[..], ls, 0, count, 0) && count == |ls| && row < count && Addr(count) + 1024 <= mem.Length
    modifies mem
    ensures Rows(mem[..], ls, 0, row + 1, 0) && Rows(mem[..], ls, row + 2, count + 1, -1)
  {
    hide Holds;
    for i := count downto row + 1
      invariant Rows(mem[..], ls, 0, i, 0) && Rows(mem[..], ls, i + 1, count + 1, -1)
    {
      ghost var m := mem[..];
      assert HoldsLine(m, ls, i, 0);
      CopyRow(mem, i + 1, i);
      HoldsInCopy(m, mem[..], i + 1, i, ls[i]);
      RowsElsewhere(m, mem[..], ls, 0, i, 0, i + 1);
      RowsElsewhere(m, mem[..], ls, i + 2, count + 1, -1, i + 1);
      RowsExtendDown(mem[..], ls, i + 2, count + 1, -1);
    }
  }

  /** The loop of joining two lines: the rows below move one up, the first one first. */
  method ShiftRowsUp(mem: array<char>, ghost ls: seq<string>, row: nat, count: nat)
    requires Rows(mem[..], ls, 0, row, 0) && Rows(mem[..], ls, row + 1, count, 0)
    requires count == |ls| && row < count && Addr(count) <= mem.Length
    modifies mem
    ensures Rows(mem[..], ls, 0, row, 0) && Rows(mem[..], ls, row, count - 1, 1)
  {
    hide Holds;
    for i := row to count - 1
      invariant Rows(mem[..], ls, 0, row, 0) && Rows(mem[..], ls, row, i, 1) && Rows(mem[..], ls, i + 1, count, 0)
    {
      ghost var m := mem[..];
      assert HoldsLine(m, ls, i + 1, 0);
      CopyRow(mem, i, i + 1);
      HoldsInCopy(m, mem[..], i, i + 1, ls[i + 1]);
      RowsElsewhere(m, mem[..], ls, 0, row, 0, i);
      RowsElsewhere(m, mem[..], ls, row, i, 1, i);
      RowsElsewhere(m, mem[..], ls, i + 2, count, 0, i);
      RowsExtendUp(mem[..], ls, row, i, 1);
    }
  }

  /** The memcpy of the tail of a line to the row below, and the NUL that cuts the line. */
  method SplitRow(mem: array<char>, row: nat, col: nat, len: nat, ghost s: string)
    requires Holds(mem[..], row, s) && col <= len == |s| && Addr(row + 1) + 1024 <= mem.Length
    modifies mem
    ensures Holds(mem[..], row, s[..col]) && Holds(mem[..], row + 1, s[col..])
    ensures forall k :: 0 <= k < mem.Length && !(Addr(row) <= k < Addr(row) + 2048) ==> mem[k] == old(mem[k])
  {
    hide Holds, Moved;
    ghost var m := mem[..];
    RowEnds(m, row, s);
    Memcpy(mem, Addr(row + 1), Addr(row) + col, len - col + 1);
    ghost var copied := mem[..];
    mem[Addr(row) + col] := '\0';
    assert mem[..] == copied[Addr(row) + col := '\0'];
    SplitHolds(m, mem[..], row, col, s);
  }

  lemma RowEnds(m: seq<char>, row: nat, s: string)
    requires Holds(m, row, s)
    ensures Addr(row) + |s| + 1 <= Addr(row + 1) && |s| < 1024
  {
  }

  lemma SplitHolds(m: seq<char>, m': seq<char>, row: nat, col: nat, s: string)
    requires Holds(m, row, s) && col <= |s| && Addr(row + 1) + 1024 <= |m|
    requires m' == Moved(m, Addr(row + 1), Addr(row) + col, |s| - col + 1)[Addr(row) + col := '\0']
    ensures Holds(m', row, s[..col]) && Holds(m', row + 1, s[col..])
    ensures forall k :: 0 <= k < |m| && !(Addr(row) <= k < Addr(row) + 2048) ==> m'[k] == m[k]
  {
    var a, b, t := Addr(row), Addr(row + 1), s[col..];
    forall k | 0 <= k < |t| ensures m'[b + k] == t[k] {
      assert m'[b + k] == m[a + (col + k)];
    }
    assert m'[b + |t|] == m[a + |s|];
    forall k | 0 <= k < col ensures m'[a + k] == s[..col][k] { assert m'[a + k] == m[a + k]; }
  }

  /** kernel/generic.c's strncat on rows: at most `n` characters of one row are put behind the
      string of another. */
  method AppendRow(mem: array<char>, dst: nat, src: nat, n: nat, ghost p: string, ghost s: string)
    requires Holds(mem[..], dst, p) && Holds(mem[..], src, s) && dst != src && |p| + n < 1024
    modifies mem
    ensures Holds(mem[..], dst, p + if |s| <= n then s else s[..n])
    ensures OnlyRow(old(mem[..]), mem[..], dst)
  {
    hide Holds, Addr;
    var d := RowLength(mem, dst, p);
    ghost var m := mem[..];
    RowsApart(m, dst, p, src, s, n);
    var i := AppendString(mem, Addr(dst) + d, Addr(src), n, s);
    assert s[..i] == if |s| <= n then s else s[..n];
    AppendHolds(m, mem[..], dst, p, s[..i]);
  }

  /** The string at an address. */
  ghost predicate Spelled(m: seq<char>, a: nat, s: string) {
    a + |s| < |m| && '\0' !in s && m[a + |s|] == '\0' && forall k :: 0 <= k < |s| ==> m[a + k] == s[k]
  }

  lemma RowsApart(m: seq<char>, dst: nat, p: string, src: nat, s: string, n: nat)
    requires Holds(m, dst, p) && Holds(m, src, s) && dst != src && |p| + n < 1024
    ensures Spelled(m, Addr(src), s) && Addr(dst) + |p| + n < |m|
    ensures Addr(dst) + |p| + n < Addr(src) || Addr(src) + |s| < Addr(dst) + |p|
  {
  }

  /** The loop of strncat and the closing NUL. */
  method AppendString(mem: array<char>, d: nat, a: nat, n: nat, ghost s: string) returns (i: nat)
    requires Spelled(mem[..], a, s) && d + n < mem.Length && (d + n < a || a + |s| < d)
    modifies mem
    ensures i == if |s| <= n then |s| else n
    ensures forall k :: 0 <= k < mem.Length && !(d <= k <= d + i) ==> mem[k] == old(mem[k])
    ensures (forall k :: 0 <= k < i ==> mem[d + k] == s[k]) && mem[d + i] == '\0'
  {
    i := 0;
    ghost var m := mem[..];
    while i < n && mem[a + i] != '\0'
      invariant i <= n && i <= |s| && |m| == mem.Length
      invariant forall k :: 0 <= k < mem.Length && !(d <= k < d + i) ==> mem[k] == m[k]
      invariant forall k :: 0 <= k < i ==> mem[d + k] == s[k]
    {
      assert mem[a + i] == m[a + i];
      mem[d + i] := mem[a + i];
      i := i + 1;
    }
    assert mem[a + i] == m[a + i];
    assert i < |s| ==> m[a + i] == s[i] && s[i] in s;
    mem[d + i] := '\0';
  }

  lemma AppendHolds(m: seq<char>, m': seq<char>, dst: nat, p: string, s: string)
    requires Holds(m, dst, p) && |p| + |s| < 1024 && '\0' !in s && |m'| == |m|
    requires var d := Addr(dst) + |p|;
      && (forall k :: 0 <= k < |m| && !(d <= k <= d + |s|) ==> m'[k] == m[k])
      && (forall k :: 0 <= k < |s| ==> m'[d + k] == s[k])
      && m'[d + |s|] == '\0'
    ensures Holds(m', dst, p + s) && OnlyRow(m, m', dst)
  {
    var t, a := p + s, Addr(dst);
    forall k | 0 <= k < |t| ensures m'[a + k] == t[k] {
      if k >= |p| {
        assert t[k] == s[k - |p|] && m'[a + |p| + (k - |p|)] == s[k - |p|];
      } else {
        assert m[a + k] == p[k];
      }
    }
    assert '\0' !in t;
    assert m'[a + |t|] == '\0';
  }

  // ------------------------------------------------------------------ lines

  /** Everything edit_insert_char does to memory for Enter. */
  method BreakRow(mem: array<char>, ghost ls: seq<string>, row: nat, col: nat, len: nat, count: nat)
    requires Text(mem[..], ls) && count == |ls| && row < count && len == |ls[row]| && col <= len
    requires Addr(count) + 1024 <= mem.Length
    modifies mem
    ensures Text(mem[..], ls[..row] + [ls[row][..col], ls[row][col..]] + ls[row + 1..])
  {
    hide Holds;
    assert Rows(mem[..], ls, 0, count, 0);
    ShiftRowsDown(mem, ls, row, count);
    ghost var m := mem[..];
    assert HoldsLine(m, ls, row, 0);
    SplitRow(mem, row, col, len, ls[row]);
    RowsBeside(m, mem[..], ls, 0, row, 0, row, 2);
    RowsBeside(m, mem[..], ls, row + 2, count + 1, -1, row, 2);
    ghost var mid := [ls[row][..col], ls[row][col..]];
    assert HoldsNew(mem[..], row, mid, 0) && HoldsNew(mem[..], row, mid, 1);
    TextFromRows(mem[..], ls, row, mid, row + 1);
  }

  lemma RowsBeside(m: seq<char>, m': seq<char>, ls: seq<string>, lo: nat, hi: nat, shift: int, i: nat, n: nat)
    requires Rows(m, ls, lo, hi, shift) && |m'| == |m| && (hi <= i || i + n <= lo)
    requires forall k :: 0 <= k < |m| && !(Addr(i) <= k < Addr(i) + 1024 * n) ==> m'[k] == m[k]
    ensures Rows(m', ls, lo, hi, shift)
  {
    forall j | lo <= j < hi ensures HoldsLine(m', ls, j, shift) {
      assert HoldsLine(m, ls, j, shift);
      HoldsStill(m, m', j, ls[j + shift]);
    }
  }

  ghost predicate HoldsNew(m: seq<char>, row: nat, mid: seq<string>, k: nat) {
    k < |mid| && Holds(m, row + k, mid[k])
  }

  /** Lines `..row`, then the new lines `mid`, then lines `from..`. */
  lemma TextFromRows(m: seq<char>, ls: seq<string>, row: nat, mid: seq<string>, from: nat)
    requires row <= from <= |ls|
    requires Rows(m, ls, 0, row, 0)
    requires forall k :: 0 <= k < |mid| ==> HoldsNew(m, row, mid, k)
    requires Rows(m, ls, row + |mid|, |ls| - from + row + |mid|, from - row - |mid|)
    ensures Text(m, ls[..row] + mid + ls[from..])
  {
    hide Holds;
    var t := ls[..row] + mid + ls[from..];
    forall j | 0 <= j < |t| ensures Holds(m, j, t[j]) {
      if j < row {
        assert HoldsLine(m, ls, j, 0);
      } else if j < row + |mid| {
        assert HoldsNew(m, row, mid, j - row);
      } else {
        assert HoldsLine(m, ls, j, from - row - |mid|);
      }
    }
  }

  /** Everything edit_delete_char does to memory at the start of a line. */
  method JoinRows(mem: array<char>, ghost ls: seq<string>, row: nat, count: nat, pl: nat)
    requires Text(mem[..], ls) && count == |ls| && 0 < row < count && Addr(count) <= mem.Length
    requires pl == |ls[row - 1]| < 1024
    modifies mem
    ensures Text(mem[..], ls[..row - 1] + [Joined(ls[row - 1], ls[row])] + ls[row + 1..])
  {
    hide Holds;
    hide Joined;
    ghost var m, p, s := mem[..], ls[row - 1], ls[row];
    assert Rows(m, ls, 0, count, 0) && Holds(m, row - 1, p) && Holds(m, row, s);
    AppendRow(mem, row - 1, row, 1023 - pl, p, s);
    AppendIsJoined(p, s);
    ghost var m1 := mem[..];
    RowsElsewhere(m, m1, ls, 0, row - 1, 0, row - 1);
    RowsElsewhere(m, m1, ls, row, count, 0, row - 1);
    ghost var ls1 := ls[row - 1 := Joined(p, s)];
    assert Rows(m1, ls1, 0, row, 0) && Rows(m1, ls1, row + 1, count, 0) by { RowsWithLine(m1, ls, row, count, Joined(p, s)); }
    ShiftRowsUp(mem, ls1, row, count);
    TextFromRows(mem[..], ls1, row, [], row + 1);
    assert ls1[..row] + [] + ls1[row + 1..] == ls[..row - 1] + [Joined(p, s)] + ls[row + 1..];
  }

  lemma AppendIsJoined(p: string, s: string)
    requires |p| < 1024
    ensures p + (if |s| <= 1023 - |p| then s else s[..1023 - |p|]) == Joined(p, s)
  {
  }

  lemma RowsWithLine(m: seq<char>, ls: seq<string>, row: nat, count: nat, s: string)
    requires 0 < row < count == |ls| && Rows(m, ls, 0, row - 1, 0) && Rows(m, ls, row, count, 0) && Holds(m, row - 1, s)
    ensures var ls1 := ls[row - 1 := s];
      Rows(m, ls1, 0, row, 0) && Rows(m, ls1, row + 1, count, 0)
  {
    hide Holds;
    var ls1 := ls[row - 1 := s];
    forall j | 0 <= j < row ensures HoldsLine(m, ls1, j, 0) { if j < row - 1 { assert HoldsLine(m, ls, j, 0); } }
    forall j | row + 1 <= j < count ensures HoldsLine(m, ls1, j, 0) { assert HoldsLine(m, ls, j, 0); }
  }
}
