/** The page directory and the page tables as words of the kernel heap, and the flat map they
    stand for. */
module TableLayout {
  import opened Words
  import opened PageMap
  import opened KernelHeap

  /** The index of the heap word at address `a`, when the heap starts at `base`. */
  function Slot(base: nat, a: nat): nat
    requires base <= a
  {
    (a - base) / 4
  }

  /** A whole page-aligned page inside the used part of the heap. */
  predicate Block(base: nat, limit: nat, a: nat) {
    a % 4096 == 0 && base <= a && a + 4096 <= base + limit
  }

  lemma BlockSlots(base: nat, limit: nat, a: nat)
    requires base % 4 == 0 && limit <= HEAP_SIZE && Block(base, limit, a)
    ensures Slot(base, a) + 1024 <= HEAP_SIZE / 4 && 4 * Slot(base, a) == a - base && 4 * (Slot(base, a) + 1024) <= limit
  {
    Aligned4(base, a);
  }

  lemma Aligned4(base: nat, a: nat)
    requires base % 4 == 0 && a % 4096 == 0 && base <= a
    ensures 4 * ((a - base) / 4) == a - base
  {
    assert a == 4096 * (a / 4096);
    assert base == 4 * (base / 4);
    assert a - base == 4 * (1024 * (a / 4096) - base / 4);
  }

  /** Different pages share no word. */
  lemma SlotsApart(base: nat, limit: nat, a: nat, b: nat)
    requires base % 4 == 0 && limit <= HEAP_SIZE && Block(base, limit, a) && Block(base, limit, b) && a != b
    ensures Slot(base, a) + 1024 <= Slot(base, b) || Slot(base, b) + 1024 <= Slot(base, a)
  {
    BlockSlots(base, limit, a);
    BlockSlots(base, limit, b);
    PagesApart(a, b);
  }

  lemma PagesApart(a: nat, b: nat)
    requires a % 4096 == 0 && b % 4096 == 0 && a != b
    ensures a + 4096 <= b || b + 4096 <= a
  {
    assert a == 4096 * (a / 4096) && b == 4096 * (b / 4096);
  }

  /** Heap and kernel address space as the allocator leaves them. */
  ghost predicate Room(m: seq<word>, base: nat, limit: nat) {
    |m| == HEAP_SIZE / 4 && base % 4 == 0 && base + HEAP_SIZE <= WORD && limit <= HEAP_SIZE
  }

  /** Entry `i` of the directory or table at `a`. */
  function At(m: seq<word>, base: nat, a: nat, i: nat): word {
    if base <= a && Slot(base, a) + i < |m| then m[Slot(base, a) + i] else 0
  }

  lemma AtIs(m: seq<word>, base: nat, limit: nat, a: nat, i: nat)
    requires Room(m, base, limit) && Block(base, limit, a) && i < 1024
    ensures Slot(base, a) + i < |m| && At(m, base, a, i) == m[Slot(base, a) + i]
  {
    BlockSlots(base, limit, a);
  }

  /** A directory entry is empty or points, with the present and writable bits, to a page other
      than the directory. */
  ghost predicate DirOk(m: seq<word>, base: nat, limit: nat, dir: nat, d: nat) {
    var e := At(m, base, dir, d);
    e == 0 || (e >= 3 && Block(base, limit, e - 3) && e - 3 != dir)
  }

  /** Two directory entries do not share a table. */
  ghost predicate DirApart(m: seq<word>, base: nat, dir: nat, c: nat, d: nat) {
    At(m, base, dir, c) == 0 || At(m, base, dir, c) != At(m, base, dir, d)
  }

  ghost predicate Layout(m: seq<word>, base: nat, limit: nat, dir: nat) {
    && Room(m, base, limit)
    && Block(base, limit, dir)
    && (forall d :: 0 <= d < 1024 ==> DirOk(m, base, limit, dir, d))
    && (forall c, d :: 0 <= c < 1024 && 0 <= d < 1024 && c != d ==> DirApart(m, base, dir, c, d))
  }

  /** What the tables say about page `n`. */
  ghost function Entry(m: seq<word>, base: nat, dir: nat, n: nat): word {
    var e := At(m, base, dir, n / 1024);
    if e < 3 then 0 else At(m, base, e - 3, n % 1024)
  }

  ghost function Tables(m: seq<word>, base: nat, dir: nat): set<nat> {
    set d: nat | d < 1024 && At(m, base, dir, d) != 0
  }

  ghost function View(m: seq<word>, base: nat, limit: nat, dir: nat): (r: Flat)
    requires limit <= HEAP_SIZE
    ensures |r.entries| == PAGES
  {
    Flat(seq(PAGES, n requires 0 <= n < PAGES => Entry(m, base, dir, n)), Tables(m, base, dir), (HEAP_SIZE - limit) / 4096)
  }

  lemma ViewOk(m: seq<word>, base: nat, limit: nat, dir: nat)
    requires Layout(m, base, limit, dir)
    ensures Ok(View(m, base, limit, dir))
  {
    hide At;
    forall n | 0 <= n < PAGES && n / 1024 !in Tables(m, base, dir) ensures Entry(m, base, dir, n) == 0 {
    }
  }

  /** The tests and masks of the code on a directory entry. */
  lemma Present(m: seq<word>, base: nat, limit: nat, dir: nat, d: nat)
    requires Layout(m, base, limit, dir) && d < 1024
    ensures var e := At(m, base, dir, d);
      && (Bits.And(e, PAGE_PRESENT) != 0 <==> d in Tables(m, base, dir))
      && (d in Tables(m, base, dir) ==> e >= 3 && Bits.And(e, FRAME_MASK) == e - 3 && Block(base, limit, e - 3) && e - 3 != dir)
  {
    hide At, Bits.And, Bits.Or;
    assert DirOk(m, base, limit, dir, d);
    var e := At(m, base, dir, d);
    Masks(e);
    if e != 0 { Aligned4(0, e - 3); PointerSurvives(e - 3); }
  }

  // ------------------------------------------------------------------ one entry of a table

  lemma DirStays(m: seq<word>, m': seq<word>, base: nat, limit: nat, dir: nat)
    requires Layout(m, base, limit, dir) && |m'| == |m|
    requires forall i :: Slot(base, dir) <= i < Slot(base, dir) + 1024 ==> m'[i] == m[i]
    ensures Layout(m', base, limit, dir) && Tables(m', base, dir) == Tables(m, base, dir)
    ensures forall d :: 0 <= d < 1024 ==> At(m', base, dir, d) == At(m, base, dir, d)
  {
    BlockSlots(base, limit, dir);
    forall d | 0 <= d < 1024 ensures At(m', base, dir, d) == At(m, base, dir, d) { }
    DirEqual(m, m', base, limit, dir);
  }

  lemma DirEqual(m: seq<word>, m': seq<word>, base: nat, limit: nat, dir: nat)
    requires Layout(m, base, limit, dir) && |m'| == |m|
    requires forall d :: 0 <= d < 1024 ==> At(m', base, dir, d) == At(m, base, dir, d)
    ensures Layout(m', base, limit, dir) && Tables(m', base, dir) == Tables(m, base, dir)
  {
    hide At;
    forall d | 0 <= d < 1024 ensures DirOk(m', base, limit, dir, d) { assert DirOk(m, base, limit, dir, d); }
    forall c, d | 0 <= c < 1024 && 0 <= d < 1024 && c != d ensures DirApart(m', base, dir, c, d) {
      assert DirApart(m, base, dir, c, d);
    }
  }

  /** Writing one entry of one table changes the flat map at that page only. */
  lemma WriteLeaf(m: seq<word>, base: nat, limit: nat, dir: nat, n: nat, x: word, i: nat)
    requires Layout(m, base, limit, dir) && n < PAGES && n / 1024 in Tables(m, base, dir)
    requires At(m, base, dir, n / 1024) >= 3 && Block(base, limit, At(m, base, dir, n / 1024) - 3)
    requires i == Slot(base, At(m, base, dir, n / 1024) - 3) + n % 1024 < |m|
    ensures var m' := m[i := x];
      && Layout(m', base, limit, dir)
      && View(m', base, limit, dir) == View(m, base, limit, dir).(entries := View(m, base, limit, dir).entries[n := x])
  {
    hide At, Slot, Entry;
    var m' := m[i := x];
    var t := At(m, base, dir, n / 1024) - 3;
    assert DirOk(m, base, limit, dir, n / 1024);
    SlotsApart(base, limit, dir, t);
    BlockSlots(base, limit, dir);
    DirStays(m, m', base, limit, dir);
    forall k | 0 <= k < PAGES ensures Entry(m', base, dir, k) == if k == n then x else Entry(m, base, dir, k) {
      LeafElsewhere(m, base, limit, dir, n, x, i, k);
    }
    assert View(m', base, limit, dir).entries == View(m, base, limit, dir).entries[n := x];
  }

  lemma LeafElsewhere(m: seq<word>, base: nat, limit: nat, dir: nat, n: nat, x: word, i: nat, k: nat)
    requires Layout(m, base, limit, dir) && n < PAGES && At(m, base, dir, n / 1024) != 0
    requires At(m, base, dir, n / 1024) >= 3 && Block(base, limit, At(m, base, dir, n / 1024) - 3)
    requires i == Slot(base, At(m, base, dir, n / 1024) - 3) + n % 1024 < |m| && k < PAGES
    requires At(m[i := x], base, dir, k / 1024) == At(m, base, dir, k / 1024)
    ensures Entry(m[i := x], base, dir, k) == if k == n then x else Entry(m, base, dir, k)
  {
    hide Slot;
    assert DirOk(m, base, limit, dir, k / 1024);
    assert DirOk(m, base, limit, dir, n / 1024);
    var e, f := At(m, base, dir, n / 1024), At(m, base, dir, k / 1024);
    if k / 1024 == n / 1024 {
      assert k % 1024 == n % 1024 <==> k == n;
    } else if f != 0 {
      assert DirApart(m, base, dir, n / 1024, k / 1024);
      SlotsApart(base, limit, e - 3, f - 3);
    }
  }

  // ------------------------------------------------------------------ a new table

  /** `m'` has an empty table behind what was used, entered in the directory at `d`. */
  ghost predicate TableAdded(m: seq<word>, m': seq<word>, base: nat, limit: nat, dir: nat, d: nat)
    requires base <= dir
  {
    && |m'| == |m|
    && limit + 4096 <= HEAP_SIZE && (base + limit) % 4096 == 0 && base + limit + 3 < WORD
    && At(m', base, dir, d) == base + limit + 3
    && (forall i :: Slot(base, base + limit) <= i < Slot(base, base + limit) + 1024 && i < |m'| ==> m'[i] == 0)
    && (forall i :: 0 <= i < Slot(base, base + limit) && i < |m'| && i != Slot(base, dir) + d ==> m'[i] == m[i])
  }

  /** Everything that was in use, except the one directory entry, reads as before. */
  lemma OldBlocksStay(m: seq<word>, m': seq<word>, base: nat, limit: nat, dir: nat, d: nat, a: nat, i: nat)
    requires Room(m, base, limit) && Block(base, limit, dir) && Block(base, limit, a) && d < 1024 && i < 1024
    requires TableAdded(m, m', base, limit, dir, d) && (a != dir || i != d)
    ensures At(m', base, a, i) == At(m, base, a, i)
  {
    hide Block;
    BlockSlots(base, limit, a);
    BlockSlots(base, limit, dir);
    if a != dir { SlotsApart(base, limit, a, dir); }
  }

  lemma NewBlockEmpty(m: seq<word>, m': seq<word>, base: nat, limit: nat, dir: nat, d: nat, i: nat)
    requires Room(m, base, limit) && Block(base, limit, dir) && i < 1024 && limit % 4 == 0
    requires TableAdded(m, m', base, limit, dir, d)
    ensures At(m', base, base + limit, i) == 0
  {
  }

  lemma AddTable(m: seq<word>, m': seq<word>, base: nat, limit: nat, dir: nat, d: nat)
    requires Layout(m, base, limit, dir) && d < 1024 && d !in Tables(m, base, dir) && limit % 4 == 0
    requires TableAdded(m, m', base, limit, dir, d)
    ensures Layout(m', base, limit + 4096, dir)
    ensures var s, s' := View(m, base, limit, dir), View(m', base, limit + 4096, dir);
      s' == Flat(s.entries, s.tables + {d}, s.room - 1) && s.room > 0
  {
    hide At, Slot, Entry;
    AddedLayout(m, m', base, limit, dir, d);
    AddedTables(m, m', base, limit, dir, d);
    forall k | 0 <= k < PAGES ensures Entry(m', base, dir, k) == Entry(m, base, dir, k) {
      AddedEntry(m, m', base, limit, dir, d, k);
    }
    assert View(m', base, limit + 4096, dir).entries == View(m, base, limit, dir).entries;
  }

  lemma AddedLayout(m: seq<word>, m': seq<word>, base: nat, limit: nat, dir: nat, d: nat)
    requires Layout(m, base, limit, dir) && d < 1024 && d !in Tables(m, base, dir)
    requires TableAdded(m, m', base, limit, dir, d)
    ensures Layout(m', base, limit + 4096, dir)
  {
    hide At, Slot;
    var limit' := limit + 4096;
    forall c | 0 <= c < 1024 ensures DirOk(m', base, limit', dir, c) {
      assert DirOk(m, base, limit, dir, c);
      if c != d { OldBlocksStay(m, m', base, limit, dir, d, dir, c); }
    }
    forall b, c | 0 <= b < 1024 && 0 <= c < 1024 && b != c ensures DirApart(m', base, dir, b, c) {
      assert DirApart(m, base, dir, b, c) && DirOk(m, base, limit, dir, b) && DirOk(m, base, limit, dir, c);
      if b != d { OldBlocksStay(m, m', base, limit, dir, d, dir, b); }
      if c != d { OldBlocksStay(m, m', base, limit, dir, d, dir, c); }
    }
  }

  lemma AddedTables(m: seq<word>, m': seq<word>, base: nat, limit: nat, dir: nat, d: nat)
    requires Layout(m, base, limit, dir) && d < 1024
    requires TableAdded(m, m', base, limit, dir, d)
    ensures Tables(m', base, dir) == Tables(m, base, dir) + {d}
  {
    hide At, Slot;
    forall c: nat | c < 1024 && c != d ensures At(m', base, dir, c) == At(m, base, dir, c) {
      OldBlocksStay(m, m', base, limit, dir, d, dir, c);
    }
  }

  lemma AddedEntry(m: seq<word>, m': seq<word>, base: nat, limit: nat, dir: nat, d: nat, k: nat)
    requires Layout(m, base, limit, dir) && d < 1024 && d !in Tables(m, base, dir) && k < PAGES && limit % 4 == 0
    requires TableAdded(m, m', base, limit, dir, d)
    ensures Entry(m', base, dir, k) == Entry(m, base, dir, k)
  {
    hide At, Slot;
    var c := k / 1024;
    assert DirOk(m, base, limit, dir, c);
    if c == d {
      NewBlockEmpty(m, m', base, limit, dir, d, k % 1024);
    } else {
      OldBlocksStay(m, m', base, limit, dir, d, dir, c);
      var e := At(m, base, dir, c);
      if e != 0 { OldBlocksStay(m, m', base, limit, dir, d, e - 3, k % 1024); }
    }
  }

  /** A cleared directory maps nothing. */
  lemma EmptyDirectory(m: seq<word>, base: nat, limit: nat, dir: nat)
    requires Room(m, base, limit) && Block(base, limit, dir)
    requires forall i :: Slot(base, dir) <= i < Slot(base, dir) + 1024 && i < |m| ==> m[i] == 0
    ensures Layout(m, base, limit, dir)
    ensures View(m, base, limit, dir) == Flat(seq(PAGES, n => 0), {}, (HEAP_SIZE - limit) / 4096)
  {
    forall d: nat | d < 1024 ensures At(m, base, dir, d) == 0 { }
    EmptyEntries(m, base, limit, dir);
  }

  lemma EmptyEntries(m: seq<word>, base: nat, limit: nat, dir: nat)
    requires Room(m, base, limit) && Block(base, limit, dir)
    requires forall d: nat :: d < 1024 ==> At(m, base, dir, d) == 0
    ensures Layout(m, base, limit, dir)
    ensures View(m, base, limit, dir) == Flat(seq(PAGES, n => 0), {}, (HEAP_SIZE - limit) / 4096)
  {
    hide At;
    assert Tables(m, base, dir) == {};
    forall k | 0 <= k < PAGES ensures Entry(m, base, dir, k) == 0 { assert k / 1024 < 1024; }
    assert View(m, base, limit, dir).entries == seq(PAGES, n => 0);
  }
}
