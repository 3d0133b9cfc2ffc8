/** The flat view of paging: which word each page's entry holds, which parts of the address
    space have a table, and how many tables the heap still has room for. */
module PageMap {
  import opened Words
  import opened Bits
  import opened Division

  const PAGE_SIZE: nat := 4096
  const PAGES: nat := 0x10_0000
  const PAGE_PRESENT: nat := 1
  const PAGE_WRITABLE: nat := 2
  const FRAME_MASK: nat := 0xFFFF_F000
  const OFFSET_MASK: nat := 0xFFF

  // ------------------------------------------------------------------ addresses and entries

  function Page(v: word): (n: nat)
    ensures n < PAGES
  {
    v / 4096
  }

  /** `(phys & ~0xFFF) | (flags & 0xFFF)` */
  function Pack(phys: word, flags: word): nat {
    Or(And(phys, FRAME_MASK), And(flags, OFFSET_MASK))
  }

  lemma Masks(a: word)
    ensures And(a, FRAME_MASK) == a - a % 4096
    ensures And(a, OFFSET_MASK) == a % 4096
    ensures And(a, PAGE_PRESENT) == a % 2
  {
    hide And, Pow2;
    Powers();
    assert Pow2(1) == 2 by { PowerOne(); }
    AndHigh(a, 12, 32);
    AndLow(a, 12);
    AndLow(a, 1);
  }

  lemma PowerOne()
    ensures Pow2(1) == 2
  {
  }

  /** Joining a page-aligned word and an offset inside a page adds them. */
  lemma Joined(a: nat, b: nat)
    requires a % 4096 == 0 && b < 4096
    ensures Or(a, b) == a + b
  {
    hide Or, Pow2;
    Powers();
    OrApart(a, b, 12);
  }

  lemma Halves(phys: word, f: nat)
    requires f < 4096
    ensures var p := phys - phys % 4096;
      p % 4096 == 0 && (p + f) % 4096 == f && p + f < WORD
  {
    var q := phys / 4096;
    assert phys == 4096 * q + phys % 4096;
    DivModUnique(4096 * q, 4096, q, 0);
    DivModUnique(4096 * q + f, 4096, q, f);
  }

  /** Both halves come out again as they went in. */
  lemma PackParts(phys: word, flags: word)
    ensures Pack(phys, flags) == phys - phys % 4096 + flags % 4096 < WORD
    ensures And(Pack(phys, flags), FRAME_MASK) == And(phys, FRAME_MASK)
    ensures And(Pack(phys, flags), OFFSET_MASK) == And(flags, OFFSET_MASK)
  {
    hide And, Or, Pow2;
    Masks(phys);
    Masks(flags);
    var p, f := phys - phys % 4096, flags % 4096;
    Halves(phys, f);
    Joined(p, f);
    assert Pack(phys, flags) == p + f;
    Masks(p + f);
  }

  /** A table pointer comes out of a directory entry as it went in if and only if it is
      page-aligned. */
  lemma PointerSurvives(t: word)
    requires t % 4 == 0
    ensures Or(Or(t, PAGE_PRESENT), PAGE_WRITABLE) == t + 3 < WORD
    ensures And(t + 3, FRAME_MASK) == t <==> t % 4096 == 0
    ensures And(t + 3, PAGE_PRESENT) == 1
  {
    hide And, Or, Pow2;
    Powers();
    OrApart(t, 1, 2);
    OrDigit(t);
    Masks(t + 3);
    LowDigits(t);
  }

  lemma LowDigits(t: nat)
    requires t % 4 == 0
    ensures (t + 3) % 4096 == 3 <==> t % 4096 == 0
    ensures (t + 3) % 2 == 1
  {
    var k := t / 4;
    var q, j := k / 1024, k % 1024;
    DivModUnique(t, 4096, q, 4 * j);
    DivModUnique(t + 3, 4096, q, 4 * j + 3);
    DivModUnique(t + 3, 2, 2 * k + 1, 1);
  }

  lemma OrDigit(t: nat)
    requires t % 4 == 0
    ensures Or(t + 1, 2) == t + 3
  {
    assert (t + 1) / 2 == t / 2 && (t + 1) % 2 == 1;
    assert t / 2 % 2 == 0;
    OrZero(t / 2 / 2);
    assert Or(t / 2, 1) == 2 * Or(t / 2 / 2, 0) + 1;
    assert Or(t + 1, 2) == 2 * Or((t + 1) / 2, 1) + 1;
  }

  // ------------------------------------------------------------------ the flat map

  datatype Flat = Flat(entries: seq<nat>, tables: set<nat>, room: nat)

  ghost predicate Ok(s: Flat) {
    && |s.entries| == PAGES
    && (forall n :: 0 <= n < PAGES ==> s.entries[n] < WORD)
    && (forall n :: 0 <= n < PAGES && n / 1024 !in s.tables ==> s.entries[n] == 0)
    && (forall d :: d in s.tables ==> d < 1024)
  }

  /** vmm_get_phys: the present bit of the entry plays no part. */
  function GetPhys(s: Flat, v: word): (r: nat)
    requires |s.entries| == PAGES
  {
    if Page(v) / 1024 !in s.tables then 0
    else Or(And(s.entries[Page(v)], FRAME_MASK), And(v, OFFSET_MASK))
  }

  /** vmm_map can only fail for want of a table. */
  predicate Mappable(s: Flat, v: word) {
    Page(v) / 1024 in s.tables || s.room > 0
  }

  function Map(s: Flat, v: word, phys: word, flags: word): (r: Flat)
    requires |s.entries| == PAGES
    ensures |r.entries| == PAGES
  {
    var d := Page(v) / 1024;
    if !Mappable(s, v) then s
    else Flat(s.entries[Page(v) := Pack(phys, flags)], s.tables + {d}, if d in s.tables then s.room else s.room - 1)
  }

  function Unmap(s: Flat, v: word): (r: Flat)
    requires |s.entries| == PAGES
    ensures |r.entries| == PAGES
  {
    if Page(v) / 1024 in s.tables then s.(entries := s.entries[Page(v) := 0]) else s
  }

  /** Nothing mapped, and no tables yet. */
  ghost function Nothing(room: nat): (r: Flat)
    ensures Ok(r)
  {
    Flat(seq(PAGES, n => 0), {}, room)
  }

  lemma MapOk(s: Flat, v: word, phys: word, flags: word)
    requires Ok(s)
    ensures Ok(Map(s, v, phys, flags))
  {
    hide And, Or;
    PackParts(phys, flags);
  }

  lemma UnmapOk(s: Flat, v: word)
    requires Ok(s)
    ensures Ok(Unmap(s, v))
  {
    hide And, Or;
  }

  /** What translation gives, in numbers. */
  lemma GetPhysIs(s: Flat, v: word)
    requires Ok(s)
    ensures GetPhys(s, v) == if Page(v) / 1024 in s.tables then s.entries[Page(v)] - s.entries[Page(v)] % 4096 + v % 4096 else 0
  {
    hide And, Or;
    var e := s.entries[Page(v)];
    Masks(e);
    Masks(v);
    Joined(e - e % 4096, v % 4096);
  }

  // ------------------------------------------------------------------ runs

  datatype Op = MapOp(virt: word, phys: word, flags: word) | UnmapOp(virt: word)

  function Step(s: Flat, op: Op): (r: Flat)
    requires |s.entries| == PAGES
    ensures |r.entries| == PAGES
  {
    match op
    case MapOp(v, p, f) => Map(s, v, p, f)
    case UnmapOp(v) => Unmap(s, v)
  }

  function Run(s: Flat, ops: seq<Op>): (r: Flat)
    requires |s.entries| == PAGES
    ensures |r.entries| == PAGES
    decreases |ops|
  {
    if ops == [] then s else Run(Step(s, ops[0]), ops[1..])
  }

  lemma {:induction false} RunOk(s: Flat, ops: seq<Op>)
    requires Ok(s)
    ensures Ok(Run(s, ops))
    decreases |ops|
  {
    hide And, Or;
    if ops != [] {
      match ops[0] {
        case MapOp(v, p, f) => MapOk(s, v, p, f);
        case UnmapOp(v) => UnmapOk(s, v);
      }
      RunOk(Step(s, ops[0]), ops[1..]);
    }
  }

  lemma {:induction false} RunSplit(s: Flat, a: seq<Op>, b: seq<Op>)
    requires |s.entries| == PAGES
    ensures Run(s, a + b) == Run(Run(s, a), b)
    decreases |a|
  {
    hide And, Or;
    if a == [] {
      assert a + b == b;
    } else {
      RunSplit(Step(s, a[0]), a[1..], b);
      assert (a + b)[1..] == a[1..] + b;
    }
  }

  lemma RunOne(s: Flat, op: Op)
    requires |s.entries| == PAGES
    ensures Run(s, [op]) == Step(s, op)
  {
  }

  /** Tables are never given back: none disappears, and every one that is added uses up one of
      those the heap had room for. */
  lemma {:induction false} TablesOnlyGrow(s: Flat, ops: seq<Op>)
    requires |s.entries| == PAGES
    ensures s.tables <= Run(s, ops).tables
    ensures |Run(s, ops).tables| + Run(s, ops).room == |s.tables| + s.room
    decreases |ops|
  {
    hide And, Or;
    if ops != [] {
      var d := Page(ops[0].virt) / 1024;
      assert d !in s.tables ==> |s.tables + {d}| == |s.tables| + 1;
      assert d in s.tables ==> s.tables + {d} == s.tables;
      TablesOnlyGrow(Step(s, ops[0]), ops[1..]);
    }
  }

  ghost predicate Untouched(ops: seq<Op>, n: nat) {
    forall i :: 0 <= i < |ops| ==> Page(ops[i].virt) != n
  }

  lemma {:induction false} EntryStays(s: Flat, ops: seq<Op>, n: nat)
    requires |s.entries| == PAGES && n < PAGES && Untouched(ops, n)
    ensures Run(s, ops).entries[n] == s.entries[n]
    decreases |ops|
  {
    hide And, Or;
    if ops != [] {
      assert Page(ops[0].virt) != n;
      forall i | 0 <= i < |ops[1..]| ensures Page(ops[1..][i].virt) != n { assert ops[1..][i] == ops[i + 1]; }
      EntryStays(Step(s, ops[0]), ops[1..], n);
    }
  }

  /** Page-aligned addresses translate as before when the run never touches their page. */
  lemma OthersUnchanged(s: Flat, ops: seq<Op>, v: word)
    requires Ok(s) && Untouched(ops, Page(v)) && v % 4096 == 0
    ensures GetPhys(Run(s, ops), v) == GetPhys(s, v)
  {
    hide And, Or;
    RunOk(s, ops);
    EntryStays(s, ops, Page(v));
    TablesOnlyGrow(s, ops);
    GetPhysIs(s, v);
    GetPhysIs(Run(s, ops), v);
  }

  /** The parts of the address space, of 1024 pages each, in which `ops` maps something. */
  ghost function Parts(ops: seq<Op>): set<nat>
    decreases |ops|
  {
    if ops == [] then {}
    else (if ops[0].MapOp? then {Page(ops[0].virt) / 1024} else {}) + Parts(ops[1..])
  }

  /** Something is mapped in part `d` before the tables for other parts have used up the room. */
  ghost predicate GetsTable(s: Flat, ops: seq<Op>, d: nat) {
    exists i :: 0 <= i < |ops| && MapsIn(ops[i], d) && |Parts(ops[..i]) - s.tables - {d}| < s.room
  }

  predicate MapsIn(op: Op, d: nat) {
    op.MapOp? && Page(op.virt) / 1024 == d
  }

  /** A run creates the table of a part that lacks one exactly then. */
  lemma {:induction false} TableIffRoom(s: Flat, ops: seq<Op>, d: nat)
    requires |s.entries| == PAGES && d !in s.tables
    ensures d in Run(s, ops).tables <==> GetsTable(s, ops, d)
    decreases |ops|
  {
    hide And, Or, Page;
    if ops != [] {
      var t := Step(s, ops[0]);
      if MapsIn(ops[0], d) && s.room > 0 {
        TablesOnlyGrow(t, ops[1..]);
        assert Parts(ops[..0]) - s.tables - {d} == {};
      } else {
        TableIffRoom(t, ops[1..], d);
        forall i | 0 < i < |ops|
          ensures |Parts(ops[..i]) - s.tables - {d}| < s.room <==> |Parts(ops[1..][..i - 1]) - t.tables - {d}| < t.room
        {
          OneOpFewer(s, ops, d, i);
        }
        GetsTableLater(s, t, ops, d);
      }
    }
  }

  lemma StepTables(s: Flat, op: Op)
    requires |s.entries| == PAGES
    ensures var t, e := Step(s, op), Page(op.virt) / 1024;
      if op.MapOp? && e !in s.tables && s.room > 0 then t.tables == s.tables + {e} && t.room == s.room - 1
      else t.tables == s.tables && t.room == s.room
  {
    hide Pack;
  }

  lemma {:induction false} OneOpFewer(s: Flat, ops: seq<Op>, d: nat, i: nat)
    requires |s.entries| == PAGES && d !in s.tables && 0 < i < |ops| && !(MapsIn(ops[0], d) && s.room > 0)
    ensures var t := Step(s, ops[0]);
      |Parts(ops[..i]) - s.tables - {d}| < s.room <==> |Parts(ops[1..][..i - 1]) - t.tables - {d}| < t.room
  {
    hide Step, Page, Parts;
    StepTables(s, ops[0]);
    PartsOfPrefix(ops, i);
    var t, e := Step(s, ops[0]), Page(ops[0].virt) / 1024;
    var parts := Parts(ops[1..][..i - 1]);
    var before, after := Parts(ops[..i]) - s.tables - {d}, parts - t.tables - {d};
    if ops[0].MapOp? && e !in s.tables && s.room > 0 {
      assert before == after + {e};
    } else if s.room > 0 {
      assert before == after;
    }
  }

  lemma PartsOfPrefix(ops: seq<Op>, i: nat)
    requires 0 < i < |ops|
    ensures Parts(ops[..i]) == (if ops[0].MapOp? then {Page(ops[0].virt) / 1024} else {}) + Parts(ops[1..][..i - 1])
  {
    assert ops[..i][1..] == ops[1..][..i - 1];
  }

  lemma GetsTableLater(s: Flat, t: Flat, ops: seq<Op>, d: nat)
    requires ops != [] && !(MapsIn(ops[0], d) && s.room > 0)
    requires forall i :: 0 < i < |ops| ==>
      (|Parts(ops[..i]) - s.tables - {d}| < s.room <==> |Parts(ops[1..][..i - 1]) - t.tables - {d}| < t.room)
    ensures GetsTable(s, ops, d) <==> GetsTable(t, ops[1..], d)
  {
    hide Parts;
    if GetsTable(s, ops, d) {
      var i :| 0 <= i < |ops| && MapsIn(ops[i], d) && |Parts(ops[..i]) - s.tables - {d}| < s.room;
      assert ops[1..][i - 1] == ops[i];
    }
    if GetsTable(t, ops[1..], d) {
      var i :| 0 <= i < |ops[1..]| && MapsIn(ops[1..][i], d) && |Parts(ops[1..][..i]) - t.tables - {d}| < t.room;
      assert ops[i + 1] == ops[1..][i];
    }
  }

  /** All other addresses do so if and only if their part of the address space has its table
      already, or nothing is mapped in it while there is still room for one. */
  lemma OthersUnchangedIff(s: Flat, ops: seq<Op>, v: word)
    requires Ok(s) && Untouched(ops, Page(v)) && v % 4096 != 0
    ensures GetPhys(Run(s, ops), v) == GetPhys(s, v) <==>
      Page(v) / 1024 in s.tables || !GetsTable(s, ops, Page(v) / 1024)
  {
    hide And, Or, GetsTable;
    RunOk(s, ops);
    EntryStays(s, ops, Page(v));
    TablesOnlyGrow(s, ops);
    if Page(v) / 1024 !in s.tables { TableIffRoom(s, ops, Page(v) / 1024); }
    GetPhysIs(s, v);
    GetPhysIs(Run(s, ops), v);
  }

  /** The last map of a page decides: wherever it stands in the run, if it found a table or
      room for one, every address of the page goes to the frame it named. */
  lemma LastMapWins(s: Flat, before: seq<Op>, v: word, phys: word, flags: word, after: seq<Op>, v': word)
    requires Ok(s) && Mappable(Run(s, before), v) && Untouched(after, Page(v)) && Page(v') == Page(v)
    ensures GetPhys(Run(s, before + [MapOp(v, phys, flags)] + after), v') == phys - phys % 4096 + v' % 4096
  {
    hide And, Or, Run, Pack;
    var a := Run(s, before);
    var b := Map(a, v, phys, flags);
    RunSplit(s, before + [MapOp(v, phys, flags)], after);
    RunSplit(s, before, [MapOp(v, phys, flags)]);
    RunOne(a, MapOp(v, phys, flags));
    RunOk(s, before);
    MapOk(a, v, phys, flags);
    RunOk(b, after);
    EntryStays(b, after, Page(v));
    TablesOnlyGrow(b, after);
    GetPhysIs(Run(b, after), v');
    PackParts(phys, flags);
  }

  /** It decides about the flags too: until the page is touched again its entry names that frame
      and carries exactly the flags the caller passed, present or not, read-only or not. */
  lemma EntryAfterMap(s: Flat, before: seq<Op>, v: word, phys: word, flags: word, after: seq<Op>)
    requires Ok(s) && Mappable(Run(s, before), v) && Untouched(after, Page(v))
    ensures var e := Run(s, before + [MapOp(v, phys, flags)] + after).entries[Page(v)];
      && e - e % 4096 == phys - phys % 4096 && e % 4096 == flags % 4096
      && (And(e, PAGE_PRESENT) != 0 <==> flags % 2 == 1)
  {
    hide And, Or, Run, Pack;
    var a := Run(s, before);
    var b := Map(a, v, phys, flags);
    RunSplit(s, before + [MapOp(v, phys, flags)], after);
    RunSplit(s, before, [MapOp(v, phys, flags)]);
    RunOne(a, MapOp(v, phys, flags));
    EntryStays(b, after, Page(v));
    PackParts(phys, flags);
    FlagBits(phys, flags);
  }

  lemma FlagBits(phys: word, flags: word)
    ensures var e := Pack(phys, flags);
      && e < WORD && e - e % 4096 == phys - phys % 4096 && e % 4096 == flags % 4096
      && (And(e, PAGE_PRESENT) != 0 <==> flags % 2 == 1)
  {
    hide And, Or, Pow2, Pack;
    PackParts(phys, flags);
    Halves(phys, flags % 4096);
    var e := Pack(phys, flags);
    assert e % 4096 == flags % 4096;
    Masks(e);
    LowBit(e);
    LowBit(flags);
  }

  lemma LowBit(a: nat)
    ensures a % 2 == a % 4096 % 2
  {
    var q, r := a / 4096, a % 4096;
    assert a == 2 * (2048 * q) + r;
  }

  /** After an unmap the entry is empty until the page is mapped again. */
  lemma EntryAfterUnmap(s: Flat, before: seq<Op>, v: word, after: seq<Op>)
    requires Ok(s) && Untouched(after, Page(v))
    ensures Run(s, before + [UnmapOp(v)] + after).entries[Page(v)] == 0
  {
    hide And, Or, Run;
    var a := Run(s, before);
    RunSplit(s, before + [UnmapOp(v)], after);
    RunSplit(s, before, [UnmapOp(v)]);
    RunOne(a, UnmapOp(v));
    RunOk(s, before);
    EntryStays(Unmap(a, v), after, Page(v));
  }

  /** After an unmap the page translates to frame 0: its first address to 0, like an address
      that was never mapped, the others to their offset as soon as there is a table. */
  lemma LastUnmapWins(s: Flat, before: seq<Op>, v: word, after: seq<Op>, v': word)
    requires Ok(s) && Untouched(after, Page(v)) && Page(v') == Page(v)
    ensures var r := Run(s, before + [UnmapOp(v)] + after);
      GetPhys(r, v') == if Page(v) / 1024 in r.tables then v' % 4096 else 0
  {
    hide And, Or, Run;
    var a := Run(s, before);
    var b := Unmap(a, v);
    RunSplit(s, before + [UnmapOp(v)], after);
    RunSplit(s, before, [UnmapOp(v)]);
    RunOne(a, UnmapOp(v));
    RunOk(s, before);
    UnmapOk(a, v);
    RunOk(b, after);
    EntryStays(b, after, Page(v));
    GetPhysIs(Run(b, after), v');
  }

  // ------------------------------------------------------------------ vmm_is_mapped

  predicate IsMapped(s: Flat, v: word)
    requires |s.entries| == PAGES
  {
    GetPhys(s, v) != 0
  }

  /** It answers yes after a map unless the address goes to address 0. */
  lemma MappedAfterMap(s: Flat, v: word, phys: word, flags: word)
    requires Ok(s) && Mappable(s, v)
    ensures IsMapped(Map(s, v, phys, flags), v) <==> phys >= 4096 || v % 4096 != 0
  {
    hide And, Or;
    MapOk(s, v, phys, flags);
    GetPhysIs(Map(s, v, phys, flags), v);
    PackParts(phys, flags);
  }

  /** It answers no after an unmap only for the first address of a page, or where there never
      was a table. */
  lemma MappedAfterUnmap(s: Flat, v: word)
    requires Ok(s)
    ensures !IsMapped(Unmap(s, v), v) <==> Page(v) / 1024 !in s.tables || v % 4096 == 0
  {
    hide And, Or;
    UnmapOk(s, v);
    GetPhysIs(Unmap(s, v), v);
  }

  // ------------------------------------------------------------------ vmm_init

  /** The maps of the first `n` pages to themselves. */
  function IdentityOps(n: nat): (r: seq<Op>)
    requires n <= 1024
    ensures |r| == n
  {
    if n == 0 then []
    else IdentityOps(n - 1) + [MapOp((n - 1) * 4096, (n - 1) * 4096, 3)]
  }

  lemma {:induction false} IdentityState(s: Flat, n: nat)
    requires n <= 1024 && Ok(s) && s.tables == {} && s.room > 0
    ensures var r := Run(s, IdentityOps(n));
      && Ok(r) && r.tables == (if n == 0 then {} else {0}) && r.room == (if n == 0 then s.room else s.room - 1)
      && forall k :: 0 <= k < n ==> r.entries[k] == Pack(k * 4096, 3)
  {
    RunOk(s, IdentityOps(n));
    if n == 0 {
      assert IdentityOps(0) == [];
    } else {
      IdentityState(s, n - 1);
      IdentityLast(s, n);
      IdentityStep(Run(s, IdentityOps(n - 1)), n);
    }
  }

  lemma IdentityLast(s: Flat, n: nat)
    requires 0 < n <= 1024 && |s.entries| == PAGES
    ensures Run(s, IdentityOps(n)) == Map(Run(s, IdentityOps(n - 1)), (n - 1) * 4096, (n - 1) * 4096, 3)
  {
    hide Map;
    RunSplit(s, IdentityOps(n - 1), [MapOp((n - 1) * 4096, (n - 1) * 4096, 3)]);
    RunOne(Run(s, IdentityOps(n - 1)), MapOp((n - 1) * 4096, (n - 1) * 4096, 3));
  }

  lemma IdentityStep(a: Flat, n: nat)
    requires 0 < n <= 1024 && Ok(a) && (if n == 1 then a.tables == {} && a.room > 0 else a.tables == {0})
    requires forall k :: 0 <= k < n - 1 ==> a.entries[k] == Pack(k * 4096, 3)
    ensures var r := Map(a, (n - 1) * 4096, (n - 1) * 4096, 3);
      && r.tables == {0} && r.room == (if n == 1 then a.room - 1 else a.room)
      && forall k :: 0 <= k < n ==> r.entries[k] == Pack(k * 4096, 3)
  {
    hide Pack;
    DivModUnique((n - 1) * 4096, 4096, n - 1, 0);
  }

  /** After initialisation every address below 4 MiB is its own physical address, and nothing
      else is mapped. */
  lemma IdentityBelow4M(s: Flat, v: word)
    requires Ok(s) && s.tables == {} && s.room > 0
    ensures GetPhys(Run(s, IdentityOps(1024)), v) == if v < 0x40_0000 then v else 0
  {
    hide IdentityOps, GetPhys, Pack, Run;
    IdentityState(s, 1024);
    var r := Run(s, IdentityOps(1024));
    GetPhysIs(r, v);
    if v < 0x40_0000 {
      assert r.entries[Page(v)] == Pack(Page(v) * 4096, 3);
      IdentityEntry(v);
    }
  }

  lemma IdentityEntry(v: word)
    ensures var e := Pack(Page(v) * 4096, 3);
      e - e % 4096 + v % 4096 == v
  {
    hide Pack;
    var n, o := v / 4096, v % 4096;
    assert v == 4096 * n + o;
    DivModUnique(4096 * n, 4096, n, 0);
    PackParts(4096 * n, 3);
    DivModUnique(4096 * n + 3, 4096, n, 3);
    SmallMod(3, 4096);
  }

  /** Without room for a table nothing is mapped at all. */
  lemma {:induction false} NoRoomNoIdentity(s: Flat, n: nat)
    requires n <= 1024 && Ok(s) && s.tables == {} && s.room == 0
    ensures Run(s, IdentityOps(n)) == s
  {
    hide And, Or;
    if n > 0 {
      NoRoomNoIdentity(s, n - 1);
      IdentityLast(s, n);
    } else {
      assert IdentityOps(0) == [];
    }
  }

  // ------------------------------------------------------------------ three surprises

  /** The flat map after vmm_init, with room in the heap for one more table. */
  ghost function AfterInit(): (r: Flat)
    ensures Ok(r) && r.tables == {0} && r.room == 1
    ensures forall v: word :: GetPhys(r, v) == if v < 0x40_0000 then v else 0
  {
    hide *;
    IdentityTables(Nothing(2), 1024);
    forall v: word ensures GetPhys(Run(Nothing(2), IdentityOps(1024)), v) == if v < 0x40_0000 then v else 0 {
      IdentityBelow4M(Nothing(2), v);
    }
    Run(Nothing(2), IdentityOps(1024))
  }

  lemma IdentityTables(s: Flat, n: nat)
    requires 0 < n <= 1024 && Ok(s) && s.tables == {} && s.room > 0
    ensures Nothing(2).tables == {} && Nothing(2).room == 2
    ensures var r := Run(s, IdentityOps(n)); Ok(r) && r.tables == {0} && r.room == s.room - 1
  {
    hide IdentityOps, Run;
    IdentityState(s, n);
  }

  /** The unmap of a page of vmm_init: vmm_is_mapped still says yes, except at its start. */
  lemma StillMapped(v: word)
    requires v < 0x40_0000 && v % 4096 != 0
    ensures IsMapped(Unmap(AfterInit(), v), v)
  {
    hide IsMapped, And, Or, AfterInit;
    MappedAfterUnmap(AfterInit(), v);
  }

  lemma StillMappedAt1001()
    ensures IsMapped(Unmap(AfterInit(), 0x1001), 0x1001)
  {
    hide *;
    StillMapped(0x1001);
  }

  /** Page 0 is mapped to itself, and vmm_is_mapped says no at its start. */
  lemma ZeroIsNotMapped()
    ensures GetPhys(AfterInit(), 0) == 0 && !IsMapped(AfterInit(), 0)
  {
    hide AfterInit, GetPhys;
  }

  /** The first map in a part of the address space changes what all other unaligned addresses of
      that part translate to, from 0 to their offset in the page. */
  lemma NeighboursAppear(v: word, phys: word, flags: word, w: word)
    requires v >= 0x40_0000 && Page(w) / 1024 == Page(v) / 1024 && Page(w) != Page(v)
    ensures GetPhys(AfterInit(), w) == 0 && GetPhys(Map(AfterInit(), v, phys, flags), w) == w % 4096
  {
    hide And, Or, AfterInit, GetPhys;
    var s := AfterInit();
    assert v / 4096 / 1024 > 0;
    assert w >= 0x40_0000;
    MapOk(s, v, phys, flags);
    EmptyPage(s, w);
    GetPhysIs(Map(s, v, phys, flags), w);
  }

  lemma EmptyPage(s: Flat, w: word)
    requires Ok(s) && Page(w) / 1024 !in s.tables
    ensures s.entries[Page(w)] == 0
  {
  }

  lemma NeighbourAppearsAt402001()
    ensures GetPhys(AfterInit(), 0x40_2001) == 0 && GetPhys(Map(AfterInit(), 0x40_1000, 0x8000, 3), 0x40_2001) == 1
  {
    hide AfterInit, GetPhys, Map;
    NeighboursAppear(0x40_1000, 0x8000, 3, 0x40_2001);
  }
}
