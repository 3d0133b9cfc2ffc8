/** kernel/vmm.c: the page directory and its tables, written in place in the kernel heap. */
module PageTables {
  import opened Options
  import opened Words
  import opened Bits
  import opened KernelHeap
  import opened PageMap
  import opened TableLayout

  /** memset of a page to zero. */
  method ClearPage(words: array<word>, at: nat)
    requires at + 1024 <= words.Length
    modifies words
    ensures forall i :: at <= i < at + 1024 ==> words[i] == 0
    ensures forall i :: 0 <= i < words.Length && !(at <= i < at + 1024) ==> words[i] == old(words[i])
  {
    for i := 0 to 1024
      invariant forall k :: at <= k < at + i ==> words[k] == 0
      invariant forall k :: 0 <= k < words.Length && !(at <= k < at + i) ==> words[k] == old(words[k])
    {
      words[at + i] := 0;
    }
  }

  class Vmm {
    /** The address of the heap, the allocator, and the heap's contents as words. */
    const base: nat
    const heap: Heap
    const words: array<word>
    /** g_kernel_dir */
    var dir: Option<nat>

    ghost predicate Valid()
      reads this, heap, words
    {
      && heap.Valid() && 0 < base && (base + heap.ptr) % 4096 == 0
      && Room(words[..], base, heap.ptr)
      && (dir.Some? ==> Layout(words[..], base, heap.ptr, dir.value))
    }

    /** The flat map the directory and the tables stand for. */
    ghost function Now(): (r: Flat)
      requires Valid() && dir.Some?
      reads this, heap, words
      ensures |r.entries| == PAGES
    {
      View(words[..], base, heap.ptr, dir.value)
    }

    /** Before vmm_init.  The pages of the tables will be page-aligned because the heap pointer
        is, and stays so as long as all requests are for whole pages. */
    constructor (base: nat, heap: Heap, words: array<word>)
      requires heap.Valid() && 0 < base && base % 4 == 0 && base + HEAP_SIZE <= WORD && words.Length == HEAP_SIZE / 4
      requires (base + heap.ptr) % 4096 == 0
      ensures Valid() && dir.None? && this.base == base && this.heap == heap && this.words == words
    {
      this.base, this.heap, this.words := base, heap, words;
      dir := None;
    }

    /** malloc of a page, cleared: the address, or nothing when the heap is full. */
    method NewPage() returns (a: Option<nat>)
      requires Valid()
      modifies heap`ptr, words
      ensures heap.Valid() && dir == old(dir)
      ensures a.None? <==> old(heap.ptr) + 4096 > HEAP_SIZE
      ensures a.None? ==> heap.ptr == old(heap.ptr) && words[..] == old(words[..])
      ensures a.Some? ==>
        && a.value == base + old(heap.ptr) && heap.ptr == old(heap.ptr) + 4096 && Block(base, heap.ptr, a.value)
        && (forall i :: Slot(base, a.value) <= i < Slot(base, a.value) + 1024 && i < words.Length ==> words[i] == 0)
        && (forall i :: 0 <= i < Slot(base, a.value) && i < words.Length ==> words[i] == old(words[i]))
    {
      hide Layout, View;
      var p := heap.Malloc(4096);
      if p.None? { return None; }
      BlockSlots(base, heap.ptr, base + p.value);
      ClearPage(words, Slot(base, base + p.value));
      a := Some(base + p.value);
    }

    /** The table for part `d` of the address space, created when it is missing. */
    method TableFor(d: nat) returns (tbl: Option<nat>)
      requires Valid() && dir.Some? && d < 1024
      modifies heap`ptr, words
      ensures Valid() && dir == old(dir)
      ensures tbl.None? <==> d !in old(Now()).tables && old(Now()).room == 0
      ensures Now() == if d in old(Now()).tables || tbl.None? then old(Now())
                       else Flat(old(Now()).entries, old(Now()).tables + {d}, old(Now()).room - 1)
      ensures tbl.Some? ==> d in Now().tables && TableAt(words[..], base, heap.ptr, dir.value, d, tbl.value)
    {
      hide Layout, Slot, And, Or, At, Tables, Entry;
      ghost var m, limit := words[..], heap.ptr;
      DirBlock(m, base, limit, dir.value);
      AtIs(m, base, limit, dir.value, d);
      Present(m, base, limit, dir.value, d);
      if And(words[Slot(base, dir.value) + d], PAGE_PRESENT) != 0 {
        tbl := Some(And(words[Slot(base, dir.value) + d], FRAME_MASK));
        return;
      }
      tbl := NewPage();
      if tbl.None? { assert words[..] == m; return; }
      NewEntry(base, limit, dir.value, tbl.value);
      words[Slot(base, dir.value) + d] := Or(Or(tbl.value, PAGE_PRESENT), PAGE_WRITABLE);
      AtIs(words[..], base, heap.ptr, dir.value, d);
      assert TableAdded(m, words[..], base, limit, dir.value, d);
      AddTable(m, words[..], base, limit, dir.value, d);
    }

    /** vmm_map: nothing happens before vmm_init or when a table is missing and the heap is
        full. */
    method MapPage(virt: word, phys: word, flags: word)
      requires Valid()
      modifies heap`ptr, words
      ensures Valid() && dir == old(dir)
      ensures dir.None? ==> words[..] == old(words[..]) && heap.ptr == old(heap.ptr)
      ensures dir.Some? ==> Now() == Map(old(Now()), virt, phys, flags)
    {
      hide Layout, Slot, And, Or, At, View, TableAt, Pack;
      if dir.None? { return; }
      Indices(virt);
      var tbl := TableFor(virt / 0x40_0000);
      if tbl.None? { return; }
      PackParts(phys, flags);
      WriteEntry(tbl.value, virt / 0x40_0000, virt / 4096 % 1024, Pack(phys, flags));
    }

    /** One entry of a table. */
    method WriteEntry(tbl: nat, d: nat, i: nat, e: word)
      requires Valid() && dir.Some? && d < 1024 && i < 1024 && d in Now().tables
      requires TableAt(words[..], base, heap.ptr, dir.value, d, tbl)
      modifies words
      ensures Valid() && Now() == old(Now()).(entries := old(Now()).entries[1024 * d + i := e])
    {
      hide Layout, Slot, At, Entry;
      ghost var m := words[..];
      DirBlock(m, base, heap.ptr, dir.value);
      AtIs(m, base, heap.ptr, tbl, i);
      WriteLeaf(m, base, heap.ptr, dir.value, 1024 * d + i, e, Slot(base, tbl) + i);
      words[Slot(base, tbl) + i] := e;
      assert words[..] == m[Slot(base, tbl) + i := e];
    }

    /** vmm_unmap. */
    method UnmapPage(virt: word)
      requires Valid() && dir.Some?
      modifies words
      ensures Valid() && dir == old(dir) && Now() == Unmap(old(Now()), virt)
    {
      hide Layout, Slot, And, Or, At, Entry, Tables;
      Indices(virt);
      var d := virt / 0x40_0000;
      DirBlock(words[..], base, heap.ptr, dir.value);
      AtIs(words[..], base, heap.ptr, dir.value, d);
      Present(words[..], base, heap.ptr, dir.value, d);
      if And(words[Slot(base, dir.value) + d], PAGE_PRESENT) == 0 { return; }
      var tbl := And(words[Slot(base, dir.value) + d], FRAME_MASK);
      WriteEntry(tbl, d, virt / 4096 % 1024, 0);
    }

    /** vmm_get_phys. */
    method Translate(virt: word) returns (phys: nat)
      requires Valid()
      ensures phys == if dir.None? then 0 else GetPhys(Now(), virt)
    {
      hide Layout, Slot, And, Or, At, Tables;
      if dir.None? { return 0; }
      Indices(virt);
      var d := virt / 0x40_0000;
      DirBlock(words[..], base, heap.ptr, dir.value);
      AtIs(words[..], base, heap.ptr, dir.value, d);
      Present(words[..], base, heap.ptr, dir.value, d);
      if And(words[Slot(base, dir.value) + d], PAGE_PRESENT) == 0 { return 0; }
      var tbl := And(words[Slot(base, dir.value) + d], FRAME_MASK);
      AtIs(words[..], base, heap.ptr, tbl, virt / 4096 % 1024);
      phys := Or(And(words[Slot(base, tbl) + virt / 4096 % 1024], FRAME_MASK), And(virt, OFFSET_MASK));
    }

    /** vmm_init up to switching paging on: the directory, and the first 1024 pages mapped to
        themselves. */
    method Init()
      requires Valid() && dir.None?
      modifies this`dir, heap`ptr, words
      ensures Valid()
      ensures dir.None? <==> old(heap.ptr) + 4096 > HEAP_SIZE
      ensures dir.Some? ==> Now() == Run(Nothing((HEAP_SIZE - old(heap.ptr) - 4096) / 4096), IdentityOps(1024))
    {
      hide Layout, Slot, View, Map, Run, IdentityOps, Block;
      var a := NewPage();
      if a.None? { return; }
      ghost var s := Nothing((HEAP_SIZE - heap.ptr) / 4096);
      EmptyDirectory(words[..], base, heap.ptr, a.value);
      dir := a;
      IdentityNone(s);
      for i := 0 to 1024
        invariant Valid() && dir == a && Now() == Run(s, IdentityOps(i))
      {
        MapPage(i * PAGE_SIZE, i * PAGE_SIZE, Or(PAGE_PRESENT, PAGE_WRITABLE));
        Flags();
        IdentityLast(s, i + 1);
      }
    }
  }

  /** After vmm_init every address below 4 MiB is its own physical address and nothing else is
      mapped, if and only if the heap held the one table this takes. */
  lemma InitIsIdentity(room: nat, v: word)
    ensures var s := Run(Nothing(room), IdentityOps(1024));
      && (room > 0 ==> GetPhys(s, v) == if v < 0x40_0000 then v else 0)
      && (room == 0 ==> GetPhys(s, v) == 0)
  {
    hide Run, IdentityOps;
    if room > 0 { IdentityBelow4M(Nothing(room), v); } else { NoRoomNoIdentity(Nothing(room), 1024); }
  }

  lemma IdentityNone(s: Flat)
    requires |s.entries| == PAGES
    ensures Run(s, IdentityOps(0)) == s
  {
  }

  lemma Flags()
    ensures Or(PAGE_PRESENT, PAGE_WRITABLE) == 3
  {
  }

  /** Directory and table index of the code are the two digits of the page number. */
  lemma Indices(v: word)
    ensures v / 0x40_0000 == Page(v) / 1024 < 1024 && v / 4096 % 1024 == Page(v) % 1024
    ensures Page(v) == 1024 * (v / 0x40_0000) + v / 4096 % 1024
  {
  }

  lemma NewEntry(base: nat, limit: nat, dir: nat, t: nat)
    requires 0 < base && base + HEAP_SIZE <= WORD && base % 4 == 0 && t == base + limit && t % 4096 == 0 && limit + 4096 <= HEAP_SIZE
    requires Block(base, limit, dir)
    ensures Or(Or(t, PAGE_PRESENT), PAGE_WRITABLE) == t + 3 < WORD
    ensures Slot(base, dir) + 1024 <= Slot(base, t)
  {
    hide And, Or;
    Aligned4(0, t);
    PointerSurvives(t);
    BlockSlots(base, limit, dir);
    Aligned4(base, t);
  }

  /** The entry of part `d` points to the table at `t`. */
  ghost predicate TableAt(m: seq<word>, base: nat, limit: nat, dir: nat, d: nat, t: nat) {
    At(m, base, dir, d) == t + 3 && Block(base, limit, t)
  }

  lemma DirBlock(m: seq<word>, base: nat, limit: nat, dir: nat)
    requires Layout(m, base, limit, dir)
    ensures Room(m, base, limit) && Block(base, limit, dir)
  {
  }
}
