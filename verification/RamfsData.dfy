/** The byte side of fs/ramfs.c: file contents in the kernel heap, moved by realloc when they
    grow, and read and written through handles.  Every method is proved against
    FileContents.Step. */
module RamfsData {
  import opened Options
  import opened Words
  import opened KernelHeap
  import opened FileContents

  /** The fields of ramfs_inode_t that hold a file's bytes. */
  class FileNode {
    var data: Option<nat>  // address in the heap; None is NULL
    var dataSize: nat
    var size: nat

    constructor ()
      ensures data == None && dataSize == 0 && size == 0
    {
      data, dataSize, size := None, 0, 0;
    }
  }

  class Handle {
    const inode: FileNode
    const flags: nat
    var position: nat

    constructor (inode: FileNode, flags: nat)
      ensures this.inode == inode && this.flags == flags && position == 0
    {
      this.inode, this.flags, position := inode, flags, 0;
    }
  }

  /** Where a file's bytes lie. */
  datatype Block = Block(start: nat, len: nat)

  /** The blocks lie below the heap pointer and do not overlap. */
  ghost predicate Laid(place: map<FileNode, Block>, limit: nat) {
    && (forall f :: f in place ==> place[f].start + place[f].len <= limit)
    && (forall f, g :: f in place && g in place && f != g ==> Apart(place[f], place[g]))
  }

  ghost predicate Apart(a: Block, b: Block) {
    a.len == 0 || b.len == 0 || a.start + a.len <= b.start || b.start + b.len <= a.start
  }

  /** The bytes of a block. */
  function At(m: seq<byte>, k: Block): (r: seq<byte>)
    ensures k.start + k.len <= |m| ==> |r| == k.len
  {
    if k.start + k.len <= |m| then m[k.start..k.start + k.len] else []
  }

  /** The memory holds the contents in their blocks. */
  ghost predicate Spelled(m: seq<byte>, place: map<FileNode, Block>, content: map<FileNode, seq<byte>>) {
    && (forall f :: f in content ==> f in place)
    && (forall f :: f in place ==> f in content && content[f] == At(m, place[f]))
  }

  /** The fields of the inodes say where their bytes are. */
  ghost predicate Fields(place: map<FileNode, Block>)
    reads place.Keys
  {
    forall f :: f in place ==> FieldsOf(f, place[f])
  }

  ghost predicate FieldsOf(f: FileNode, k: Block)
    reads f
  {
    f.dataSize == k.len && (if f.data.None? then k.len == 0 else f.data.value == k.start)
  }

  /** No byte is allocated in reserve. */
  ghost predicate Tight(place: map<FileNode, Block>)
    reads place.Keys
  {
    forall f :: f in place ==> f.size == place[f].len
  }

  ghost predicate Positions(s: Files<FileNode, Handle>)
    reads s.file.Keys
  {
    forall h :: h in s.file ==> s.file[h] == h.inode && h in s.position && s.position[h] == h.position
  }

  // ------------------------------------------------------------------ the memory of a write

  /** Memory `m` with the bytes `b` at address `at`. */
  function Poke(m: seq<byte>, at: nat, b: seq<byte>): (r: seq<byte>)
    requires at + |b| <= |m|
    ensures |r| == |m|
  {
    m[..at] + b + m[at + |b|..]
  }

  /** Writing inside a block changes that file as Splice says and no other. */
  lemma PokeInPlace(m: seq<byte>, place: map<FileNode, Block>, content: map<FileNode, seq<byte>>,
                    limit: nat, f: FileNode, pos: nat, b: seq<byte>)
    requires Laid(place, limit) && limit <= |m| && Spelled(m, place, content) && f in place
    requires pos + |b| <= place[f].len && place[f].start + place[f].len <= |m|
    ensures f in content && pos <= |content[f]| && place[f].start + pos + |b| <= |m|
    ensures Spelled(Poke(m, place[f].start + pos, b), place, content[f := Splice(content[f], pos, b)])
  {
    hide Poke;
    hide Splice;
    hide At;
    var at := place[f].start + pos;
    assert |At(m, place[f])| == place[f].len;
    forall g | g in place && g != f ensures At(Poke(m, at, b), place[g]) == At(m, place[g]) {
      assert Apart(place[f], place[g]) && place[g].start + place[g].len <= |m|;
      PokeElsewhere(m, at, b, place[g]);
    }
    PokeHere(m, place[f], pos, b);
  }

  lemma PokeElsewhere(m: seq<byte>, at: nat, b: seq<byte>, k: Block)
    requires at + |b| <= |m| && k.start + k.len <= |m|
    requires |b| == 0 || k.len == 0 || at + |b| <= k.start || k.start + k.len <= at
    ensures At(Poke(m, at, b), k) == At(m, k)
  {
  }

  lemma PokeHere(m: seq<byte>, k: Block, pos: nat, b: seq<byte>)
    requires k.start + k.len <= |m| && pos + |b| <= k.len
    ensures At(Poke(m, k.start + pos, b), k) == Splice(At(m, k), pos, b)
  {
  }

  lemma BelowUnchanged(m: seq<byte>, m': seq<byte>, limit: nat, k: Block)
    requires limit <= |m| && limit <= |m'| && m'[..limit] == m[..limit] && k.start + k.len <= limit
    ensures At(m', k) == At(m, k)
  {
    assert m'[..limit][k.start..k.start + k.len] == m'[k.start..k.start + k.len];
    assert m[..limit][k.start..k.start + k.len] == m[k.start..k.start + k.len];
  }

  /** After realloc the file lies in a new block above all others, its old bytes first. */
  lemma Moved(m: seq<byte>, m': seq<byte>, place: map<FileNode, Block>, content: map<FileNode, seq<byte>>,
              limit: nat, f: FileNode, len: nat)
    requires Laid(place, limit) && limit + len <= |m| && |m'| == |m| && Spelled(m, place, content) && f in place
    requires place[f].len <= len
    requires m'[..limit] == m[..limit]
    requires At(m', Block(limit, place[f].len)) == At(m, place[f])
    ensures Laid(place[f := Block(limit, len)], limit + len)
    ensures f in content && content[f] == At(m', Block(limit, len))[..place[f].len]
    ensures Spelled(m', place[f := Block(limit, len)], content[f := At(m', Block(limit, len))])
  {
    forall g | g in place && g != f ensures At(m', place[g]) == At(m, place[g]) {
      BelowUnchanged(m, m', limit, place[g]);
    }
    assert content[f] == At(m', Block(limit, len))[..place[f].len];
    LaidAfterMove(place, limit, f, len);
    hide At;
    hide Laid;
  }

  lemma LaidAfterMove(place: map<FileNode, Block>, limit: nat, f: FileNode, len: nat)
    requires Laid(place, limit) && f in place
    ensures Laid(place[f := Block(limit, len)], limit + len)
  {
    var place' := place[f := Block(limit, len)];
    forall g, h | g in place' && h in place' && g != h ensures Apart(place'[g], place'[h]) {
      if g != f && h != f { assert Apart(place[g], place[h]); }
    }
  }

  // ------------------------------------------------------------------ the buffer of a file

  /** realloc to `newSize` bytes, and the fields that go with it.  The bytes beyond the old
      ones are whatever the copy found there. */
  method Grow(heap: Heap, ghost place: map<FileNode, Block>, ghost content: map<FileNode, seq<byte>>, f: FileNode, newSize: nat)
    returns (ok: bool, ghost grown: seq<byte>)
    requires heap.Valid() && Laid(place, heap.ptr) && Spelled(heap.mem[..], place, content)
    requires f in place && FieldsOf(f, place[f]) && place[f].len < newSize && heap.ptr + newSize < WORD
    modifies heap, heap.mem, f`data, f`dataSize
    ensures heap.Valid() && f in content
    ensures ok <==> old(heap.ptr) + newSize <= HEAP_SIZE
    ensures !ok ==> heap.mem[..] == old(heap.mem[..]) && heap.ptr == old(heap.ptr) && f.data == old(f.data) && f.dataSize == old(f.dataSize)
    ensures ok ==> var place' := place[f := Block(old(heap.ptr), newSize)];
      && Laid(place', heap.ptr) && Spelled(heap.mem[..], place', content[f := grown]) && FieldsOf(f, place'[f])
      && |grown| == newSize && grown[..place[f].len] == content[f] && f.data.Some?
  {
    hide Laid, Spelled, Align4;
    FitsBelow(place, heap.ptr, f);
    ghost var m, limit := heap.mem[..], heap.ptr;
    var q := heap.Realloc(f.data, newSize);
    ok := q.Some?;
    grown := [];
    if ok {
      f.data, f.dataSize := q, newSize;
      ghost var m' := heap.mem[..];
      assert m'[..limit] == m[..limit];
      assert At(m', Block(limit, place[f].len)) == At(m, place[f]);
      grown := At(m', Block(limit, newSize));
      Moved(m, m', place, content, limit, f, newSize);
      LaidHigher(place[f := Block(limit, newSize)], limit + newSize, heap.ptr);
    } else {
      SpelledHas(m, place, content, f);
    }
  }

  lemma FitsBelow(place: map<FileNode, Block>, limit: nat, f: FileNode)
    requires Laid(place, limit) && f in place
    ensures place[f].start + place[f].len <= limit
  {
  }

  lemma LaidHigher(place: map<FileNode, Block>, limit: nat, limit': nat)
    requires Laid(place, limit) && limit <= limit'
    ensures Laid(place, limit')
  {
  }

  lemma SpelledHas(m: seq<byte>, place: map<FileNode, Block>, content: map<FileNode, seq<byte>>, f: FileNode)
    requires Spelled(m, place, content) && f in place
    ensures f in content && content[f] == At(m, place[f])
  {
  }

  /** The memcpy from the caller's buffer. */
  method CopyIn(mem: array<byte>, at: nat, b: seq<byte>)
    requires at + |b| <= mem.Length
    modifies mem
    ensures mem[..] == Poke(old(mem[..]), at, b)
  {
    ghost var m := mem[..];
    for i := 0 to |b|
      invariant mem[..] == Poke(m, at, b[..i])
    {
      mem[at + i] := b[i];
      PokeOne(m, at, b, i);
    }
    assert b[..|b|] == b;
  }

  lemma PokeOne(m: seq<byte>, at: nat, b: seq<byte>, i: nat)
    requires at + |b| <= |m| && i < |b|
    ensures Poke(m, at, b[..i])[at + i := b[i]] == Poke(m, at, b[..i + 1])
  {
  }

  lemma SpliceGrown(c: seq<byte>, grown: seq<byte>, pos: nat, b: seq<byte>)
    requires pos <= |c| < |grown| && |grown| == pos + |b| && grown[..|c|] == c
    ensures Splice(grown, pos, b) == Splice(c, pos, b)
  {
    assert grown[..pos] == grown[..|c|][..pos];
  }

  /** Bring the bytes `b` into the buffer of `f` at `pos`, enlarging it first if need be: the
      body of ramfs_write without the handle. */
  method StoreBytes(heap: Heap, ghost place: map<FileNode, Block>, ghost content: map<FileNode, seq<byte>>,
               f: FileNode, pos: nat, b: seq<byte>)
    returns (ok: bool, ghost place': map<FileNode, Block>)
    requires heap.Valid() && Laid(place, heap.ptr) && Spelled(heap.mem[..], place, content)
    requires f in place && FieldsOf(f, place[f]) && f.size == place[f].len && pos <= place[f].len
    requires heap.ptr + pos + |b| < WORD
    modifies heap, heap.mem, f
    ensures heap.Valid() && f in content && |content[f]| == place[f].len
    ensures ok <==> pos + |b| <= |content[f]| || old(heap.ptr) + pos + |b| <= HEAP_SIZE
    ensures f in place' && place'.Keys == place.Keys && FieldsOf(f, place'[f]) && f.size == place'[f].len
    ensures forall g :: g in place && g != f ==> place'[g] == place[g]
    ensures Laid(place', heap.ptr)
    ensures Spelled(heap.mem[..], place', if ok then content[f := Splice(content[f], pos, b)] else content)
  {
    hide Laid;
    hide Spelled;
    hide Splice;
    hide Poke;
    hide At;
    SpelledHas(heap.mem[..], place, content, f);
    FitsBelow(place, heap.ptr, f);
    ok, place' := true, place;
    ghost var c := content;
    if pos + |b| > f.dataSize {
      ghost var grown;
      ok, grown := Grow(heap, place, content, f, pos + |b|);
      if !ok { return; }
      place', c := place[f := Block(old(heap.ptr), pos + |b|)], content[f := grown];
      SpliceGrown(content[f], grown, pos, b);
      FitsBelow(place', heap.ptr, f);
    }
    PokeInPlace(heap.mem[..], place', c, heap.ptr, f, pos, b);
    assert c[f := Splice(c[f], pos, b)] == content[f := Splice(content[f], pos, b)];
    PokeNothing(heap.mem[..], place'[f].start + pos, b);
    if f.data.Some? { CopyIn(heap.mem, f.data.value + pos, b); }
    if pos + |b| > f.size { f.size := pos + |b|; }
  }

  /** The same, with what it means for all files together. */
  method StoreAmongAll(heap: Heap, ghost place: map<FileNode, Block>, ghost content: map<FileNode, seq<byte>>,
                       f: FileNode, pos: nat, b: seq<byte>)
    returns (ok: bool, ghost place': map<FileNode, Block>)
    requires heap.Valid() && Laid(place, heap.ptr) && Spelled(heap.mem[..], place, content)
    requires Fields(place) && Tight(place) && f in place && pos <= place[f].len
    requires heap.ptr + pos + |b| < WORD
    modifies heap, heap.mem, f
    ensures heap.Valid() && f in content && |content[f]| == place[f].len
    ensures ok <==> pos + |b| <= |content[f]| || old(heap.ptr) + pos + |b| <= HEAP_SIZE
    ensures place'.Keys == place.Keys && Laid(place', heap.ptr) && Fields(place') && Tight(place')
    ensures Spelled(heap.mem[..], place', if ok then content[f := Splice(content[f], pos, b)] else content)
  {
    hide Laid;
    hide Spelled;
    hide Splice;
    assert FieldsOf(f, place[f]) && f.size == place[f].len;
    ok, place' := StoreBytes(heap, place, content, f, pos, b);
    forall g | g in place' ensures FieldsOf(g, place'[g]) && g.size == place'[g].len {
      if g != f { assert old(FieldsOf(g, place[g])) && old(g.size) == place[g].len; }
    }
  }

  lemma PokeNothing(m: seq<byte>, at: nat, b: seq<byte>)
    requires at + |b| <= |m|
    ensures |b| == 0 ==> Poke(m, at, b) == m
  {
  }

  /** The memcpy to the caller's buffer. */
  method CopyOut(mem: array<byte>, at: nat, buffer: array<byte>, n: nat)
    requires at + n <= mem.Length && n <= buffer.Length && buffer != mem
    modifies buffer
    ensures buffer[..n] == old(mem[..])[at..at + n] && buffer[n..] == old(buffer[n..])
  {
    for i := 0 to n
      invariant buffer[..i] == mem[at..at + i] && buffer[i..] == old(buffer[i..])
    {
      buffer[i] := mem[at + i];
      assert buffer[i..][1..] == old(buffer[i..][1..]);
    }
  }

  /** The body of ramfs_read without the handle.  The subtraction cannot underflow: the
      position is at most the size. */
  method Fetch(heap: Heap, ghost place: map<FileNode, Block>, ghost content: map<FileNode, seq<byte>>,
               f: FileNode, pos: nat, buffer: array<byte>, size: nat)
    returns (n: nat)
    requires heap.Valid() && Laid(place, heap.ptr) && Spelled(heap.mem[..], place, content)
    requires f in place && FieldsOf(f, place[f]) && f.size == place[f].len && pos <= place[f].len
    requires size <= buffer.Length && buffer != heap.mem
    modifies buffer
    ensures f in content && pos <= |content[f]|
    ensures n == Available(content[f], pos, size)
    ensures buffer[..n] == content[f][pos..pos + n] && buffer[n..] == old(buffer[n..])
  {
    hide Laid;
    hide Spelled;
    SpelledHas(heap.mem[..], place, content, f);
    FitsBelow(place, heap.ptr, f);
    var available := f.size - pos;
    n := 0;
    if available == 0 { return; }
    n := if size > available then available else size;
    PartOfBlock(heap.mem[..], place[f], pos, n);
    CopyOut(heap.mem, f.data.value + pos, buffer, n);
  }

  lemma PartOfBlock(m: seq<byte>, k: Block, pos: nat, n: nat)
    requires k.start + k.len <= |m| && pos + n <= k.len
    ensures At(m, k)[pos..pos + n] == m[k.start + pos..k.start + pos + n]
  {
    var c := m[k.start..k.start + k.len];
    var a, b := c[pos..pos + n], m[k.start + pos..k.start + pos + n];
    assert |a| == |b|;
    forall i | 0 <= i < n ensures a[i] == b[i] {
      assert a[i] == c[pos + i] && c[pos + i] == m[k.start + (pos + i)];
    }
    assert a == b && At(m, k) == c;
  }

  // ------------------------------------------------------------------ the calls

  /** The bytes of every file are where its inode says, and no two files share one; no handle
      is beyond the end of its file. */
  ghost predicate Valid(heap: Heap, place: map<FileNode, Block>, s: Files<FileNode, Handle>)
    reads heap, heap.mem, place.Keys, s.file.Keys
  {
    && heap.Valid() && Laid(place, heap.ptr) && Spelled(heap.mem[..], place, s.content)
    && Fields(place) && Tight(place) && Sound(s) && Positions(s)
  }

  lemma HandleFacts(heap: Heap, place: map<FileNode, Block>, s: Files<FileNode, Handle>, h: Handle)
    requires Valid(heap, place, s) && h in s.file
    ensures var f := h.inode;
      && h in s.position && h.position == s.position[h] && s.file[h] == f
      && f in place && FieldsOf(f, place[f]) && f.size == place[f].len && h.position <= place[f].len
      && f in s.content && |s.content[f]| == place[f].len
  {
  }

  /** ramfs_read. */
  method Read(heap: Heap, ghost place: map<FileNode, Block>, ghost s: Files<FileNode, Handle>,
              h: Handle, buffer: array<byte>, size: nat)
    returns (n: nat, ghost s': Files<FileNode, Handle>)
    requires Valid(heap, place, s) && h in s.file && size <= buffer.Length && buffer != heap.mem
    modifies h`position, buffer
    ensures Valid(heap, place, s')
    ensures s' == Step(s, Op.Read(h, size)).0
    ensures n <= size && buffer[..n] == Step(s, Op.Read(h, size)).1
    ensures buffer[n..] == old(buffer[n..])
  {
    hide Laid;
    hide Spelled;
    hide Fields;
    hide Tight;
    hide Sound;
    hide Step;
    HandleFacts(heap, place, s, h);
    ReadStep(s, h, size);
    n := Fetch(heap, place, s.content, h.inode, h.position, buffer, size);
    s' := Step(s, Op.Read(h, size)).0;
    h.position := h.position + n;
  }

  /** ramfs_write: all of `data` or, when the file would have to grow and the heap has no
      room, nothing at all. */
  method Write(heap: Heap, ghost place: map<FileNode, Block>, ghost s: Files<FileNode, Handle>, h: Handle, data: seq<byte>)
    returns (n: nat, ghost place': map<FileNode, Block>, ghost s': Files<FileNode, Handle>)
    requires Valid(heap, place, s) && h in s.file && heap.ptr + h.position + |data| < WORD
    modifies heap, heap.mem, h`position, h.inode
    ensures Valid(heap, place', s') && place'.Keys == place.Keys
    ensures h in s.position && h.inode in s.content
    ensures var memory := old(heap.ptr) + s.position[h] + |data| <= HEAP_SIZE;
      && s' == Step(s, Op.Write(h, data, memory)).0
      && n == if s.position[h] + |data| > |s.content[h.inode]| && !memory then 0 else |data|
  {
    hide Laid;
    hide Spelled;
    hide Fields;
    hide Tight;
    hide Sound;
    hide Step;
    hide Splice;
    HandleFacts(heap, place, s, h);
    ghost var memory := heap.ptr + h.position + |data| <= HEAP_SIZE;
    WriteStep(s, h, data, memory);
    var ok;
    ok, place' := StoreAmongAll(heap, place, s.content, h.inode, h.position, data);
    s' := Step(s, Op.Write(h, data, memory)).0;
    n := if ok then |data| else 0;
    h.position := h.position + n;
  }

  /** ramfs_seek: not beyond the end. */
  method Seek(ghost heap: Heap, ghost place: map<FileNode, Block>, ghost s: Files<FileNode, Handle>, h: Handle, offset: nat)
    returns (ok: bool, ghost s': Files<FileNode, Handle>)
    requires Valid(heap, place, s) && h in s.file
    modifies h`position
    ensures Valid(heap, place, s') && h.inode in s.content
    ensures s' == Step(s, Op.Seek(h, offset)).0 && (ok <==> offset <= |s.content[h.inode]|)
  {
    hide Laid;
    hide Spelled;
    hide Fields;
    hide Tight;
    HandleFacts(heap, place, s, h);
    StepSound(s, Op.Seek(h, offset));
    s' := Step(s, Op.Seek(h, offset)).0;
    ok := offset <= h.inode.size;
    if ok { h.position := offset; }
  }

  /** Anybody else's allocation, filled with anything, leaves all files as they are. */
  method AllocateElsewhere(heap: Heap, ghost place: map<FileNode, Block>, ghost s: Files<FileNode, Handle>, b: seq<byte>)
    returns (p: Option<nat>)
    requires Valid(heap, place, s) && heap.ptr + |b| < WORD
    modifies heap`ptr, heap.mem
    ensures Valid(heap, place, s)
    ensures p == if old(heap.ptr) + |b| <= HEAP_SIZE then Some(old(heap.ptr)) else None
    ensures p.Some? ==> heap.mem[p.value..p.value + |b|] == b
    ensures p.None? ==> heap.mem[..] == old(heap.mem[..])
  {
    hide Laid, Spelled, Fields, Tight, Sound, Positions, Poke;
    ghost var m, limit := heap.mem[..], heap.ptr;
    p := Room(heap, place, s, |b|);
    assert heap.mem[..] == m;
    if p.None? { return; }
    CopyIn(heap.mem, p.value, b);
    PokeAbove(m, limit, b, place, s.content);
  }

  /** malloc as the file system sees it. */
  method Room(heap: Heap, ghost place: map<FileNode, Block>, ghost s: Files<FileNode, Handle>, size: nat) returns (p: Option<nat>)
    requires Valid(heap, place, s) && heap.ptr + size < WORD
    modifies heap`ptr
    ensures Valid(heap, place, s) && old(heap.ptr) <= heap.ptr
    ensures p == if old(heap.ptr) + size <= HEAP_SIZE then Some(old(heap.ptr)) else None
    ensures p.None? ==> heap.ptr == old(heap.ptr)
  {
    hide Laid, Spelled, Fields, Tight, Sound, Positions;
    ghost var limit := heap.ptr;
    assert (limit + size) % WORD == limit + size;
    p := heap.Malloc(size);
    LaidHigher(place, limit, heap.ptr);
  }

  /** Bytes written above all blocks. */
  lemma PokeAbove(m: seq<byte>, at: nat, b: seq<byte>, place: map<FileNode, Block>, content: map<FileNode, seq<byte>>)
    requires at + |b| <= |m| && Laid(place, at) && Spelled(m, place, content)
    ensures Spelled(Poke(m, at, b), place, content) && Poke(m, at, b)[at..at + |b|] == b
  {
    hide Poke, At;
    forall f | f in place ensures At(Poke(m, at, b), place[f]) == At(m, place[f]) { PokeElsewhere(m, at, b, place[f]); }
    PokedBytes(m, at, b);
  }

  lemma PokedBytes(m: seq<byte>, at: nat, b: seq<byte>)
    requires at + |b| <= |m|
    ensures Poke(m, at, b)[at..at + |b|] == b
  {
  }

  /** The last lines of ramfs_open, for the inode found or created: a new handle at the start of
      the file, which itself takes `size` bytes of the heap, or null when they are not there. */
  method Open(heap: Heap, ghost place: map<FileNode, Block>, ghost s: Files<FileNode, Handle>, f: FileNode, flags: nat, size: nat)
    returns (h: Handle?, ghost s': Files<FileNode, Handle>)
    requires Valid(heap, place, s) && f in place && f in s.content && heap.ptr + size < WORD
    modifies heap`ptr
    ensures Valid(heap, place, s') && (h == null <==> old(heap.ptr) + size > HEAP_SIZE)
    ensures h == null ==> s' == s
    ensures h != null ==> fresh(h) && h.flags == flags && s' == s.(file := s.file[h := f], position := s.position[h := 0])
  {
    hide Laid, Spelled, Fields, Tight;
    var p := Room(heap, place, s, size);
    h, s' := null, s;
    if p.Some? {
      h := new Handle(f, flags);
      s' := s.(file := s.file[h := f], position := s.position[h := 0]);
    }
  }

  /** alloc_inode for a file: without bytes and without a buffer. */
  method NewFile(heap: Heap, ghost place: map<FileNode, Block>, ghost s: Files<FileNode, Handle>, size: nat)
    returns (f: FileNode?, ghost place': map<FileNode, Block>, ghost s': Files<FileNode, Handle>)
    requires Valid(heap, place, s) && heap.ptr + size < WORD
    modifies heap`ptr
    ensures Valid(heap, place', s') && (f == null <==> old(heap.ptr) + size > HEAP_SIZE)
    ensures f == null ==> place' == place && s' == s
    ensures f != null ==> fresh(f) && place'.Keys == place.Keys + {f} && s' == s.(content := s.content[f := []])
  {
    hide Sound, Laid, Spelled;
    var p := Room(heap, place, s, size);
    f, place', s' := null, place, s;
    if p.Some? {
      f := new FileNode();
      place' := place[f := Block(0, 0)];
      s' := s.(content := s.content[f := []]);
      WithEmpty(heap.mem[..], place, heap.ptr, s, f);
    }
  }

  lemma WithEmpty(m: seq<byte>, place: map<FileNode, Block>, limit: nat, s: Files<FileNode, Handle>, f: FileNode)
    requires Sound(s) && Laid(place, limit) && Spelled(m, place, s.content) && f !in place
    ensures Sound(s.(content := s.content[f := []]))
    ensures Laid(place[f := Block(0, 0)], limit)
    ensures Spelled(m, place[f := Block(0, 0)], s.content[f := []])
  {
    hide Sound, Laid, Spelled;
    SoundWithEmpty(s, place, m, f);
    LaidWithEmpty(place, limit, f);
    SpelledWithEmpty(m, place, s.content, f);
  }

  lemma SoundWithEmpty(s: Files<FileNode, Handle>, place: map<FileNode, Block>, m: seq<byte>, f: FileNode)
    requires Sound(s) && Spelled(m, place, s.content) && f !in place
    ensures Sound(s.(content := s.content[f := []]))
  {
    assert f !in s.content;
  }

  lemma LaidWithEmpty(place: map<FileNode, Block>, limit: nat, f: FileNode)
    requires Laid(place, limit) && f !in place
    ensures Laid(place[f := Block(0, 0)], limit)
  {
  }

  lemma SpelledWithEmpty(m: seq<byte>, place: map<FileNode, Block>, content: map<FileNode, seq<byte>>, f: FileNode)
    requires Spelled(m, place, content) && f !in place
    ensures Spelled(m, place[f := Block(0, 0)], content[f := []])
  {
    assert At(m, Block(0, 0)) == [];
  }

  lemma WriteStep(s: Files<FileNode, Handle>, h: Handle, data: seq<byte>, memory: bool)
    requires Sound(s) && h in s.file
    ensures h in s.position && s.file[h] in s.content && s.position[h] <= |s.content[s.file[h]]|
    ensures var s' := Step(s, Op.Write(h, data, memory)).0;
      var pos, c := s.position[h], s.content[s.file[h]];
      && Sound(s') && s'.file == s.file
      && (if pos + |data| > |c| && !memory then s' == s && s'.position == s.position[h := pos] else
            && s'.content == s.content[s.file[h] := Splice(c, pos, data)]
            && s'.position == s.position[h := pos + |data|])
  {
    StepSound(s, Op.Write(h, data, memory));
  }

  lemma ReadStep(s: Files<FileNode, Handle>, h: Handle, size: nat)
    requires Sound(s) && h in s.file
    ensures h in s.position && s.file[h] in s.content && s.position[h] <= |s.content[s.file[h]]|
    ensures var (s', out) := Step(s, Op.Read(h, size));
      var pos, c := s.position[h], s.content[s.file[h]];
      var n := Available(c, pos, size);
      && Sound(s') && s'.file == s.file && s'.content == s.content
      && s'.position == s.position[h := pos + n] && out == c[pos..pos + n]
  {
    StepSound(s, Op.Read(h, size));
  }
}
