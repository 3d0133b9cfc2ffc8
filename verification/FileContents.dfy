/** What reading, writing and seeking through handles means, without buffers or addresses:
    every file is a byte sequence and every handle a position in one of them. */
module FileContents {
  import opened Words

  datatype Files<F(==), H(==)> = Files(
    content: map<F, seq<byte>>,
    file: map<H, F>,         // which file a handle was opened on
    position: map<H, nat>)

  /** Every handle is on a known file, at most at its end. */
  ghost predicate Sound<F, H>(s: Files<F, H>) {
    && (forall h :: h in s.file ==> h in s.position)
    && (forall h :: h in s.file ==> s.file[h] in s.content)
    && (forall h :: h in s.file ==> s.position[h] <= |s.content[s.file[h]]|)
  }

  /** `c` with the bytes from `pos` on overwritten by `b`, and longer if they do not fit. */
  function Splice(c: seq<byte>, pos: nat, b: seq<byte>): (r: seq<byte>)
    requires pos <= |c|
    ensures |r| == if pos + |b| > |c| then pos + |b| else |c|
  {
    c[..pos] + b + if pos + |b| < |c| then c[pos + |b|..] else []
  }

  /** Exactly the bytes at `pos` up to `pos + |b|` are written. */
  lemma SpliceChangesExactly(c: seq<byte>, pos: nat, b: seq<byte>)
    requires pos <= |c|
    ensures Splice(c, pos, b)[pos..pos + |b|] == b
    ensures forall i :: 0 <= i < |c| && !(pos <= i < pos + |b|) ==> Splice(c, pos, b)[i] == c[i]
  {
  }

  /** How many bytes a read of `size` gets. */
  function Available(c: seq<byte>, pos: nat, size: nat): (n: nat)
    requires pos <= |c|
    ensures n <= size && pos + n <= |c|
  {
    if size > |c| - pos then |c| - pos else size
  }

  datatype Op<H(==)> = Read(h: H, size: nat) | Write(h: H, data: seq<byte>, memory: bool) | Seek(h: H, offset: nat)

  /** One operation: the new state and, for a read, the bytes it delivered.  A write for which
      the heap has no room and a seek beyond the end change nothing. */
  function Step<F, H>(s: Files<F, H>, op: Op<H>): (Files<F, H>, seq<byte>)
    requires Sound(s) && op.h in s.file
  {
    var pos, c := s.position[op.h], s.content[s.file[op.h]];
    match op
    case Read(h, size) =>
      var n := Available(c, pos, size);
      (s.(position := s.position[h := pos + n]), c[pos..pos + n])
    case Write(h, data, memory) =>
      if pos + |data| > |c| && !memory then (s, [])
      else (s.(content := s.content[s.file[h] := Splice(c, pos, data)], position := s.position[h := pos + |data|]), [])
    case Seek(h, offset) =>
      if offset > |c| then (s, []) else (s.(position := s.position[h := offset]), [])
  }

  lemma StepSound<F, H>(s: Files<F, H>, op: Op<H>)
    requires Sound(s) && op.h in s.file
    ensures var s' := Step(s, op).0;
      Sound(s') && s'.file == s.file && s'.content.Keys == s.content.Keys
    ensures forall f :: f in s.content ==> |Step(s, op).0.content[f]| >= |s.content[f]|
  {
  }

  ghost predicate Opened<F, H>(s: Files<F, H>, ops: seq<Op<H>>) {
    forall i :: 0 <= i < |ops| ==> ops[i].h in s.file
  }

  /** Any run of reads, writes and seeks, through any number of handles, keeps every position
      within its file and never shortens a file. */
  ghost function Run<F, H>(s: Files<F, H>, ops: seq<Op<H>>): (r: Files<F, H>)
    requires Sound(s) && Opened(s, ops)
    ensures Sound(r) && r.file == s.file
    ensures forall f :: f in s.content ==> f in r.content && |r.content[f]| >= |s.content[f]|
    decreases |ops|
  {
    if ops == [] then s
    else
      StepSound(s, ops[0]);
      Run(Step(s, ops[0]).0, ops[1..])
  }

  /** The bytes that handle `h` read during a run. */
  ghost function ReadBy<F, H>(s: Files<F, H>, ops: seq<Op<H>>, h: H): seq<byte>
    requires Sound(s) && Opened(s, ops)
    decreases |ops|
  {
    if ops == [] then []
    else
      StepSound(s, ops[0]);
      (if ops[0].Read? && ops[0].h == h then Step(s, ops[0]).1 else []) + ReadBy(Step(s, ops[0]).0, ops[1..], h)
  }

  /** In `ops` the handle `h` only reads, and nobody writes the file it is on. */
  ghost predicate OnlyReads<F, H>(s: Files<F, H>, ops: seq<Op<H>>, h: H)
    requires Opened(s, ops) && h in s.file
  {
    forall i :: 0 <= i < |ops| ==>
      (ops[i].h == h ==> ops[i].Read?) && (ops[i].Write? ==> s.file[ops[i].h] != s.file[h])
  }

  lemma StepBeside<F, H>(s: Files<F, H>, op: Op<H>, h: H)
    requires Sound(s) && op.h in s.file && h in s.file
    requires (op.h == h ==> op.Read?) && (op.Write? ==> s.file[op.h] != s.file[h])
    ensures var c, p, s' := s.content[s.file[h]], s.position[h], Step(s, op).0;
      && s'.content[s.file[h]] == c && p <= s'.position[h] <= |c|
      && (if op.Read? && op.h == h then Step(s, op).1 else []) == c[p..s'.position[h]]
  {
  }

  /** Consecutive reads through a handle deliver one contiguous slice of the file, whatever
      other handles do to other files or read from this one in between. */
  lemma {:induction false} ReadsAreContiguous<F, H>(s: Files<F, H>, ops: seq<Op<H>>, h: H)
    requires Sound(s) && Opened(s, ops) && h in s.file && OnlyReads(s, ops, h)
    ensures var c, r := s.content[s.file[h]], Run(s, ops);
      && r.content[s.file[h]] == c
      && s.position[h] <= r.position[h] <= |c|
      && ReadBy(s, ops, h) == c[s.position[h]..r.position[h]]
    decreases |ops|
  {
    if ops != [] {
      StepSound(s, ops[0]);
      StepBeside(s, ops[0], h);
      hide Step;
      var s' := Step(s, ops[0]).0;
      ReadsAreContiguous(s', ops[1..], h);
      var c := s.content[s.file[h]];
      JoinSlices(c, s.position[h], s'.position[h], Run(s', ops[1..]).position[h]);
    }
  }

  lemma JoinSlices(c: seq<byte>, p: nat, q: nat, r: nat)
    requires p <= q <= r <= |c|
    ensures c[p..q] + c[q..r] == c[p..r]
  {
  }

  // ------------------------------------------------------------------ what each operation does

  /** A read delivers the bytes from the position on, and fewer than asked for only when it
      reaches the end of the file. */
  lemma ReadShortOnlyAtEnd<F, H>(s: Files<F, H>, h: H, n: nat)
    requires Sound(s) && h in s.file
    ensures var (s', out) := Step(s, Read(h, n));
      var pos, c := s.position[h], s.content[s.file[h]];
      && |out| <= n && pos + |out| <= |c| && (|out| == n || pos + |out| == |c|)
      && out == c[pos..pos + |out|]
      && s' == s.(position := s.position[h := pos + |out|])
  {
  }

  /** How many bytes the reads of `h` ask for in all. */
  ghost function Asked<H>(ops: seq<Op<H>>, h: H): nat
    decreases |ops|
  {
    if ops == [] then 0 else (if ops[0].Read? && ops[0].h == h then ops[0].size else 0) + Asked(ops[1..], h)
  }

  /** Reads deliver, together, what they ask for together, or everything that is left. */
  lemma {:induction false} ReadsDeliver<F, H>(s: Files<F, H>, ops: seq<Op<H>>, h: H)
    requires Sound(s) && Opened(s, ops) && h in s.file && OnlyReads(s, ops, h)
    ensures var c, pos, n := s.content[s.file[h]], s.position[h], Asked(ops, h);
      ReadBy(s, ops, h) == if pos + n <= |c| then c[pos..pos + n] else c[pos..]
    decreases |ops|
  {
    ReadsAreContiguous(s, ops, h);
    EndOfReads(s, ops, h);
  }

  /** Where they leave the handle. */
  lemma {:induction false} EndOfReads<F, H>(s: Files<F, H>, ops: seq<Op<H>>, h: H)
    requires Sound(s) && Opened(s, ops) && h in s.file && OnlyReads(s, ops, h)
    ensures var c, pos, n := s.content[s.file[h]], s.position[h], Asked(ops, h);
      Run(s, ops).position[h] == if pos + n <= |c| then pos + n else |c|
    decreases |ops|
  {
    if ops != [] {
      StepSound(s, ops[0]);
      StepBeside(s, ops[0], h);
      PositionBeside(s, ops[0], h);
      hide Step;
      EndOfReads(Step(s, ops[0]).0, ops[1..], h);
    }
  }

  lemma PositionBeside<F, H>(s: Files<F, H>, op: Op<H>, h: H)
    requires Sound(s) && op.h in s.file && h in s.file && (op.h == h ==> op.Read?)
    ensures var c, pos, n := s.content[s.file[h]], s.position[h], if op.h == h then op.size else 0;
      Step(s, op).0.position[h] == if pos + n <= |c| then pos + n else |c|
  {
    if op.h == h { ReadShortOnlyAtEnd(s, h, op.size); }
  }

  /** A write puts its bytes at the position, moves the handle behind them and changes nothing
      else; it is refused only when the file would have to grow and there is no memory. */
  lemma WriteChangesExactly<F, H>(s: Files<F, H>, h: H, data: seq<byte>, memory: bool)
    requires Sound(s) && h in s.file
    ensures var s', pos, f := Step(s, Write(h, data, memory)).0, s.position[h], s.file[h];
      var c := s.content[f];
      if memory || pos + |data| <= |c| then
        && f in s'.content && |s'.content[f]| == (if pos + |data| <= |c| then |c| else pos + |data|)
        && s'.content[f][pos..pos + |data|] == data
        && (forall i :: 0 <= i < |c| && !(pos <= i < pos + |data|) ==> s'.content[f][i] == c[i])
        && s' == s.(content := s.content[f := s'.content[f]], position := s.position[h := pos + |data|])
      else s' == s
  {
    var f := s.file[h];
    SpliceChangesExactly(s.content[f], s.position[h], data);
  }

  /** Through any handle on the file, seeking to where the bytes were written and reading as
      many gives them back. */
  lemma WrittenIsReadBack<F, H>(s: Files<F, H>, h: H, data: seq<byte>, memory: bool, g: H)
    requires Sound(s) && h in s.file && g in s.file && s.file[g] == s.file[h]
    requires memory || s.position[h] + |data| <= |s.content[s.file[h]]|
    ensures var s1 := Step(s, Write(h, data, memory)).0;
      && Sound(s1) && g in s1.file
      && var s2 := Step(s1, Seek(g, s.position[h])).0;
      Sound(s2) && g in s2.file && Step(s2, Read(g, |data|)).1 == data
  {
    WriteChangesExactly(s, h, data, memory);
    StepSound(s, Write(h, data, memory));
    var s1 := Step(s, Write(h, data, memory)).0;
    SeekThenRead(s1, g, s.position[h], |data|);
    var s2 := Step(s1, Seek(g, s.position[h])).0;
    ReadShortOnlyAtEnd(s2, g, |data|);
  }

  /** A seek within the file, its end included, decides where the next read begins, and one
      beyond it changes nothing. */
  lemma SeekThenRead<F, H>(s: Files<F, H>, h: H, offset: nat, n: nat)
    requires Sound(s) && h in s.file
    ensures var s', c := Step(s, Seek(h, offset)).0, s.content[s.file[h]];
      && Sound(s') && h in s'.file
      && s'.content == s.content && s'.file == s.file
      && (offset > |c| ==> s' == s)
      && (offset <= |c| ==> Step(s', Read(h, n)).1 == if offset + n <= |c| then c[offset..offset + n] else c[offset..])
      && forall g :: g in s.file && g != h ==> s'.position[g] == s.position[g]
  {
    StepSound(s, Seek(h, offset));
    var s' := Step(s, Seek(h, offset)).0;
    ReadShortOnlyAtEnd(s', h, n);
  }
}
