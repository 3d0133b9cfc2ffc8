/** fs/procfs.c: the entries of procfs, linked through `children` and `next`, rebuilt in place. */
module ProcFs {
  import opened Options
  import opened Collections
  import opened Words
  import opened Numerals
  import opened NumberText
  import opened Tokenizing
  import opened CStrings
  import opened Strtok
  import opened ProcDirs
  import Snprintf

  const PROCFS_MAX_PATH: nat := 256

  class Entry {
    const name: string
    const kind: EntryType
    const pid: word
    var children: Entry?
    var next: Entry?

    /** alloc_entry, with the pid that is stored right after. */
    constructor (name: string, kind: EntryType, pid: word)
      ensures this.name == name && this.kind == kind && this.pid == pid && children == null && next == null
    {
      this.name, this.kind, this.pid, children, next := name, kind, pid, null, null;
    }
  }

  // ------------------------------------------------------------------ lists of entries

  /** Entry `i` of the list, null past its end. */
  function Item(s: seq<Entry>, i: int): Entry? {
    if 0 <= i < |s| then s[i] else null
  }

  /** The list that starts at `first` is `s`. */
  ghost predicate Linked(first: Entry?, s: seq<Entry>)
    reads s
  {
    first == Item(s, 0) && forall i :: 0 <= i < |s| ==> s[i].next == Item(s, i + 1)
  }

  /** The lists below all entries: their members are entries themselves, in one list only, and
      the root is in none.  An entry that has been freed may remain as long as no list names it. */
  ghost predicate Shape(kids: map<Entry, seq<Entry>>, root: Entry) {
    && root in kids
    && (forall e :: e in kids ==> ListOk(kids, root, e))
    && (forall e, f :: e in kids && f in kids && e != f ==> Apart(kids[e], kids[f]))
  }

  ghost predicate ListOk(kids: map<Entry, seq<Entry>>, root: Entry, e: Entry)
    requires e in kids
  {
    Distinct(kids[e]) && root !in kids[e] && forall c :: c in kids[e] ==> c in kids
  }

  ghost predicate Apart(s: seq<Entry>, t: seq<Entry>) {
    forall c :: c in s ==> c !in t
  }

  /** The pointers spell out those lists. */
  ghost predicate Holds(kids: map<Entry, seq<Entry>>)
    reads kids.Keys
  {
    forall e :: e in kids ==> (forall c :: c in kids[e] ==> c in kids.Keys) && Linked(e.children, kids[e])
  }

  ghost function InfoOf(e: Entry): Info {
    Info(e.name, e.kind, e.pid)
  }

  ghost function Infos(s: seq<Entry>): (r: seq<Info>)
    ensures |r| == |s| && forall i :: 0 <= i < |s| ==> r[i] == InfoOf(s[i])
  {
    seq(|s|, i requires 0 <= i < |s| => InfoOf(s[i]))
  }

  /** The entries of a list that belong to no process. */
  ghost function Global(s: seq<Entry>): (r: seq<Entry>)
    ensures forall x :: x in r ==> x in s
  {
    if s == [] then [] else (if s[0].pid == 0 then [s[0]] else []) + Global(s[1..])
  }

  lemma {:induction false} GlobalInfos(s: seq<Entry>)
    ensures Infos(Global(s)) == Others(Infos(s))
  {
    if s != [] {
      GlobalInfos(s[1..]);
      assert Infos(s)[1..] == Infos(s[1..]);
      assert Infos(s)[0] == InfoOf(s[0]);
    }
  }

  lemma {:induction false} GlobalDistinct(s: seq<Entry>)
    requires Distinct(s)
    ensures Distinct(Global(s))
  {
    if s != [] {
      GlobalDistinct(s[1..]);
      assert s[0] !in s[1..];
    }
  }

  // ------------------------------------------------------------------ taking entries out

  /** Leave out the entry that comes after `prev`, or after the root when there is no `prev`. */
  method Unlink(root: Entry, prev: Entry?, next: Entry?, ghost k: seq<Entry>, ghost c: Entry, ghost rest: seq<Entry>)
    requires Linked(root.children, k + [c] + rest) && Distinct(k + [c] + rest) && root !in k + [c] + rest
    requires prev == Item(k, |k| - 1) && next == Item(rest, 0)
    modifies root`children, (set x | x in k)`next
    ensures Linked(root.children, k + rest)
  {
    if prev != null {
      UnlinkAfter(prev, root.children, next, k, c, rest);
    } else {
      assert [] + [c] + rest == [c] + rest && [] + rest == rest;
      root.children := next;
      ListTail(c, rest);
    }
  }

  method UnlinkAfter(prev: Entry, ghost first: Entry?, next: Entry?, ghost k: seq<Entry>, ghost c: Entry, ghost rest: seq<Entry>)
    requires Linked(first, k + [c] + rest) && Distinct(k + [c] + rest)
    requires k != [] && prev == k[|k| - 1] && next == Item(rest, 0)
    modifies prev`next
    ensures Linked(first, k + rest)
  {
    ghost var s, t := k + [c] + rest, k + rest;
    assert s[|k| - 1] == prev;
    prev.next := next;
    forall i | 0 <= i < |t| ensures t[i].next == Item(t, i + 1) {
      if i < |k| - 1 {
        assert s[i] == t[i] && t[i + 1] == s[i + 1];
        assert old(s[i].next) == Item(s, i + 1);
      } else if i >= |k| {
        assert s[i + 1] == t[i] && Item(t, i + 1) == Item(s, i + 2);
        assert old(s[i + 1].next) == Item(s, i + 2);
      }
    }
  }

  lemma ListTail(c: Entry, rest: seq<Entry>)
    requires forall i :: 0 <= i < |[c] + rest| ==> ([c] + rest)[i].next == Item([c] + rest, i + 1)
    ensures Linked(Item(rest, 0), rest)
  {
    var s := [c] + rest;
    forall i | 0 <= i < |rest| ensures rest[i].next == Item(rest, i + 1) { assert s[i + 1].next == Item(s, i + 2); }
  }

  /** The list `k + rest` of entries of `s`, whose first part has been looked at. */
  ghost predicate Partial(s: seq<Entry>, k: seq<Entry>, rest: seq<Entry>) {
    && Distinct(k + rest) && (forall x :: x in k + rest ==> x in s) && k + Global(rest) == Global(s)
  }

  /** The first loop of procfs_update: what is left are the entries without a process. */
  method DropProcesses(root: Entry, ghost s: seq<Entry>)
    requires Linked(root.children, s) && Distinct(s) && root !in s
    modifies root`children, (set x | x in s)`next
    ensures Linked(root.children, Global(s))
  {
    hide Linked, Distinct, Partial, Global;
    var prev, cur := null, root.children;
    ghost var k, rest: seq<Entry> := [], s;
    FirstOf(cur, s);
    NothingDone(s);
    while cur != null
      invariant Linked(root.children, k + rest) && Partial(s, k, rest)
      invariant prev == Item(k, |k| - 1) && cur == Item(rest, 0)
      decreases |rest|
    {
      ghost var c, more := rest[0], rest[1..];
      OneDone(s, k, rest, root);
      NextOf(root.children, k + rest, |k|);
      var next := cur.next;
      if cur.pid > 0 {
        Unlink(root, prev, next, k, c, more);
      } else {
        prev := cur;
        k := k + [c];
      }
      rest := more;
      cur := next;
    }
    AllDone(s, k, rest);
  }

  lemma NothingDone(s: seq<Entry>)
    requires Distinct(s)
    ensures [] + s == s && Partial(s, [], s)
  {
    assert [] + s == s;
  }

  lemma OneDone(s: seq<Entry>, k: seq<Entry>, rest: seq<Entry>, root: Entry)
    requires Partial(s, k, rest) && rest != [] && root !in s
    ensures k + rest == k + [rest[0]] + rest[1..] && Distinct(k + rest) && root !in k + rest
    ensures (k + rest)[|k|] == rest[0] && Item(k + rest, |k| + 1) == Item(rest[1..], 0)
    ensures forall x :: x in k ==> x in s
    ensures Partial(s, if rest[0].pid > 0 then k else k + [rest[0]], rest[1..])
  {
    var c, more := rest[0], rest[1..];
    assert rest == [c] + more;
    assert k + rest == k + [c] + more == (k + [c]) + more;
    if c.pid > 0 {
      WithoutOne(k, c, more);
    } else {
      assert k + ([c] + Global(more)) == (k + [c]) + Global(more);
    }
  }

  lemma AllDone(s: seq<Entry>, k: seq<Entry>, rest: seq<Entry>)
    requires Partial(s, k, rest) && rest == []
    ensures k + rest == Global(s)
  {
  }

  lemma FirstOf(first: Entry?, s: seq<Entry>)
    requires Linked(first, s)
    ensures first == Item(s, 0)
  {
  }

  lemma NextOf(first: Entry?, s: seq<Entry>, i: nat)
    requires Linked(first, s) && i < |s|
    ensures s[i].next == Item(s, i + 1)
  {
  }

  lemma WithoutOne(k: seq<Entry>, c: Entry, rest: seq<Entry>)
    requires Distinct(k + [c] + rest)
    ensures Distinct(k + rest)
  {
    var s, t := k + [c] + rest, k + rest;
    forall i, j | 0 <= i < j < |t| ensures t[i] != t[j] {
      var i', j' := if i < |k| then i else i + 1, if j < |k| then j else j + 1;
      assert t[i] == s[i'] && t[j] == s[j'];
    }
  }

  // ------------------------------------------------------------------ putting entries in

  /** add_entry: in front of the list. */
  method AddEntry(parent: Entry, child: Entry, ghost s: seq<Entry>)
    requires Linked(parent.children, s) && child !in s && parent !in s && parent != child
    modifies parent`children, child`next
    ensures Linked(parent.children, [child] + s)
  {
    child.next := parent.children;
    parent.children := child;
  }

  /** `snprintf(name, 16, "%u", pid)`: every pid fits. */
  method PidName(pid: word) returns (name: string)
    ensures name == Numeral(pid, 10)
  {
    hide Numeral, Wrote, CStr, Snprintf.Fits, Snprintf.Formatted;
    PidText(pid);
    var buf := new char[16];
    ghost var was := buf[..];
    var n := Snprintf.Snprintf(buf, 16, "%u", [Snprintf.Uint(pid)]);
    WroteString(was, buf[..], 0, Numeral(pid, 10));
    name := CStr(buf[..], 0);
  }

  lemma PidText(pid: word)
    ensures Snprintf.Fits("%u", [Snprintf.Uint(pid)])
    ensures Cut(Snprintf.Formatted("%u", [Snprintf.Uint(pid)]), 15) == Numeral(pid, 10) && '\0' !in Numeral(pid, 10)
  {
    hide Numeral, DigitVal;
    Snprintf.PartText('u', Snprintf.Uint(pid), "");
    assert ['%', 'u'] + "" == "%u";
    ThirtyTwoBits(pid);
    NumeralValue(pid, 10);
    Snprintf.NoNulInDigits(Numeral(pid, 10), 10);
  }

  ghost predicate Leaves(s: seq<Entry>)
    reads s
  {
    forall f :: f in s ==> f.children == null
  }

  /** alloc_entry and add_entry, when there is memory for `room` entries. */
  method AddFile(dir: Entry, name: string, kind: EntryType, pid: word, room: nat, ghost files: seq<Entry>)
      returns (left: nat, ghost more: seq<Entry>)
    requires Linked(dir.children, files) && Distinct(files) && Leaves(files) && dir !in files
    modifies dir`children
    ensures Linked(dir.children, more) && Distinct(more) && Leaves(more) && dir !in more
    ensures forall f :: f in more ==> f in files || fresh(f)
    ensures left == Minus(room, 1) && Infos(more) == if room > 0 then [Info(name, kind, pid)] + Infos(files) else Infos(files)
  {
    hide Infos, Distinct, Linked, Leaves;
    left, more := room, files;
    if room == 0 { return; }
    var e := new Entry(name, kind, pid);
    left := room - 1;
    AddEntry(dir, e, files);
    more := [e] + files;
    OneInFront(e, files);
  }

  lemma OneInFront(e: Entry, files: seq<Entry>)
    ensures Infos([e] + files) == [InfoOf(e)] + Infos(files)
    ensures Distinct(files) && e !in files ==> Distinct([e] + files)
    ensures Leaves(files) && e.children == null ==> Leaves([e] + files)
  {
  }

  /** create_pid_dir: the directory, named after the process in decimal, and its five files, as
      far as there is memory for them. */
  method CreatePidDir(pid: word, room: nat) returns (dir: Entry?, left: nat, ghost files: seq<Entry>)
    ensures left == Minus(room, 6) && (dir == null <==> room == 0)
    ensures dir != null ==> InfoOf(dir) == DirOf(pid) && dir.next == null && fresh(dir)
    ensures dir != null ==> Linked(dir.children, files) && Distinct(files) && Leaves(files) && dir !in files
    ensures dir != null ==> (forall f :: f in files ==> fresh(f)) && Infos(files) == Created(PidEntries(pid), room - 1)
  {
    hide Numeral;
    var name := PidName(pid);
    dir, left, files := null, room, [];
    if room == 0 { return; }
    var d := new Entry(name, Dir, pid);
    left, files := AddPidFiles(d, room - 1);
    dir := d;
  }

  /** Of the entries `all`, to be created below `dir` with memory for `room` of them, it is the
      turn of number `i`. */
  ghost predicate PartMade(dir: Entry, all: seq<Info>, room: nat, i: nat, left: nat, s: seq<Entry>)
    reads dir, s
  {
    && Linked(dir.children, s) && Distinct(s) && Leaves(s) && dir !in s
    && i <= |all| && left == Minus(room, i) && Infos(s) == Created(all[..i], room)
  }

  method AddNext(dir: Entry, name: string, kind: EntryType, pid: word, left: nat,
                 ghost all: seq<Info>, ghost room: nat, ghost i: nat, ghost s: seq<Entry>)
      returns (left': nat, ghost t: seq<Entry>)
    requires PartMade(dir, all, room, i, left, s) && i < |all| && all[i] == Info(name, kind, pid)
    modifies dir`children
    ensures PartMade(dir, all, room, i + 1, left', t) && forall e :: e in t ==> e in s || fresh(e)
  {
    hide Linked, Distinct, Leaves, Infos, Created;
    CreatedMore(all, i, room);
    left', t := AddFile(dir, name, kind, pid, left, s);
  }

  lemma NoneMade(dir: Entry, all: seq<Info>, room: nat)
    requires dir.children == null
    ensures PartMade(dir, all, room, 0, room, [])
  {
  }

  lemma AllMade(dir: Entry, all: seq<Info>, room: nat, left: nat, s: seq<Entry>)
    requires PartMade(dir, all, room, |all|, left, s)
    ensures Linked(dir.children, s) && Distinct(s) && Leaves(s) && dir !in s
    ensures left == Minus(room, |all|) && Infos(s) == Created(all, room)
  {
    assert all[..|all|] == all;
  }

  method AddPidFiles(dir: Entry, room: nat) returns (left: nat, ghost files: seq<Entry>)
    requires dir.children == null
    modifies dir`children
    ensures Linked(dir.children, files) && Distinct(files) && Leaves(files) && dir !in files
    ensures left == Minus(room, 5) && (forall f :: f in files ==> fresh(f)) && Infos(files) == Created(PidEntries(dir.pid), room)
  {
    hide PartMade, Linked, Distinct, Leaves, Infos, Created, Minus;
    ghost var all := PidEntries(dir.pid);
    NoneMade(dir, all, room);
    left, files := AddNext(dir, "status", File, dir.pid, room, all, room, 0, []);
    left, files := AddNext(dir, "stat", File, dir.pid, left, all, room, 1, files);
    left, files := AddNext(dir, "cmdline", File, dir.pid, left, all, room, 2, files);
    left, files := AddNext(dir, "maps", File, dir.pid, left, all, room, 3, files);
    left, files := AddNext(dir, "fd", Dir, dir.pid, left, all, room, 4, files);
    AllMade(dir, all, room, left, files);
  }

  // ------------------------------------------------------------------ procfs_init

  /** The root with its global files and the link to the current process, as far as there is
      memory for them. */
  method ProcfsInit(room: nat) returns (root: Entry?, left: nat, ghost kids: map<Entry, seq<Entry>>)
    ensures (root == null <==> room == 0) && left == Minus(room, 12)
    ensures root != null ==> Shape(kids, root) && Holds(kids) && fresh(kids.Keys)
    ensures root != null ==> Infos(kids[root]) == Created(GlobalEntries(), room - 1)
  {
    hide GlobalFiles, GlobalEntries, Infos, Distinct, Linked, Leaves, Created;
    root, left, kids := null, room, map[];
    if room == 0 { return; }
    var r := new Entry("/", Dir, 0);
    ghost var s;
    left, s := AddGlobals(r, room - 1);
    kids := (map e | e in s :: []) + map[r := s];
    forall e | e in kids ensures ListOk(kids, r, e) && Linked(e.children, kids[e]) { OneLevel(r, s, e); }
    root := r;
  }

  method AddGlobals(root: Entry, room: nat) returns (left: nat, ghost s: seq<Entry>)
    requires root.children == null
    modifies root`children
    ensures Linked(root.children, s) && Distinct(s) && Leaves(s) && root !in s && (forall e :: e in s ==> fresh(e))
    ensures left == Minus(room, 11) && Infos(s) == Created(GlobalEntries(), room)
  {
    hide PartMade, Linked, Distinct, Leaves, Infos, Created, Minus, GlobalEntries;
    var names := GlobalFiles();
    ghost var all := GlobalEntries();
    NoneMade(root, all, room);
    left, s := room, [];
    for i := 0 to |names|
      invariant PartMade(root, all, room, i, left, s) && (forall e :: e in s ==> fresh(e))
    {
      left, s := AddNext(root, names[i], File, 0, left, all, room, i, s);
    }
    left, s := AddNext(root, "self", Link, 0, left, all, room, |names|, s);
    AllMade(root, all, room, left, s);
  }

  lemma OneLevel(root: Entry, s: seq<Entry>, e: Entry)
    requires Distinct(s) && Leaves(s) && (e == root || e in s)
    ensures e == root ==> Distinct(s)
    ensures e != root ==> Distinct<Entry>([]) && Linked(e.children, [])
  {
  }

  // ------------------------------------------------------------------ procfs_update

  /** The lists after a directory with its files has been put below the root. */
  ghost function Grown(kids: map<Entry, seq<Entry>>, root: Entry, dir: Entry, files: seq<Entry>): map<Entry, seq<Entry>> {
    var old_list := if root in kids then kids[root] else [];
    (map f | f in files :: []) + kids[root := [dir] + old_list][dir := files]
  }

  /** The new list of one entry. */
  ghost function ListAfter(kids: map<Entry, seq<Entry>>, root: Entry, dir: Entry, files: seq<Entry>, e: Entry): seq<Entry>
    requires root in kids
  {
    if e == dir then files else if e == root then [dir] + kids[root] else if e in kids then kids[e] else []
  }

  lemma GrownAt(kids: map<Entry, seq<Entry>>, root: Entry, dir: Entry, files: seq<Entry>, e: Entry)
    requires root in kids
    ensures var g := Grown(kids, root, dir, files);
      (e in g <==> e in kids || e == dir || e in files) && (e in g ==> g[e] == ListAfter(kids, root, dir, files, e))
  {
  }

  /** The directory and its files are new. */
  ghost predicate AllNew(kids: map<Entry, seq<Entry>>, dir: Entry, files: seq<Entry>) {
    dir !in kids && dir !in files && Distinct(files) && forall f :: f in files ==> f !in kids
  }

  lemma GrownShape(kids: map<Entry, seq<Entry>>, root: Entry, dir: Entry, files: seq<Entry>)
    requires Shape(kids, root) && AllNew(kids, dir, files)
    ensures Shape(Grown(kids, root, dir, files), root)
  {
    hide Grown, ListOk, Apart, ListAfter, Distinct;
    var g := Grown(kids, root, dir, files);
    GrownAt(kids, root, dir, files, root);
    forall e | e in g ensures ListOk(g, root, e) { GrownListOk(kids, root, dir, files, e); }
    forall e, f | e in g && f in g && e != f ensures Apart(g[e], g[f]) {
      GrownAt(kids, root, dir, files, e);
      GrownAt(kids, root, dir, files, f);
      GrownApart(kids, root, dir, files, e, f);
    }
  }

  lemma GrownListOk(kids: map<Entry, seq<Entry>>, root: Entry, dir: Entry, files: seq<Entry>, e: Entry)
    requires Shape(kids, root) && AllNew(kids, dir, files) && e in Grown(kids, root, dir, files)
    ensures ListOk(Grown(kids, root, dir, files), root, e)
  {
    hide Grown;
    var g := Grown(kids, root, dir, files);
    assert ListOk(kids, root, root);
    assert e in kids ==> ListOk(kids, root, e);
    GrownAt(kids, root, dir, files, e);
    forall c | c in g[e] ensures c in g { GrownAt(kids, root, dir, files, c); }
  }

  lemma GrownApart(kids: map<Entry, seq<Entry>>, root: Entry, dir: Entry, files: seq<Entry>, e: Entry, f: Entry)
    requires Shape(kids, root) && AllNew(kids, dir, files) && e != f
    ensures Apart(ListAfter(kids, root, dir, files, e), ListAfter(kids, root, dir, files, f))
  {
    hide Grown, Distinct;
    assert ListOk(kids, root, root);
    assert e in kids ==> ListOk(kids, root, e);
    assert f in kids ==> ListOk(kids, root, f);
    assert e in kids && f in kids ==> Apart(kids[e], kids[f]);
  }

  /** A process directory is created and becomes the first entry below the root. */
  method AddPidDir(root: Entry, pid: word, room: nat, ghost kids: map<Entry, seq<Entry>>)
      returns (left: nat, ghost g: map<Entry, seq<Entry>>, ghost dir: Entry, ghost files: seq<Entry>)
    requires Shape(kids, root) && Holds(kids) && room > 0
    modifies root`children
    ensures left == Minus(room, 6)
    ensures g == Grown(kids, root, dir, files) && AllNew(kids, dir, files) && Shape(g, root) && Holds(g)
    ensures InfoOf(dir) == DirOf(pid) && Infos(files) == Created(PidEntries(pid), room - 1)
  {
    hide Shape, Grown, Infos, InfoOf, Distinct, Numeral, PidEntries, Created;
    RootList(kids, root);
    var d;
    d, left, files := CreatePidDir(pid, room);
    dir := d;
    g := Grown(kids, root, dir, files);
    assert Linked(root.children, kids[root]);
    AddEntry(root, d, kids[root]);
    assert AllNew(kids, dir, files);
    GrownShape(kids, root, dir, files);
    forall e | e in g ensures (forall c :: c in g[e] ==> c in g.Keys) && Linked(e.children, g[e]) {
      GrownAt(kids, root, dir, files, e);
      MembersIn(g, root, e);
      if e in kids && e != root { assert old(Linked(e.children, kids[e])); }
    }
  }

  lemma MembersIn(kids: map<Entry, seq<Entry>>, root: Entry, e: Entry)
    requires Shape(kids, root) && e in kids
    ensures forall c :: c in kids[e] ==> c in kids
  {
    assert ListOk(kids, root, e);
  }

  lemma RootList(kids: map<Entry, seq<Entry>>, root: Entry)
    requires Shape(kids, root)
    ensures root in kids && Distinct(kids[root]) && root !in kids[root]
  {
    assert ListOk(kids, root, root);
  }

  /** The directory has the first `c` of its files. */
  ghost predicate FilesOk(kids: map<Entry, seq<Entry>>, d: Entry, c: nat) {
    d in kids && Infos(kids[d]) == Created(PidEntries(d.pid), c)
  }

  /** The first `n` entries below the root are process directories; they were created one after
      the other, with memory for `room` entries, and all have their files except perhaps the last
      one, which is the first in the list. */
  ghost predicate AllFiles(kids: map<Entry, seq<Entry>>, root: Entry, n: nat, room: nat)
    requires root in kids
  {
    n <= |kids[root]| && forall j :: 0 <= j < n ==> FilesOk(kids, kids[root][j], Minus(room, 6 * (n - 1 - j) + 1))
  }

  lemma GrownFiles(kids: map<Entry, seq<Entry>>, root: Entry, dir: Entry, files: seq<Entry>, n: nat, room: nat)
    requires Shape(kids, root) && AllNew(kids, dir, files) && AllFiles(kids, root, n, room)
    requires Infos(files) == Created(PidEntries(dir.pid), Minus(room, 6 * n + 1))
    ensures root in Grown(kids, root, dir, files) && Grown(kids, root, dir, files)[root] == [dir] + kids[root]
    ensures AllFiles(Grown(kids, root, dir, files), root, n + 1, room)
  {
    hide Grown, Infos, PidEntries, Created, Minus;
    var g := Grown(kids, root, dir, files);
    GrownAt(kids, root, dir, files, root);
    GrownAt(kids, root, dir, files, dir);
    RootList(kids, root);
    forall j | 0 <= j < n + 1 ensures FilesOk(g, g[root][j], Minus(room, 6 * (n - j) + 1)) {
      if j > 0 {
        var d := kids[root][j - 1];
        assert g[root][j] == d && d in kids[root] && FilesOk(kids, d, Minus(room, 6 * (n - 1 - (j - 1)) + 1));
        GrownAt(kids, root, dir, files, d);
      }
    }
  }

  /** The lists when the processes have been taken out below the root. */
  lemma DroppedShape(kids: map<Entry, seq<Entry>>, root: Entry)
    requires Shape(kids, root)
    ensures Shape(kids[root := Global(kids[root])], root)
  {
    var k := kids[root := Global(kids[root])];
    RootList(kids, root);
    GlobalDistinct(kids[root]);
    forall e | e in k ensures ListOk(k, root, e) { assert ListOk(kids, root, e) && ListOk(kids, root, root); }
    forall e, f | e in k && f in k && e != f ensures Apart(k[e], k[f]) { assert Apart(kids[e], kids[f]); }
  }

  /** The first half of procfs_update. */
  method DropAll(root: Entry, ghost kids: map<Entry, seq<Entry>>) returns (ghost k: map<Entry, seq<Entry>>)
    requires Shape(kids, root) && Holds(kids)
    modifies root`children, kids.Keys`next
    ensures k == kids[root := Global(kids[root])] && Shape(k, root) && Holds(k) && SameElsewhere(kids, k, root)
  {
    hide Shape, Distinct;
    RootList(kids, root);
    DroppedShape(kids, root);
    k := kids[root := Global(kids[root])];
    DropProcesses(root, kids[root]);
    forall e | e in k ensures (forall c :: c in k[e] ==> c in k.Keys) && Linked(e.children, k[e]) {
      MembersIn(k, root, e);
      if e != root {
        ListsApart(kids, root, e);
        assert old(Linked(e.children, kids[e]));
      }
    }
  }

  lemma ListsApart(kids: map<Entry, seq<Entry>>, root: Entry, e: Entry)
    requires Shape(kids, root) && e in kids && e != root
    ensures forall c :: c in kids[e] ==> c !in kids[root]
  {
    assert Apart(kids[e], kids[root]);
  }

  /** All lists but that of the root are as before. */
  ghost predicate SameElsewhere(kids: map<Entry, seq<Entry>>, g: map<Entry, seq<Entry>>, root: Entry) {
    forall e :: e in kids && e != root ==> e in g && g[e] == kids[e]
  }

  lemma GrownElsewhere(kids: map<Entry, seq<Entry>>, root: Entry, dir: Entry, files: seq<Entry>)
    requires root in kids && AllNew(kids, dir, files)
    ensures SameElsewhere(kids, Grown(kids, root, dir, files), root)
  {
    hide Grown;
    forall e | e in kids && e != root ensures e in Grown(kids, root, dir, files) && Grown(kids, root, dir, files)[e] == kids[e] {
      GrownAt(kids, root, dir, files, e);
    }
  }

  lemma SameAgain(a: map<Entry, seq<Entry>>, b: map<Entry, seq<Entry>>, c: map<Entry, seq<Entry>>, root: Entry)
    requires SameElsewhere(a, b, root) && SameElsewhere(b, c, root)
    ensures SameElsewhere(a, c, root)
  {
  }

  /** Below the root are `n` process directories described by `dirs`, and then `rest`. */
  ghost predicate Built(g: map<Entry, seq<Entry>>, root: Entry, n: nat, dirs: seq<Info>, rest: seq<Entry>, room: nat) {
    && Shape(g, root) && root in g && AllFiles(g, root, n, room)
    && n <= |g[root]| && g[root][n..] == rest && Infos(g[root]) == dirs + Infos(rest)
  }

  /** One process of the table. */
  method AddProcess(root: Entry, pid: word, room: nat, ghost was: map<Entry, seq<Entry>>,
                    ghost n: nat, ghost dirs: seq<Info>, ghost rest: seq<Entry>, ghost start: nat)
      returns (left: nat, ghost g: map<Entry, seq<Entry>>)
    requires Built(was, root, n, dirs, rest, start) && Holds(was) && (room > 0 ==> start == room + 6 * n)
    modifies root`children
    ensures left == Minus(room, 6) && Holds(g) && SameElsewhere(was, g, root)
    ensures if room == 0 then g == was else Built(g, root, n + 1, [DirOf(pid)] + dirs, rest, start)
  {
    hide Shape, Holds, Infos, Grown, AllNew, AllFiles, Numeral, SameElsewhere, Created;
    left, g := 0, was;
    if room == 0 {
      SameAtAll(was, root);
      return;
    }
    ghost var dir, files;
    left, g, dir, files := AddPidDir(root, pid, room, was);
    GrownFiles(was, root, dir, files, n, start);
    GrownElsewhere(was, root, dir, files);
    OneMore(dir, was[root], n, dirs, [InfoOf(dir)] + dirs, rest);
  }

  lemma SameAtAll(kids: map<Entry, seq<Entry>>, root: Entry)
    ensures SameElsewhere(kids, kids, root)
  {
  }

  /** procfs_update, with memory for `room` more entries: below the root come the directories of
      the live processes, the last one of the table first, and then all entries that belong to no
      process, as they were.  The memory of the entries taken out is not given back. */
  method ProcfsUpdate(root: Entry, table: seq<Proc>, room: nat, ghost kids: map<Entry, seq<Entry>>)
      returns (left: nat, ghost g: map<Entry, seq<Entry>>)
    requires Shape(kids, root) && Holds(kids)
    modifies root`children, kids.Keys`next
    ensures Shape(g, root) && Holds(g) && left == Minus(room, 6 * |Live(table)|)
    ensures Infos(g[root]) == Update(table, Infos(kids[root]), room)
    ensures var n := |Served(Live(table), room)|;
      AllFiles(g, root, n, room) && g[root][n..] == Global(kids[root])
    ensures SameElsewhere(kids, g, root)
  {
    hide Shape, Holds, Infos, Global, Live, Dirs, AllFiles, Built, Numeral, SameElsewhere, Served;
    RootList(kids, root);
    g := DropAll(root, kids);
    GlobalInfos(kids[root]);
    ghost var rest := Global(kids[root]);
    NoneYet(table, g, root, room);
    left := room;
    for i := 0 to |table|
      invariant SoFar(g, root, Live(table[..i]), rest, room, left) && Holds(g)
      invariant SameElsewhere(kids, g, root)
    {
      assert table[..i + 1] == table[..i] + [table[i]];
      ghost var pids := Live(table[..i]);
      LiveMore(table[..i], table[i]);
      if table[i].pid > 0 && !table[i].dead {
        ghost var was, before := g, left;
        ServedMore(pids, table[i].pid, room);
        DirsMore(pids, table[i].pid);
        left, g := AddProcess(root, table[i].pid, left, was, |Served(pids, room)|, Dirs(Served(pids, room)), rest, room);
        SameAgain(kids, was, g, root);
      }
    }
    assert table[..|table|] == table;
    AllBuilt(g, root, |Served(Live(table), room)|, Dirs(Served(Live(table), room)), rest, room);
  }

  /** The state of the loop when the processes `pids` have been dealt with. */
  ghost predicate SoFar(g: map<Entry, seq<Entry>>, root: Entry, pids: seq<word>, rest: seq<Entry>, room: nat, left: nat) {
    Built(g, root, |Served(pids, room)|, Dirs(Served(pids, room)), rest, room) && left == Minus(room, 6 * |pids|)
  }

  lemma AllBuilt(g: map<Entry, seq<Entry>>, root: Entry, n: nat, dirs: seq<Info>, rest: seq<Entry>, room: nat)
    requires Built(g, root, n, dirs, rest, room)
    ensures Shape(g, root) && AllFiles(g, root, n, room) && g[root][n..] == rest && Infos(g[root]) == dirs + Infos(rest)
  {
  }

  lemma NoneYet(table: seq<Proc>, g: map<Entry, seq<Entry>>, root: Entry, room: nat)
    requires Shape(g, root)
    ensures root in g && SoFar(g, root, Live(table[..0]), g[root], room, room)
  {
    assert Live(table[..0]) == [] && Dirs([]) == [];
  }

  lemma OneMore(dir: Entry, s: seq<Entry>, n: nat, dirs: seq<Info>, dirs': seq<Info>, rest: seq<Entry>)
    requires n <= |s| && s[n..] == rest && Infos(s) == dirs + Infos(rest) && dirs' == [InfoOf(dir)] + dirs
    ensures ([dir] + s)[n + 1..] == rest && Infos([dir] + s) == dirs' + Infos(rest)
  {
    assert Infos([dir] + s) == [InfoOf(dir)] + Infos(s);
  }

  // ------------------------------------------------------------------ find_entry

  /** The components find_entry walks: its copy of the path is cut up from the second character
      on, whatever the first one is. */
  function ProcComps(path: string): seq<string> {
    if path == "" then [] else Tokens(path[1..], "/")
  }

  /** A path need not begin with a slash, but its first character never counts. */
  lemma FirstCharacterIgnored(c: char, path: string)
    ensures ProcComps([c] + path) == Tokens(path, "/")
  {
    assert ([c] + path)[1..] == path;
  }

  /** The first entry of that name. */
  ghost function Pick(s: seq<Entry>, w: string): Option<Entry> {
    if s == [] then None else if s[0].name == w then Some(s[0]) else Pick(s[1..], w)
  }

  lemma {:induction false} PickIsNamed(s: seq<Entry>, w: string)
    ensures match Pick(s, w) case None => Named(Infos(s), w) == None
            case Some(e) => e in s && Named(Infos(s), w) == Some(InfoOf(e))
  {
    if s != [] {
      assert Infos(s)[0] == InfoOf(s[0]) && Infos(s)[1..] == Infos(s[1..]);
      PickIsNamed(s[1..], w);
    }
  }

  ghost function Walk(kids: map<Entry, seq<Entry>>, e: Entry, ws: seq<string>): Option<Entry>
    decreases |ws|
  {
    if ws == [] then Some(e)
    else match Pick(if e in kids then kids[e] else [], ws[0])
      case None => None
      case Some(c) => Walk(kids, c, ws[1..])
  }

  /** The pid stored while walking: that of the last entry on the way that has one. */
  ghost function PidOnWalk(kids: map<Entry, seq<Entry>>, e: Entry, ws: seq<string>, pid: word): word
    decreases |ws|
  {
    if ws == [] then pid
    else match Pick(if e in kids then kids[e] else [], ws[0])
      case None => pid
      case Some(c) => PidOnWalk(kids, c, ws[1..], if c.pid > 0 then c.pid else pid)
  }

  /** One more component: the pid is that of the entry it leads to, if it has one.  Where there is
      no such entry the pid of the directory stays, although nothing is found. */
  lemma {:induction false} PidOfLast(kids: map<Entry, seq<Entry>>, e: Entry, ws: seq<string>, w: string, pid: word)
    requires Walk(kids, e, ws).Some?
    ensures PidOnWalk(kids, e, ws + [w], pid) ==
      match Walk(kids, e, ws + [w])
      case None => PidOnWalk(kids, e, ws, pid)
      case Some(c) => if c.pid > 0 then c.pid else PidOnWalk(kids, e, ws, pid)
    decreases |ws|
  {
    hide Pick;
    if ws == [] {
      assert [w][1..] == [] && ws + [w] == [w];
    } else {
      assert (ws + [w])[1..] == ws[1..] + [w];
      var c := Pick(if e in kids then kids[e] else [], ws[0]).value;
      PidOfLast(kids, c, ws[1..], w, if c.pid > 0 then c.pid else pid);
    }
  }

  /** The inner loop of find_entry. */
  method FindChild(e: Entry, w: string, ghost s: seq<Entry>) returns (c: Entry?)
    requires Linked(e.children, s)
    ensures Pick(s, w) == if c == null then None else Some(c)
  {
    c := e.children;
    ghost var i := 0;
    assert s[0..] == s;
    while c != null
      invariant i <= |s| && c == Item(s, i) && Pick(s[i..], w) == Pick(s, w)
      decreases |s| - i
    {
      assert s[i..][1..] == s[i + 1..];
      if c.name == w { return; }
      c, i := c.next, i + 1;
    }
  }

  /** `strtok(tmp + 1, "/")` on a copy of the path. */
  method FirstComponent(path: string) returns (strtok: Tokenizer, w: Option<string>)
    requires |path| < PROCFS_MAX_PATH - 1 && '\0' !in path
    ensures fresh(strtok) && fresh(strtok.mem) && strtok.Callable(null)
    ensures ProcComps(path) == if w.None? then [] else [w.value] + Remaining(strtok)
  {
    hide Tokens;
    var tmp := new char[256];
    Strncpy(tmp, path, 255);
    AfterFirst(tmp[..], path);
    NoTokens("/");
    strtok := new Tokenizer();
    strtok.mem, strtok.ptr := tmp, 1;
    assert Remaining(strtok) == ProcComps(path);
    w := NextComponent(strtok);
  }

  lemma AfterFirst(m: seq<char>, path: string)
    requires |path| < 255 && |m| == 256 && '\0' !in path
    requires forall k :: 0 <= k < 255 ==> m[k] == if k < |path| then path[k] else '\0'
    ensures IsString(m, 1) && CStr(m, 1) == if path == "" then "" else path[1..]
  {
    var s := if path == "" then "" else path[1..];
    assert m[1..1 + |s|] == s;
    CStrIs(m, 1, s);
  }

  /** find_entry.  The buffer of the copy is only terminated for paths of less than 255
      characters. */
  method FindEntry(root: Entry, path: string, ghost kids: map<Entry, seq<Entry>>, pidBefore: word) returns (r: Entry?, pid: word)
    requires Shape(kids, root) && Holds(kids) && |path| < PROCFS_MAX_PATH - 1 && '\0' !in path
    ensures Walk(kids, root, ProcComps(path)) == if r == null then None else Some(r)
    ensures pid == PidOnWalk(kids, root, ProcComps(path), pidBefore)
  {
    RootList(kids, root);
    pid := pidBefore;
    if path == "/" {
      NoTokens("/");
      return root, pid;
    }
    var current := root;
    var strtok, token := FirstComponent(path);
    while token.Some?
      invariant fresh(strtok) && fresh(strtok.mem) && strtok.Callable(null)
      invariant current in kids && Holds(kids)
      invariant Walk(kids, root, ProcComps(path)) == Walk(kids, current, Pending(strtok, token))
      invariant PidOnWalk(kids, root, ProcComps(path), pidBefore) == PidOnWalk(kids, current, Pending(strtok, token), pid)
      decreases |Pending(strtok, token)|
    {
      hide *;
      var child, following := StepDown(root, kids, current, strtok, token.value, pid);
      if child == null { return null, pid; }
      if child.pid > 0 { pid := child.pid; }
      current, token := child, following;
    }
    return current, pid;
  }

  /** One round of the outer loop. */
  method StepDown(ghost root: Entry, ghost kids: map<Entry, seq<Entry>>, e: Entry, strtok: Tokenizer, w: string, ghost pid: word)
      returns (child: Entry?, token: Option<string>)
    requires Shape(kids, root) && Holds(kids) && e in kids && strtok.Callable(null)
    modifies strtok, strtok.mem
    ensures strtok.mem == old(strtok.mem) && strtok.Callable(null) && Holds(kids)
    ensures child == null ==>
      && Walk(kids, e, old(Pending(strtok, Some(w)))) == None
      && PidOnWalk(kids, e, old(Pending(strtok, Some(w))), pid) == pid
    ensures child != null ==>
      && child in kids
      && Walk(kids, e, old(Pending(strtok, Some(w)))) == Walk(kids, child, Pending(strtok, token))
      && PidOnWalk(kids, e, old(Pending(strtok, Some(w))), pid) ==
         PidOnWalk(kids, child, Pending(strtok, token), if child.pid > 0 then child.pid else pid)
      && |Pending(strtok, token)| < |old(Pending(strtok, Some(w)))|
  {
    hide Shape, Walk, PidOnWalk, Tokens, CStr;
    child := FindChild(e, w, kids[e]);
    token := None;
    WalkOn(kids, e, w, Remaining(strtok), pid);
    if child != null {
      PickIsNamed(kids[e], w);
      MembersIn(kids, root, e);
      token := NextComponent(strtok);
    }
  }

  lemma WalkOn(kids: map<Entry, seq<Entry>>, e: Entry, w: string, rest: seq<string>, pid: word)
    requires e in kids
    ensures Walk(kids, e, [w] + rest) == match Pick(kids[e], w) case None => None case Some(c) => Walk(kids, c, rest)
    ensures PidOnWalk(kids, e, [w] + rest, pid) ==
      match Pick(kids[e], w) case None => pid case Some(c) => PidOnWalk(kids, c, rest, if c.pid > 0 then c.pid else pid)
  {
    assert ([w] + rest)[1..] == rest;
  }

  /** A path of one component, the decimal notation of a pid, leads to the first entry of that
      name below the root. */
  lemma PidPath(kids: map<Entry, seq<Entry>>, root: Entry, pid: word)
    requires root in kids
    ensures match Walk(kids, root, ProcComps("/" + Numeral(pid, 10)))
      case None => Named(Infos(kids[root]), Numeral(pid, 10)) == None
      case Some(e) => e in kids[root] && Named(Infos(kids[root]), Numeral(pid, 10)) == Some(InfoOf(e))
    ensures match Walk(kids, root, ProcComps("/" + Numeral(pid, 10)))
      case None => PidOnWalk(kids, root, ProcComps("/" + Numeral(pid, 10)), 0) == 0
      case Some(e) => PidOnWalk(kids, root, ProcComps("/" + Numeral(pid, 10)), 0) == e.pid
  {
    hide Numeral, Tokens, Infos;
    var w := Numeral(pid, 10);
    NumeralHasNoSlash(pid);
    TokensOfRun(w, "/");
    assert ("/" + w)[1..] == w;
    WalkOn(kids, root, w, [], 0);
    assert [w] + [] == [w];
    PickIsNamed(kids[root], w);
  }

  /** After procfs_update, a slash and the decimal notation of a pid lead to the directory of
      that process if it is alive and there was memory for it, and nowhere if not. */
  lemma ProcessFoundIffServed(kids: map<Entry, seq<Entry>>, root: Entry, table: seq<Proc>, before: seq<Info>, room: nat, pid: word)
    requires root in kids && Infos(kids[root]) == Update(table, before, room) && NamesAreWords(before) && pid > 0
    ensures match Walk(kids, root, ProcComps("/" + Numeral(pid, 10)))
      case None => pid !in Served(Live(table), room)
      case Some(e) => pid in Served(Live(table), room) && e in kids[root] && InfoOf(e) == DirOf(pid)
  {
    hide *;
    PidPath(kids, root, pid);
    FoundIffServed(table, before, room, pid);
  }

  /** So it is after procfs_init and any number of updates that memory lasted for, with the last
      process table. */
  lemma ProcessFoundAfterRun(kids: map<Entry, seq<Entry>>, root: Entry, tables: seq<seq<Proc>>, first: nat, room: nat, pid: word)
    requires root in kids && Infos(kids[root]) == UpdateAll(tables, Created(GlobalEntries(), first), room)
    requires tables != [] && pid > 0 && 6 * Due(tables) <= room + 5
    ensures match Walk(kids, root, ProcComps("/" + Numeral(pid, 10)))
      case None => Proc(pid, false) !in tables[|tables| - 1]
      case Some(e) => Proc(pid, false) in tables[|tables| - 1] && e in kids[root] && InfoOf(e) == DirOf(pid)
  {
    hide *;
    PidPath(kids, root, pid);
    FoundAfterUpdatesIffLive(tables, first, room, pid);
  }

  /** With memory for everything, the five names below the directory of a live process lead to
      the files of that process, and its pid is reported. */
  lemma ProcessFilesFound(kids: map<Entry, seq<Entry>>, root: Entry, table: seq<Proc>, before: seq<Info>, room: nat, pid: word, x: Info)
    requires root in kids && Infos(kids[root]) == Update(table, before, room) && NamesAreWords(before)
    requires AllFiles(kids, root, |Served(Live(table), room)|, room) && 6 * |Live(table)| <= room
    requires pid > 0 && Proc(pid, false) in table && x in PidEntries(pid)
    ensures match Walk(kids, root, [Numeral(pid, 10), x.name])
      case None => false
      case Some(f) => InfoOf(f) == x && PidOnWalk(kids, root, [Numeral(pid, 10), x.name], 0) == pid
  {
    hide Numeral, Infos, Update, Served, Live, AllFiles, PidEntries, Named, Pick;
    var w, list := Numeral(pid, 10), kids[root];
    FoundIffServed(table, before, room, pid);
    ServedIffLive(table, room, pid);
    PickIsNamed(list, w);
    var e := Pick(list, w).value;
    DirHasFiles(kids, root, table, before, room, pid, e);
    PickIsNamed(kids[e], x.name);
    AllNamed(pid, x);
    WalkOn(kids, root, w, [x.name], 0);
    WalkOn(kids, e, x.name, [], pid);
    assert [w] + [x.name] == [w, x.name] && [x.name] + [] == [x.name];
  }

  lemma DirHasFiles(kids: map<Entry, seq<Entry>>, root: Entry, table: seq<Proc>, before: seq<Info>, room: nat, pid: word, e: Entry)
    requires root in kids && Infos(kids[root]) == Update(table, before, room) && e in kids[root]
    requires AllFiles(kids, root, |Served(Live(table), room)|, room) && 6 * |Live(table)| <= room
    requires pid > 0 && InfoOf(e) == DirOf(pid)
    ensures e in kids && Infos(kids[e]) == Created(PidEntries(pid), 5)
  {
    hide Numeral, PidEntries, Live, Dirs, Others;
    var n := |Served(Live(table), room)|;
    var j :| 0 <= j < |kids[root]| && kids[root][j] == e;
    assert Infos(kids[root])[j] == DirOf(pid);
    OthersAre(before);
    assert |Dirs(Served(Live(table), room))| == n;
    assert j < n;
    assert FilesOk(kids, kids[root][j], Minus(room, 6 * (n - 1 - j) + 1));
    ManyAreFive(pid, Minus(room, 6 * (n - 1 - j) + 1));
  }

  lemma ManyAreFive(pid: word, room: nat)
    requires room >= 5
    ensures Created(PidEntries(pid), room) == Created(PidEntries(pid), 5)
  {
    hide Backwards;
    assert Cut(PidEntries(pid), room) == PidEntries(pid) == Cut(PidEntries(pid), 5);
  }

  lemma AllNamed(pid: word, x: Info)
    requires x in PidEntries(pid)
    ensures Named(Created(PidEntries(pid), 5), x.name) == Some(x) && x.pid == pid
  {
    hide Created;
    PidListing(pid, 5);
    var s := Created(PidEntries(pid), 5);
    var i :| 0 <= i < 5 && PidEntries(pid)[i] == x;
    assert s[4 - i] == x && s == s[..4 - i] + [x] + s[5 - i..];
    NamedIsFirst(s[..4 - i], x, s[5 - i..]);
  }

  lemma NumeralHasNoSlash(n: nat)
    ensures forall k :: 0 <= k < |Numeral(n, 10)| ==> Numeral(n, 10)[k] !in "/"
  {
    NumeralValue(n, 10);
    forall k | 0 <= k < |Numeral(n, 10)| ensures Numeral(n, 10)[k] != '/' { assert IsDigit(Numeral(n, 10)[k], 10); }
  }
}
