/** RAMFS as operations on path strings over a tree of nodes, and what they promise: a created
    node is found, an unrelated path is not disturbed, deleting what was created restores
    everything, and the two counters tell the truth for as long as no subtree is cut off. */
module RamfsSpec {
  import opened Options
  import opened Collections
  import opened Tokenizing
  import opened PathTree
  import opened PathTreeRemoval
  import opened Words

  function Wrap(n: nat): nat {
    n % WORD
  }

  /** A counter after `c++` or `c--`, done only when `hit`. */
  function Up(c: nat, hit: bool): nat {
    if hit then (c + 1) % WORD else c
  }

  function Down(c: nat, hit: bool): nat {
    if hit then (c + WORD - 1) % WORD else c
  }

  lemma UpOfWrap(a: nat, hit: bool)
    ensures Up(Wrap(a), hit) == Wrap(a + if hit then 1 else 0)
  {
  }

  lemma DownOfWrap(a: nat, a': nat, b: nat, hit: bool)
    requires a == a' + b + (if hit then 1 else 0) && a < WORD
    ensures Down(Wrap(a), hit) == Wrap(a') <==> b == 0
  {
  }

  lemma DownUndoesUp(c: nat, hit: bool)
    requires c < WORD
    ensures Down(Up(c, hit), hit) == c
  {
  }

  /** The counters are uint32_t. */
  datatype Fs<N(==)> = Fs(tree: Tree<N>, files: nat, dirs: nat)

  // ------------------------------------------------------------------ paths

  /** The components a lookup follows. */
  function Comps(path: string): seq<string> {
    Tokens(path, "/")
  }

  /** Index of the last slash, or -1. */
  function LastSlash(path: string): (i: int)
    ensures -1 <= i < |path|
    ensures 0 <= i ==> path[i] == '/'
    ensures forall k :: i < k < |path| ==> path[k] != '/'
  {
    if path == "" then -1
    else if path[|path| - 1] == '/' then |path| - 1
    else LastSlash(path[..|path| - 1])
  }

  /** The directory part and the last name of a path. */
  function SplitPath(path: string): (string, string) {
    var i := LastSlash(path);
    if i <= 0 then ("/", path[i + 1..]) else (path[..i], path[i + 1..])
  }

  lemma NameHasNoSlash(path: string)
    ensures var w := path[LastSlash(path) + 1..];
      '/' !in w && Comps(w) == if w == "" then [] else [w]
  {
    var i := LastSlash(path);
    OneRun(path[i + 1..]);
  }

  lemma OneRun(w: string)
    requires forall k :: 0 <= k < |w| ==> w[k] != '/'
    ensures '/' !in w && Comps(w) == if w == "" then [] else [w]
  {
    hide Tokens;
    hide RunLength;
    assert forall k :: 0 <= k < |w| ==> w[k] !in "/";
    TokensOfRun(w, "/");
  }

  /** Splitting off the last name splits off the last component, unless the path ends in a
      slash: then the name is empty and no component is split off. */
  lemma SplitPathComps(path: string)
    ensures var (dir, w) := SplitPath(path);
      && Comps(path) == Comps(dir) + (if w == "" then [] else [w])
      && '/' !in w
  {
    var i := LastSlash(path);
    var w := path[i + 1..];
    NameHasNoSlash(path);
    RootComps();
    hide Tokens;
    if i < 0 {
      assert w == path;
    } else {
      assert path == path[..i] + ['/'] + w;
      TokensOfJoin(path[..i], '/', w, "/");
      assert i == 0 ==> path[..i] == "";
    }
  }

  lemma RootComps()
    ensures Comps("/") == [] && Comps("") == []
  {
    assert "/"[1..] == "";
  }

  // ------------------------------------------------------------------ operations

  function Find<N>(fs: Fs<N>, path: string): Option<N> {
    Lookup(fs.tree, Comps(path))
  }

  /** The file system with only a root directory. */
  function Fresh<N>(root: N): Fs<N> {
    Fs(Tree(root, map[root := []], map[], map[root := 0], map[root := "/"], map[root := Dir]), 0, 1)
  }

  /** What the three creation functions do to the tree.  `node` is the inode the allocator
      hands out, unless it is out of memory.  A symlink may hang below anything, the other two
      insist on a directory. */
  ghost function MakeNode<N>(t: Tree<N>, path: string, kind: Kind, node: N, memory: bool): (Tree<N>, Option<N>)
    requires WellFormed(t)
  {
    var (dir, w) := SplitPath(path);
    match Lookup(t, Comps(dir))
    case None => (t, None)
    case Some(p) =>
      FoundInTree(t, dir);
      if (kind != Symlink && t.kind[p] != Dir) || !memory then (t, None)
      else (Insert(t, p, node, w, kind), Some(node))
  }

  /** ramfs_create_file, _dir and _symlink, with the counters. */
  ghost function Create<N>(fs: Fs<N>, path: string, kind: Kind, node: N, memory: bool): (Fs<N>, Option<N>)
    requires WellFormed(fs.tree)
  {
    var (t, r) := MakeNode(fs.tree, path, kind, node, memory);
    (Fs(t, Up(fs.files, r.Some? && kind == File), Up(fs.dirs, r.Some? && kind == Dir)), r)
  }

  /** The node ramfs_delete takes out of the tree: any node but the root, empty or not. */
  ghost function CutNode<N>(t: Tree<N>, path: string): (Tree<N>, Option<N>)
    requires WellFormed(t)
  {
    match Lookup(t, Comps(path))
    case None => (t, None)
    case Some(n) =>
      FoundInTree(t, path);
      if n !in t.parent then (t, None) else (Remove(t, n), Some(n))
  }

  /** ramfs_delete, with the counters. */
  ghost function Delete<N>(fs: Fs<N>, path: string): (Fs<N>, bool)
    requires WellFormed(fs.tree)
  {
    var (t, r) := CutNode(fs.tree, path);
    var k := if r.Some? && r.value in fs.tree.kind then Some(fs.tree.kind[r.value]) else None;
    (Fs(t, Down(fs.files, k == Some(File)), Down(fs.dirs, k == Some(Dir))), r.Some?)
  }

  lemma FoundInTree<N>(t: Tree<N>, path: string)
    requires WellFormed(t) && Lookup(t, Comps(path)).Some?
    ensures var n := Lookup(t, Comps(path)).value;
      && n in t.kids && n in t.depth && n in t.kind && n in t.name
      && (n in t.parent ==> t.parent[n] in t.kids && n in t.kids[t.parent[n]])
      && (n == t.root <==> n !in t.parent)
  {
    assert t.root in t.depth;
    WalkDepth(t, t.root, Comps(path));
  }

  // ------------------------------------------------------------------ lookups

  /** After a successful creation every path finds what it should: the path itself the new
      node, a path below it nothing, any other path what it found before.  A path that ends in
      a slash names its directory, so there the nameless new node disturbs no lookup at all. */
  lemma LookupAfterCreate<N>(fs: Fs<N>, path: string, kind: Kind, node: N, q: string)
    requires WellFormed(fs.tree) && node !in fs.tree.kids
    requires Create(fs, path, kind, node, true).1 == Some(node)
    ensures var fs' := Create(fs, path, kind, node, true).0;
      Find(fs', q) ==
        if SplitPath(path).1 == "" then Find(fs, q)
        else if Comps(q) == Comps(path) then Some(node)
        else if Comps(path) <= Comps(q) then None
        else Find(fs, q)
  {
    var (dir, w) := SplitPath(path);
    SplitPathComps(path);
    LookupAfterInsert(fs.tree, Comps(dir), node, w, kind, Comps(q));
    TokensNonEmpty(q, "/");
    assert Comps(dir) + [w] <= Comps(q) ==> Comps(q)[|Comps(dir)|] == w;
  }

  /** A creation needs memory and an existing parent, which must be a directory unless a symlink
      is made; then the new node, of the kind asked for and without children, comes first in the
      list of its parent and nothing else in the tree changes.  Otherwise nothing changes. */
  lemma CreateChangesExactly<N>(fs: Fs<N>, path: string, kind: Kind, node: N, memory: bool)
    requires WellFormed(fs.tree) && node !in fs.tree.kids
    ensures var (fs', r), parent := Create(fs, path, kind, node, memory), Find(fs, SplitPath(path).0);
      var t, t' := fs.tree, fs'.tree;
      if memory && parent.Some? && parent.value in t.kind && (kind == Symlink || t.kind[parent.value] == Dir) then
        && r == Some(node) && parent.value in t.kids
        && t'.kids == t.kids[parent.value := [node] + t.kids[parent.value]][node := []]
        && t'.kind == t.kind[node := kind] && t'.name == t.name[node := SplitPath(path).1] && t'.root == t.root
        && fs'.files == (if kind == File then (fs.files + 1) % WORD else fs.files)
        && fs'.dirs == (if kind == Dir then (fs.dirs + 1) % WORD else fs.dirs)
      else r == None && fs' == fs
  {
    hide WellFormed, Tokens, Walk, SplitPath;
    var (dir, w) := SplitPath(path);
    if Find(fs, dir).Some? { FoundInTree(fs.tree, dir); }
  }

  /** A deletion succeeds exactly for a path that finds a node other than the root; a refused one
      changes nothing.  The siblings of the node stay in their order, and every list that stays
      but that of its parent is unchanged. */
  lemma DeleteChangesExactly<N>(fs: Fs<N>, path: string)
    requires WellFormed(fs.tree)
    ensures Delete(fs, path).1 <==> Find(fs, path).Some? && Find(fs, path).value != fs.tree.root
    ensures !Delete(fs, path).1 ==> Delete(fs, path).0 == fs
    ensures Delete(fs, path).1 ==> var n, t, t' := Find(fs, path).value, fs.tree, Delete(fs, path).0.tree;
      && n in t.parent && t.parent[n] in t.kids && t'.root == t.root
      && (exists a, b :: t.kids[t.parent[n]] == a + [n] + b && forall m :: m in t'.kids ==>
           m in t.kids && t'.kids[m] == if m == t.parent[n] then a + b else t.kids[m])
      && (forall m :: m in t.kids ==> (m in t'.kids <==> !Under(t, n, m)))
  {
    if Find(fs, path).Some? { FoundInTree(fs.tree, path); }
    if Delete(fs, path).1 {
      var n, t := Find(fs, path).value, fs.tree;
      DeleteIs(fs, path, n);
      var s := t.kids[t.parent[n]];
      hide WellFormed, Walk, Tokens, Under;
      var a, b := WithoutIs(s, n);
      assert forall m :: m in Remove(t, n).kids ==>
        m in t.kids && Remove(t, n).kids[m] == if m == t.parent[n] then a + b else t.kids[m];
    }
  }

  lemma {:induction false} WithoutIs<N>(s: seq<N>, n: N) returns (a: seq<N>, b: seq<N>)
    requires n in s
    ensures s == a + [n] + b && Without(s, n) == a + b
  {
    if s[0] == n {
      a, b := [], s[1..];
    } else {
      a, b := WithoutIs(s[1..], n);
      a := [s[0]] + a;
    }
  }

  /** After deleting the node under a path, paths through it find what it was shadowing, if
      anything; every other path finds what it found before. */
  lemma LookupAfterDelete<N>(fs: Fs<N>, path: string, n: N, q: string)
    requires WellFormed(fs.tree) && Find(fs, path) == Some(n) && n != fs.tree.root
    ensures n in fs.tree.parent && fs.tree.parent[n] in fs.tree.kids && n in fs.tree.name
    ensures Delete(fs, path).1
    ensures Find(Delete(fs, path).0, q) ==
      if Comps(path) <= Comps(q) then
        match Shadowed(fs.tree, n)
        case None => None
        case Some(s) => Walk(fs.tree, s, Comps(q)[|Comps(path)|..])
      else Find(fs, q)
  {
    hide WellFormed;
    hide Tokens;
    FoundInTree(fs.tree, path);
    var c := Comps(path);
    assert Lookup(fs.tree, []) == Some(fs.tree.root) || Lookup(fs.tree, []) == None;
    var k := |c| - 1;
    assert c == c[..k] + [c[k]];
    LookupAfterRemove(fs.tree, c[..k], c[k], n, Comps(q));
  }

  /** Deleting a path right after creating it restores the whole file system, tree and
      counters, exactly when the path does not end in a slash. */
  lemma DeleteUndoesCreate<N>(fs: Fs<N>, path: string, kind: Kind, node: N)
    requires WellFormed(fs.tree) && node !in fs.tree.kids && fs.files < WORD && fs.dirs < WORD
    requires Create(fs, path, kind, node, true).1 == Some(node)
    ensures WellFormed(Create(fs, path, kind, node, true).0.tree)
    ensures Delete(Create(fs, path, kind, node, true).0, path) == (fs, true) <==> SplitPath(path).1 != ""
  {
    var (dir, w) := SplitPath(path);
    var fs1 := Create(fs, path, kind, node, true).0;
    FoundInTree(fs.tree, dir);
    var p := Find(fs, dir).value;
    InsertWellFormed(fs.tree, p, node, w, kind);
    LookupAfterCreate(fs, path, kind, node, path);
    if w != "" {
      DeleteNewest(fs, p, node, w, kind, path);
    } else {
      SplitPathComps(path);
      assert Comps(path) == Comps(dir);
      DeleteCutsOff(fs1, path, p);
    }
  }

  /** When the path ends in a slash it is the directory in front of the slash that the deletion
      takes out, with everything in it, the new node included; only the root is refused. */
  lemma SlashDeletesDirectory<N>(fs: Fs<N>, path: string, kind: Kind, node: N)
    requires WellFormed(fs.tree) && node !in fs.tree.kids
    requires Create(fs, path, kind, node, true).1 == Some(node) && SplitPath(path).1 == ""
    ensures Find(fs, SplitPath(path).0).Some?
    ensures WellFormed(Create(fs, path, kind, node, true).0.tree)
    ensures var p, fs1 := Find(fs, SplitPath(path).0).value, Create(fs, path, kind, node, true).0;
      && (p == fs.tree.root ==> Delete(fs1, path) == (fs1, false))
      && (p != fs.tree.root ==> Delete(fs1, path).1 && p !in Delete(fs1, path).0.tree.kids)
  {
    hide WellFormed, Tokens, Walk;
    var dir := SplitPath(path).0;
    var fs1 := Create(fs, path, kind, node, true).0;
    FoundInTree(fs.tree, dir);
    var p := Find(fs, dir).value;
    InsertWellFormed(fs.tree, p, node, "", kind);
    LookupAfterCreate(fs, path, kind, node, path);
    SplitPathComps(path);
    assert Comps(path) == Comps(dir);
    DeleteCutsOff(fs1, path, p);
  }

  lemma DeleteNewest<N>(fs: Fs<N>, p: N, node: N, w: string, kind: Kind, path: string)
    requires WellFormed(fs.tree) && node !in fs.tree.kids && fs.files < WORD && fs.dirs < WORD
    requires p in fs.tree.kids && p in fs.tree.depth
    requires WellFormed(Insert(fs.tree, p, node, w, kind))
    requires Lookup(Insert(fs.tree, p, node, w, kind), Comps(path)) == Some(node)
    ensures Delete(Fs(Insert(fs.tree, p, node, w, kind), Up(fs.files, kind == File), Up(fs.dirs, kind == Dir)), path) == (fs, true)
  {
    hide Tokens;
    hide Walk;
    hide Remove;
    hide Up;
    hide Down;
    hide WellFormed;
    RemoveUndoesInsert(fs.tree, p, node, w, kind);
    DownUndoesUp(fs.files, kind == File);
    DownUndoesUp(fs.dirs, kind == Dir);
  }

  /** A successful deletion leaves the deleted node outside the tree. */
  lemma DeleteCutsOff<N>(fs: Fs<N>, path: string, n: N)
    requires WellFormed(fs.tree) && Find(fs, path) == Some(n)
    ensures var (fs', ok) := Delete(fs, path);
      if n == fs.tree.root then !ok && fs' == fs else ok && n !in fs'.tree.kids
  {
    FoundInTree(fs.tree, path);
  }

  // ------------------------------------------------------------------ counters

  ghost function OfKind<N>(kind: map<N, Kind>, k: Kind): set<N> {
    set m | m in kind && kind[m] == k
  }

  ghost function Members<N>(t: Tree<N>, k: Kind): set<N> {
    OfKind(t.kind, k)
  }

  /** The nodes of kind `k` that hang below `n`. */
  ghost function Below<N>(t: Tree<N>, n: N, k: Kind): set<N> {
    set m | m in t.kind && t.kind[m] == k && m != n && Under(t, n, m)
  }

  /** The counters are the numbers of files and of directories in the tree. */
  ghost predicate CountersExact<N>(fs: Fs<N>) {
    fs.files == Wrap(|Members(fs.tree, File)|) && fs.dirs == Wrap(|Members(fs.tree, Dir)|)
  }

  lemma OneMore<N>(kind: map<N, Kind>, n: N, k: Kind, j: Kind)
    requires n !in kind
    ensures |OfKind(kind[n := k], j)| == |OfKind(kind, j)| + if j == k then 1 else 0
  {
    if j == k {
      assert OfKind(kind[n := k], j) == OfKind(kind, j) + {n};
    } else {
      assert OfKind(kind[n := k], j) == OfKind(kind, j);
    }
  }

  /** The nodes of a kind before a removal: those that stay, those below, and the node itself. */
  lemma MembersSplit<N>(t: Tree<N>, n: N, j: Kind, c: set<N>)
    requires n in t.kind && c == if j == t.kind[n] then {n} else {}
    ensures OfKind(t.kind, j) == OfKind(Prune(t, n, t.kind), j) + Below(t, n, j) + c
    ensures OfKind(Prune(t, n, t.kind), j) !! Below(t, n, j)
    ensures (OfKind(Prune(t, n, t.kind), j) + Below(t, n, j)) !! c
  {
    assert Under(t, n, n);
    hide Under;
  }

  lemma MembersAfterRemove<N>(t: Tree<N>, n: N, j: Kind)
    requires n in t.parent && t.parent[n] in t.kids && n in t.kind
    ensures |Members(t, j)| == |Members(Remove(t, n), j)| + |Below(t, n, j)| + if j == t.kind[n] then 1 else 0
  {
    hide Under;
    hide OfKind;
    hide Below;
    var a, b := OfKind(Prune(t, n, t.kind), j), Below(t, n, j);
    var c := if j == t.kind[n] then {n} else {};
    MembersSplit(t, n, j, c);
    UnionSize(a, b);
    UnionSize(a + b, c);
  }

  lemma UnionSize<N>(a: set<N>, b: set<N>)
    requires a !! b
    ensures |a + b| == |a| + |b|
  {
  }

  lemma MembersAfterMake<N>(t: Tree<N>, path: string, kind: Kind, node: N, memory: bool, j: Kind)
    requires WellFormed(t) && node !in t.kids
    ensures var (t', r) := MakeNode(t, path, kind, node, memory);
      |Members(t', j)| == |Members(t, j)| + if r.Some? && kind == j then 1 else 0
  {
    assert node !in t.kind;
    OneMore(t.kind, node, kind, j);
  }

  lemma CreateKeepsCounters<N>(fs: Fs<N>, path: string, kind: Kind, node: N, memory: bool)
    requires WellFormed(fs.tree) && node !in fs.tree.kids && CountersExact(fs)
    ensures CountersExact(Create(fs, path, kind, node, memory).0)
  {
    var t := fs.tree;
    var r := MakeNode(t, path, kind, node, memory).1;
    MembersAfterMake(t, path, kind, node, memory, File);
    MembersAfterMake(t, path, kind, node, memory, Dir);
    hide WellFormed;
    hide MakeNode;
    hide Members;
    hide Up;
    hide Wrap;
    UpOfWrap(|Members(t, File)|, r.Some? && kind == File);
    UpOfWrap(|Members(t, Dir)|, r.Some? && kind == Dir);
  }

  /** ramfs_delete does not look whether a directory is empty.  The counters stay exact if and
      only if no file and no directory hangs below the deleted node. */
  lemma DeleteCounters<N>(fs: Fs<N>, path: string)
    requires WellFormed(fs.tree) && CountersExact(fs) && |fs.tree.kind| < WORD
    requires Delete(fs, path).1
    ensures Find(fs, path).Some?
    ensures CountersExact(Delete(fs, path).0) <==>
      var n := Find(fs, path).value;
      Below(fs.tree, n, File) == {} && Below(fs.tree, n, Dir) == {}
  {
    FoundInTree(fs.tree, path);
    hide WellFormed;
    hide Tokens;
    hide Walk;
    hide Under;
    hide OfKind;
    hide Below;
    hide Wrap;
    hide Down;
    hide Remove;
    var t, n := fs.tree, Find(fs, path).value;
    MembersAfterRemove(t, n, File);
    MembersAfterRemove(t, n, Dir);
    MembersBounded(t, File);
    MembersBounded(t, Dir);
    DownOfWrap(|Members(t, File)|, |Members(Remove(t, n), File)|, |Below(t, n, File)|, t.kind[n] == File);
    DownOfWrap(|Members(t, Dir)|, |Members(Remove(t, n), Dir)|, |Below(t, n, Dir)|, t.kind[n] == Dir);
  }

  lemma MembersBounded<N>(t: Tree<N>, k: Kind)
    ensures |Members(t, k)| <= |t.kind|
  {
    assert Members(t, k) <= t.kind.Keys;
    SubsetSize(Members(t, k), t.kind.Keys);
  }

  /** A node without children has nothing below it. */
  lemma ChildlessHasNothingBelow<N>(t: Tree<N>, n: N, k: Kind)
    requires WellFormed(t) && n in t.kids && t.kids[n] == []
    ensures Below(t, n, k) == {}
  {
    forall m | m in t.kids && m != n ensures !Under(t, n, m) {
      NothingUnderChildless(t, n, m);
    }
  }

  lemma {:induction false} NothingUnderChildless<N>(t: Tree<N>, n: N, m: N)
    requires WellFormed(t) && n in t.kids && t.kids[n] == [] && m in t.kids && m != n
    ensures !Under(t, n, m)
    decreases if m in t.depth then t.depth[m] else 0
  {
    assert m in t.depth;
    if m in t.parent {
      KidsOf(t, t.parent[m], m);
      assert t.parent[m] != n;
      NothingUnderChildless(t, n, t.parent[m]);
    }
  }

  // ------------------------------------------------------------------ whole runs

  datatype Op<N(==)> = Make(path: string, kind: Kind, node: N, memory: bool) | Unlink(path: string)

  /** Every inode the allocator hands out during the run is one never seen before. */
  ghost predicate NewNodes<N>(known: set<N>, ops: seq<Op<N>>)
    decreases |ops|
  {
    ops == [] || ((ops[0].Make? ==> ops[0].node !in known) && NewNodes(Known(known, ops[0]), ops[1..]))
  }

  ghost function Known<N>(known: set<N>, op: Op<N>): set<N> {
    if op.Make? then known + {op.node} else known
  }

  ghost function Step<N>(fs: Fs<N>, op: Op<N>): Fs<N>
    requires WellFormed(fs.tree)
  {
    match op
    case Make(path, kind, node, memory) => Create(fs, path, kind, node, memory).0
    case Unlink(path) => Delete(fs, path).0
  }

  lemma StepKeepsTree<N>(fs: Fs<N>, op: Op<N>, known: set<N>)
    requires WellFormed(fs.tree) && fs.tree.kids.Keys <= known && (op.Make? ==> op.node !in known)
    ensures WellFormed(Step(fs, op).tree) && Step(fs, op).tree.kids.Keys <= Known(known, op)
  {
    match op
    case Make(path, kind, node, memory) =>
      var (dir, w) := SplitPath(path);
      if Find(fs, dir).Some? {
        FoundInTree(fs.tree, dir);
        InsertWellFormed(fs.tree, Find(fs, dir).value, node, w, kind);
      }
    case Unlink(path) =>
      if Find(fs, path).Some? {
        FoundInTree(fs.tree, path);
        var n := Find(fs, path).value;
        if n in fs.tree.parent { RemoveWellFormed(fs.tree, n); }
      }
  }

  /** Any run of creations and deletions, successful or not, from a tree leads to a tree. */
  ghost function Run<N>(fs: Fs<N>, ops: seq<Op<N>>, known: set<N>): (r: Fs<N>)
    requires WellFormed(fs.tree) && fs.tree.kids.Keys <= known && NewNodes(known, ops)
    ensures WellFormed(r.tree)
    decreases |ops|
  {
    if ops == [] then fs
    else
      StepKeepsTree(fs, ops[0], known);
      Run(Step(fs, ops[0]), ops[1..], Known(known, ops[0]))
  }

  ghost function Counter<N>(fs: Fs<N>, k: Kind): nat
    requires k != Symlink
  {
    if k == File then fs.files else fs.dirs
  }

  /** How many nodes of kind `k` an operation cuts off together with the node it deletes. */
  ghost function LostBy<N>(fs: Fs<N>, op: Op<N>, k: Kind): nat
    requires WellFormed(fs.tree)
  {
    if op.Unlink? && Delete(fs, op.path).1 && Find(fs, op.path).Some? then |Below(fs.tree, Find(fs, op.path).value, k)| else 0
  }

  ghost function Lost<N>(fs: Fs<N>, ops: seq<Op<N>>, known: set<N>, k: Kind): nat
    requires WellFormed(fs.tree) && fs.tree.kids.Keys <= known && NewNodes(known, ops)
    decreases |ops|
  {
    if ops == [] then 0
    else
      StepKeepsTree(fs, ops[0], known);
      LostBy(fs, ops[0], k) + Lost(Step(fs, ops[0]), ops[1..], Known(known, ops[0]), k)
  }

  lemma DownOfSum(a: nat, b: nat, d: nat, hit: bool)
    ensures Down(Wrap(a + b + d + if hit then 1 else 0), hit) == Wrap(a + b + d)
  {
  }

  lemma CreateDrifts<N>(fs: Fs<N>, path: string, kind: Kind, node: N, memory: bool, k: Kind, d: nat)
    requires WellFormed(fs.tree) && node !in fs.tree.kids && k != Symlink
    requires Counter(fs, k) == Wrap(|Members(fs.tree, k)| + d)
    ensures var fs' := Create(fs, path, kind, node, memory).0;
      Counter(fs', k) == Wrap(|Members(fs'.tree, k)| + d) && |Members(fs'.tree, k)| <= |Members(fs.tree, k)| + 1
  {
    hide WellFormed, MakeNode, Members, Up, Wrap;
    MembersAfterMake(fs.tree, path, kind, node, memory, k);
    UpOfWrap(|Members(fs.tree, k)| + d, MakeNode(fs.tree, path, kind, node, memory).1.Some? && kind == k);
  }

  /** What a deletion that is not refused does. */
  lemma DeleteIs<N>(fs: Fs<N>, path: string, n: N)
    requires WellFormed(fs.tree) && Find(fs, path) == Some(n) && Delete(fs, path).1
    ensures n in fs.tree.parent && fs.tree.parent[n] in fs.tree.kids && n in fs.tree.kind
    ensures Delete(fs, path).0 ==
      Fs(Remove(fs.tree, n), Down(fs.files, fs.tree.kind[n] == File), Down(fs.dirs, fs.tree.kind[n] == Dir))
  {
    hide WellFormed, Remove, Walk, Tokens;
    FoundInTree(fs.tree, path);
  }

  lemma DeleteDrifts<N>(fs: Fs<N>, path: string, n: N, k: Kind, d: nat)
    requires WellFormed(fs.tree) && Find(fs, path) == Some(n) && Delete(fs, path).1 && k != Symlink
    requires Counter(fs, k) == Wrap(|Members(fs.tree, k)| + d)
    ensures var fs' := Delete(fs, path).0;
      && Counter(fs', k) == Wrap(|Members(fs'.tree, k)| + d + |Below(fs.tree, n, k)|)
      && |Members(fs'.tree, k)| + |Below(fs.tree, n, k)| <= |Members(fs.tree, k)|
  {
    hide WellFormed, Delete, Find, Members, Below, Wrap, Down, Remove;
    DeleteIs(fs, path, n);
    MembersAfterRemove(fs.tree, n, k);
    DownOfSum(|Members(Remove(fs.tree, n), k)|, |Below(fs.tree, n, k)|, d, fs.tree.kind[n] == k);
  }

  lemma RefusedChangesNothing<N>(fs: Fs<N>, path: string)
    requires WellFormed(fs.tree) && !Delete(fs, path).1
    ensures Delete(fs, path).0 == fs
  {
  }

  lemma StepDrifts<N>(fs: Fs<N>, op: Op<N>, k: Kind, d: nat)
    requires WellFormed(fs.tree) && (op.Make? ==> op.node !in fs.tree.kids) && k != Symlink
    requires Counter(fs, k) == Wrap(|Members(fs.tree, k)| + d)
    ensures Counter(Step(fs, op), k) == Wrap(|Members(Step(fs, op).tree, k)| + d + LostBy(fs, op, k))
    ensures |Members(Step(fs, op).tree, k)| + LostBy(fs, op, k) <= |Members(fs.tree, k)| + 1
  {
    hide WellFormed, Create, Delete, Members, Below, Wrap, Counter, Find;
    match op
    case Make(path, kind, node, memory) => CreateDrifts(fs, path, kind, node, memory, k, d);
    case Unlink(path) =>
      if Delete(fs, path).1 {
        DeletedWasFound(fs, path);
        DeleteDrifts(fs, path, Find(fs, path).value, k, d);
      } else {
        RefusedChangesNothing(fs, path);
      }
  }

  lemma DeletedWasFound<N>(fs: Fs<N>, path: string)
    requires WellFormed(fs.tree) && Delete(fs, path).1
    ensures Find(fs, path).Some?
  {
  }

  /** After any run each counter is the number of nodes of its kind in the tree and of those
      that deletions have cut off below other nodes, modulo 2^32. */
  lemma {:induction false} CounterAfterRun<N>(fs: Fs<N>, ops: seq<Op<N>>, known: set<N>, k: Kind, d: nat)
    requires WellFormed(fs.tree) && fs.tree.kids.Keys <= known && NewNodes(known, ops) && k != Symlink
    requires Counter(fs, k) == Wrap(|Members(fs.tree, k)| + d)
    ensures Counter(Run(fs, ops, known), k) == Wrap(|Members(Run(fs, ops, known).tree, k)| + d + Lost(fs, ops, known, k))
    ensures |Members(Run(fs, ops, known).tree, k)| + Lost(fs, ops, known, k) <= |Members(fs.tree, k)| + |ops|
    decreases |ops|
  {
    hide WellFormed, Step, LostBy, Members, Counter, Wrap, Known;
    if ops != [] {
      StepKeepsTree(fs, ops[0], known);
      StepDrifts(fs, ops[0], k, d);
      CounterAfterRun(Step(fs, ops[0]), ops[1..], Known(known, ops[0]), k, d + LostBy(fs, ops[0], k));
    }
  }

  /** So they are exact after a run if and only if it has not cut off any file or directory
      below a node it deleted.  (The heap the inodes come from is far too small for 2^32 of
      them.) */
  lemma CountersExactIff<N>(fs: Fs<N>, ops: seq<Op<N>>, known: set<N>)
    requires WellFormed(fs.tree) && fs.tree.kids.Keys <= known && NewNodes(known, ops) && CountersExact(fs)
    requires |known| + |ops| < WORD
    ensures CountersExact(Run(fs, ops, known)) <==> Lost(fs, ops, known, File) == 0 && Lost(fs, ops, known, Dir) == 0
  {
    hide WellFormed, Run, Lost, Members, Wrap, Counter, NewNodes;
    var r := Run(fs, ops, known);
    forall k | k == File || k == Dir
      ensures Counter(r, k) == Wrap(|Members(r.tree, k)|) <==> Lost(fs, ops, known, k) == 0
    {
      ExactIffNothingLost(fs, ops, known, k);
    }
    CountersAre(fs);
    CountersAre(r);
  }

  lemma CountersAre<N>(fs: Fs<N>)
    ensures CountersExact(fs) <==> Counter(fs, File) == Wrap(|Members(fs.tree, File)|) && Counter(fs, Dir) == Wrap(|Members(fs.tree, Dir)|)
  {
  }

  lemma ExactIffNothingLost<N>(fs: Fs<N>, ops: seq<Op<N>>, known: set<N>, k: Kind)
    requires WellFormed(fs.tree) && fs.tree.kids.Keys <= known && NewNodes(known, ops) && k != Symlink
    requires |known| + |ops| < WORD && CountersExact(fs)
    ensures var r := Run(fs, ops, known);
      Counter(r, k) == Wrap(|Members(r.tree, k)|) <==> Lost(fs, ops, known, k) == 0
  {
    hide WellFormed, Run, Lost, Members, Wrap, NewNodes;
    NodesBounded(fs, known);
    MembersBounded(fs.tree, k);
    CounterAfterRun(fs, ops, known, k, 0);
    WrapsDiffer(|Members(Run(fs, ops, known).tree, k)|, Lost(fs, ops, known, k));
  }

  lemma WrapsDiffer(a: nat, d: nat)
    requires a + d < WORD
    ensures Wrap(a + d) == Wrap(a) <==> d == 0
  {
  }

  /** Throughout the run a path is only deleted when its node has no children, or is the root,
      which is refused. */
  ghost predicate DeletesOnlyChildless<N>(fs: Fs<N>, ops: seq<Op<N>>, known: set<N>)
    requires WellFormed(fs.tree) && fs.tree.kids.Keys <= known && NewNodes(known, ops)
    decreases |ops|
  {
    ops == [] ||
    (StepKeepsTree(fs, ops[0], known);
     && (ops[0].Unlink? ==> var f := Find(fs, ops[0].path);
           f.Some? && f.value != fs.tree.root && f.value in fs.tree.kids ==> fs.tree.kids[f.value] == [])
     && DeletesOnlyChildless(Step(fs, ops[0]), ops[1..], Known(known, ops[0])))
  }

  lemma {:induction false} NothingLost<N>(fs: Fs<N>, ops: seq<Op<N>>, known: set<N>, k: Kind)
    requires WellFormed(fs.tree) && fs.tree.kids.Keys <= known && NewNodes(known, ops) && DeletesOnlyChildless(fs, ops, known)
    ensures Lost(fs, ops, known, k) == 0
    decreases |ops|
  {
    hide Below, Step, Members;
    if ops != [] {
      StepKeepsTree(fs, ops[0], known);
      if ops[0].Unlink? && Delete(fs, ops[0].path).1 {
        FoundInTree(fs.tree, ops[0].path);
        ChildlessHasNothingBelow(fs.tree, Find(fs, ops[0].path).value, k);
      }
      hide WellFormed;
      NothingLost(Step(fs, ops[0]), ops[1..], Known(known, ops[0]), k);
    }
  }

  /** In particular both counters are the exact numbers of files and directories that can be
      reached, as long as the deletions of a run hit only childless nodes. */
  lemma RunKeepsCounters<N>(fs: Fs<N>, ops: seq<Op<N>>, known: set<N>)
    requires WellFormed(fs.tree) && fs.tree.kids.Keys <= known && NewNodes(known, ops)
    requires CountersExact(fs) && DeletesOnlyChildless(fs, ops, known)
    ensures CountersExact(Run(fs, ops, known))
  {
    hide WellFormed, Run, Lost, Members, Wrap, DeletesOnlyChildless;
    NothingLost(fs, ops, known, File);
    NothingLost(fs, ops, known, Dir);
    CounterAfterRun(fs, ops, known, File, 0);
    CounterAfterRun(fs, ops, known, Dir, 0);
  }

  lemma NodesBounded<N>(fs: Fs<N>, known: set<N>)
    requires WellFormed(fs.tree) && fs.tree.kids.Keys <= known
    ensures |fs.tree.kind| <= |known|
  {
    forall n | n in fs.tree.kind ensures n in known { assert n in fs.tree.kids.Keys; }
    SubsetSize(fs.tree.kind.Keys, known);
  }

  /** ramfs_init leaves such a tree, with exact counters. */
  lemma FreshIsTree<N>(root: N)
    ensures WellFormed(Fresh(root).tree) && CountersExact(Fresh(root))
  {
    var kind := Fresh(root).tree.kind;
    assert OfKind(kind, File) == {};
    assert OfKind(kind, Dir) == {root};
  }
}
