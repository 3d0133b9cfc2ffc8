/** fs/ramfs.c: the tree of inodes linked through `parent`, `children` and `next`, changed in
    place.  Every operation is proved against its counterpart in RamfsSpec. */
module Ramfs {
  import opened Options
  import opened Tokenizing
  import opened CStrings
  import opened Strtok
  import opened Collections
  import opened PathTree
  import opened PathTreeRemoval
  import opened RamfsSpec
  import opened Words

  const RAMFS_MAX_NAME: nat := 256
  const RAMFS_MAX_PATH: nat := 1024

  class Inode {
    const id: nat
    const name: string
    const kind: Kind
    const permissions: nat
    const target: string   // of a symlink
    var parent: Inode?
    var children: Inode?
    var next: Inode?

    /** alloc_inode: unlinked from everything. */
    constructor (id: nat, name: string, kind: Kind, permissions: nat, target: string)
      ensures this.id == id && this.name == name && this.kind == kind
      ensures this.permissions == permissions && this.target == target
      ensures parent == null && children == null && next == null
    {
      this.id, this.name, this.kind, this.permissions, this.target := id, name, kind, permissions, target;
      parent, children, next := null, null, null;
    }
  }

  /** The pointers of the inodes of a tree, as values. */
  datatype Links = Links(first: map<Inode, Inode?>, next: map<Inode, Inode?>, up: map<Inode, Inode?>)

  /** The list that starts at `first` and goes on along `next` is `s`. */
  ghost predicate Chain(next: map<Inode, Inode?>, first: Inode?, s: seq<Inode>)
    decreases |s|
  {
    if s == [] then first == null
    else first == s[0] && s[0] in next && Chain(next, next[s[0]], s[1..])
  }

  ghost predicate Chains(t: Tree<Inode>, l: Links) {
    forall n :: n in t.kids ==> n in l.first && n in l.next && Chain(l.next, l.first[n], t.kids[n])
  }

  ghost predicate Parents(t: Tree<Inode>, l: Links) {
    forall n :: n in t.kids ==> n in l.up && l.up[n] == if n in t.parent then t.parent[n] else null
  }

  ghost predicate Labels(t: Tree<Inode>) {
    forall n :: n in t.kids ==> n in t.name && n.name == t.name[n] && n in t.kind && n.kind == t.kind[n]
  }

  /** `l` spells out the tree `t`. */
  ghost predicate Shape(t: Tree<Inode>, l: Links) {
    WellFormed(t) && Labels(t) && Chains(t, l) && Parents(t, l) && t.root in l.next && l.next[t.root] == null
  }

  /** The fields of the inodes are what `l` says. */
  ghost predicate Holds(l: Links, nodes: set<Inode>)
    reads nodes
  {
    forall n :: n in nodes ==>
      && n in l.first && l.first[n] == n.children
      && n in l.next && l.next[n] == n.next
      && n in l.up && l.up[n] == n.parent
  }

  /** split_path's loop, from the end of the path to its last slash. */
  method SplitAtLastSlash(path: string) returns (dir: string, name: string)
    ensures (dir, name) == SplitPath(path)
  {
    var lastSlash, i := -1, |path| - 1;
    while i >= 0
      invariant -1 <= i < |path| && lastSlash == -1
      invariant forall k :: i < k < |path| ==> path[k] != '/'
      decreases i
    {
      if path[i] == '/' {
        lastSlash := i;
        break;
      }
      i := i - 1;
    }
    if lastSlash <= 0 {
      return "/", path[lastSlash + 1..];
    }
    return path[..lastSlash], path[lastSlash + 1..];
  }

  /** The inner loop of find_inode: the first child called `w`. */
  method FindChild(ghost t: Tree<Inode>, ghost l: Links, n: Inode, w: string) returns (c: Inode?)
    requires Shape(t, l) && Holds(l, t.kids.Keys) && n in t.kids
    ensures Pick(t.name, t.kids[n], w) == if c == null then None else Some(c)
  {
    hide Shape;
    ChainAt(t, l, n);
    c := n.children;
    ghost var s := t.kids[n];
    while c != null
      invariant Pick(t.name, t.kids[n], w) == Pick(t.name, s, w)
      invariant Chain(l.next, c, s) && forall x :: x in s ==> x in t.kids[n]
      decreases |s|
    {
      assert c == s[0];
      KidNamed(t, l, n, c);
      if c.name == w { return; }
      c, s := c.next, s[1..];
    }
  }

  lemma ChainAt(t: Tree<Inode>, l: Links, n: Inode)
    requires Shape(t, l) && n in t.kids
    ensures n in l.first && Chain(l.next, l.first[n], t.kids[n])
  {
  }

  lemma KidNamed(t: Tree<Inode>, l: Links, n: Inode, c: Inode)
    requires Shape(t, l) && n in t.kids && c in t.kids[n]
    ensures c in t.kids && c in t.name && c.name == t.name[c]
  {
    KidsOf(t, n, c);
  }

  /** find_inode: the components of `path` are cut off a copy of it one by one, and each is
      looked up among the children of the node reached so far. */
  method FindInode(ghost t: Tree<Inode>, ghost l: Links, root: Inode, path: string) returns (r: Inode?)
    requires Shape(t, l) && Holds(l, t.kids.Keys) && root == t.root && |path| < RAMFS_MAX_PATH - 1 && '\0' !in path
    ensures Lookup(t, Comps(path)) == if r == null then None else Some(r)
  {
    assert root in t.kids;
    if path == "/" {
      RootComps();
      return root;
    }
    var current := root;
    var strtok, token := FirstComponent(path);
    while token.Some?
      invariant fresh(strtok) && fresh(strtok.mem) && strtok.Callable(null)
      invariant current in t.kids && Holds(l, t.kids.Keys)
      invariant Lookup(t, Comps(path)) == Walk(t, current, Pending(strtok, token))
      decreases |Pending(strtok, token)|
    {
      hide *;
      var child, following := StepDown(t, l, current, strtok, token.value);
      if child == null { return null; }
      current, token := child, following;
    }
    return current;
  }

  /** One round of find_inode's outer loop. */
  method StepDown(ghost t: Tree<Inode>, ghost l: Links, n: Inode, strtok: Tokenizer, w: string)
    returns (child: Inode?, token: Option<string>)
    requires Shape(t, l) && Holds(l, t.kids.Keys) && n in t.kids && strtok.Callable(null)
    modifies strtok, strtok.mem
    ensures strtok.mem == old(strtok.mem) && strtok.Callable(null) && Holds(l, t.kids.Keys)
    ensures child == null ==> Walk(t, n, old(Pending(strtok, Some(w)))) == None
    ensures child != null ==>
      && child in t.kids
      && Walk(t, n, old(Pending(strtok, Some(w)))) == Walk(t, child, Pending(strtok, token))
      && |Pending(strtok, token)| < |old(Pending(strtok, Some(w)))|
  {
    hide Shape;
    hide Walk;
    hide Tokens;
    hide CStr;
    child := FindChild(t, l, n, w);
    token := None;
    WalkOn(t, n, w, Remaining(strtok));
    if child != null {
      ChildInTree(t, l, n, w);
      token := NextComponent(strtok);
    }
  }

  lemma WalkOn(t: Tree<Inode>, n: Inode, w: string, rest: seq<string>)
    requires n in t.kids
    ensures Walk(t, n, [w] + rest) ==
      match Pick(t.name, t.kids[n], w) case None => None case Some(c) => Walk(t, c, rest)
  {
    assert ([w] + rest)[1..] == rest;
  }

  lemma ChildInTree(t: Tree<Inode>, l: Links, n: Inode, w: string)
    requires Shape(t, l) && n in t.kids
    ensures var c := Pick(t.name, t.kids[n], w);
      c.Some? ==> c.value in t.kids
  {
    var c := Pick(t.name, t.kids[n], w);
    if c.Some? { KidsOf(t, n, c.value); }
  }

  /** The copy of the path on the stack, and the first call of strtok on it. */
  method FirstComponent(path: string) returns (strtok: Tokenizer, w: Option<string>)
    requires |path| < RAMFS_MAX_PATH - 1 && '\0' !in path
    ensures fresh(strtok) && fresh(strtok.mem) && strtok.Callable(null)
    ensures Comps(path) == if w.None? then [] else [w.value] + Remaining(strtok)
  {
    var tmp := new char[RAMFS_MAX_PATH];
    Strncpy(tmp, path, RAMFS_MAX_PATH - 1);
    strtok := new Tokenizer();
    var token := strtok.Next(tmp, "/");
    w := if token.None? then None else Some(CStr(tmp[..], token.value));
  }

  /** add_child: the new inode becomes the head of the child list. */
  method AddChild(ghost l: Links, ghost nodes: set<Inode>, p: Inode, child: Inode)
    requires Holds(l, nodes) && p in nodes && child !in nodes && child.children == null
    modifies p`children, child`parent, child`next
    ensures p in l.first && Holds(Added(l, p, child), nodes + {child})
  {
    child.parent := p;
    child.next := p.children;
    p.children := child;
  }

  /** The pointers after add_child. */
  ghost function Added(l: Links, p: Inode, child: Inode): Links
    requires p in l.first
  {
    Links(l.first[p := child][child := null], l.next[child := l.first[p]], l.up[child := p])
  }

  lemma AddedShape(t: Tree<Inode>, l: Links, p: Inode, child: Inode)
    requires Shape(t, l) && p in t.kids && child !in t.kids
    ensures p in t.depth && p in l.first
    ensures Shape(Insert(t, p, child, child.name, child.kind), Added(l, p, child))
  {
    hide WellFormed, Chains, Labels, Parents, Insert, Added;
    InTree(t, l, p);
    InsertWellFormed(t, p, child, child.name, child.kind);
    AddedChains(t, l, p, child);
    RootInTree(t);
    AddedLabels(t, p, child);
    AddedParents(t, l, p, child);
    InsertKeepsRoot(t, p, child);
  }

  lemma InTree(t: Tree<Inode>, l: Links, p: Inode)
    requires WellFormed(t) && Chains(t, l) && p in t.kids
    ensures p in t.depth && p in l.first
  {
  }

  lemma AddedLabels(t: Tree<Inode>, p: Inode, child: Inode)
    requires Labels(t) && p in t.kids && p in t.depth && child !in t.kids
    ensures Labels(Insert(t, p, child, child.name, child.kind))
  {
    forall n | n in t.kids ensures n in t.name && n.name == t.name[n] && n in t.kind && n.kind == t.kind[n] { }
  }

  lemma AddedParents(t: Tree<Inode>, l: Links, p: Inode, child: Inode)
    requires Parents(t, l) && t.root in t.kids && t.root in l.next && l.next[t.root] == null
    requires p in t.kids && p in t.depth && child !in t.kids && p in l.first
    ensures Parents(Insert(t, p, child, child.name, child.kind), Added(l, p, child))
    ensures t.root in Added(l, p, child).next && Added(l, p, child).next[t.root] == null
  {
  }

  lemma InsertKeepsRoot(t: Tree<Inode>, p: Inode, child: Inode)
    requires p in t.kids && p in t.depth
    ensures Insert(t, p, child, child.name, child.kind).root == t.root
  {
  }

  lemma RootInTree(t: Tree<Inode>)
    requires WellFormed(t)
    ensures t.root in t.kids
  {
  }

  lemma AddedChains(t: Tree<Inode>, l: Links, p: Inode, child: Inode)
    requires WellFormed(t) && Chains(t, l)
    requires p in t.kids && p in t.depth && child !in t.kids && p in l.first
    ensures Chains(Insert(t, p, child, child.name, child.kind), Added(l, p, child))
  {
    hide Chain, Insert, WellFormed;
    var u, l' := Insert(t, p, child, child.name, child.kind), Added(l, p, child);
    forall n | n in u.kids ensures n in l'.first && n in l'.next && Chain(l'.next, l'.first[n], u.kids[n]) {
      AddedChainAt(t, l, p, child, n);
    }
  }

  lemma AddedChainAt(t: Tree<Inode>, l: Links, p: Inode, child: Inode, n: Inode)
    requires WellFormed(t) && Chains(t, l)
    requires p in t.kids && p in t.depth && child !in t.kids && p in l.first
    requires n in Insert(t, p, child, child.name, child.kind).kids
    ensures var u, l' := Insert(t, p, child, child.name, child.kind), Added(l, p, child);
      n in l'.first && n in l'.next && Chain(l'.next, l'.first[n], u.kids[n])
  {
    hide WellFormed;
    if n in t.kids {
      if child in t.kids[n] { KidsOf(t, n, child); }
      ChainElsewhere(l.next, l.first[n], t.kids[n], child, l.first[p]);
    }
    assert ([child] + t.kids[p])[1..] == t.kids[p];
  }

  lemma {:induction false} ChainElsewhere(next: map<Inode, Inode?>, first: Inode?, s: seq<Inode>, c: Inode, to: Inode?)
    requires Chain(next, first, s) && c !in s
    ensures Chain(next[c := to], first, s)
    decreases |s|
  {
    if s != [] { ChainElsewhere(next, next[s[0]], s[1..], c, to); }
  }

  /** The element of `s` in front of `n`. */
  ghost function Before(s: seq<Inode>, n: Inode): (r: Inode)
    requires n in s && s[0] != n
    ensures r in s && r != n
    decreases |s|
  {
    if s[1] == n then s[0] else Before(s[1..], n)
  }

  /** The pointers after `n` has been taken out of the list `s` of its parent `p`. */
  ghost function Unlinked(l: Links, p: Inode, s: seq<Inode>, n: Inode): Links
    requires n in s && n in l.next
  {
    if s[0] == n then l.(first := l.first[p := l.next[n]]) else l.(next := l.next[Before(s, n) := l.next[n]])
  }

  /** The list surgery of ramfs_delete. */
  method Unlink(ghost l: Links, ghost nodes: set<Inode>, ghost s: seq<Inode>, p: Inode, n: Inode)
    requires Holds(l, nodes) && p in nodes && n in nodes && n in s && (forall c :: c in s ==> c in nodes)
    requires Chain(l.next, l.first[p], s)
    modifies p`children, nodes`next
    ensures n in l.next && Holds(Unlinked(l, p, s, n), nodes)
  {
    if p.children == n {
      p.children := n.next;
    } else {
      var prev := Predecessor(l, nodes, s, p.children, n);
      prev.next := n.next;
    }
  }

  /** Its loop: walk along the list to the inode in front of `n`. */
  method Predecessor(ghost l: Links, ghost nodes: set<Inode>, ghost s: seq<Inode>, first: Inode?, n: Inode)
    returns (prev: Inode)
    requires Holds(l, nodes) && (forall c :: c in s ==> c in nodes)
    requires Chain(l.next, first, s) && n in s && s[0] != n
    ensures prev == Before(s, n)
  {
    var q := first;
    ghost var r := s;
    while q != null && q.next != n
      invariant Chain(l.next, q, r) && n in r && r[0] != n && Before(r, n) == Before(s, n)
      invariant forall c :: c in r ==> c in nodes
      decreases |r|
    {
      assert q == r[0] && q.next == l.next[r[0]];
      r := r[1..];
      q := q.next;
    }
    assert q == r[0] && q.next == l.next[r[0]];
    prev := q;
  }

  lemma {:induction false} ChainWithout(next: map<Inode, Inode?>, first: Inode?, s: seq<Inode>, n: Inode)
    requires Chain(next, first, s) && Distinct(s) && n in s && n in next
    ensures s[0] == n ==> Chain(next, next[n], Without(s, n))
    ensures s[0] != n ==> Chain(next[Before(s, n) := next[n]], first, Without(s, n))
    decreases |s|
  {
    if s[0] != n {
      var b := Before(s, n);
      DistinctTail(s);
      assert Without(s, n)[1..] == Without(s[1..], n);
      if s[1] == n {
        assert s[1..][1..] == s[2..];
        assert s[0] !in s[2..];
        ChainElsewhere(next, next[n], s[2..], b, next[n]);
      } else {
        ChainWithout(next, next[s[0]], s[1..], n);
      }
    }
  }

  lemma UnlinkedShape(t: Tree<Inode>, l: Links, n: Inode)
    requires Shape(t, l) && n in t.parent
    ensures t.parent[n] in t.kids && n in t.kids[t.parent[n]] && n in l.next
    ensures Shape(Remove(t, n), Unlinked(l, t.parent[n], t.kids[t.parent[n]], n))
  {
    assert t.parent[n] in t.kids && n in t.kids[t.parent[n]] && n in t.kids;
    RemoveWellFormed(t, n);
    UnlinkedChains(t, l, n);
    var s := t.kids[t.parent[n]];
    if s[0] != n { KidsOf(t, t.parent[n], Before(s, n)); }
  }

  lemma UnlinkedChains(t: Tree<Inode>, l: Links, n: Inode)
    requires WellFormed(t) && Chains(t, l) && n in t.parent && n in l.next
    requires t.parent[n] in t.kids && n in t.kids[t.parent[n]]
    ensures Chains(Remove(t, n), Unlinked(l, t.parent[n], t.kids[t.parent[n]], n))
  {
    var p := t.parent[n];
    var s, u, l' := t.kids[p], Remove(t, n), Unlinked(l, p, t.kids[p], n);
    forall m | m in u.kids ensures m in l'.first && m in l'.next && Chain(l'.next, l'.first[m], u.kids[m]) {
      assert m in t.kids;
      if m == p {
        assert Distinct(s);
        ChainWithout(l.next, l.first[p], s, n);
      } else if s[0] != n {
        var b := Before(s, n);
        KidsOf(t, p, b);
        if b in t.kids[m] { KidsOf(t, m, b); }
        ChainElsewhere(l.next, l.first[m], t.kids[m], b, l.next[n]);
      }
    }
  }

  /** A path string the fixed buffers of fs/ramfs.c can hold. */
  predicate PathFits(path: string) {
    |path| < RAMFS_MAX_PATH - 1 && '\0' !in path
  }

  /** A path whose two parts the buffers of a creation can hold, however long it is as a whole. */
  predicate PartsFit(path: string) {
    PathFits(SplitPath(path).0) && |SplitPath(path).1| < RAMFS_MAX_NAME && '\0' !in path
  }

  /** alloc_inode and add_child, once the parent is found. */
  method NewChild(ghost t: Tree<Inode>, ghost l: Links, p: Inode,
                  id: nat, name: string, kind: Kind, permissions: nat, target: string)
    returns (node: Inode, ghost l': Links)
    requires Shape(t, l) && Holds(l, t.kids.Keys) && p in t.kids
    modifies p`children
    ensures fresh(node) && node.id == id && node.permissions == permissions && node.target == target
    ensures p in t.depth && Grown(t, p, node, name, kind, l')
    ensures Holds(l', Insert(t, p, node, name, kind).kids.Keys)
  {
    node := new Inode(id, name, kind, permissions, target);
    GrownByAdding(t, l, p, node);
    hide Shape;
    hide Grown;
    l' := Added(l, p, node);
    AddChild(l, t.kids.Keys, p, node);
  }

  ghost predicate Grown(t: Tree<Inode>, p: Inode, node: Inode, name: string, kind: Kind, l': Links)
    requires p in t.kids && p in t.depth
  {
    node.name == name && node.kind == kind && node !in t.kids && Shape(Insert(t, p, node, name, kind), l')
  }

  lemma GrownByAdding(t: Tree<Inode>, l: Links, p: Inode, node: Inode)
    requires Shape(t, l) && p in t.kids && node !in t.kids
    ensures p in t.depth && p in l.first && Grown(t, p, node, node.name, node.kind, Added(l, p, node))
    ensures Insert(t, p, node, node.name, node.kind).kids.Keys == t.kids.Keys + {node}
  {
    AddedShape(t, l, p, node);
  }

  lemma ShapeIsTree(t: Tree<Inode>, l: Links)
    requires Shape(t, l)
    ensures WellFormed(t)
  {
  }

  lemma ParentFound(t: Tree<Inode>, l: Links, dir: string, p: Inode)
    requires Shape(t, l) && Lookup(t, Comps(dir)) == Some(p)
    ensures p in t.kids && p in t.depth && p in t.kind && p.kind == t.kind[p]
  {
    FoundInTree(t, dir);
  }

  lemma MakeNodeIs(t: Tree<Inode>, path: string, kind: Kind, node: Inode, memory: bool)
    requires WellFormed(t)
    ensures var (dir, w) := SplitPath(path);
      MakeNode(t, path, kind, node, memory) ==
        match Lookup(t, Comps(dir))
        case None => (t, None)
        case Some(p) =>
          if p in t.kids && p in t.depth && p in t.kind && (kind == Symlink || t.kind[p] == Dir) && memory
          then (Insert(t, p, node, w, kind), Some(node)) else (t, None)
  {
    var (dir, w) := SplitPath(path);
    if Lookup(t, Comps(dir)).Some? { FoundInTree(t, dir); }
  }

  /** The common part of the three creation functions: split the path, find the parent, refuse
      what is not a directory unless a symlink is being made, and link a new inode there. */
  method CreateNode(ghost t: Tree<Inode>, ghost l: Links, root: Inode, path: string,
                    id: nat, kind: Kind, permissions: nat, target: string, memory: bool)
    returns (r: Inode?, ghost t': Tree<Inode>, ghost l': Links)
    requires Shape(t, l) && Holds(l, t.kids.Keys) && root == t.root && PartsFit(path)
    modifies t.kids.Keys
    ensures WellFormed(t) && Shape(t', l') && Holds(l', t'.kids.Keys) && t'.root == root
    ensures t'.kids.Keys <= t.kids.Keys + if r == null then {} else {r}
    ensures r == null ==> (t', None) == MakeNode(t, path, kind, root, memory)
    ensures r != null ==> (t', Some(r)) == MakeNode(t, path, kind, r, memory)
    ensures r != null ==> fresh(r) && r.id == id && r.permissions == permissions && r.target == target
  {
    hide Shape, WellFormed, Walk, Tokens, SplitPath, MakeNode, Holds, Insert;
    ShapeIsTree(t, l);
    MakeNodeIs(t, path, kind, root, memory);
    r, t', l' := null, t, l;
    var dir, name := SplitAtLastSlash(path);
    var parent := FindInode(t, l, root, dir);
    if parent == null { return; }
    ParentFound(t, l, dir, parent);
    if (kind != Symlink && parent.kind != Dir) || !memory { return; }
    r, l' := NewChild(t, l, parent, id, name, kind, permissions, target);
    t' := Insert(t, parent, r, name, kind);
    InsertIs(t, parent, r, name, kind);
    MakeNodeIs(t, path, kind, r, memory);
  }

  lemma InsertIs(t: Tree<Inode>, p: Inode, n: Inode, w: string, k: Kind)
    requires p in t.kids && p in t.depth
    ensures Insert(t, p, n, w, k).root == t.root && Insert(t, p, n, w, k).kids.Keys == t.kids.Keys + {n, p}
  {
  }

  /** What the pointers of a node that a path leads to say. */
  lemma FoundLinks(t: Tree<Inode>, l: Links, path: string, n: Inode)
    requires Shape(t, l) && Lookup(t, Comps(path)) == Some(n)
    ensures n in t.kids && n in t.kind && n.kind == t.kind[n] && n in l.up
    ensures if n in t.parent then l.up[n] == t.parent[n] && t.parent[n] in t.kids else l.up[n] == null
  {
    FoundInTree(t, path);
  }

  /** The list a node hangs in. */
  lemma HangsFrom(t: Tree<Inode>, l: Links, n: Inode)
    requires Shape(t, l) && n in t.parent
    ensures n in t.kids && t.parent[n] in t.kids && t.parent[n] in l.first && n in t.kids[t.parent[n]]
    ensures forall c :: c in t.kids[t.parent[n]] ==> c in t.kids.Keys
    ensures Chain(l.next, l.first[t.parent[n]], t.kids[t.parent[n]])
  {
    var p := t.parent[n];
    ChainAt(t, l, p);
    forall c | c in t.kids[p] ensures c in t.kids.Keys { KidsOf(t, p, c); }
  }

  /** The part of ramfs_delete that changes pointers. */
  method CutOff(ghost t: Tree<Inode>, ghost l: Links, root: Inode, path: string)
    returns (n: Inode?, ghost t': Tree<Inode>, ghost l': Links)
    requires Shape(t, l) && Holds(l, t.kids.Keys) && root == t.root && PathFits(path)
    modifies t.kids.Keys
    ensures WellFormed(t) && Shape(t', l') && Holds(l', t'.kids.Keys) && t'.root == root && t'.kids.Keys <= t.kids.Keys
    ensures (t', if n == null then None else Some(n)) == CutNode(t, path)
    ensures n != null ==> n in t.kind && n.kind == t.kind[n]
  {
    ShapeIsTree(t, l);
    hide Shape;
    hide WellFormed;
    hide Walk;
    hide Tokens;
    hide Remove;
    hide Holds;
    hide Unlinked;
    t', l' := t, l;
    n := FindInode(t, l, root, path);
    if n == null { return; }
    FoundLinks(t, l, path, n);
    assert n.parent == l.up[n] by { HoldsAt(l, t.kids.Keys, n); }
    if n.parent == null { return null, t, l; }
    UnlinkedIsShape(t, l, n);
    t' := Remove(t, n);
    l' := Detach(t, l, n);
    HoldsOnPart(l', t.kids.Keys, t'.kids.Keys);
  }

  method Detach(ghost t: Tree<Inode>, ghost l: Links, n: Inode) returns (ghost l': Links)
    requires Shape(t, l) && Holds(l, t.kids.Keys) && n in t.parent && n in t.kids && n.parent == t.parent[n]
    modifies t.kids.Keys
    ensures t.parent[n] in t.kids && n in t.kids[t.parent[n]] && n in l.next
    ensures l' == Unlinked(l, t.parent[n], t.kids[t.parent[n]], n) && Holds(l', t.kids.Keys)
  {
    HangsFrom(t, l, n);
    hide Shape;
    hide Chain;
    Unlink(l, t.kids.Keys, t.kids[n.parent], n.parent, n);
    l' := Unlinked(l, t.parent[n], t.kids[t.parent[n]], n);
  }

  lemma HoldsAt(l: Links, nodes: set<Inode>, n: Inode)
    requires Holds(l, nodes) && n in nodes
    ensures n in l.up && l.up[n] == n.parent
  {
  }

  lemma HoldsOnPart(l: Links, nodes: set<Inode>, part: set<Inode>)
    requires Holds(l, nodes) && part <= nodes
    ensures Holds(l, part)
  {
  }

  lemma UnlinkedIsShape(t: Tree<Inode>, l: Links, n: Inode)
    requires Shape(t, l) && n in t.parent
    ensures t.parent[n] in t.kids && n in t.kids[t.parent[n]] && n in l.next
    ensures Shape(Remove(t, n), Unlinked(l, t.parent[n], t.kids[t.parent[n]], n))
    ensures Remove(t, n).kids.Keys <= t.kids.Keys && Remove(t, n).root == t.root
  {
    UnlinkedShape(t, l, n);
    RemoveKeys(t, n);
  }

  lemma RemoveKeys(t: Tree<Inode>, n: Inode)
    requires n in t.parent && t.parent[n] in t.kids
    ensures Remove(t, n).kids.Keys <= t.kids.Keys && Remove(t, n).root == t.root
  {
  }

  /** The inodes have different numbers, all below `next`. */
  ghost predicate Numbered(nodes: set<Inode>, next: nat) {
    && (forall n :: n in nodes ==> n.id < next)
    && (forall m, n :: m in nodes && n in nodes && m != n ==> m.id != n.id)
  }

  lemma OneMoreNumber(nodes: set<Inode>, next: nat, more: set<Inode>, r: Inode)
    requires Numbered(nodes, next) && more <= nodes + {r} && r.id == next
    ensures Numbered(more, next + 1)
  {
  }

  lemma FewerNumbers(nodes: set<Inode>, next: nat, fewer: set<Inode>)
    requires Numbered(nodes, next) && fewer <= nodes
    ensures Numbered(fewer, next)
  {
  }

  class RamFs {
    var root: Inode
    var fileCount: nat
    var dirCount: nat
    var nextInodeId: nat
    ghost var tree: Tree<Inode>  // what the pointers spell out
    ghost var links: Links       // the pointers, as values

    ghost predicate Valid()
      reads this, tree.kids.Keys
    {
      root == tree.root && Shape(tree, links) && Holds(links, tree.kids.Keys)
    }

    /** No two inodes of the tree have the same number. */
    ghost predicate OwnIds()
      reads this
    {
      Numbered(tree.kids.Keys, nextInodeId)
    }

    /** The abstract file system the specification talks about. */
    ghost function State(): Fs<Inode>
      reads this
    {
      Fs(tree, fileCount, dirCount)
    }

    /** ramfs_init. */
    constructor ()
      ensures Valid() && State() == Fresh(root) && OwnIds() && root.id == 1 && nextInodeId == 2
    {
      var r := new Inode(1, "/", Dir, 0x1ED, "");
      root, nextInodeId := r, 2;
      fileCount, dirCount := 0, 1;
      tree := Fresh(r).tree;
      links := Links(map[r := null], map[r := null], map[r := null]);
      FreshIsTree(r);
    }

    /** ramfs_find. */
    method FindPath(path: string) returns (r: Inode?)
      requires Valid() && PathFits(path)
      ensures Find(State(), path) == if r == null then None else Some(r)
    {
      r := FindInode(tree, links, root, path);
    }

    /** A new inode has taken the number that was next; without one it is still next. */
    ghost predicate TookNumber(r: Inode?, before: nat)
      reads this`nextInodeId
    {
      if r == null then nextInodeId == before else r.id == before && nextInodeId == (before + 1) % WORD
    }

    /** ramfs_create_file. */
    method CreateFile(path: string, permissions: nat, memory: bool) returns (r: Inode?)
      requires Valid() && PartsFit(path)
      modifies this, tree.kids.Keys
      ensures Valid() && WellFormed(old(tree))
      ensures r == null ==> (State(), None) == Create(old(State()), path, File, old(root), memory)
      ensures r != null ==> (State(), Some(r)) == Create(old(State()), path, File, r, memory)
      ensures r != null ==> fresh(r) && r.permissions == permissions
      ensures TookNumber(r, old(nextInodeId)) && (old(OwnIds()) && old(nextInodeId) < WORD - 1 ==> OwnIds())
    {
      hide Shape;
      hide WellFormed;
      hide Holds;
      hide MakeNode;
      hide PartsFit;
      hide Numbered;
      ghost var t, l;
      ghost var nodes, next := tree.kids.Keys, nextInodeId;
      r, t, l := CreateNode(tree, links, root, path, nextInodeId, File, permissions, "", memory);
      tree, links := t, l;
      if r == null {
        if Numbered(nodes, next) { FewerNumbers(nodes, next, t.kids.Keys); }
        return;
      }
      if Numbered(nodes, next) { OneMoreNumber(nodes, next, t.kids.Keys, r); }
      nextInodeId := (nextInodeId + 1) % WORD;
      fileCount := (fileCount + 1) % WORD;
    }

    /** ramfs_create_dir. */
    method CreateDir(path: string, permissions: nat, memory: bool) returns (r: Inode?)
      requires Valid() && PartsFit(path)
      modifies this, tree.kids.Keys
      ensures Valid() && WellFormed(old(tree))
      ensures r == null ==> (State(), None) == Create(old(State()), path, Dir, old(root), memory)
      ensures r != null ==> (State(), Some(r)) == Create(old(State()), path, Dir, r, memory)
      ensures r != null ==> fresh(r) && r.permissions == permissions
      ensures TookNumber(r, old(nextInodeId)) && (old(OwnIds()) && old(nextInodeId) < WORD - 1 ==> OwnIds())
    {
      hide Shape;
      hide WellFormed;
      hide Holds;
      hide MakeNode;
      hide PartsFit;
      hide Numbered;
      ghost var t, l;
      ghost var nodes, next := tree.kids.Keys, nextInodeId;
      r, t, l := CreateNode(tree, links, root, path, nextInodeId, Dir, permissions, "", memory);
      tree, links := t, l;
      if r == null {
        if Numbered(nodes, next) { FewerNumbers(nodes, next, t.kids.Keys); }
        return;
      }
      if Numbered(nodes, next) { OneMoreNumber(nodes, next, t.kids.Keys, r); }
      nextInodeId := (nextInodeId + 1) % WORD;
      dirCount := (dirCount + 1) % WORD;
    }

    /** ramfs_create_symlink: the one that does not ask whether the parent is a directory. */
    method CreateSymlink(path: string, target: string, memory: bool) returns (r: Inode?)
      requires Valid() && PartsFit(path)
      modifies this, tree.kids.Keys
      ensures Valid() && WellFormed(old(tree))
      ensures r == null ==> (State(), None) == Create(old(State()), path, Symlink, old(root), memory)
      ensures r != null ==> (State(), Some(r)) == Create(old(State()), path, Symlink, r, memory)
      ensures r != null ==> fresh(r) && r.permissions == 0x1FF && r.target == Cut(target, RAMFS_MAX_PATH - 1)
      ensures TookNumber(r, old(nextInodeId)) && (old(OwnIds()) && old(nextInodeId) < WORD - 1 ==> OwnIds())
    {
      hide Shape;
      hide WellFormed;
      hide Holds;
      hide MakeNode;
      hide PartsFit;
      hide Numbered;
      ghost var t, l;
      ghost var nodes, next := tree.kids.Keys, nextInodeId;
      r, t, l := CreateNode(tree, links, root, path, nextInodeId, Symlink, 0x1FF, Cut(target, RAMFS_MAX_PATH - 1), memory);
      tree, links := t, l;
      if r == null {
        if Numbered(nodes, next) { FewerNumbers(nodes, next, t.kids.Keys); }
        return;
      }
      if Numbered(nodes, next) { OneMoreNumber(nodes, next, t.kids.Keys, r); }
      nextInodeId := (nextInodeId + 1) % WORD;
    }

    /** ramfs_delete. */
    method DeletePath(path: string) returns (ok: bool)
      requires Valid() && PathFits(path)
      modifies this, tree.kids.Keys
      ensures Valid() && WellFormed(old(tree))
      ensures (State(), ok) == Delete(old(State()), path)
      ensures nextInodeId == old(nextInodeId) && (old(OwnIds()) ==> OwnIds())
    {
      hide Shape;
      hide WellFormed;
      hide Holds;
      hide CutNode;
      hide Numbered;
      ghost var t, l;
      ghost var nodes := tree.kids.Keys;
      var node;
      node, t, l := CutOff(tree, links, root, path);
      tree, links := t, l;
      if Numbered(nodes, nextInodeId) { FewerNumbers(nodes, nextInodeId, t.kids.Keys); }
      if node == null { return false; }
      if node.kind == File {
        fileCount := (fileCount + WORD - 1) % WORD;
      } else if node.kind == Dir {
        dirCount := (dirCount + WORD - 1) % WORD;
      }
      return true;
    }
  }
}
