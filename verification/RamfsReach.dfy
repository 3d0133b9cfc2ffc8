/** Reachability along the raw pointers of RAMFS, compared with the abstract tree. */
module RamfsReach {
  import opened PathTree
  import opened Ramfs

  /** One pointer dereference: to the first child or to the next sibling. */
  ghost predicate Hop(l: Links, a: Inode, b: Inode) {
    (a in l.first && l.first[a] == b) || (a in l.next && l.next[a] == b)
  }

  /** `p` goes from `a` to `b` by following pointers. */
  ghost predicate Trail(l: Links, a: Inode, b: Inode, p: seq<Inode>) {
    && p != [] && p[0] == a && p[|p| - 1] == b
    && forall i :: 0 <= i < |p| - 1 ==> Hop(l, p[i], p[i + 1])
  }

  /** Every hop from a node of the tree ends at a node of the tree. */
  lemma HopStays(t: Tree<Inode>, l: Links, a: Inode, b: Inode)
    requires Shape(t, l) && a in t.kids && Hop(l, a, b)
    ensures b in t.kids
  {
    ChainAt(t, l, a);
    if a in l.first && l.first[a] == b {
      assert b in t.kids[a];
      KidsOf(t, a, b);
    } else {
      assert a != t.root && a in t.parent;
      var p := t.parent[a];
      ChainAt(t, l, p);
      hide WellFormed;
      SuccessorInChain(l.next, l.first[p], t.kids[p], a, b);
      KidsOf(t, p, b);
    }
  }

  lemma {:induction false} SuccessorInChain(next: map<Inode, Inode?>, first: Inode?, s: seq<Inode>, a: Inode, b: Inode)
    requires Chain(next, first, s) && a in s && a in next && next[a] == b
    ensures b in s
    decreases |s|
  {
    if s[0] == a {
      assert b in s[1..];
    } else {
      SuccessorInChain(next, next[s[0]], s[1..], a, b);
    }
  }

  lemma {:induction false} TrailStays(t: Tree<Inode>, l: Links, a: Inode, b: Inode, p: seq<Inode>)
    requires Shape(t, l) && a in t.kids && Trail(l, a, b, p)
    ensures b in t.kids
    decreases |p|
  {
    hide Shape;
    if |p| > 1 {
      HopStays(t, l, a, p[1]);
      var q := p[1..];
      forall i | 0 <= i < |q| - 1 ensures Hop(l, q[i], q[i + 1]) { assert Hop(l, p[i + 1], p[i + 2]); }
      TrailStays(t, l, p[1], b, q);
    }
  }

  lemma TrailExtend(l: Links, a: Inode, b: Inode, c: Inode, p: seq<Inode>)
    requires Trail(l, a, b, p) && Hop(l, b, c)
    ensures Trail(l, a, c, p + [c])
  {
  }

  /** Along a chain every element is reached from its first one. */
  lemma {:induction false} TrailAlong(l: Links, a: Inode, first: Inode, s: seq<Inode>, n: Inode, p: seq<Inode>)
    returns (q: seq<Inode>)
    requires Chain(l.next, first, s) && n in s && Trail(l, a, first, p)
    ensures Trail(l, a, n, q)
    decreases |s|
  {
    if s[0] == n { return p; }
    TrailExtend(l, a, first, s[1], p);
    q := TrailAlong(l, a, s[1], s[1..], n, p + [s[1]]);
  }

  lemma {:induction false} TrailTo(t: Tree<Inode>, l: Links, n: Inode) returns (p: seq<Inode>)
    requires Shape(t, l) && n in t.kids && n in t.depth
    ensures Trail(l, t.root, n, p)
    decreases t.depth[n]
  {
    if n == t.root {
      p := [n];
    } else {
      assert n in t.parent;
      var d := t.parent[n];
      KidsOf(t, d, n);
      var q := TrailTo(t, l, d);
      ChainAt(t, l, d);
      hide Shape;
      var f := t.kids[d][0];
      TrailExtend(l, t.root, d, f, q);
      p := TrailAlong(l, t.root, f, t.kids[d], n, q + [f]);
    }
  }

  /** The inodes that can be reached from the root through `children` and `next` are exactly
      the nodes of the tree; what a deletion cuts off cannot be reached any more. */
  lemma ReachableIffInTree(t: Tree<Inode>, l: Links, n: Inode)
    requires Shape(t, l)
    ensures n in t.kids <==> exists p :: Trail(l, t.root, n, p)
  {
    if n in t.kids {
      assert n in t.depth;
      var p := TrailTo(t, l, n);
    }
    if p :| Trail(l, t.root, n, p) {
      assert t.root in t.kids;
      TrailStays(t, l, t.root, n, p);
    }
  }
}
