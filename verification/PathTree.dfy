/** A file tree as RAMFS shapes it, on values: every node has an ordered list of children, a
    name and a kind.  Names may repeat among siblings; the first one wins. */
module PathTree {
  import opened Options
  import opened Collections

  datatype Kind = File | Dir | Symlink

  datatype Tree<N(==)> = Tree(
    root: N,
    kids: map<N, seq<N>>,   // the nodes of the tree, each with its children in list order
    parent: map<N, N>,
    depth: map<N, nat>,     // distance from the root
    name: map<N, string>,
    kind: map<N, Kind>)

  /** `t` is a tree: the child lists and the parent map name each other, no list has a
      repetition, and depths grow by one along every edge, so that nothing is its own ancestor
      and every node hangs from the root. */
  ghost predicate WellFormed<N>(t: Tree<N>) {
    Keyed(t) && Upward(t) && Downward(t) && NoRepeats(t)
  }

  ghost predicate Keyed<N>(t: Tree<N>) {
    && t.root in t.kids && t.root !in t.parent
    && SameKeys(t.kids, t.depth) && SameKeys(t.kids, t.name) && SameKeys(t.kids, t.kind)
    && (forall n {:trigger n in t.parent} :: n in t.kids && n != t.root ==> n in t.parent)
  }

  ghost predicate Upward<N>(t: Tree<N>) {
    && (forall c {:trigger t.parent[c]} :: c in t.parent ==>
          c in t.kids && t.parent[c] in t.kids && c in t.kids[t.parent[c]])
    && (forall c {:trigger t.depth[t.parent[c]]} :: c in t.parent && t.parent[c] in t.depth && c in t.depth ==>
          t.depth[c] == t.depth[t.parent[c]] + 1)
  }

  ghost predicate Downward<N>(t: Tree<N>) {
    forall p, c :: p in t.kids && c in t.kids[p] ==> c in t.kids && c in t.parent && t.parent[c] == p
  }

  ghost predicate NoRepeats<N>(t: Tree<N>) {
    forall p :: p in t.kids ==> Distinct(t.kids[p])
  }

  ghost predicate SameKeys<N, A, B>(m: map<N, A>, q: map<N, B>) {
    && (forall n {:trigger n in q} :: n in m ==> n in q)
    && (forall n {:trigger n in q} :: n in q ==> n in m)
  }

  lemma KidsOf<N>(t: Tree<N>, p: N, c: N)
    requires WellFormed(t) && p in t.kids && c in t.kids[p]
    ensures c in t.kids && c in t.parent && t.parent[c] == p && p in t.depth && c in t.depth
    ensures t.depth[c] == t.depth[p] + 1
  {
  }

  // ------------------------------------------------------------------ lookup

  /** The first node of `s` called `w`. */
  function Pick<N>(name: map<N, string>, s: seq<N>, w: string): (r: Option<N>)
    ensures r.Some? ==> r.value in s && r.value in name && name[r.value] == w
    ensures r.None? ==> forall c :: c in s && c in name ==> name[c] != w
  {
    if s == [] then None
    else if s[0] in name && name[s[0]] == w then Some(s[0])
    else Pick(name, s[1..], w)
  }

  /** The node reached from `n` by following the names `comps`. */
  function Walk<N>(t: Tree<N>, n: N, comps: seq<string>): (r: Option<N>)
    decreases |comps|
  {
    if n !in t.kids then None
    else if comps == [] then Some(n)
    else match Pick(t.name, t.kids[n], comps[0])
      case None => None
      case Some(c) => Walk(t, c, comps[1..])
  }

  function Lookup<N>(t: Tree<N>, comps: seq<string>): Option<N> {
    Walk(t, t.root, comps)
  }

  /** Walking a concatenation is walking twice. */
  lemma {:induction false} WalkConcat<N>(t: Tree<N>, n: N, a: seq<string>, b: seq<string>)
    ensures Walk(t, n, a + b) == match Walk(t, n, a) case None => None case Some(m) => Walk(t, m, b)
    decreases |a|
  {
    if a == [] {
      assert a + b == b;
    } else {
      assert (a + b)[0] == a[0] && (a + b)[1..] == a[1..] + b;
      if n in t.kids {
        var c := Pick(t.name, t.kids[n], a[0]);
        if c.Some? { WalkConcat(t, c.value, a[1..], b); }
      }
    }
  }

  /** Each step of a walk goes one level down. */
  lemma {:induction false} WalkDepth<N>(t: Tree<N>, n: N, comps: seq<string>)
    requires WellFormed(t) && n in t.kids && n in t.depth
    ensures var r := Walk(t, n, comps);
      r.Some? ==> r.value in t.kids && r.value in t.depth && t.depth[r.value] == t.depth[n] + |comps|
    decreases |comps|
  {
    hide WellFormed;
    if comps != [] {
      var c := Pick(t.name, t.kids[n], comps[0]);
      if c.Some? {
        KidsOf(t, n, c.value);
        WalkDepth(t, c.value, comps[1..]);
      }
    }
  }

  /** The last component of a successful lookup is the node's own name, and what comes before
      it leads to its parent. */
  lemma LastStep<N>(t: Tree<N>, a: seq<string>, x: string)
    requires WellFormed(t) && Lookup(t, a + [x]).Some?
    ensures var n := Lookup(t, a + [x]).value;
      n in t.parent && n in t.name && t.name[n] == x && Lookup(t, a) == Some(t.parent[n])
  {
    hide WellFormed;
    WalkConcat(t, t.root, a, [x]);
    var p := Walk(t, t.root, a).value;
    assert [x][1..] == [];
    KidsOf(t, p, Pick(t.name, t.kids[p], x).value);
  }

  /** A node is found under one path only. */
  lemma {:induction false} PathUnique<N>(t: Tree<N>, a: seq<string>, b: seq<string>)
    requires WellFormed(t) && Lookup(t, a).Some? && Lookup(t, a) == Lookup(t, b)
    ensures a == b
    decreases |a|
  {
    assert t.root in t.depth;
    hide WellFormed;
    WalkDepth(t, t.root, a);
    WalkDepth(t, t.root, b);
    if a != [] {
      var k := |a| - 1;
      assert a == a[..k] + [a[k]] && b == b[..k] + [b[k]];
      LastStep(t, a[..k], a[k]);
      LastStep(t, b[..k], b[k]);
      PathUnique(t, a[..k], b[..k]);
    }
  }

  // ------------------------------------------------------------------ inserting a node

  /** A new node `n` at the head of the children of `p`. */
  function Insert<N>(t: Tree<N>, p: N, n: N, w: string, k: Kind): Tree<N>
    requires p in t.kids && p in t.depth
  {
    Tree(t.root, t.kids[p := [n] + t.kids[p]][n := []], t.parent[n := p], t.depth[n := t.depth[p] + 1],
         t.name[n := w], t.kind[n := k])
  }

  lemma InsertWellFormed<N>(t: Tree<N>, p: N, n: N, w: string, k: Kind)
    requires WellFormed(t) && p in t.kids && n !in t.kids
    ensures p in t.depth && WellFormed(Insert(t, p, n, w, k))
  {
    assert p in t.depth;
    InsertUpward(t, p, n, w, k);
    InsertDownward(t, p, n, w, k);
    InsertNoRepeats(t, p, n, w, k);
  }

  lemma InsertUpward<N>(t: Tree<N>, p: N, n: N, w: string, k: Kind)
    requires WellFormed(t) && p in t.kids && p in t.depth && n !in t.kids
    ensures Upward(Insert(t, p, n, w, k))
  {
    var u := Insert(t, p, n, w, k);
    forall c | c in u.parent ensures u.parent[c] in u.kids && c in u.kids[u.parent[c]] {
      if c == n { assert u.kids[p][0] == n; }
    }
  }

  lemma InsertDownward<N>(t: Tree<N>, p: N, n: N, w: string, k: Kind)
    requires WellFormed(t) && p in t.kids && p in t.depth && n !in t.kids
    ensures Downward(Insert(t, p, n, w, k))
  {
    var u := Insert(t, p, n, w, k);
    forall q, c | q in u.kids && c in u.kids[q]
      ensures c in u.kids && c in u.parent && u.parent[c] == q
    {
      if c != n { assert c in t.kids[q]; }
    }
  }

  lemma InsertNoRepeats<N>(t: Tree<N>, p: N, n: N, w: string, k: Kind)
    requires WellFormed(t) && p in t.kids && p in t.depth && n !in t.kids
    ensures NoRepeats(Insert(t, p, n, w, k))
  {
    var s := Insert(t, p, n, w, k).kids[p];
    forall i, j | 0 <= i < j < |s| ensures s[i] != s[j] {
      assert s[j] == t.kids[p][j - 1] && s[j] in t.kids[p];
    }
  }

  /** When the walk from `m` along `comps` arrives at `p` with `w` as the next name: the
      names that are left after `w`. */
  function Crossing<N>(t: Tree<N>, m: N, comps: seq<string>, p: N, w: string): Option<seq<string>>
    decreases |comps|
  {
    if m !in t.kids || comps == [] then None
    else if m == p && comps[0] == w then Some(comps[1..])
    else match Pick(t.name, t.kids[m], comps[0])
      case None => None
      case Some(c) => Crossing(t, c, comps[1..], p, w)
  }

  lemma {:induction false} NoCrossingBelow<N>(t: Tree<N>, m: N, comps: seq<string>, p: N, w: string)
    requires WellFormed(t) && p in t.depth && m in t.depth && t.depth[p] < t.depth[m]
    ensures Crossing(t, m, comps, p, w) == None
    decreases |comps|
  {
    hide WellFormed;
    if m in t.kids && comps != [] {
      var c := Pick(t.name, t.kids[m], comps[0]);
      if c.Some? {
        KidsOf(t, m, c.value);
        NoCrossingBelow(t, c.value, comps[1..], p, w);
      }
    }
  }

  lemma {:induction false} CrossingSplits<N>(t: Tree<N>, m: N, comps: seq<string>, p: N, w: string)
    ensures var r := Crossing(t, m, comps, p, w);
      r.Some? ==> exists a :: comps == a + [w] + r.value && Walk(t, m, a) == Some(p)
    decreases |comps|
  {
    var r := Crossing(t, m, comps, p, w);
    if r.Some? {
      if m == p && comps[0] == w {
        assert comps == [] + [w] + r.value && Walk(t, m, []) == Some(p);
      } else {
        var c := Pick(t.name, t.kids[m], comps[0]).value;
        CrossingSplits(t, c, comps[1..], p, w);
        var a :| comps[1..] == a + [w] + r.value && Walk(t, c, a) == Some(p);
        assert ([comps[0]] + a)[1..] == a;
        assert comps == ([comps[0]] + a) + [w] + r.value && Walk(t, m, [comps[0]] + a) == Some(p);
      }
    }
  }

  lemma {:induction false} CrossingWhen<N>(t: Tree<N>, m: N, a: seq<string>, rest: seq<string>, p: N, w: string)
    requires WellFormed(t) && m in t.depth && Walk(t, m, a) == Some(p)
    ensures Crossing(t, m, a + [w] + rest, p, w) == Some(rest)
    decreases |a|
  {
    hide WellFormed;
    var comps := a + [w] + rest;
    if a == [] {
      assert comps[1..] == rest;
    } else {
      var c := Pick(t.name, t.kids[m], a[0]).value;
      KidsOf(t, m, c);
      WalkDepth(t, c, a[1..]);
      assert comps[1..] == a[1..] + [w] + rest;
      CrossingWhen(t, c, a[1..], rest, p, w);
    }
  }

  lemma {:induction false} PickFresh<N>(name: map<N, string>, s: seq<N>, x: string, n: N, w: string)
    requires n !in s
    ensures Pick(name[n := w], s, x) == Pick(name, s, x)
  {
    if s != [] { assert s[0] in s; PickFresh(name, s[1..], x, n, w); }
  }

  lemma PickAtInsert<N>(t: Tree<N>, p: N, n: N, w: string, k: Kind, m: N, x: string)
    requires WellFormed(t) && p in t.kids && p in t.depth && n !in t.kids && m in t.kids
    ensures var u := Insert(t, p, n, w, k);
      Pick(u.name, u.kids[m], x) == if m == p && x == w then Some(n) else Pick(t.name, t.kids[m], x)
  {
    var u := Insert(t, p, n, w, k);
    PickFresh(t.name, t.kids[m], x, n, w);
    if m == p { assert u.kids[p][1..] == t.kids[p]; }
  }

  /** After an insertion a walk ends at the new node when it goes through the parent under the
      new name and stops there, fails when it wants to go further, and is as before otherwise. */
  lemma {:induction false} WalkAfterInsert<N>(t: Tree<N>, p: N, n: N, w: string, k: Kind, m: N, comps: seq<string>)
    requires WellFormed(t) && p in t.kids && p in t.depth && n !in t.kids && m in t.kids
    ensures Walk(Insert(t, p, n, w, k), m, comps) ==
      match Crossing(t, m, comps, p, w)
      case None => Walk(t, m, comps)
      case Some(rest) => if rest == [] then Some(n) else None
    decreases |comps|
  {
    hide WellFormed;
    var u := Insert(t, p, n, w, k);
    if comps != [] {
      PickAtInsert(t, p, n, w, k, m, comps[0]);
      if m == p && comps[0] == w {
        assert u.kids[n] == [];
      } else {
        var c := Pick(t.name, t.kids[m], comps[0]);
        if c.Some? {
          KidsOf(t, m, c.value);
          WalkAfterInsert(t, p, n, w, k, c.value, comps[1..]);
        }
      }
    }
  }

  /** From the root, the one path that arrives at the node found under `pc` is `pc`. */
  lemma CrossingFromRoot<N>(t: Tree<N>, pc: seq<string>, w: string, comps: seq<string>)
    requires WellFormed(t) && Lookup(t, pc).Some?
    ensures Crossing(t, t.root, comps, Lookup(t, pc).value, w) ==
      if pc + [w] <= comps then Some(comps[|pc| + 1..]) else None
  {
    assert t.root in t.depth;
    hide WellFormed;
    var p := Lookup(t, pc).value;
    if pc + [w] <= comps {
      assert comps == pc + [w] + comps[|pc| + 1..];
      CrossingWhen(t, t.root, pc, comps[|pc| + 1..], p, w);
    } else {
      CrossingSplits(t, t.root, comps, p, w);
      var r := Crossing(t, t.root, comps, p, w);
      if r.Some? {
        var a :| comps == a + [w] + r.value && Walk(t, t.root, a) == Some(p);
        PathUnique(t, a, pc);
        assert false;
      }
    }
  }

  /** What a creation under the path `pc + [w]` does to every lookup: that path now gives the
      new node, a path that extends it gives nothing, every other path is as it was. */
  lemma LookupAfterInsert<N>(t: Tree<N>, pc: seq<string>, n: N, w: string, k: Kind, comps: seq<string>)
    requires WellFormed(t) && n !in t.kids && Lookup(t, pc).Some?
    ensures Lookup(t, pc).value in t.kids && Lookup(t, pc).value in t.depth
    ensures Lookup(Insert(t, Lookup(t, pc).value, n, w, k), comps) ==
      if comps == pc + [w] then Some(n)
      else if pc + [w] <= comps then None
      else Lookup(t, comps)
  {
    assert t.root in t.depth && t.root in t.kids;
    hide WellFormed;
    WalkDepth(t, t.root, pc);
    WalkAfterInsert(t, Lookup(t, pc).value, n, w, k, t.root, comps);
    CrossingFromRoot(t, pc, w, comps);
  }
}
