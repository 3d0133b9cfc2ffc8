/** Taking a node out of a tree, with everything that hangs from it: what that does to the
    shape, to lookups and to the number of nodes of each kind. */
module PathTreeRemoval {
  import opened Options
  import opened Collections
  import opened PathTree

  /** `m` is `n` or has it among its ancestors. */
  predicate Under<N>(t: Tree<N>, n: N, m: N)
    decreases if m in t.depth then t.depth[m] else 0
  {
    m == n ||
    (m in t.parent && m in t.depth && t.parent[m] in t.depth && t.depth[t.parent[m]] < t.depth[m] &&
     Under(t, n, t.parent[m]))
  }

  /** `s` without its first occurrence of `n`. */
  function Without<N(==)>(s: seq<N>, n: N): (r: seq<N>)
    ensures forall c :: c in s && c != n ==> c in r
    ensures forall c :: c in r ==> c in s
    ensures n !in s ==> r == s
  {
    if s == [] then [] else if s[0] == n then s[1..] else [s[0]] + Without(s[1..], n)
  }

  lemma DistinctTail<N>(s: seq<N>)
    requires Distinct(s) && s != []
    ensures Distinct(s[1..]) && s[0] !in s[1..]
  {
  }

  lemma DistinctCons<N>(a: N, s: seq<N>)
    requires Distinct(s) && a !in s
    ensures Distinct([a] + s)
  {
  }

  lemma {:induction false} WithoutDistinct<N>(s: seq<N>, n: N)
    requires Distinct(s)
    ensures Distinct(Without(s, n)) && n !in Without(s, n)
  {
    if s != [] {
      DistinctTail(s);
      if s[0] != n {
        hide Distinct;
        WithoutDistinct(s[1..], n);
        DistinctCons(s[0], Without(s[1..], n));
      }
    }
  }

  /** `m` without what is under `n`. */
  function Prune<N, V>(t: Tree<N>, n: N, m: map<N, V>): map<N, V> {
    map x | x in m && !Under(t, n, x) :: m[x]
  }

  /** The tree after `n` has left the list of its parent: it and everything below it are gone. */
  function Remove<N>(t: Tree<N>, n: N): Tree<N>
    requires n in t.parent && t.parent[n] in t.kids
  {
    var p := t.parent[n];
    Tree(t.root, Prune(t, n, t.kids[p := Without(t.kids[p], n)]), Prune(t, n, t.parent), Prune(t, n, t.depth),
         Prune(t, n, t.name), Prune(t, n, t.kind))
  }

  // ------------------------------------------------------------------ shape

  /** A child is under `n` exactly when it is `n` or its parent is under `n`. */
  lemma UnderKid<N>(t: Tree<N>, n: N, p: N, c: N)
    requires WellFormed(t) && p in t.kids && c in t.kids[p]
    ensures Under(t, n, c) <==> c == n || Under(t, n, p)
  {
    KidsOf(t, p, c);
  }

  lemma RemoveWellFormed<N>(t: Tree<N>, n: N)
    requires WellFormed(t) && n in t.parent && t.parent[n] in t.kids
    ensures WellFormed(Remove(t, n))
  {
    hide Keyed, Upward, Downward, NoRepeats, Remove;
    RemoveKeyed(t, n);
    RemoveUpward(t, n);
    RemoveDownward(t, n);
    RemoveNoRepeats(t, n);
  }

  lemma RemoveKeyed<N>(t: Tree<N>, n: N)
    requires WellFormed(t) && n in t.parent && t.parent[n] in t.kids
    ensures Keyed(Remove(t, n))
  {
    hide NoRepeats, Under, Prune;
    var p := t.parent[n];
    PruneSameKeys(t, n, t.kids[p := Without(t.kids[p], n)], t.depth);
    PruneSameKeys(t, n, t.kids[p := Without(t.kids[p], n)], t.name);
    PruneSameKeys(t, n, t.kids[p := Without(t.kids[p], n)], t.kind);
    RootStays(t, n);
    var r := Remove(t, n);
    PruneAt(t, n, t.kids[p := Without(t.kids[p], n)], t.root);
    PruneAt(t, n, t.parent, t.root);
    forall m | m in r.kids && m != r.root ensures m in r.parent {
      PruneAt(t, n, t.kids[p := Without(t.kids[p], n)], m);
      PruneAt(t, n, t.parent, m);
      assert m in t.parent;
    }
  }

  lemma PruneAt<N, V>(t: Tree<N>, n: N, m: map<N, V>, x: N)
    ensures x in Prune(t, n, m) <==> x in m && !Under(t, n, x)
  {
    hide Under;
  }

  lemma PruneSameKeys<N, A, B>(t: Tree<N>, n: N, m: map<N, A>, q: map<N, B>)
    requires SameKeys(m, q)
    ensures SameKeys(Prune(t, n, m), Prune(t, n, q))
  {
    forall x | x in Prune(t, n, m) || x in Prune(t, n, q) ensures x in Prune(t, n, m) && x in Prune(t, n, q) {
      assert x in q;
    }
  }

  lemma RootStays<N>(t: Tree<N>, n: N)
    requires Keyed(t) && n in t.parent
    ensures !Under(t, n, t.root) && n != t.root
  {
  }

  /** The children a surviving node keeps all survive. */
  lemma KidKept<N>(t: Tree<N>, n: N, m: N, c: N)
    requires WellFormed(t) && n in t.parent && m in t.kids && !Under(t, n, m)
    requires c in (if m == t.parent[n] then Without(t.kids[m], n) else t.kids[m])
    ensures c in t.kids && !Under(t, n, c) && c in t.parent && t.parent[c] == m && c in t.name
  {
    KidsOf(t, m, c);
    UnderKid(t, n, m, c);
    WithoutDistinct(t.kids[m], n);
  }

  lemma RemoveUpward<N>(t: Tree<N>, n: N)
    requires WellFormed(t) && n in t.parent && t.parent[n] in t.kids
    ensures Upward(Remove(t, n))
  {
    var u := Remove(t, n);
    forall c | c in u.parent
      ensures c in u.kids && u.parent[c] in u.kids && c in u.kids[u.parent[c]]
    {
      UnderKid(t, n, t.parent[c], c);
    }
  }

  lemma RemoveDownward<N>(t: Tree<N>, n: N)
    requires WellFormed(t) && n in t.parent && t.parent[n] in t.kids
    ensures Downward(Remove(t, n))
  {
    hide WellFormed;
    hide Under;
    var u := Remove(t, n);
    forall p, c | p in u.kids && c in u.kids[p] ensures c in u.kids && c in u.parent && u.parent[c] == p {
      KidKept(t, n, p, c);
    }
  }

  lemma RemoveNoRepeats<N>(t: Tree<N>, n: N)
    requires WellFormed(t) && n in t.parent && t.parent[n] in t.kids
    ensures NoRepeats(Remove(t, n))
  {
    WithoutDistinct(t.kids[t.parent[n]], n);
  }

  // ------------------------------------------------------------------ lookups

  lemma {:induction false} PickAgrees<N>(a: map<N, string>, b: map<N, string>, s: seq<N>, x: string)
    requires forall c :: c in s ==> c in a && c in b && a[c] == b[c]
    ensures Pick(a, s, x) == Pick(b, s, x)
  {
    if s != [] {
      assert s[0] in s;
      PickAgrees(a, b, s[1..], x);
    }
  }

  lemma {:induction false} PickWithout<N>(name: map<N, string>, s: seq<N>, n: N, x: string)
    requires n in name && name[n] != x
    ensures Pick(name, Without(s, n), x) == Pick(name, s, x)
  {
    if s != [] && s[0] != n {
      assert Without(s, n)[1..] == Without(s[1..], n);
      PickWithout(name, s[1..], n, x);
    }
  }

  /** The sibling that `n` was shadowing: the next one of the same name. */
  function Shadowed<N>(t: Tree<N>, n: N): Option<N>
    requires n in t.parent && t.parent[n] in t.kids && n in t.name
  {
    Pick(t.name, Without(t.kids[t.parent[n]], n), t.name[n])
  }

  lemma PickAtRemove<N>(t: Tree<N>, n: N, m: N, x: string)
    requires WellFormed(t) && n in t.parent && n in t.name && t.parent[n] in t.kids
    requires m in t.kids && !Under(t, n, m)
    ensures var u := Remove(t, n);
      && m in u.kids
      && Pick(u.name, u.kids[m], x) ==
           if m == t.parent[n] && x == t.name[n] then Shadowed(t, n) else Pick(t.name, t.kids[m], x)
  {
    var u, p := Remove(t, n), t.parent[n];
    var s := if m == p then Without(t.kids[m], n) else t.kids[m];
    assert u.kids[m] == s;
    forall c | c in s ensures c in t.name && c in u.name && u.name[c] == t.name[c] {
      KidKept(t, n, m, c);
    }
    hide WellFormed;
    PickAgrees(u.name, t.name, s, x);
    if m == p && x != t.name[n] { PickWithout(t.name, t.kids[p], n, x); }
  }

  /** After a removal of the first node of its name, a walk that used to step on it steps on
      the sibling it shadowed; every other walk from a surviving node is as before. */
  lemma {:induction false} WalkAfterRemove<N>(t: Tree<N>, n: N, m: N, comps: seq<string>)
    requires WellFormed(t) && n in t.parent && n in t.name && t.parent[n] in t.kids
    requires Pick(t.name, t.kids[t.parent[n]], t.name[n]) == Some(n)
    requires m in t.kids && !Under(t, n, m)
    ensures Walk(Remove(t, n), m, comps) ==
      match Crossing(t, m, comps, t.parent[n], t.name[n])
      case None => Walk(t, m, comps)
      case Some(rest) => match Shadowed(t, n)
        case None => None
        case Some(s) => Walk(t, s, rest)
    decreases |comps|
  {
    hide WellFormed;
    hide Under;
    hide Remove;
    var p, w := t.parent[n], t.name[n];
    if comps == [] {
      PickAtRemove(t, n, m, "");
    } else {
      PickAtRemove(t, n, m, comps[0]);
      var c := if m == p && comps[0] == w then Shadowed(t, n) else Pick(t.name, t.kids[m], comps[0]);
      if c.Some? {
        StepSurvives(t, n, m, comps[0], c.value);
        WalkAfterRemove(t, n, c.value, comps[1..]);
        if m == p { NoCrossingBelow(t, c.value, comps[1..], p, w); }
      }
    }
  }

  lemma StepSurvives<N>(t: Tree<N>, n: N, m: N, x: string, c: N)
    requires WellFormed(t) && n in t.parent && n in t.name && t.parent[n] in t.kids
    requires m in t.kids && !Under(t, n, m)
    requires Some(c) == if m == t.parent[n] && x == t.name[n] then Shadowed(t, n) else Pick(t.name, t.kids[m], x)
    ensures c in t.kids && !Under(t, n, c) && m in t.depth && c in t.depth && t.depth[c] == t.depth[m] + 1
  {
    assert c in t.kids[m];
    KidsOf(t, m, c);
    UnderKid(t, n, m, c);
    WithoutDistinct(t.kids[m], n);
    KidsOf(t, t.parent[n], n);
  }

  /** What removing the node found under `pc + [w]` does to every lookup: paths through it now
      continue from the node of the same name it was shadowing, or fail when there is none;
      every other path is as it was. */
  lemma LookupAfterRemove<N>(t: Tree<N>, pc: seq<string>, w: string, n: N, comps: seq<string>)
    requires WellFormed(t) && Lookup(t, pc + [w]) == Some(n)
    ensures n in t.parent && t.parent[n] in t.kids && n in t.name
    ensures Lookup(Remove(t, n), comps) ==
      if pc + [w] <= comps then
        match Shadowed(t, n)
        case None => None
        case Some(s) => Walk(t, s, comps[|pc| + 1..])
      else Lookup(t, comps)
  {
    LastStep(t, pc, w);
    WalkConcat(t, t.root, pc, [w]);
    assert [w][1..] == [];
    assert !Under(t, n, t.root) && t.root in t.kids && t.parent[n] in t.kids;
    hide WellFormed;
    WalkAfterRemove(t, n, t.root, comps);
    CrossingFromRoot(t, pc, w, comps);
  }

  // ------------------------------------------------------------------ undoing an insertion

  lemma {:induction false} NotUnderNew<N>(t: Tree<N>, p: N, n: N, w: string, k: Kind, m: N)
    requires WellFormed(t) && p in t.kids && p in t.depth && n !in t.kids && m in t.kids && m in t.depth
    ensures !Under(Insert(t, p, n, w, k), n, m)
    decreases t.depth[m]
  {
    var u := Insert(t, p, n, w, k);
    if m in t.parent {
      KidsOf(t, t.parent[m], m);
      NotUnderNew(t, p, n, w, k, t.parent[m]);
      assert u.parent[m] == t.parent[m];
    }
  }

  lemma PruneNew<N, V>(u: Tree<N>, n: N, m: map<N, V>, v: V)
    requires n !in m && forall x :: x in m ==> !Under(u, n, x)
    ensures Prune(u, n, m[n := v]) == m
  {
  }

  lemma KeysAreNodes<N>(t: Tree<N>, m: N)
    requires WellFormed(t) && (m in t.parent || m in t.depth || m in t.name || m in t.kind)
    ensures m in t.kids && m in t.depth
  {
    if m in t.parent { assert t.parent[m] in t.kids; }
  }

  lemma OldNotUnder<N>(t: Tree<N>, p: N, n: N, w: string, k: Kind)
    requires WellFormed(t) && p in t.kids && p in t.depth && n !in t.kids
    ensures n !in t.parent && n !in t.depth && n !in t.name && n !in t.kind
    ensures var u := Insert(t, p, n, w, k);
      && (forall m :: m in t.kids ==> !Under(u, n, m)) && (forall m :: m in t.parent ==> !Under(u, n, m))
      && (forall m :: m in t.depth ==> !Under(u, n, m)) && (forall m :: m in t.name ==> !Under(u, n, m))
      && (forall m :: m in t.kind ==> !Under(u, n, m))
  {
    var u := Insert(t, p, n, w, k);
    forall m | m in t.kids || m in t.parent || m in t.depth || m in t.name || m in t.kind
      ensures m != n && !Under(u, n, m)
    {
      if m !in t.kids { KeysAreNodes(t, m); }
      assert m in t.depth;
      NotUnderNew(t, p, n, w, k, m);
    }
    hide WellFormed;
    hide Under;
  }

  lemma UndoWhenAlone<N>(t: Tree<N>, p: N, n: N, w: string, k: Kind)
    requires p in t.kids && p in t.depth && n !in t.kids && n !in t.kids[p]
    requires n !in t.parent && n !in t.depth && n !in t.name && n !in t.kind
    requires var u := Insert(t, p, n, w, k);
      && (forall m :: m in t.kids ==> !Under(u, n, m)) && (forall m :: m in t.parent ==> !Under(u, n, m))
      && (forall m :: m in t.depth ==> !Under(u, n, m)) && (forall m :: m in t.name ==> !Under(u, n, m))
      && (forall m :: m in t.kind ==> !Under(u, n, m))
    ensures Remove(Insert(t, p, n, w, k), n) == t
  {
    hide Under;
    var u := Insert(t, p, n, w, k);
    PruneNew(u, n, t.kids, []);
    PruneNew(u, n, t.parent, p);
    PruneNew(u, n, t.depth, t.depth[p] + 1);
    PruneNew(u, n, t.name, w);
    PruneNew(u, n, t.kind, k);
    hide Prune;
    assert Without([n] + t.kids[p], n) == t.kids[p];
    assert u.kids[p := t.kids[p]] == t.kids[n := []];
  }

  /** Inserting a node and taking it out again gives back the very same tree, including any
      node of the same name that it shadowed meanwhile. */
  lemma RemoveUndoesInsert<N>(t: Tree<N>, p: N, n: N, w: string, k: Kind)
    requires WellFormed(t) && p in t.kids && n !in t.kids
    ensures p in t.depth && n in Insert(t, p, n, w, k).parent && p in Insert(t, p, n, w, k).kids
    ensures Remove(Insert(t, p, n, w, k), n) == t
  {
    assert p in t.depth;
    assert n !in t.kids[p];
    OldNotUnder(t, p, n, w, k);
    UndoWhenAlone(t, p, n, w, k);
  }
}
