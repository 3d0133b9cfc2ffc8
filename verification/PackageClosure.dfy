/** An installation that ends has installed exactly what was missing below the package, and it
    ends if and only if no dependency walk through missing packages runs in a circle. */
module PackageClosure {
  import opened Options
  import opened Collections
  import opened PackageGraph

  // ------------------------------------------------------------------ what is installed

  lemma ReachIn(cat: seq<Package>, s: set<nat>, w: seq<nat>, p: nat, q: nat)
    requires WalkFromTo(cat, s, w, p, q)
    ensures p < |cat| && q < |cat| && q in ReachSet(cat, s, p)
  {
    assert w[0] < |cat| && w[|w| - 1] < |cat|;
  }

  /** Whoever is reached past packages installed meanwhile was reached already. */
  lemma StepsOver(cat: seq<Package>, s: set<nat>, d: nat, e: nat, q: nat)
    requires d < |cat| && e < |cat|
    ensures var t := s + ReachSet(cat, s, d);
      q in t + ReachSet(cat, t, e) <==> q in t + ReachSet(cat, s, e)
  {
    var t := s + ReachSet(cat, s, d);
    if q in ReachSet(cat, t, e) {
      var w :| WalkFromTo(cat, t, w, e, q);
      WalkAvoidsLess(cat, s, t, w);
      ReachIn(cat, s, w, e, q);
    }
    if q in ReachSet(cat, s, e) && q !in t {
      var w :| WalkFromTo(cat, s, w, e, q);
      if i :| 0 <= i < |w| && w[i] in t {
        assert w[i] !in s;
        var u :| WalkFromTo(cat, s, u, d, w[i]);
        WalkSuffix(cat, s, w, i);
        Join(cat, s, u, w[i..]);
        ReachIn(cat, s, u + w[i..][1..], d, q);
        assert false;
      }
      assert Walk(cat, t, w);
      ReachIn(cat, t, w, e, q);
    }
  }

  lemma {:induction false} StepsOverAll(cat: seq<Package>, s: set<nat>, d: nat, names: seq<string>)
    requires d < |cat|
    ensures var t := s + ReachSet(cat, s, d);
      t + ReachAll(cat, t, names) == t + ReachAll(cat, s, names)
    decreases |names|
  {
    hide ReachSet;
    var t := s + ReachSet(cat, s, d);
    if names != [] {
      StepsOverAll(cat, s, d, names[1..]);
      var e := Find(cat, names[0]);
      if e.Some? {
        forall q ensures q in t + ReachSet(cat, t, e.value) <==> q in t + ReachSet(cat, s, e.value) {
          StepsOver(cat, s, d, e.value, q);
        }
        assert t + ReachSet(cat, t, e.value) == t + ReachSet(cat, s, e.value);
      }
    }
  }

  /** From a missing package one reaches itself and what its dependencies reach. */
  lemma ReachUnfold(cat: seq<Package>, s: set<nat>, p: nat)
    requires p < |cat| && p !in s
    ensures ReachSet(cat, s, p) == {p} + ReachAll(cat, s, cat[p].deps)
  {
    assert WalkFromTo(cat, s, [p], p, p);
    ReachIn(cat, s, [p], p, p);
    forall q | q in ReachSet(cat, s, p) && q != p ensures q in ReachAll(cat, s, cat[p].deps) {
      var w :| WalkFromTo(cat, s, w, p, q);
      assert Edge(cat, w[0], w[1]);
      WalkSuffix(cat, s, w, 1);
      ReachIn(cat, s, w[1..], w[1], q);
      var i :| 0 <= i < |cat[p].deps| && Find(cat, cat[p].deps[i]) == Some(w[1]);
      InReachAll(cat, s, cat[p].deps, i, q);
    }
    forall q | q in ReachAll(cat, s, cat[p].deps) ensures q in ReachSet(cat, s, p) {
      var d := FromReachAll(cat, s, cat[p].deps, q);
      var w :| WalkFromTo(cat, s, w, d, q);
      assert Edge(cat, p, d);
      WalkConcat(cat, s, [p], w);
      ReachIn(cat, s, [p] + w, p, q);
    }
  }

  lemma {:induction false} InReachAll(cat: seq<Package>, s: set<nat>, names: seq<string>, i: nat, q: nat)
    requires i < |names| && Find(cat, names[i]).Some? && q in ReachSet(cat, s, Find(cat, names[i]).value)
    ensures q in ReachAll(cat, s, names)
    decreases |names|
  {
    if i > 0 { InReachAll(cat, s, names[1..], i - 1, q); }
  }

  lemma {:induction false} FromReachAll(cat: seq<Package>, s: set<nat>, names: seq<string>, q: nat) returns (d: nat)
    requires q in ReachAll(cat, s, names)
    ensures d < |cat| && Known(cat, names, d) && q in ReachSet(cat, s, d)
    decreases |names|
  {
    var f := Find(cat, names[0]);
    if f.Some? && q in ReachSet(cat, s, f.value) {
      d := f.value;
      assert Find(cat, names[0]) == Some(d);
    } else {
      d := FromReachAll(cat, s, names[1..], q);
      var i :| 0 <= i < |names[1..]| && Find(cat, names[1..][i]) == Some(d);
      assert names[i + 1] == names[1..][i];
    }
  }

  /** The old set, plus everything the package reaches through missing packages; nothing else. */
  lemma {:induction false} InstallIsReach(cat: seq<Package>, s: set<nat>, p: nat, fuel: nat)
    requires p < |cat| && Install(cat, s, p, fuel).Some?
    ensures Install(cat, s, p, fuel).value == s + ReachSet(cat, s, p)
    decreases fuel, 0
  {
    if p in s {
      assert ReachSet(cat, s, p) == {};
    } else {
      InstallAllIsReach(cat, s, cat[p].deps, fuel - 1);
      ReachUnfold(cat, s, p);
    }
  }

  lemma {:induction false} InstallAllIsReach(cat: seq<Package>, s: set<nat>, names: seq<string>, fuel: nat)
    requires InstallAll(cat, s, names, fuel).Some?
    ensures InstallAll(cat, s, names, fuel).value == s + ReachAll(cat, s, names)
    decreases fuel, 1 + |names|
  {
    hide ReachSet;
    if names != [] {
      var f := Find(cat, names[0]);
      if f.None? {
        InstallAllIsReach(cat, s, names[1..], fuel);
      } else {
        InstallIsReach(cat, s, f.value, fuel);
        var t := s + ReachSet(cat, s, f.value);
        InstallAllIsReach(cat, t, names[1..], fuel);
        StepsOverAll(cat, s, f.value, names[1..]);
      }
    }
  }

  /** Every known dependency of an installed package is installed. */
  ghost predicate Closed(cat: seq<Package>, s: set<nat>) {
    forall i, j :: i in s && Edge(cat, i, j) ==> j in s
  }

  lemma {:induction false} ClosedStays(cat: seq<Package>, s: set<nat>, w: seq<nat>, i: nat, j: nat)
    requires Closed(cat, s) && Walk(cat, {}, w) && i <= j < |w| && w[i] in s
    ensures w[j] in s
    decreases j - i
  {
    if i < j {
      assert Edge(cat, w[i], w[i + 1]);
      ClosedStays(cat, s, w, i + 1, j);
    }
  }

  /** When nothing installed lacks a dependency, an installation adds all that the package
      depends on, directly or not, and again nothing installed lacks a dependency. */
  lemma InstallFromClosed(cat: seq<Package>, s: set<nat>, p: nat, fuel: nat)
    requires p < |cat| && Closed(cat, s) && Install(cat, s, p, fuel).Some?
    ensures Install(cat, s, p, fuel).value == s + ReachSet(cat, {}, p)
    ensures Closed(cat, Install(cat, s, p, fuel).value)
  {
    InstallIsReach(cat, s, p, fuel);
    var t := s + ReachSet(cat, s, p);
    forall q | q in ReachSet(cat, {}, p) ensures q in t {
      var w :| WalkFromTo(cat, {}, w, p, q);
      if q !in s {
        forall i | 0 <= i < |w| ensures w[i] !in s { if w[i] in s { ClosedStays(cat, s, w, i, |w| - 1); } }
        ReachIn(cat, s, w, p, q);
      }
    }
    forall q | q in ReachSet(cat, s, p) ensures q in ReachSet(cat, {}, p) {
      var w :| WalkFromTo(cat, s, w, p, q);
      WalkAvoidsLess(cat, {}, s, w);
      ReachIn(cat, {}, w, p, q);
    }
    forall i, j | i in t && Edge(cat, i, j) && j !in s ensures j in t {
      var w :| WalkFromTo(cat, s, w, p, i);
      var k :| 0 <= k < |cat[i].deps| && Find(cat, cat[i].deps[k]) == Some(j);
      WalkConcat(cat, s, w, [j]);
      ReachIn(cat, s, w + [j], p, j);
    }
  }

  // ------------------------------------------------------------------ when it ends

  /** No walk through missing packages from `p` is longer than `b`. */
  ghost predicate Bounded(cat: seq<Package>, s: set<nat>, p: nat, b: int) {
    forall w :: Walk(cat, s, w) && w[0] == p ==> |w| <= b
  }

  /** No walk through missing packages from `p` visits a package twice. */
  ghost predicate NoCircle(cat: seq<Package>, s: set<nat>, p: nat) {
    forall w :: Walk(cat, s, w) && w[0] == p ==> Distinct<nat>(w)
  }

  /** Going round a circle as often as one likes. */
  lemma {:induction false} Rounds(cat: seq<Package>, s: set<nat>, u: seq<nat>, k: nat) returns (w: seq<nat>)
    requires Walk(cat, s, u) && Edge(cat, u[|u| - 1], u[0])
    ensures Walk(cat, s, w) && w[0] == u[0] && w[|w| - 1] == u[|u| - 1] && |w| >= k
    decreases k
  {
    if k == 0 { return u; }
    var v := Rounds(cat, s, u, k - 1);
    WalkConcat(cat, s, v, u);
    w := v + u;
  }

  lemma CircleUnbounded(cat: seq<Package>, s: set<nat>, p: nat, w: seq<nat>, i: nat, j: nat, b: nat)
    requires Walk(cat, s, w) && w[0] == p && i < j < |w| && w[i] == w[j]
    ensures !Bounded(cat, s, p, b)
  {
    var u := w[i..j];
    WalkSuffix(cat, s, w, i);
    assert w[i..][..j - i] == u;
    WalkPrefix(cat, s, w[i..], j - i);
    assert Edge(cat, w[j - 1], w[j]);
    var v := Rounds(cat, s, u, b + 1);
    if i > 0 {
      WalkPrefix(cat, s, w, i);
      assert Edge(cat, w[i - 1], w[i]);
      WalkConcat(cat, s, w[..i], v);
      assert Walk(cat, s, w[..i] + v) && (w[..i] + v)[0] == p;
    }
  }

  ghost function UpTo(n: nat): (r: set<nat>)
    ensures |r| == n
    ensures forall i: nat :: i in r <==> i < n
  {
    if n == 0 then {} else UpTo(n - 1) + {n - 1}
  }

  ghost function Seen(w: seq<nat>): (r: set<nat>)
    ensures forall x :: x in r <==> x in w
  {
    if w == [] then {} else Seen(w[1..]) + {w[0]}
  }

  lemma {:induction false} SeenSize(w: seq<nat>)
    requires Distinct(w)
    ensures |Seen(w)| == |w|
  {
    if w != [] {
      SeenSize(w[1..]);
      assert w[0] !in w[1..];
    }
  }

  /** A walk without repetitions is no longer than the table. */
  lemma DistinctShort(w: seq<nat>, n: nat)
    requires forall i :: 0 <= i < |w| ==> w[i] < n
    requires Distinct(w)
    ensures |w| <= n
  {
    SeenSize(w);
    SubsetSize(Seen(w), UpTo(n));
  }

  /** An installation that ends has bounded the walks below the package by what it installed. */
  lemma {:induction false} EndsBounded(cat: seq<Package>, s: set<nat>, p: nat, fuel: nat)
    requires p < |cat| && p !in s && Install(cat, s, p, fuel).Some?
    ensures var t := Install(cat, s, p, fuel).value;
      && s <= t && Bounded(cat, s, p, |t| - |s|)
      && InstallAll(cat, s, cat[p].deps, fuel - 1).Some? && p !in InstallAll(cat, s, cat[p].deps, fuel - 1).value
    decreases fuel, 0
  {
    hide ReachSet, ReachAll, Find, Bounded, AllBounded;
    var names := cat[p].deps;
    var t := InstallAll(cat, s, names, fuel - 1).value;
    InstallAllIsReach(cat, s, names, fuel - 1);
    AllEndBounded(cat, s, names, fuel - 1);
    var b := |t| - |s|;
    SubsetSize(s, t);
    if p in t { NoWayBack(cat, s, p, b); }
    BoundedAbove(cat, s, p, b);
  }

  /** Bounded walks do not come back. */
  lemma NoWayBack(cat: seq<Package>, s: set<nat>, p: nat, b: nat)
    requires p < |cat| && AllBounded(cat, s, cat[p].deps, b)
    ensures p !in ReachAll(cat, s, cat[p].deps)
  {
    if p in ReachAll(cat, s, cat[p].deps) {
      var d := FromReachAll(cat, s, cat[p].deps, p);
      var u :| WalkFromTo(cat, s, u, d, p);
      assert Edge(cat, u[|u| - 1], u[0]);
      var w := Rounds(cat, s, u, b + 1);
      assert false;
    }
  }

  lemma BoundedAbove(cat: seq<Package>, s: set<nat>, p: nat, b: nat)
    requires p < |cat| && AllBounded(cat, s, cat[p].deps, b)
    ensures Bounded(cat, s, p, b + 1)
  {
    hide Find;
    forall w | Walk(cat, s, w) && w[0] == p ensures |w| <= b + 1 {
      if |w| > 1 {
        assert Edge(cat, w[0], w[1]);
        WalkSuffix(cat, s, w, 1);
        assert Bounded(cat, s, w[1], b);
      }
    }
  }

  lemma FirstIn(w: seq<nat>, t: set<nat>) returns (i: nat)
    ensures i <= |w| && (i < |w| ==> w[i] in t) && forall k :: 0 <= k < i ==> w[k] !in t
  {
    i := 0;
    while i < |w| && w[i] !in t
      invariant i <= |w| && forall k :: 0 <= k < i ==> w[k] !in t
    {
      i := i + 1;
    }
  }

  /** Past what was installed meanwhile a walk continues below the package that brought it. */
  lemma BoundTogether(cat: seq<Package>, s: set<nat>, d: nat, e: nat, a: nat, b: nat)
    requires d < |cat|
    requires d !in s ==> Bounded(cat, s, d, a)
    requires Bounded(cat, s + ReachSet(cat, s, d), e, b)
    ensures Bounded(cat, s, e, a + b)
  {
    var t := s + ReachSet(cat, s, d);
    forall w | Walk(cat, s, w) && w[0] == e ensures |w| <= a + b {
      var i := FirstIn(w, t);
      if i == |w| {
        assert Walk(cat, t, w);
      } else {
        assert w[i] !in s;
        var u :| WalkFromTo(cat, s, u, d, w[i]);
        WalkSuffix(cat, s, w, i);
        Join(cat, s, u, w[i..]);
        assert (u + w[i..][1..])[0] == d;
        if i > 0 {
          WalkPrefix(cat, s, w, i);
          assert Walk(cat, t, w[..i]) && w[..i][0] == e;
        }
      }
    }
  }

  lemma {:induction false} AllEndBounded(cat: seq<Package>, s: set<nat>, names: seq<string>, fuel: nat)
    requires InstallAll(cat, s, names, fuel).Some?
    ensures var t := InstallAll(cat, s, names, fuel).value;
      && s <= t && AllBounded(cat, s, names, |t| - |s|)
    decreases fuel, 1 + |names|
  {
    hide ReachSet, ReachAll, Bounded, Install, AllBounded;
    if names == [] {
      NoneKnown(cat, s, 0);
    } else {
      var f := Find(cat, names[0]);
      if f.None? {
        AllEndBounded(cat, s, names[1..], fuel);
        AddUnknown(cat, s, names, |InstallAll(cat, s, names, fuel).value| - |s|);
      } else {
        FirstEndBounded(cat, s, names, fuel);
        AllEndBounded(cat, Install(cat, s, f.value, fuel).value, names[1..], fuel);
        SubsetSize(Install(cat, s, f.value, fuel).value, InstallAll(cat, s, names, fuel).value);
        AddKnown(cat, s, names, f.value, |Install(cat, s, f.value, fuel).value| - |s|,
                 |InstallAll(cat, s, names, fuel).value| - |Install(cat, s, f.value, fuel).value|);
      }
    }
  }

  lemma FirstEndBounded(cat: seq<Package>, s: set<nat>, names: seq<string>, fuel: nat)
    requires names != [] && Find(cat, names[0]).Some? && Install(cat, s, Find(cat, names[0]).value, fuel).Some?
    ensures var d := Find(cat, names[0]).value;
      var t := Install(cat, s, d, fuel).value;
      && t == s + ReachSet(cat, s, d) && (d !in s ==> Bounded(cat, s, d, |t| - |s|)) && |s| <= |t|
    decreases fuel, |names|
  {
    hide ReachSet, ReachAll, Bounded, InstallAll;
    var d := Find(cat, names[0]).value;
    InstallIsReach(cat, s, d, fuel);
    SubsetSize(s, Install(cat, s, d, fuel).value);
    if d !in s { EndsBounded(cat, s, d, fuel); }
  }

  /** What `names` lists starts no walk longer than `b`. */
  ghost predicate AllBounded(cat: seq<Package>, s: set<nat>, names: seq<string>, b: int) {
    forall d :: 0 <= d < |cat| && Known(cat, names, d) ==> Bounded(cat, s, d, b)
  }

  lemma NoneKnown(cat: seq<Package>, s: set<nat>, b: int)
    ensures AllBounded(cat, s, [], b)
  {
  }

  lemma AddUnknown(cat: seq<Package>, s: set<nat>, names: seq<string>, b: int)
    requires names != [] && Find(cat, names[0]).None? && AllBounded(cat, s, names[1..], b)
    ensures AllBounded(cat, s, names, b)
  {
    hide Bounded;
    forall d | 0 <= d < |cat| && Known(cat, names, d) ensures Bounded(cat, s, d, b) { KnownTail(cat, names, d); }
  }

  lemma AddKnown(cat: seq<Package>, s: set<nat>, names: seq<string>, first: nat, a: nat, b: int)
    requires names != [] && Find(cat, names[0]) == Some(first)
    requires first !in s ==> Bounded(cat, s, first, a)
    requires b >= 0 && AllBounded(cat, s + ReachSet(cat, s, first), names[1..], b)
    ensures AllBounded(cat, s, names, a + b)
  {
    hide Find, ReachSet;
    forall d | 0 <= d < |cat| && Known(cat, names, d) ensures Bounded(cat, s, d, a + b) {
      KnownTail(cat, names, d);
      if d == first {
        InstalledBounded(cat, s, first, a);
      } else {
        BoundTogether(cat, s, first, d, a, b);
      }
    }
  }

  /** No walk starts at an installed package. */
  lemma InstalledBounded(cat: seq<Package>, s: set<nat>, d: nat, a: nat)
    requires d !in s ==> Bounded(cat, s, d, a)
    ensures Bounded(cat, s, d, a)
  {
  }

  lemma KnownTail(cat: seq<Package>, names: seq<string>, d: nat)
    requires names != [] && Known(cat, names, d)
    ensures Find(cat, names[0]) == Some(d) || Known(cat, names[1..], d)
  {
    var i :| 0 <= i < |names| && Find(cat, names[i]) == Some(d);
    if i > 0 { assert names[1..][i - 1] == names[i]; }
  }

  /** Bounded walks need no more recursion than the bound. */
  lemma {:induction false} BoundedEnds(cat: seq<Package>, s: set<nat>, p: nat, b: nat)
    requires p < |cat| && Bounded(cat, s, p, b)
    ensures Install(cat, s, p, b).Some?
    decreases b, 0
  {
    if p !in s {
      assert Walk(cat, s, [p]);
      forall d | 0 <= d < |cat| && Known(cat, cat[p].deps, d) ensures Bounded(cat, s, d, b - 1) {
        assert Edge(cat, p, d);
        forall w | Walk(cat, s, w) && w[0] == d ensures |w| <= b - 1 {
          WalkConcat(cat, s, [p], w);
          assert ([p] + w)[0] == p;
        }
      }
      AllBoundedEnd(cat, s, cat[p].deps, b - 1);
    }
  }

  lemma {:induction false} AllBoundedEnd(cat: seq<Package>, s: set<nat>, names: seq<string>, b: nat)
    requires AllBounded(cat, s, names, b)
    ensures InstallAll(cat, s, names, b).Some?
    decreases b, 1 + |names|
  {
    if names != [] {
      var f := Find(cat, names[0]);
      forall d | 0 <= d < |cat| && Known(cat, names[1..], d) ensures Known(cat, names, d) {
        var i :| 0 <= i < |names[1..]| && Find(cat, names[1..][i]) == Some(d);
        assert names[i + 1] == names[1..][i];
      }
      if f.None? {
        AllBoundedEnd(cat, s, names[1..], b);
      } else {
        assert Known(cat, names, f.value);
        BoundedEnds(cat, s, f.value, b);
        InstallIsReach(cat, s, f.value, b);
        var t := Install(cat, s, f.value, b).value;
        forall d | 0 <= d < |cat| && Known(cat, names[1..], d) ensures Bounded(cat, t, d, b) {
          forall w | Walk(cat, t, w) && w[0] == d ensures |w| <= b { WalkAvoidsLess(cat, s, t, w); }
        }
        AllBoundedEnd(cat, t, names[1..], b);
      }
    }
  }

  /** pkgmgr_install comes to an end if and only if the dependencies among the packages that
      are still missing below the one asked for are acyclic; then a recursion as deep as the
      table is long is enough. */
  lemma EndsIffNoCircle(cat: seq<Package>, s: set<nat>, p: nat)
    requires p < |cat|
    ensures (exists fuel :: Install(cat, s, p, fuel).Some?) <==> NoCircle(cat, s, p)
    ensures NoCircle(cat, s, p) ==> Install(cat, s, p, |cat|).Some?
  {
    if fuel :| Install(cat, s, p, fuel).Some? {
      forall w | Walk(cat, s, w) && w[0] == p ensures Distinct<nat>(w) {
        if i, j :| 0 <= i < j < |w| && w[i] == w[j] {
          EndsBounded(cat, s, p, fuel);
          var t := Install(cat, s, p, fuel).value;
          SubsetSize(s, t);
          CircleUnbounded(cat, s, p, w, i, j, |t| - |s|);
          assert false;
        }
      }
    }
    if NoCircle(cat, s, p) {
      forall w | Walk(cat, s, w) && w[0] == p ensures |w| <= |cat| { DistinctShort(w, |cat|); }
      BoundedEnds(cat, s, p, |cat|);
    }
  }

  /** A package that depends on itself: however deep it gets, the recursion does not end. */
  lemma {:induction false} SelfDependency(fuel: nat)
    ensures Install([Package("a", ["a"])], {}, 0, fuel) == None
  {
    if fuel > 0 {
      SelfDependency(fuel - 1);
      assert Find([Package("a", ["a"])], "a") == Some(0);
    }
  }

  // ------------------------------------------------------------------ removal

  /** Removing a package keeps the installed set closed if and only if no other installed
      package depends on it. */
  lemma RemoveKeepsClosedIff(cat: seq<Package>, s: set<nat>, r: nat)
    requires Closed(cat, s) && r in s
    ensures Closed(cat, s - {r}) <==> forall q :: q in s && q != r ==> !Edge(cat, q, r)
  {
    hide Edge;
  }

  /** When one does, installing it again does not help: it counts as installed. */
  lemma RemovedStaysMissing(cat: seq<Package>, s: set<nat>, q: nat, r: nat, fuel: nat)
    requires q < |cat| && q in s && q != r
    ensures Install(cat, s - {r}, q, fuel) == Some(s - {r})
  {
  }

  /** For example b, installed because a depends on it, and then removed. */
  lemma DependencyRemoved()
    ensures var cat := [Package("a", ["b"]), Package("b", [])];
      && Install(cat, {}, 0, 2) == Some({0, 1}) && Edge(cat, 0, 1)
      && Install(cat, {0, 1} - {1}, 0, 2) == Some({0})
  {
    var cat := [Package("a", ["b"]), Package("b", [])];
    assert Find(cat[1..], "b") == Some(0);
    assert Find(cat, "b") == Some(1) && cat[0].deps[0] == "b";
    assert InstallAll(cat, {}, [], 0) == Some({}) && InstallAll(cat, {1}, [], 1) == Some({1});
    var none: set<nat> := {};
    assert cat[1].deps == [] && none + {1} == {1};
    assert Install(cat, {}, 1, 1) == Some({1});
    assert cat[0].deps[1..] == [];
    assert InstallAll(cat, {}, ["b"], 1) == Some({1});
    assert {1} + {0} == {0, 1} && {0, 1} - {1} == {0};
  }
}
