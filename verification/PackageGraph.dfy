/** What installing a package with its dependencies means: which packages end up installed,
    and when the recursion comes to an end at all. */
module PackageGraph {
  import opened Options

  /** The parts of package_t that never change: its name and the names it depends on. */
  datatype Package = Package(name: string, deps: seq<string>)

  /** The entry pkgmgr_find returns: the first of that name. */
  function Find(cat: seq<Package>, name: string): (r: Option<nat>)
    ensures r.Some? ==> r.value < |cat| && cat[r.value].name == name
    ensures r.Some? ==> forall j :: 0 <= j < r.value ==> cat[j].name != name
    ensures r.None? ==> forall j :: 0 <= j < |cat| ==> cat[j].name != name
  {
    if cat == [] then None
    else if cat[0].name == name then Some(0)
    else match Find(cat[1..], name) case None => None case Some(i) => Some(i + 1)
  }

  // ------------------------------------------------------------------ the recursion

  /** pkgmgr_install on entry `p` when the entries `s` are installed: the set installed
      afterwards, or nothing when the recursion goes deeper than `fuel`. */
  function Install(cat: seq<Package>, s: set<nat>, p: nat, fuel: nat): Option<set<nat>>
    requires p < |cat|
    decreases fuel, 0
  {
    if p in s then Some(s)
    else if fuel == 0 then None
    else match InstallAll(cat, s, cat[p].deps, fuel - 1)
      case None => None
      case Some(t) => Some(t + {p})
  }

  /** Its loop: the dependencies one after the other, unknown ones ignored. */
  function InstallAll(cat: seq<Package>, s: set<nat>, names: seq<string>, fuel: nat): Option<set<nat>>
    decreases fuel, 1 + |names|
  {
    if names == [] then Some(s)
    else match Find(cat, names[0])
      case None => InstallAll(cat, s, names[1..], fuel)
      case Some(d) =>
        match Install(cat, s, d, fuel)
        case None => None
        case Some(t) => InstallAll(cat, t, names[1..], fuel)
  }

  // ------------------------------------------------------------------ dependency walks

  /** Package `q` is a known dependency of `p`. */
  ghost predicate Edge(cat: seq<Package>, p: nat, q: nat) {
    p < |cat| && Known(cat, cat[p].deps, q)
  }

  ghost predicate Known(cat: seq<Package>, names: seq<string>, q: nat) {
    exists i :: 0 <= i < |names| && Find(cat, names[i]) == Some(q)
  }

  /** `w` follows dependencies and meets no package of `s`. */
  ghost predicate Walk(cat: seq<Package>, s: set<nat>, w: seq<nat>) {
    && w != []
    && (forall i :: 0 <= i < |w| ==> w[i] < |cat| && w[i] !in s)
    && (forall i :: 0 <= i < |w| - 1 ==> Edge(cat, w[i], w[i + 1]))
  }

  ghost predicate WalkFromTo(cat: seq<Package>, s: set<nat>, w: seq<nat>, p: nat, q: nat) {
    Walk(cat, s, w) && w[0] == p && w[|w| - 1] == q
  }

  /** `q` can be reached from `p` without meeting a package of `s`. */
  ghost predicate Reaches(cat: seq<Package>, s: set<nat>, p: nat, q: nat) {
    exists w :: WalkFromTo(cat, s, w, p, q)
  }

  ghost function ReachSet(cat: seq<Package>, s: set<nat>, p: nat): set<nat> {
    set q | 0 <= q < |cat| && Reaches(cat, s, p, q)
  }

  /** What the packages called `names` reach. */
  ghost function ReachAll(cat: seq<Package>, s: set<nat>, names: seq<string>): set<nat> {
    if names == [] then {}
    else (match Find(cat, names[0]) case None => {} case Some(d) => ReachSet(cat, s, d)) + ReachAll(cat, s, names[1..])
  }

  lemma WalkConcat(cat: seq<Package>, s: set<nat>, u: seq<nat>, v: seq<nat>)
    requires Walk(cat, s, u) && Walk(cat, s, v) && Edge(cat, u[|u| - 1], v[0])
    ensures Walk(cat, s, u + v)
  {
    var w := u + v;
    forall i | 0 <= i < |w| - 1 ensures Edge(cat, w[i], w[i + 1]) {
      if i < |u| - 1 { assert Edge(cat, u[i], u[i + 1]); }
      else if i >= |u| { assert Edge(cat, v[i - |u|], v[i - |u| + 1]); }
    }
  }

  lemma WalkSuffix(cat: seq<Package>, s: set<nat>, w: seq<nat>, i: nat)
    requires Walk(cat, s, w) && i < |w|
    ensures Walk(cat, s, w[i..])
  {
    var v := w[i..];
    forall k | 0 <= k < |v| - 1 ensures Edge(cat, v[k], v[k + 1]) { assert Edge(cat, w[i + k], w[i + k + 1]); }
  }

  lemma WalkPrefix(cat: seq<Package>, s: set<nat>, w: seq<nat>, i: nat)
    requires Walk(cat, s, w) && 0 < i <= |w|
    ensures Walk(cat, s, w[..i])
  {
    var v := w[..i];
    forall k | 0 <= k < |v| - 1 ensures Edge(cat, v[k], v[k + 1]) { assert Edge(cat, w[k], w[k + 1]); }
  }

  lemma WalkAvoidsLess(cat: seq<Package>, s: set<nat>, t: set<nat>, w: seq<nat>)
    requires s <= t && Walk(cat, t, w)
    ensures Walk(cat, s, w)
  {
  }

  /** Two walks joined at a package both contain. */
  lemma Join(cat: seq<Package>, s: set<nat>, u: seq<nat>, v: seq<nat>)
    requires Walk(cat, s, u) && Walk(cat, s, v) && u[|u| - 1] == v[0]
    ensures Walk(cat, s, u + v[1..]) && (u + v[1..])[|u| + |v| - 2] == v[|v| - 1]
  {
    if |v| > 1 {
      WalkSuffix(cat, s, v, 1);
      assert Edge(cat, v[0], v[1]);
      WalkConcat(cat, s, u, v[1..]);
    } else {
      assert u + v[1..] == u;
    }
  }
}
