/** pkgmgr/blockpkg.c: the package table with its states and the count of installed entries. */
module Packages {
  import opened Options
  import opened PackageGraph
  import opened PackageClosure

  datatype PkgState = NotInstalled | Installed | Broken

  /** The table indices below `n` that are installed, as a set. */
  ghost function InstalledSet(st: seq<PkgState>): set<nat> {
    set i | 0 <= i < |st| && st[i] == Installed
  }

  /** The table indices that are installed, in table order. */
  function Listing(st: seq<PkgState>): seq<nat> {
    if st == [] then []
    else Listing(st[..|st| - 1]) + if st[|st| - 1] == Installed then [|st| - 1] else []
  }

  ghost predicate Ascending(r: seq<nat>) {
    forall i, j :: 0 <= i < j < |r| ==> r[i] < r[j]
  }

  /** The listing names exactly the installed entries, each once and in ascending order. */
  lemma {:induction false} ListingIsSorted(st: seq<PkgState>)
    ensures Ascending(Listing(st))
    ensures forall i :: i in Listing(st) <==> i in InstalledSet(st)
    ensures |Listing(st)| == |InstalledSet(st)|
  {
    if st != [] {
      var n := |st| - 1;
      ListingIsSorted(st[..n]);
      SetStep(st, n);
      var r := Listing(st[..n]);
      forall i | 0 <= i < |r| ensures r[i] < n { assert r[i] in InstalledSet(st[..n]); }
    } else {
      assert InstalledSet(st) == {};
    }
  }

  lemma SetStep(st: seq<PkgState>, n: nat)
    requires |st| == n + 1
    ensures InstalledSet(st) == InstalledSet(st[..n]) + if st[n] == Installed then {n} else {}
    ensures n !in InstalledSet(st[..n])
  {
  }

  /** A shorter table lists a prefix. */
  lemma {:induction false} ListingPrefix(st: seq<PkgState>, n: nat)
    requires n <= |st|
    ensures Listing(st[..n]) <= Listing(st)
    decreases |st|
  {
    if n < |st| {
      ListingPrefix(st[..|st| - 1], n);
      assert st[..|st| - 1][..n] == st[..n];
    } else {
      assert st[..n] == st;
    }
  }

  lemma MarkedSet(st: seq<PkgState>, p: nat)
    requires p < |st| && st[p] != Installed
    ensures InstalledSet(st[p := Installed]) == InstalledSet(st) + {p} && p !in InstalledSet(st)
  {
  }

  lemma UnmarkedSet(st: seq<PkgState>, p: nat)
    requires p < |st| && st[p] == Installed
    ensures InstalledSet(st[p := NotInstalled]) == InstalledSet(st) - {p} && p in InstalledSet(st)
  {
  }

  /** The states of entries change only from not installed to installed. */
  ghost predicate OnlyInstalls(before: seq<PkgState>, after: seq<PkgState>) {
    |before| == |after| && forall i :: 0 <= i < |before| ==> after[i] == before[i] || after[i] == Installed
  }

  /** An installation of the known packages among `names` that comes to an end. */
  ghost predicate Ends(cat: seq<Package>, s: set<nat>, names: seq<string>, fuel: nat) {
    InstallAll(cat, s, names, fuel).Some?
  }

  class Manager {
    const cat: seq<Package>
    const state: array<PkgState>
    var installed: nat

    /** g_installed is the number of entries that are installed. */
    ghost predicate Valid()
      reads this, state
    {
      state.Length == |cat| && installed == |InstalledSet(state[..])|
    }

    /** A table in which nothing is installed. */
    constructor (cat: seq<Package>)
      ensures Valid() && this.cat == cat && InstalledSet(state[..]) == {} && fresh(state)
    {
      this.cat := cat;
      state := new PkgState[|cat|](_ => NotInstalled);
      installed := 0;
      new;
      assert InstalledSet(state[..]) == {};
    }

    /** pkgmgr_find. */
    method Lookup(name: string) returns (p: Option<nat>)
      ensures p == Find(cat, name)
    {
      for i := 0 to |cat|
        invariant forall j :: 0 <= j < i ==> cat[j].name != name
      {
        if cat[i].name == name { return Some(i); }
      }
      p := None;
    }

    /** pkgmgr_install, for as deep a recursion as it takes. */
    method InstallRec(name: string, ghost fuel: nat) returns (ok: bool)
      requires Valid()
      requires Find(cat, name).Some? ==> Install(cat, InstalledSet(state[..]), Find(cat, name).value, fuel).Some?
      modifies this`installed, state
      ensures Valid() && OnlyInstalls(old(state[..]), state[..]) && (ok <==> Find(cat, name).Some?)
      ensures InstalledSet(state[..]) ==
        if ok then Install(cat, old(InstalledSet(state[..])), Find(cat, name).value, fuel).value else old(InstalledSet(state[..]))
      decreases fuel, 0
    {
      hide InstalledSet, Find, Install;
      var pkg := Lookup(name);
      if pkg.None? { return false; }
      var p := pkg.value;
      TellInstalled(state[..], p);
      InstallUnfolds(cat, InstalledSet(state[..]), p, fuel);
      if state[p] == Installed { return true; }
      ghost var s := InstalledSet(state[..]);
      InstallDeps(cat[p].deps, fuel - 1);
      EndsBounded(cat, s, p, fuel);
      TellInstalled(state[..], p);
      MarkedSet(state[..], p);
      state[p] := Installed;
      installed := installed + 1;
      return true;
    }

    /** pkgmgr_install: false exactly for an unknown name.  When no dependency circle lies ahead,
        afterwards the package and everything it needs that was missing is installed, and
        nothing else has changed; if nothing installed lacked a dependency before, the same
        holds afterwards. */
    method InstallPackage(name: string) returns (ok: bool)
      requires Valid()
      requires Find(cat, name).Some? ==> NoCircle(cat, InstalledSet(state[..]), Find(cat, name).value)
      modifies this`installed, state
      ensures Valid() && OnlyInstalls(old(state[..]), state[..]) && (ok <==> Find(cat, name).Some?)
      ensures InstalledSet(state[..]) == old(InstalledSet(state[..])) +
        if ok then ReachSet(cat, old(InstalledSet(state[..])), Find(cat, name).value) else {}
      ensures old(Closed(cat, InstalledSet(state[..]))) ==>
        && Closed(cat, InstalledSet(state[..]))
        && InstalledSet(state[..]) == old(InstalledSet(state[..])) + if ok then ReachSet(cat, {}, Find(cat, name).value) else {}
    {
      hide *;
      ghost var s := InstalledSet(state[..]);
      if Find(cat, name).Some? {
        EndsIffNoCircle(cat, s, Find(cat, name).value);
        InstallIsReach(cat, s, Find(cat, name).value, |cat|);
        if Closed(cat, s) { InstallFromClosed(cat, s, Find(cat, name).value, |cat|); }
      }
      ok := InstallRec(name, |cat|);
    }

    /** pkgmgr_remove: true exactly when the package is known and installed. */
    method Remove(name: string) returns (ok: bool)
      requires Valid()
      modifies this`installed, state
      ensures Valid()
      ensures ok <==> Find(cat, name).Some? && old(state[..])[Find(cat, name).value] == Installed
      ensures state[..] == if ok then old(state[..])[Find(cat, name).value := NotInstalled] else old(state[..])
      ensures InstalledSet(state[..]) == old(InstalledSet(state[..])) - if ok then {Find(cat, name).value} else {}
    {
      var pkg := Lookup(name);
      if pkg.None? || state[pkg.value] != Installed { return false; }
      UnmarkedSet(state[..], pkg.value);
      state[pkg.value] := NotInstalled;
      assert state[..] == old(state[..])[pkg.value := NotInstalled];
      installed := installed - 1;
      return true;
    }

    /** pkgmgr_list_installed: as many installed entries as there are and fit, the first ones of
        the table, in table order. */
    method ListInstalled(list: array<nat>, max: nat) returns (n: nat)
      requires Valid() && max <= list.Length
      modifies list
      ensures n == if installed < max then installed else max
      ensures n <= |Listing(state[..])| && list[..n] == Listing(state[..])[..n]
      ensures list[n..] == old(list[n..])
    {
      n := 0;
      var i := 0;
      while i < |cat| && n < max
        invariant i <= |cat| && n <= max
        invariant list[..n] == Listing(state[..i])
        invariant list[n..] == old(list[n..])
      {
        assert state[..i + 1][..i] == state[..i];
        if state[i] == Installed {
          list[n] := i;
          n := n + 1;
        }
        i := i + 1;
      }
      ListingPrefix(state[..], i);
      ListingIsSorted(state[..]);
      assert state[..][..i] == state[..i];
      assert i == |cat| ==> state[..i] == state[..];
    }

    /** Its loop over the dependencies; what the calls return is ignored. */
    method InstallDeps(deps: seq<string>, ghost fuel: nat)
      requires Valid() && InstallAll(cat, InstalledSet(state[..]), deps, fuel).Some?
      modifies this`installed, state
      ensures Valid() && OnlyInstalls(old(state[..]), state[..])
      ensures InstalledSet(state[..]) == InstallAll(cat, old(InstalledSet(state[..])), deps, fuel).value
      decreases fuel, 1
    {
      hide InstalledSet, Find, Install;
      ghost var s := InstalledSet(state[..]);
      assert deps[0..] == deps;
      for i := 0 to |deps|
        invariant Valid() && OnlyInstalls(old(state[..]), state[..])
        invariant InstallAll(cat, InstalledSet(state[..]), deps[i..], fuel) == InstallAll(cat, s, deps, fuel)
      {
        assert deps[i..][0] == deps[i] && deps[i..][1..] == deps[i + 1..];
        var _ := InstallRec(deps[i], fuel);
      }
    }
  }

  lemma TellInstalled(st: seq<PkgState>, p: nat)
    requires p < |st|
    ensures p in InstalledSet(st) <==> st[p] == Installed
  {
  }

  lemma InstallUnfolds(cat: seq<Package>, s: set<nat>, p: nat, fuel: nat)
    requires p < |cat| && Install(cat, s, p, fuel).Some?
    ensures p in s ==> Install(cat, s, p, fuel).value == s
    ensures p !in s ==>
      && fuel > 0 && InstallAll(cat, s, cat[p].deps, fuel - 1).Some?
      && Install(cat, s, p, fuel).value == InstallAll(cat, s, cat[p].deps, fuel - 1).value + {p}
  {
  }
}
