/** Short runs from a fresh RAMFS that end where a caller might not expect it. */
module RamfsExamples {
  import opened Options
  import opened PathTree
  import opened PathTreeRemoval
  import opened RamfsSpec

  /** `path` is split at its slash number `i`. */
  lemma Split(path: string, i: nat, dir: string, name: string)
    requires i < |path| && path[i] == '/' && forall k :: i < k < |path| ==> path[k] != '/'
    requires dir == (if i == 0 then "/" else path[..i]) && name == path[i + 1..]
    ensures SplitPath(path) == (dir, name)
    ensures Comps(path) == Comps(dir) + if name == "" then [] else [name]
  {
    hide Comps;
    SplitPathComps(path);
  }

  /** A directory, called `path`, in a fresh file system. */
  ghost function WithDir(path: string): (fs: Fs<nat>)
    requires SplitPath(path).0 == "/" && SplitPath(path).1 != ""
    ensures WellFormed(fs.tree) && CountersExact(fs) && Find(fs, path) == Some(1)
    ensures fs.tree.kids == map[0 := [1], 1 := []] && fs.tree.root == 0 && fs.tree.depth == map[0 := 0, 1 := 1]
    ensures fs.tree.kind == map[0 := Dir, 1 := Dir] && fs.tree.parent == map[1 := 0]
  {
    hide Comps, WellFormed, SplitPath;
    FreshIsTree<nat>(0);
    RootFound();
    CreateKeepsCounters(Fresh<nat>(0), path, Dir, 1, true);
    InsertWellFormed(Fresh<nat>(0).tree, 0, 1, SplitPath(path).1, Dir);
    LookupAfterCreate(Fresh<nat>(0), path, Dir, 1, path);
    assert [1] + Fresh<nat>(0).tree.kids[0] == [1];
    Create(Fresh<nat>(0), path, Dir, 1, true).0
  }

  lemma RootFound()
    ensures Find(Fresh<nat>(0), "/") == Some(0)
  {
    RootComps();
  }

  /** mkdir dir; create dir/file; delete dir: the file is gone, but still counted. */
  lemma CountersLieAt(dir: string, file: string)
    requires SplitPath(dir).0 == "/" && SplitPath(dir).1 != "" && SplitPath(file).0 == dir && SplitPath(file).1 != ""
    ensures var fs := Create(WithDir(dir), file, File, 2, true).0;
      && WellFormed(fs.tree) && CountersExact(fs)
      && Delete(fs, dir).1 && !CountersExact(Delete(fs, dir).0)
  {
    hide Comps, WellFormed, SplitPath, CountersExact, Delete, Under, Members;
    var fs1 := WithDir(dir);
    var fs2 := Create(fs1, file, File, 2, true).0;
    InsertWellFormed(fs1.tree, 1, 2, SplitPath(file).1, File);
    CreateKeepsCounters(fs1, file, File, 2, true);
    SplitPathComps(file);
    LookupAfterCreate(fs1, file, File, 2, dir);
    DeleteCutsOff(fs2, dir, 1);
    HangsBelow(fs2.tree);
    DeleteCounters(fs2, dir);
  }

  lemma HangsBelow(t: Tree<nat>)
    requires t.parent == map[1 := 0, 2 := 1] && t.depth == map[0 := 0, 1 := 1, 2 := 2] && 2 in t.kind && t.kind[2] == File
    ensures 2 in Below(t, 1, File)
  {
    assert Under(t, 1, 1);
  }

  /** For example with mkdir /a; create /a/b; delete /a. */
  lemma CountersLie()
    ensures SplitPath("/a").0 == "/" && SplitPath("/a").1 != ""
    ensures var fs := Create(WithDir("/a"), "/a/b", File, 2, true).0;
      && WellFormed(fs.tree) && CountersExact(fs)
      && Delete(fs, "/a").1 && !CountersExact(Delete(fs, "/a").0)
  {
    hide *;
    Split("/a", 0, "/", "a");
    Split("/a/b", 2, "/a", "b");
    CountersLieAt("/a", "/a/b");
  }

  /** mkdir dir; create dir/; delete dir/: the directory is gone. */
  lemma SlashTakesTheDirectoryAt(dir: string, path: string)
    requires SplitPath(dir).0 == "/" && SplitPath(dir).1 != "" && SplitPath(path).0 == dir && SplitPath(path).1 == ""
    ensures var (fs, r) := Create(WithDir(dir), path, File, 2, true);
      r == Some(2) && WellFormed(fs.tree) && Delete(fs, path).1 && 1 !in Delete(fs, path).0.tree.kids
  {
    hide Comps, WellFormed, SplitPath, Delete;
    SlashDeletesDirectory(WithDir(dir), path, File, 2);
  }

  /** For example with mkdir /a; create /a/; delete /a/. */
  lemma SlashTakesTheDirectory()
    ensures SplitPath("/a").0 == "/" && SplitPath("/a").1 != ""
    ensures var (fs, r) := Create(WithDir("/a"), "/a/", File, 2, true);
      r == Some(2) && WellFormed(fs.tree) && Delete(fs, "/a/").1 && 1 !in Delete(fs, "/a/").0.tree.kids
  {
    hide *;
    Split("/a", 0, "/", "a");
    Split("/a/", 2, "/a", "");
    SlashTakesTheDirectoryAt("/a", "/a/");
  }

  /** A creation under a path that is nothing but its root and a slash; then its deletion. */
  lemma NamelessNodeAt(path: string)
    requires SplitPath(path) == ("/", "")
    ensures WellFormed(Fresh<nat>(0).tree)
    ensures var (fs, r) := Create(Fresh<nat>(0), path, Dir, 1, true);
      r == Some(1) && WellFormed(fs.tree) && Delete(fs, path) == (fs, false)
  {
    hide Comps, WellFormed, SplitPath, Delete;
    FreshIsTree<nat>(0);
    RootFound();
    SlashDeletesDirectory(Fresh<nat>(0), path, Dir, 1);
  }

  /** create /; delete /: the nameless node stays. */
  lemma NamelessNodeInTheRoot()
    ensures WellFormed(Fresh<nat>(0).tree)
    ensures var (fs, r) := Create(Fresh<nat>(0), "/", Dir, 1, true);
      r == Some(1) && WellFormed(fs.tree) && Delete(fs, "/") == (fs, false)
  {
    hide *;
    Split("/", 0, "/", "");
    NamelessNodeAt("/");
  }
}
