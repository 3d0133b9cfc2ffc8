/** What procfs_update makes of the list of entries below the root of procfs. */
module ProcDirs {
  import opened Options
  import opened Collections
  import opened Numerals
  import opened Words

  datatype EntryType = Dir | File | Link

  /** An entry: its name, its type, and the process it belongs to, 0 for none. */
  datatype Info = Info(name: string, kind: EntryType, pid: word)

  /** The directory of a process. */
  function DirOf(pid: word): Info {
    Info(Numeral(pid, 10), Dir, pid)
  }

  /** The parts of a process table entry that matter here. */
  datatype Proc = Proc(pid: word, dead: bool)

  /** The pids that get a directory, in table order. */
  function Live(table: seq<Proc>): seq<word> {
    if table == [] then [] else (if table[0].pid > 0 && !table[0].dead then [table[0].pid] else []) + Live(table[1..])
  }

  lemma {:induction false} LiveAre(table: seq<Proc>)
    ensures forall p :: p in Live(table) <==> p > 0 && Proc(p, false) in table
  {
    if table != [] {
      LiveAre(table[1..]);
      assert forall q :: q in table <==> q == table[0] || q in table[1..];
    }
  }

  /** The last one first. */
  function Backwards<T>(s: seq<T>): (r: seq<T>)
    ensures |r| == |s|
    ensures forall i :: 0 <= i < |r| ==> r[i] == s[|s| - 1 - i]
  {
    if s == [] then [] else Backwards(s[1..]) + [s[0]]
  }

  /** Their directories, the last one first: each is put in front of the others. */
  function Dirs(pids: seq<word>): (r: seq<Info>)
    ensures |r| == |pids|
    ensures forall i :: 0 <= i < |r| ==> r[i] == DirOf(pids[|pids| - 1 - i])
  {
    Backwards(seq(|pids|, i requires 0 <= i < |pids| => DirOf(pids[i])))
  }

  lemma {:induction false} LiveMore(table: seq<Proc>, p: Proc)
    ensures Live(table + [p]) == if p.pid > 0 && !p.dead then Live(table) + [p.pid] else Live(table)
  {
    if table == [] {
      assert table + [p] == [p];
    } else {
      LiveMore(table[1..], p);
      assert (table + [p])[1..] == table[1..] + [p];
    }
  }

  lemma DirsMore(pids: seq<word>, p: word)
    ensures Dirs(pids + [p]) == [DirOf(p)] + Dirs(pids)
  {
  }

  /** The entries that belong to no process. */
  function Others(s: seq<Info>): seq<Info> {
    if s == [] then [] else (if s[0].pid == 0 then [s[0]] else []) + Others(s[1..])
  }

  lemma {:induction false} OthersAre(s: seq<Info>)
    ensures forall x :: x in Others(s) <==> x in s && x.pid == 0
  {
    if s != [] {
      OthersAre(s[1..]);
      assert forall x :: x in s <==> x == s[0] || x in s[1..];
    }
  }

  // ------------------------------------------------------------------ memory

  /** What is left of `room` when `k` have been asked for. */
  function Minus(room: nat, k: nat): nat {
    if room < k then 0 else room - k
  }

  /** The processes that get a directory when there is memory for `room` entries: each takes six
      of them, the last one perhaps fewer, for the directory and then its files. */
  function Served(pids: seq<word>, room: nat): seq<word> {
    Cut(pids, (room + 5) / 6)
  }

  lemma ServedAre(pids: seq<word>, room: nat)
    ensures forall p :: p in Served(pids, room) ==> p in pids
  {
  }

  lemma ServedMore(pids: seq<word>, p: word, room: nat)
    ensures Served(pids + [p], room) == if Minus(room, 6 * |pids|) > 0 then Served(pids, room) + [p] else Served(pids, room)
    ensures Minus(room, 6 * |pids|) > 0 ==> Served(pids, room) == pids
  {
  }

  /** The list below the root after procfs_update with memory for `room` more entries. */
  function Update(table: seq<Proc>, s: seq<Info>, room: nat): seq<Info> {
    Dirs(Served(Live(table), room)) + Others(s)
  }

  lemma OthersFirst(x: Info, s: seq<Info>)
    ensures Others([x] + s) == (if x.pid == 0 then [x] else []) + Others(s)
  {
    assert ([x] + s)[1..] == s;
  }

  lemma {:induction false} OthersSplit(a: seq<Info>, b: seq<Info>)
    ensures Others(a + b) == Others(a) + Others(b)
    decreases |a|
  {
    hide Others;
    if a == [] {
      assert a + b == b && Others(a) == [] by { NoOthers(); }
    } else {
      OthersSplit(a[1..], b);
      OthersFirst(a[0], a[1..]);
      OthersFirst(a[0], a[1..] + b);
      assert [a[0]] + a[1..] == a && [a[0]] + (a[1..] + b) == a + b;
    }
  }

  lemma NoOthers()
    ensures Others([]) == []
  {
  }

  lemma DirsLast(pids: seq<word>)
    requires pids != []
    ensures Dirs(pids) == Dirs(pids[1..]) + [DirOf(pids[0])]
  {
  }

  lemma {:induction false} OthersOfDirs(pids: seq<word>)
    requires forall p :: p in pids ==> p > 0
    ensures Others(Dirs(pids)) == []
    decreases |pids|
  {
    hide Backwards;
    if pids != [] {
      assert forall p :: p in pids[1..] ==> p in pids;
      OthersOfDirs(pids[1..]);
      OthersSplit(Dirs(pids[1..]), [DirOf(pids[0])]);
      DirsLast(pids);
      assert pids[0] in pids;
    }
  }

  lemma {:induction false} OthersOfOthers(s: seq<Info>)
    requires forall x :: x in s ==> x.pid == 0
    ensures Others(s) == s
    decreases |s|
  {
    if s != [] { OthersOfOthers(s[1..]); }
  }

  /** Whatever the list was updated for before, only the entries without a process survive; so
      doing it again for an unchanged table changes nothing as long as memory lasts. */
  lemma UpdateForgets(old_table: seq<Proc>, table: seq<Proc>, s: seq<Info>, old_room: nat, room: nat)
    ensures Update(table, Update(old_table, s, old_room), room) == Update(table, s, room)
  {
    hide Served, Live, Dirs, Others;
    LiveAre(old_table);
    var pids := Served(Live(old_table), old_room);
    ServedAre(Live(old_table), old_room);
    OthersSplit(Dirs(pids), Others(s));
    OthersOfDirs(pids);
    OthersAre(s);
    OthersOfOthers(Others(s));
  }

  // ------------------------------------------------------------------ looking up a process

  /** The first entry of that name. */
  function Named(s: seq<Info>, name: string): (r: Option<Info>)
    ensures r.Some? ==> r.value in s && r.value.name == name
    ensures r.None? ==> forall x :: x in s ==> x.name != name
  {
    if s == [] then None else if s[0].name == name then Some(s[0]) else Named(s[1..], name)
  }

  lemma {:induction false} NamedIsFirst(a: seq<Info>, x: Info, b: seq<Info>)
    requires forall y :: y in a ==> y.name != x.name
    ensures Named(a + [x] + b, x.name) == Some(x)
    decreases |a|
  {
    var all := a + [x] + b;
    if a != [] {
      assert all[1..] == a[1..] + [x] + b;
      assert all[0] in a;
      NamedIsFirst(a[1..], x, b);
    }
  }

  /** No entry without a process looks like a number. */
  ghost predicate NamesAreWords(s: seq<Info>) {
    forall x :: x in s && x.pid == 0 ==> !Canonical(x.name, 10)
  }

  /** Looking for the decimal notation of a positive pid finds the directory of that process, if
      and only if the process is alive and memory lasted until its turn; no other entry can be
      found under that name. */
  lemma FoundIffServed(table: seq<Proc>, s: seq<Info>, room: nat, pid: word)
    requires pid > 0 && NamesAreWords(s)
    ensures Named(Update(table, s, room), Numeral(pid, 10)) ==
      if pid in Served(Live(table), room) then Some(DirOf(pid)) else None
  {
    hide Numeral, Canonical, Served, Live, Others, Backwards;
    NumeralValue(pid, 10);
    OthersAre(s);
    var pids := Served(Live(table), room);
    var dirs := Dirs(pids);
    forall x | x in dirs && x.name == Numeral(pid, 10) ensures x.pid == pid && pid in pids {
      var i :| 0 <= i < |dirs| && dirs[i] == x;
      NumeralInjective(pids[|pids| - 1 - i], pid, 10);
    }
    if pid in pids {
      var k :| 0 <= k < |pids| && pids[k] == pid;
      assert dirs[|pids| - 1 - k] == DirOf(pid);
      assert DirOf(pid) in Update(table, s, room);
    }
  }

  /** With six entries for every live process, or five for the last, that is being alive. */
  lemma ServedIffLive(table: seq<Proc>, room: nat, pid: word)
    requires 6 * |Live(table)| <= room + 5 && pid > 0
    ensures pid in Served(Live(table), room) <==> Proc(pid, false) in table
  {
    LiveAre(table);
  }

  // ------------------------------------------------------------------ from procfs_init on

  lemma BackwardsMore<T>(s: seq<T>, x: T)
    ensures Backwards(s + [x]) == [x] + Backwards(s)
  {
  }

  /** The list when all of `all` are created one after the other, each put in front, with
      memory for `room`. */
  function Created(all: seq<Info>, room: nat): seq<Info> {
    Backwards(Cut(all, room))
  }

  lemma CreatedMore(all: seq<Info>, i: nat, room: nat)
    requires i < |all|
    ensures Created(all[..i + 1], room) == if i < room then [all[i]] + Created(all[..i], room) else Created(all[..i], room)
  {
    assert all[..i + 1] == all[..i] + [all[i]];
    if i < room {
      assert Cut(all[..i + 1], room) == Cut(all[..i], room) + [all[i]];
      BackwardsMore(Cut(all[..i], room), all[i]);
    } else {
      assert Cut(all[..i + 1], room) == Cut(all[..i], room);
    }
  }

  /** What a process directory contains, in the order of creation. */
  function PidEntries(pid: word): (r: seq<Info>)
    ensures |r| == 5
  {
    [Info("status", File, pid), Info("stat", File, pid), Info("cmdline", File, pid), Info("maps", File, pid), Info("fd", Dir, pid)]
  }

  /** The files procfs_init puts below the root, in the order of its table, and then the link. */
  function GlobalFiles(): seq<string> {
    ["version", "uptime", "cpuinfo", "meminfo", "stat", "mounts", "filesystems", "interrupts", "loadavg", "cmdline"]
  }

  function GlobalEntries(): (r: seq<Info>)
    ensures |r| == |GlobalFiles()| + 1
    ensures forall i :: 0 <= i < |GlobalFiles()| ==> r[i] == Info(GlobalFiles()[i], File, 0)
    ensures r[|GlobalFiles()|] == Info("self", Link, 0)
  {
    seq(|GlobalFiles()|, i requires 0 <= i < |GlobalFiles()| => Info(GlobalFiles()[i], File, 0)) + [Info("self", Link, 0)]
  }

  lemma CreatedAre(all: seq<Info>, room: nat)
    ensures forall x :: x in Created(all, room) ==> x in all
  {
    var c := Cut(all, room);
    assert forall i :: 0 <= i < |c| ==> c[i] in all;
  }

  lemma GlobalIsWord(x: Info)
    requires x in GlobalEntries()
    ensures !Canonical(x.name, 10)
  {
    hide GlobalFiles, GlobalEntries;
    if x.name in GlobalFiles() { FirstLetters(x.name); }
    assert !IsDigit(x.name[0], 10);
  }

  /** With memory for all of them, the lists in the order in which they are found. */
  lemma PidListing(pid: word, room: nat)
    requires room >= 5
    ensures Created(PidEntries(pid), room) ==
      [Info("fd", Dir, pid), Info("maps", File, pid), Info("cmdline", File, pid), Info("stat", File, pid), Info("status", File, pid)]
  {
  }

  lemma GlobalListing(room: nat)
    requires room >= 11
    ensures Created(GlobalEntries(), room) ==
      [Info("self", Link, 0), Info("cmdline", File, 0), Info("loadavg", File, 0), Info("interrupts", File, 0),
       Info("filesystems", File, 0), Info("mounts", File, 0), Info("stat", File, 0), Info("meminfo", File, 0),
       Info("cpuinfo", File, 0), Info("uptime", File, 0), Info("version", File, 0)]
  {
    hide Backwards, GlobalEntries;
    assert Cut(GlobalEntries(), room) == GlobalEntries();
    InOrder();
  }

  lemma InOrder()
    ensures GlobalEntries() ==
      [Info("version", File, 0), Info("uptime", File, 0), Info("cpuinfo", File, 0), Info("meminfo", File, 0),
       Info("stat", File, 0), Info("mounts", File, 0), Info("filesystems", File, 0), Info("interrupts", File, 0),
       Info("loadavg", File, 0), Info("cmdline", File, 0), Info("self", Link, 0)]
  {
  }

  /** None of them looks like a number, however many there was memory for. */
  lemma GlobalsAreWords(room: nat)
    ensures NamesAreWords(Created(GlobalEntries(), room))
  {
    hide Created, GlobalEntries, Canonical;
    CreatedAre(GlobalEntries(), room);
    forall x | x in GlobalEntries() ensures !Canonical(x.name, 10) { GlobalIsWord(x); }
  }

  lemma FirstLetters(name: string)
    requires name in GlobalFiles()
    ensures name != [] && 'a' <= name[0] <= 'z'
  {
  }

  /** How many process directories are due in all. */
  function Due(tables: seq<seq<Proc>>): nat {
    if tables == [] then 0 else |Live(tables[0])| + Due(tables[1..])
  }

  /** The list after one update for each of the process tables; no memory is ever given back. */
  function UpdateAll(tables: seq<seq<Proc>>, s: seq<Info>, room: nat): seq<Info>
    decreases |tables|
  {
    if tables == [] then s
    else UpdateAll(tables[1..], Update(tables[0], s, room), Minus(room, 6 * |Live(tables[0])|))
  }

  lemma {:induction false} OnlyTheLastCounts(tables: seq<seq<Proc>>, s: seq<Info>, room: nat)
    requires tables != []
    ensures UpdateAll(tables, s, room) ==
      Update(tables[|tables| - 1], s, Minus(room, 6 * Due(tables[..|tables| - 1])))
    decreases |tables|
  {
    hide Update;
    var n := |tables|;
    if n > 1 {
      var left := Minus(room, 6 * |Live(tables[0])|);
      OnlyTheLastCounts(tables[1..], Update(tables[0], s, room), left);
      assert tables[1..][..n - 2] == tables[..n - 1][1..];
      UpdateForgets(tables[0], tables[n - 1], s, room, Minus(left, 6 * Due(tables[1..][..n - 2])));
    }
  }

  /** After procfs_init and any number of updates, at least one, the decimal notation of a pid
      finds the directory of that process if and only if it is among those the last update
      still had memory for, after all directories due in the updates before it. */
  lemma FoundAfterUpdates(tables: seq<seq<Proc>>, first: nat, room: nat, pid: word)
    requires tables != [] && pid > 0
    ensures var n := |tables| - 1;
      Named(UpdateAll(tables, Created(GlobalEntries(), first), room), Numeral(pid, 10)) ==
      if pid in Served(Live(tables[n]), Minus(room, 6 * Due(tables[..n]))) then Some(DirOf(pid)) else None
  {
    hide Update, UpdateAll, NamesAreWords, Named, Created, Served, GlobalEntries;
    OnlyTheLastCounts(tables, Created(GlobalEntries(), first), room);
    GlobalsAreWords(first);
    var n := |tables| - 1;
    FoundIffServed(tables[n], Created(GlobalEntries(), first), Minus(room, 6 * Due(tables[..n])), pid);
  }

  lemma {:induction false} DueMore(tables: seq<seq<Proc>>, n: nat)
    requires |tables| == n + 1
    ensures Due(tables) == Due(tables[..n]) + |Live(tables[n])|
    decreases n
  {
    if n > 0 {
      DueMore(tables[1..], n - 1);
      assert tables[1..][..n - 1] == tables[..n][1..];
    }
  }

  /** As long as there is memory for all of them, that is being alive in the last table. */
  lemma FoundAfterUpdatesIffLive(tables: seq<seq<Proc>>, first: nat, room: nat, pid: word)
    requires tables != [] && pid > 0 && 6 * Due(tables) <= room + 5
    ensures Named(UpdateAll(tables, Created(GlobalEntries(), first), room), Numeral(pid, 10)) ==
      if Proc(pid, false) in tables[|tables| - 1] then Some(DirOf(pid)) else None
  {
    hide Update, UpdateAll, Named, Created, Served, GlobalEntries, Live, Due;
    var n := |tables| - 1;
    DueMore(tables, n);
    FoundAfterUpdates(tables, first, room, pid);
    if Live(tables[n]) == [] {
      ServedNone(Minus(room, 6 * Due(tables[..n])));
      LiveAre(tables[n]);
    } else {
      ServedIffLive(tables[n], Minus(room, 6 * Due(tables[..n])), pid);
    }
  }

  lemma ServedNone(room: nat)
    ensures Served([], room) == []
  {
  }

  /** A single process that never ends, and one update after the other: once the memory is used
      up, it is no longer there. */
  lemma ProcessVanishes(n: nat, first: nat, room: nat, pid: word)
    requires pid > 0
    ensures Named(UpdateAll(seq(n + 1, _ => [Proc(pid, false)]), Created(GlobalEntries(), first), room), Numeral(pid, 10)) ==
      if 6 * n < room then Some(DirOf(pid)) else None
  {
    hide Update, UpdateAll, Named, Created, Served, GlobalEntries;
    var tables := seq(n + 1, _ => [Proc(pid, false)]);
    FoundAfterUpdates(tables, first, room, pid);
    assert tables[..n] == seq(n, _ => [Proc(pid, false)]);
    DueOfOne(n, pid);
    ServedOne(pid, Minus(room, 6 * n));
  }

  lemma {:induction false} DueOfOne(n: nat, pid: word)
    requires pid > 0
    ensures Live([Proc(pid, false)]) == [pid] && Due(seq(n, _ => [Proc(pid, false)])) == n
  {
    assert Live([]) == [] && [Proc(pid, false)][1..] == [];
    if n > 0 {
      DueOfOne(n - 1, pid);
      assert seq(n, _ => [Proc(pid, false)])[1..] == seq(n - 1, _ => [Proc(pid, false)]);
    }
  }

  lemma ServedOne(pid: word, room: nat)
    ensures pid in Served([pid], room) <==> room > 0
  {
    assert room > 0 ==> Served([pid], room) == [pid];
  }
}
