/** Round-robin selection over a ring of 256 slots, and time slices: who is chosen, how long
    anybody waits, and how much time everybody gets. */
module RoundRobin {
  import opened Options
  import opened Collections
  import opened Division

  const SCHED_TIME_SLICE: nat := 20

  /** `(head + i) % 256` */
  function Slot(head: nat, i: nat): (s: nat)
    ensures s < 256
  {
    (head + i) % 256
  }

  /** How far from `head`, looking no closer than `i`, the first slot that is ready lies. */
  function Search(ready: seq<bool>, head: nat, i: nat): (r: Option<nat>)
    requires |ready| == 256 && i <= 256
    ensures r.Some? ==> i <= r.value < 256 && ready[Slot(head, r.value)]
    ensures forall j :: i <= j < 256 && (r.None? || j < r.value) ==> !ready[Slot(head, j)]
    decreases 256 - i
  {
    if i == 256 then None else if ready[Slot(head, i)] then Some(i) else Search(ready, head, i + 1)
  }

  /** The slot scheduler_next picks. */
  function Pick(ready: seq<bool>, head: nat): (r: Option<nat>)
    requires |ready| == 256
    ensures r.Some? ==> r.value < 256 && ready[r.value]
  {
    match Search(ready, head, 0) case None => None case Some(i) => Some(Slot(head, i))
  }

  /** Where it continues the next time. */
  function NextHead(ready: seq<bool>, head: nat): (h: nat)
    requires |ready| == 256
  {
    match Pick(ready, head) case None => head case Some(s) => (s + 1) % 256
  }

  /** The first slot that is ready in search order is picked and the head goes behind it. */
  lemma HeadAfterPick(ready: seq<bool>, head: nat, k: nat)
    requires |ready| == 256 && head < 256 && k < 256 && ready[k]
    ensures match Pick(ready, head)
      case None => false
      case Some(s) => ready[s] && Dist(head, s) <= Dist(head, k) && NextHead(ready, head) == if s == 255 then 0 else s + 1
  {
    hide Slot, Dist;
    if Pick(ready, head) != Some(k) {
      var i := PickedBefore(ready, head, k);
      DistUnique(head, i);
    }
  }

  /** With nobody ready nothing is picked and the head stays where it was. */
  lemma NobodyToPick(ready: seq<bool>, head: nat)
    requires |ready| == 256 && forall k :: 0 <= k < 256 ==> !ready[k]
    ensures Pick(ready, head) == None && NextHead(ready, head) == head
  {
    hide Slot;
  }

  // ------------------------------------------------------------------ waiting

  /** How far slot `k` is from `head` in search order. */
  function Dist(head: nat, k: nat): (d: nat)
    requires head < 256 && k < 256
    ensures d < 256 && Slot(head, d) == k
  {
    if k >= head then k - head else k + 256 - head
  }

  lemma DistUnique(head: nat, d: nat)
    requires head < 256 && d < 256
    ensures Dist(head, Slot(head, d)) == d
  {
  }

  /** The number of occupied slots among the first `d` in search order from `head`. */
  function Ahead(occupied: set<nat>, head: nat, d: nat): (n: nat)
    ensures n <= d
  {
    if d == 0 then 0 else Ahead(occupied, head, d - 1) + if Slot(head, d - 1) in occupied then 1 else 0
  }

  lemma Regroup(head: nat, a: nat, c: nat)
    ensures Slot((head + a) % 256, c) == Slot(head, a + c)
  {
  }

  lemma {:induction false} AheadSplit(occupied: set<nat>, head: nat, a: nat, b: nat)
    ensures Ahead(occupied, head, a + b) == Ahead(occupied, head, a) + Ahead(occupied, (head + a) % 256, b)
  {
    hide Slot;
    if b > 0 {
      AheadSplit(occupied, head, a, b - 1);
      Regroup(head, a, b - 1);
    }
  }

  /** No more slots are ahead of anybody than are occupied by others. */
  lemma {:induction false} AheadBound(occupied: set<nat>, head: nat, d: nat, k: nat)
    requires head < 256 && d < 256 && k in occupied && Slot(head, d) == k
    ensures Ahead(occupied, head, d) < |occupied|
  {
    var seen := set j | 0 <= j < d && Slot(head, j) in occupied :: Slot(head, j);
    AheadCounts(occupied, head, d);
    assert k !in seen by {
      forall j | 0 <= j < d ensures Slot(head, j) != k { DistUnique(head, j); DistUnique(head, d); }
    }
    assert seen + {k} <= occupied;
    SubsetSize(seen + {k}, occupied);
  }

  lemma {:induction false} AheadCounts(occupied: set<nat>, head: nat, d: nat)
    requires head < 256 && d <= 256
    ensures Ahead(occupied, head, d) == |set j | 0 <= j < d && Slot(head, j) in occupied :: Slot(head, j)|
  {
    var s := set j | 0 <= j < d && Slot(head, j) in occupied :: Slot(head, j);
    if d == 0 {
      assert s == {};
    } else {
      AheadCounts(occupied, head, d - 1);
      var t := set j | 0 <= j < d - 1 && Slot(head, j) in occupied :: Slot(head, j);
      var x := Slot(head, d - 1);
      forall j | 0 <= j < d - 1 ensures Slot(head, j) != x { DistUnique(head, j); DistUnique(head, d - 1); }
      assert s == if x in occupied then t + {x} else t;
    }
  }

  ghost predicate OnlyOccupied(occupied: set<nat>, ready: seq<bool>) {
    |ready| == 256 && forall j :: 0 <= j < 256 && ready[j] ==> j in occupied
  }

  /** The slots picked by consecutive calls, each with its own idea of who is ready. */
  function Picks(readies: seq<seq<bool>>, head: nat): (r: seq<Option<nat>>)
    requires forall i :: 0 <= i < |readies| ==> |readies[i]| == 256
    ensures |r| == |readies|
    decreases |readies|
  {
    if readies == [] then []
    else [Pick(readies[0], head)] + Picks(readies[1..], NextHead(readies[0], head))
  }

  /** When `k` is ready but another slot is picked, one occupied slot fewer is ahead of `k`. */
  lemma PassesOne(occupied: set<nat>, ready: seq<bool>, head: nat, k: nat)
    requires head < 256 && k < 256 && OnlyOccupied(occupied, ready) && ready[k] && Pick(ready, head) != Some(k)
    ensures NextHead(ready, head) < 256
    ensures Ahead(occupied, NextHead(ready, head), Dist(NextHead(ready, head), k)) < Ahead(occupied, head, Dist(head, k))
  {
    hide Slot, Dist, Search;
    var i := PickedBefore(ready, head, k);
    var d, h := Dist(head, k), NextHead(ready, head);
    NextSlot(head, i);
    AheadSplit(occupied, head, i + 1, d - (i + 1));
    Regroup(head, i + 1, d - (i + 1));
    DistUnique(h, d - (i + 1));
  }

  /** The slot that is picked lies closer to the search position. */
  lemma PickedBefore(ready: seq<bool>, head: nat, k: nat) returns (i: nat)
    requires |ready| == 256 && head < 256 && k < 256 && ready[k] && Pick(ready, head) != Some(k)
    ensures i < Dist(head, k) && Pick(ready, head) == Some(Slot(head, i)) && ready[Slot(head, i)]
  {
    hide Slot;
    var d := Dist(head, k);
    assert ready[Slot(head, d)];
    i := Search(ready, head, 0).value;
  }

  lemma NextSlot(head: nat, i: nat)
    ensures (Slot(head, i) + 1) % 256 == (head + (i + 1)) % 256
  {
  }

  /** Slot `k` is ready at every call, and nobody outside the ring ever is. */
  ghost predicate StaysReady(occupied: set<nat>, readies: seq<seq<bool>>, k: nat) {
    && (forall i :: 0 <= i < |readies| ==> |readies[i]| == 256)
    && (forall i :: 0 <= i < |readies| ==> OnlyOccupied(occupied, readies[i]))
    && (forall i :: 0 <= i < |readies| ==> k < 256 && readies[i][k])
  }

  /** Nobody who stays ready starves, however the others block and wake up: a process that is
      ready at every call is picked no later than after every occupied slot ahead of it has had
      its turn, hence within as many calls as there are processes in the ring. */
  lemma {:induction false} BoundedWait(occupied: set<nat>, readies: seq<seq<bool>>, head: nat, k: nat)
    requires head < 256 && k < 256
    requires StaysReady(occupied, readies, k)
    requires |readies| > Ahead(occupied, head, Dist(head, k))
    ensures Some(k) in Picks(readies, head)
    decreases |readies|
  {
    if Pick(readies[0], head) != Some(k) {
      PassesOne(occupied, readies[0], head, k);
      BoundedWait(occupied, readies[1..], NextHead(readies[0], head), k);
      assert Picks(readies, head)[1..] == Picks(readies[1..], NextHead(readies[0], head));
    }
  }

  lemma EveryoneWithinOneRound(occupied: set<nat>, readies: seq<seq<bool>>, head: nat, k: nat)
    requires head < 256 && k < 256 && k in occupied && |readies| == |occupied|
    requires StaysReady(occupied, readies, k)
    ensures Some(k) in Picks(readies, head)
  {
    AheadBound(occupied, head, Dist(head, k), k);
    BoundedWait(occupied, readies, head, k);
  }

  // ------------------------------------------------------------------ everybody always ready

  /** The first `n` slots are ready, and no others. */
  ghost predicate ReadyBelow(ready: seq<bool>, n: nat) {
    |ready| == 256 && 0 < n <= 256 && forall i :: 0 <= i < 256 ==> (ready[i] <==> i < n)
  }

  /** The slot the search arrives at then. */
  function NextInRing(head: nat, n: nat): nat {
    if head < n then head else 0
  }

  lemma SearchInFullRing(ready: seq<bool>, head: nat, n: nat)
    requires ReadyBelow(ready, n) && head < 256
    ensures Pick(ready, head) == Some(NextInRing(head, n)) && NextHead(ready, head) == (NextInRing(head, n) + 1) % 256
  {
    hide Slot;
    var d := if head < n then 0 else 256 - head;
    SlotIs(head, d);
    forall j | 0 <= j < d ensures !ready[Slot(head, j)] { SlotIs(head, j); }
  }

  lemma SlotIs(head: nat, i: nat)
    requires head < 256 && i < 256
    ensures Slot(head, i) == if head + i < 256 then head + i else head + i - 256
  {
  }

  /** The slot served `i` calls after slot `a` when `n` slots take turns. */
  function Round(a: nat, n: nat, i: nat): (r: nat)
    requires 0 < n
    ensures r < n
  {
    (a + i) % n
  }

  ghost function InTurn(a: nat, n: nat, m: nat): (r: seq<Option<nat>>)
    requires 0 < n
    ensures |r| == m
  {
    seq(m, i requires 0 <= i < m => Some(Round(a, n, i)))
  }

  /** `m` calls that find the same slots ready. */
  ghost function Always(ready: seq<bool>, m: nat): (r: seq<seq<bool>>)
    ensures |r| == m && forall i :: 0 <= i < m ==> r[i] == ready
  {
    seq(m, _ => ready)
  }

  lemma RoundStep(a: nat, n: nat, i: nat)
    requires a < n <= 256
    ensures Round(a, n, 0) == a
    ensures Round(NextInRing((a + 1) % 256, n), n, i) == Round(a, n, i + 1)
  {
    SmallMod(a, n);
    if a + 1 == n { ModPhase(n + i, n); }
  }

  /** Any number of consecutive calls pick the ready slots in ascending order, round and round. */
  lemma {:induction false} PicksInTurn(ready: seq<bool>, n: nat, head: nat, m: nat)
    requires ReadyBelow(ready, n) && head < 256
    ensures Picks(Always(ready, m), head) == InTurn(NextInRing(head, n), n, m)
    decreases m
  {
    hide Pick, NextHead, Round;
    if m > 0 {
      var a := NextInRing(head, n);
      SearchInFullRing(ready, head, n);
      PicksInTurn(ready, n, (a + 1) % 256, m - 1);
      assert Always(ready, m)[1..] == Always(ready, m - 1);
      RoundStep(a, n, 0);
      var rest, all := InTurn(NextInRing((a + 1) % 256, n), n, m - 1), InTurn(a, n, m);
      forall i | 0 <= i < m - 1 ensures rest[i] == all[1..][i] { RoundStep(a, n, i); }
      assert all == [all[0]] + rest;
    }
  }

  /** In particular each of `n` slots is picked exactly once in any `n` consecutive calls. */
  lemma OnceInEveryRound(ready: seq<bool>, n: nat, head: nat, k: nat)
    requires ReadyBelow(ready, n) && head < 256 && k < n
    ensures Some(k) in Picks(Always(ready, n), head)
    ensures forall i, j :: 0 <= i < j < n ==> Picks(Always(ready, n), head)[i] != Picks(Always(ready, n), head)[j]
  {
    hide Picks, Round;
    var a := NextInRing(head, n);
    PicksInTurn(ready, n, head, n);
    var turn := if k >= a then k - a else k + n - a;
    RoundIs(a, n, turn);
    assert InTurn(a, n, n)[turn] == Some(k);
    forall i, j | 0 <= i < j < n ensures InTurn(a, n, n)[i] != InTurn(a, n, n)[j] {
      RoundIs(a, n, i);
      RoundIs(a, n, j);
    }
  }

  lemma RoundIs(a: nat, n: nat, i: nat)
    requires a < n && i < n
    ensures Round(a, n, i) == if a + i < n then a + i else a + i - n
  {
    if a + i < n { SmallMod(a + i, n); } else { DivModUnique(a + i, n, 1, a + i - n); }
  }
}
