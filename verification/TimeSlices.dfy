/** Accounting of timer ticks among processes that are always ready: whose turn it is, what is
    left of the slice, and how much time everybody has used. */
module TimeSlices {
  import opened RoundRobin
  import opened Division

  datatype Clock = Clock(cur: nat, slice: int, used: seq<nat>)

  ghost predicate Ok(c: Clock) {
    c.cur < |c.used| && 1 <= c.slice <= SCHED_TIME_SLICE
  }

  /** The state scheduler_tick may be called in: scheduler_yield has emptied the slice. */
  ghost predicate Tickable(c: Clock) {
    c.cur < |c.used| && 0 <= c.slice <= SCHED_TIME_SLICE
  }

  /** Whose turn it is after `k` changes. */
  function Later(n: nat, cur: nat, k: nat): (r: nat)
    requires cur < n
    ensures r < n
  {
    (cur + k) % n
  }

  /** One timer tick: the current process has used it; when its slice is over the next one in
      the ring gets a full slice. */
  function Tick(c: Clock): (r: Clock)
    requires Tickable(c)
    ensures Ok(r) && |r.used| == |c.used|
  {
    var used := c.used[c.cur := c.used[c.cur] + 1];
    if c.slice <= 1 then Clock(Later(|c.used|, c.cur, 1), SCHED_TIME_SLICE, used)
    else Clock(c.cur, c.slice - 1, used)
  }

  /** scheduler_yield ends the slice first, then lets the tick be counted. */
  function Yield(c: Clock): (r: Clock)
    requires Ok(c)
    ensures Ok(r) && |r.used| == |c.used|
  {
    Tick(c.(slice := 0))
  }

  /** Whatever was left of the slice, the next process gets a full one, and the one that yields
      is charged a tick. */
  lemma YieldHandsOver(c: Clock)
    requires Ok(c)
    ensures var r, n := Yield(c), |c.used|;
      && r.cur == (if c.cur + 1 < n then c.cur + 1 else 0) && r.slice == SCHED_TIME_SLICE
      && r.used[c.cur] == c.used[c.cur] + 1 && forall i :: 0 <= i < n && i != c.cur ==> r.used[i] == c.used[i]
  {
    if c.cur + 1 < |c.used| { SmallMod(c.cur + 1, |c.used|); } else { DivModUnique(c.cur + 1, |c.used|, 1, 0); }
  }

  function Ticks(c: Clock, m: nat): (r: Clock)
    requires Ok(c)
    ensures Ok(r) && |r.used| == |c.used|
    decreases m
  {
    if m == 0 then c else Ticks(Tick(c), m - 1)
  }

  lemma {:induction false} TicksSplit(c: Clock, a: nat, b: nat)
    requires Ok(c)
    ensures Ticks(c, a + b) == Ticks(Ticks(c, a), b)
    decreases a
  {
    if a > 0 { TicksSplit(Tick(c), a - 1, b); }
  }

  lemma OneMoreTick(c: Clock, m: nat)
    requires Ok(c)
    ensures Ticks(c, m + 1) == Tick(Ticks(c, m))
  {
    TicksSplit(c, m, 1);
    assert Ticks(Ticks(c, m), 1) == Ticks(Tick(Ticks(c, m)), 0);
  }

  /** Up to the end of its slice the current process gets every tick. */
  lemma {:induction false} WithinSlice(c: Clock, m: nat)
    requires Ok(c) && m <= c.slice
    ensures Ticks(c, m) ==
      if m < c.slice then Clock(c.cur, c.slice - m, c.used[c.cur := c.used[c.cur] + m])
      else Clock(Later(|c.used|, c.cur, 1), SCHED_TIME_SLICE, c.used[c.cur := c.used[c.cur] + m])
    decreases m
  {
    if m == 0 {
      assert c.used[c.cur := c.used[c.cur] + 0] == c.used;
    } else if m == 1 {
      assert Ticks(Tick(c), 0) == Tick(c);
    } else {
      WithinSlice(Tick(c), m - 1);
    }
  }

  /** How many turns after `cur` it is `i`'s turn. */
  function Turn(n: nat, cur: nat, i: nat): (d: nat)
    requires cur < n && i < n
    ensures d < n
  {
    if i >= cur then i - cur else i + n - cur
  }

  lemma TurnStep(n: nat, cur: nat, i: nat)
    requires cur < n && i < n
    ensures Turn(n, cur, i) == 0 <==> i == cur
    ensures Turn(n, Later(n, cur, 1), i) == if i == cur then n - 1 else Turn(n, cur, i) - 1
  {
    if cur + 1 < n { SmallMod(cur + 1, n); } else { DivModUnique(cur + 1, n, 1, 0); }
  }

  /** `k` whole slices from a fresh one: the processes whose turn comes in the first `k` get
      exactly one slice each. */
  lemma {:induction false} WholeSlices(c: Clock, k: nat)
    requires Ok(c) && c.slice == SCHED_TIME_SLICE && k <= |c.used|
    ensures var r, n := Ticks(c, 20 * k), |c.used|;
      && r.slice == SCHED_TIME_SLICE && r.cur == Later(n, c.cur, k)
      && forall i :: 0 <= i < n ==> r.used[i] == c.used[i] + if Turn(n, c.cur, i) < k then SCHED_TIME_SLICE else 0
    decreases k
  {
    hide Tick;
    hide Ticks;
    hide Turn;
    hide Later;
    var n := |c.used|;
    if k == 0 {
      NoTicks(c);
      LaterStep(n, c.cur, 1);
    } else {
      WithinSlice(c, 20);
      var d := Ticks(c, 20);
      TicksSplit(c, 20, 20 * (k - 1));
      WholeSlices(d, k - 1);
      LaterStep(n, c.cur, k);
      forall i | 0 <= i < n ensures Turn(n, c.cur, i) < k <==> i == c.cur || Turn(n, d.cur, i) < k - 1 {
        TurnStep(n, c.cur, i);
      }
      LastInRound(n, c.cur);
    }
  }

  lemma NoTicks(c: Clock)
    requires Ok(c)
    ensures Ticks(c, 0) == c
  {
  }

  lemma LastInRound(n: nat, cur: nat)
    requires cur < n
    ensures Turn(n, Later(n, cur, 1), cur) == n - 1
  {
    TurnStep(n, cur, cur);
  }

  lemma LaterStep(n: nat, cur: nat, k: nat)
    requires 0 < k && cur < n
    ensures Later(n, Later(n, cur, 1), k - 1) == Later(n, cur, k)
    ensures Later(n, cur, 0) == cur && Later(n, cur, n) == cur
  {
    SmallMod(cur, n);
    ModPhase(cur + n, n);
    if cur + 1 < n {
      SmallMod(cur + 1, n);
    } else {
      DivModUnique(cur + 1, n, 1, 0);
      ModPhase(cur + k, n);
    }
  }

  /** Any window of 20n ticks, wherever it starts, gives every one of the n processes exactly
      20 ticks and leaves the scheduler where it was. */
  lemma EveryWindowIsFair(c: Clock)
    requires Ok(c)
    ensures Ticks(c, 20 * |c.used|) == Clock(c.cur, c.slice, seq(|c.used|, i requires 0 <= i < |c.used| => c.used[i] + SCHED_TIME_SLICE))
  {
    hide Tick;
    hide Ticks;
    hide Later;
    var n, s := |c.used|, c.slice;
    WithinSlice(c, s);
    var d := Ticks(c, s);
    WholeSlices(d, n - 1);
    var e := Ticks(d, 20 * (n - 1));
    LaterStep(n, c.cur, n);
    WithinSlice(e, 20 - s);
    TicksSplit(d, 20 * (n - 1), 20 - s);
    TicksSplit(c, s, 20 * (n - 1) + (20 - s));
    var f := Ticks(e, 20 - s);
    forall i | 0 <= i < n ensures f.used[i] == c.used[i] + 20 {
      TurnStep(n, c.cur, i);
    }
  }
}
