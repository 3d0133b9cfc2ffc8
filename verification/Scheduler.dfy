/** kernel/scheduler.c: the ring of processes and the calls that select and account. */
module Scheduler {
  import opened Options
  import opened Collections
  import opened Words
  import opened RoundRobin
  import opened Division
  import TimeSlices

  datatype ProcState = New | Ready | Blocked | Zombie | Dead
  datatype Mode = RoundRobinMode | PriorityMode | MultiLevelMode

  class Process {
    const pid: nat
    var state: ProcState
    var priority: int
    var timeSlice: int
    var jiffiesUsed: nat

    constructor (pid: nat)
      ensures this.pid == pid && state == Ready && timeSlice == SCHED_TIME_SLICE && jiffiesUsed == 0
    {
      this.pid, state, priority, timeSlice, jiffiesUsed := pid, Ready, 0, SCHED_TIME_SLICE, 0;
    }
  }

  /** Which slots hold a process that is ready. */
  ghost function Flags(q: seq<Process?>): (r: seq<bool>)
    reads q
    ensures |r| == |q|
    ensures forall i :: 0 <= i < |q| ==> (r[i] <==> q[i] != null && q[i].state == Ready)
  {
    seq(|q|, i requires 0 <= i < |q| reads q => q[i] != null && q[i].state == Ready)
  }

  /** The priorities of the processes in the slots. */
  ghost function Priorities(q: seq<Process?>): (r: seq<int>)
    reads q
    ensures |r| == |q|
    ensures forall i :: 0 <= i < |q| ==> r[i] == if q[i] == null then 0 else q[i].priority
  {
    seq(|q|, i requires 0 <= i < |q| reads q => if q[i] == null then 0 else q[i].priority)
  }

  ghost function ProcessIn(q: seq<Process?>, slot: Option<nat>): Process?
    requires slot.Some? ==> slot.value < |q|
  {
    match slot case None => null case Some(s) => q[s]
  }

  /** What scheduler_next selects among `count` processes, from which slots are ready and their
      priorities. */
  ghost predicate Selects(mode: Mode, count: nat, ready: seq<bool>, prios: seq<int>, head: nat, slot: Option<nat>, newHead: nat) {
    && |ready| == |prios| == 256 && head < 256
    && if count == 0 then newHead == head && slot == None
       else match mode
         case RoundRobinMode => slot == Pick(ready, head) && newHead == NextHead(ready, head)
         case PriorityMode => newHead == head && HighestFirst(ready, prios, head, slot)
         case MultiLevelMode => newHead == head && slot == None
  }

  /** What scheduler_next needs to find anybody. */
  ghost predicate Selectable(mode: Mode, count: nat, ready: seq<bool>, prios: seq<int>)
    requires |ready| == |prios|
  {
    && count > 0
    && match mode
       case RoundRobinMode => exists t :: 0 <= t < |ready| && ready[t]
       case PriorityMode => exists t :: 0 <= t < |ready| && ready[t] && prios[t] > -1000
       case MultiLevelMode => false
  }

  lemma SelectsIff(mode: Mode, count: nat, ready: seq<bool>, prios: seq<int>, head: nat, slot: Option<nat>, newHead: nat)
    requires Selects(mode, count, ready, prios, head, slot, newHead)
    ensures |ready| == |prios| && (slot.Some? <==> Selectable(mode, count, ready, prios))
    ensures slot.Some? ==> slot.value < 256 && ready[slot.value]
  {
    if count > 0 && mode == RoundRobinMode && exists t :: 0 <= t < 256 && ready[t] {
      var t :| 0 <= t < 256 && ready[t];
      if Pick(ready, head) != Some(t) { var i := PickedBefore(ready, head, t); }
    }
  }

  /** The highest priority above -1000 among the ready slots, and of several with that priority
      the first in search order; none if no ready slot has such a priority. */
  ghost predicate HighestFirst(ready: seq<bool>, prios: seq<int>, head: nat, slot: Option<nat>)
    requires |ready| == |prios| == 256 && head < 256
  {
    match slot
    case None => forall t :: 0 <= t < 256 && ready[t] ==> prios[t] <= -1000
    case Some(s) =>
      && s < 256 && ready[s] && prios[s] > -1000
      && forall t :: 0 <= t < 256 && ready[t] ==>
           if Dist(head, t) < Dist(head, s) then prios[t] < prios[s] else prios[t] <= prios[s]
  }

  lemma SelectedIsReady(mode: Mode, count: nat, ready: seq<bool>, prios: seq<int>, head: nat, slot: Option<nat>, newHead: nat)
    requires Selects(mode, count, ready, prios, head, slot, newHead)
    ensures newHead < 256 && (slot.Some? ==> slot.value < 256 && ready[slot.value])
  {
  }

  /** No ready slot has a higher priority than the one selected, and one with the same is not
      nearer to the search position. */
  lemma BestIsNearest(count: nat, ready: seq<bool>, prios: seq<int>, head: nat, s: nat, newHead: nat, t: nat)
    requires Selects(PriorityMode, count, ready, prios, head, Some(s), newHead) && t < 256 && ready[t]
    ensures s < 256 && ready[s] && newHead == head
    ensures prios[t] <= prios[s] && (prios[t] == prios[s] ==> Dist(head, s) <= Dist(head, t))
  {
  }

  /** It leaves no choice. */
  lemma HighestIsUnique(ready: seq<bool>, prios: seq<int>, head: nat, a: Option<nat>, b: Option<nat>)
    requires |ready| == |prios| == 256 && head < 256
    requires HighestFirst(ready, prios, head, a) && HighestFirst(ready, prios, head, b)
    ensures a == b
  {
    if a.Some? && b.Some? {
      assert Slot(head, Dist(head, a.value)) == a.value && Slot(head, Dist(head, b.value)) == b.value;
    }
  }

  /** The loop of scheduler_next in round-robin mode. */
  method NextRoundRobin(queue: array<Process?>, head: nat) returns (p: Process?, newHead: nat)
    requires queue.Length == 256 && head < 256
    ensures newHead == NextHead(Flags(queue[..]), head) < 256
    ensures p == ProcessIn(queue[..], Pick(Flags(queue[..]), head))
  {
    ghost var flags := Flags(queue[..]);
    for i := 0 to 256
      invariant Search(flags, head, 0) == Search(flags, head, i)
    {
      p := queue[(head + i) % 256];
      assert flags[Slot(head, i)] <==> queue[(head + i) % 256] != null && queue[(head + i) % 256].state == Ready;
      if p != null && p.state == Ready {
        NextSlot(head, i);
        return p, (head + i + 1) % 256;
      }
    }
    return null, head;
  }

  lemma OneFurther(head: nat, i: nat)
    requires head < 256 && i < 256
    ensures Slot(head, i) == (head + i) % 256 && Dist(head, Slot(head, i)) == i
    ensures forall t :: 0 <= t < 256 && Dist(head, t) <= i ==> Dist(head, t) < i || t == Slot(head, i)
  {
  }

  /** The loop in priority mode. */
  method NextByPriority(queue: array<Process?>, head: nat) returns (best: Process?, ghost slot: Option<nat>)
    requires queue.Length == 256 && head < 256
    ensures HighestFirst(Flags(queue[..]), Priorities(queue[..]), head, slot)
    ensures (slot.Some? ==> slot.value < 256) && best == ProcessIn(queue[..], slot)
    ensures best == null <==> forall t :: 0 <= t < 256 && queue[t] != null && queue[t].state == Ready ==> queue[t].priority <= -1000
  {
    hide Slot, Dist, Flags, Priorities;
    ghost var ready, prios := Flags(queue[..]), Priorities(queue[..]);
    best := null;
    var bestPrio := -1000;
    slot := None;
    for i := 0 to 256
      invariant slot.Some? ==> slot.value < 256 && ready[slot.value] && prios[slot.value] == bestPrio > -1000
      invariant slot.Some? ==> Dist(head, slot.value) < i
      invariant best == ProcessIn(queue[..], slot) && (slot == None ==> bestPrio == -1000)
      invariant forall t :: 0 <= t < 256 && ready[t] && Dist(head, t) < i ==>
        if slot.Some? && Dist(head, t) < Dist(head, slot.value) then prios[t] < bestPrio else prios[t] <= bestPrio
    {
      ghost var s := Slot(head, i);
      OneFurther(head, i);
      var p := queue[(head + i) % 256];
      assert p == queue[s] && (ready[s] <==> p != null && p.state == Ready);
      if p != null && p.state == Ready && p.priority > bestPrio {
        best, bestPrio, slot := p, p.priority, Some(s);
      }
    }
  }

  // ------------------------------------------------------------------ rings where everybody is ready

  /** `procs` occupy the first slots, in order, and nobody else is in the ring. */
  ghost predicate Filled(q: seq<Process?>, procs: seq<Process>) {
    && |q| == 256 && |procs| <= 256
    && (forall i :: 0 <= i < |procs| ==> q[i] == procs[i])
    && (forall i :: |procs| <= i < 256 ==> q[i] == null)
  }

  ghost predicate AllReady(procs: seq<Process>)
    reads procs
  {
    forall i :: 0 <= i < |procs| ==> procs[i].state == Ready
  }

  /** The process before the search position is the one that was dispatched last. */
  function Current(head: nat, n: nat): (c: nat)
    requires head <= n && 0 < n
    ensures c < n
  {
    if head == 0 then n - 1 else head - 1
  }

  /** Among processes that are all ready the pick is simply the next one. */
  lemma PickInFullRing(q: seq<Process?>, procs: seq<Process>, head: nat)
    requires Filled(q, procs) && AllReady(procs) && 0 < |procs| && head < 256
    ensures ReadyBelow(Flags(q), |procs|)
    ensures Pick(Flags(q), head) == Some(NextInRing(head, |procs|))
    ensures NextHead(Flags(q), head) == (NextInRing(head, |procs|) + 1) % 256
    ensures q[NextInRing(head, |procs|)] == procs[NextInRing(head, |procs|)]
  {
    hide Pick;
    hide NextHead;
    var flags := Flags(q);
    forall i | 0 <= i < 256 ensures flags[i] <==> i < |procs| {
      if i < |procs| { assert q[i] == procs[i]; }
    }
    SearchInFullRing(flags, head, |procs|);
  }

  /** Any number of consecutive calls among processes that are all ready return them in the
      order in which they were added, round and round. */
  lemma ServedInTurn(q: seq<Process?>, procs: seq<Process>, head: nat, m: nat)
    requires Filled(q, procs) && AllReady(procs) && 0 < |procs| && head < 256
    ensures Picks(Always(Flags(q), m), head) == InTurn(NextInRing(head, |procs|), |procs|, m)
    ensures forall i :: 0 <= i < m ==>
      q[Round(NextInRing(head, |procs|), |procs|, i)] == procs[Round(NextInRing(head, |procs|), |procs|, i)]
  {
    hide Pick, NextHead, Picks, Round;
    PickInFullRing(q, procs, head);
    PicksInTurn(Flags(q), |procs|, head, m);
  }

  lemma CurrentMoves(head: nat, n: nat)
    requires 0 < n <= 256 && head <= n && head < 256 && (head == 0 ==> n == 256)
    ensures var h := (NextInRing(head, n) + 1) % 256;
      && h <= n && (h == 0 ==> n == 256)
      && Current(h, n) == NextInRing(head, n) == TimeSlices.Later(n, Current(head, n), 1)
  {
    var c := Current(head, n);
    if c + 1 < n { SmallMod(c + 1, n); } else { DivModUnique(c + 1, n, 1, 0); }
  }

  /** Whose turn it is with the search position `head`: nobody's yet, or that of the process in
      front of it. */
  ghost predicate TurnOf(n: nat, k: TimeSlices.Clock, nobody: bool, head: nat) {
    && head <= n && head < 256 && k.cur < n
    && if nobody then head == 0 && k.cur == 0 && k.slice == SCHED_TIME_SLICE
       else (head == 0 ==> n == 256) && k.cur == Current(head, n)
  }

  /** When the slots below `n` are ready, the next selection is the next turn. */
  lemma SelectsInTurn(n: nat, k: TimeSlices.Clock, nobody: bool, head: nat,
                      count: nat, ready: seq<bool>, prios: seq<int>, slot: Option<nat>, newHead: nat)
    requires TurnOf(n, k, nobody, head) && ReadyBelow(ready, n) && count > 0
    requires Selects(RoundRobinMode, count, ready, prios, head, slot, newHead)
    ensures newHead <= n <= 256 && newHead < 256 && (newHead == 0 ==> n == 256)
    ensures slot == Some(Current(newHead, n))
    ensures Current(newHead, n) == if nobody then 0 else TimeSlices.Later(n, k.cur, 1)
  {
    hide Pick, NextHead, TimeSlices.Later;
    SearchInFullRing(ready, head, n);
    if !nobody { CurrentMoves(head, n); }
  }

  /** The fields of every process agree with the clock: all are ready, and only the current
      one has a slice that is not full. */
  ghost predicate Accounts(procs: seq<Process>, k: TimeSlices.Clock)
    reads procs
  {
    |k.used| == |procs| && forall i :: 0 <= i < |procs| ==> AccountOf(procs[i], k, i)
  }

  ghost predicate AccountOf(p: Process, k: TimeSlices.Clock, i: nat)
    requires i < |k.used|
    reads p
  {
    && p.state == Ready && p.jiffiesUsed == k.used[i]
    && p.timeSlice == if i == k.cur then k.slice else SCHED_TIME_SLICE
  }

  class Scheduler {
    const queue: array<Process?>
    var mode: Mode
    var head: nat
    var tail: nat
    var count: nat
    var ticks: nat
    var current: Process?

    /** scheduler_init. */
    constructor (mode: Mode)
      ensures Adding([]) && current == null && this.mode == mode && fresh(queue)
    {
      this.mode := mode;
      queue := new Process?[256](_ => null);
      head, tail, count, ticks, current := 0, 0, 0, 0, null;
    }

    /** Before the first dispatch: exactly `procs` have been added. */
    ghost predicate Adding(procs: seq<Process>)
      reads this, queue
    {
      queue.Length == 256 && Filled(queue[..], procs) && head == 0 && tail == count == |procs|
    }

    /** scheduler_add: refused for null and when the count says that all slots are taken;
        otherwise the slot at the tail is overwritten, whatever it holds.  Before the first
        dispatch and without removals it is free, and the processes line up in order. */
    method Add(p: Process?, ghost procs: seq<Process>)
      requires queue.Length == 256
      modifies this`tail, this`count, queue
      ensures if p == null || old(count) >= 256 then queue[..] == old(queue[..]) && tail == old(tail) && count == old(count)
              else queue[..] == old(queue[..])[old(tail) % 256 := p] && tail == (old(tail) + 1) % WORD && count == old(count) + 1
      ensures old(Adding(procs)) ==> Adding(if p == null || |procs| == 256 then procs else procs + [p])
    {
      if p == null || count >= 256 { return; }
      queue[tail % 256] := p;
      tail := (tail + 1) % WORD;
      count := count + 1;
    }

    /** scheduler_next. */
    method Next() returns (p: Process?, ghost slot: Option<nat>)
      requires queue.Length == 256 && head < 256
      modifies this`head
      ensures Selects(mode, count, Flags(queue[..]), Priorities(queue[..]), old(head), slot, head)
      ensures head < 256 && (slot.Some? ==> slot.value < 256) && p == ProcessIn(queue[..], slot)
    {
      hide Pick, NextHead, HighestFirst, Flags, Priorities;
      slot := None;
      if count == 0 { return null, slot; }
      match mode
      case RoundRobinMode =>
        slot := Pick(Flags(queue[..]), head);
        var h;
        p, h := NextRoundRobin(queue, head);
        head := h;
      case PriorityMode =>
        p, slot := NextByPriority(queue, head);
      case MultiLevelMode =>
        p := null;
    }

    /** The ring holds `procs`, served in turn. */
    ghost predicate Ring(procs: seq<Process>)
      reads this`mode, this`count, queue
    {
      queue.Length == 256 && Filled(queue[..], procs) && mode == RoundRobinMode && count == |procs| > 0 && Distinct(procs)
    }

    /** The process in front of the search position is running, if any was dispatched yet. */
    ghost predicate Dispatched(procs: seq<Process>, k: TimeSlices.Clock)
      reads this`head, this`current
    {
      TurnOf(|procs|, k, current == null, head) && (current != null ==> current == procs[k.cur])
    }

    /** All processes of the ring are ready, and the clock `k` says whose turn it is, what is
        left of its slice and what everybody has used. */
    ghost predicate Running(procs: seq<Process>, k: TimeSlices.Clock)
      reads this, queue, procs
    {
      Ring(procs) && TimeSlices.Tickable(k) && Accounts(procs, k) && Dispatched(procs, k)
    }

    /** The running process and those in the ring. */
    ghost function Everyone(): set<Process>
      reads this`current, queue
    {
      (set p: Process | p in queue[..]) + if current == null then {} else {current}
    }

    /** scheduler_tick, in any state.  As long as nobody is running a process is dispatched and
        no time is charged.  Otherwise the running process is charged, and at the end of its
        slice the one selected next replaces it, if there is another one; it is then made ready,
        whatever state it was in. */
    method Tick() returns (ghost slot: Option<nat>)
      requires queue.Length == 256 && head < 256
      modifies this`ticks, this`head, this`current, Everyone()
      ensures head < 256 && ticks == (old(ticks) + 1) % WORD && (slot.Some? ==> slot.value < 256)
      ensures if old(current) != null && old(current.timeSlice) > 1 then slot == None && head == old(head)
              else Selects(mode, count, old(Flags(queue[..])), old(Priorities(queue[..])), old(head), slot, head)
      ensures current == if slot == None then old(current) else queue[slot.value]
      ensures var cur := old(current); cur != null ==>
        && cur.jiffiesUsed == old(cur.jiffiesUsed) + 1
        && cur.timeSlice == (if old(cur.timeSlice) > 1 then old(cur.timeSlice) - 1 else SCHED_TIME_SLICE)
        && cur.state == (if current == cur then old(cur.state) else Ready)
        && cur.priority == old(cur.priority)
      ensures forall p :: p in old(Everyone()) && p != old(current) ==> unchanged(p)
    {
      hide Selects, Flags, Priorities;
      slot := None;
      ticks := (ticks + 1) % WORD;
      var cur := current;
      if cur == null {
        current, slot := Next();
        return;
      }
      cur.jiffiesUsed := cur.jiffiesUsed + 1;
      cur.timeSlice := cur.timeSlice - 1;
      if cur.timeSlice <= 0 {
        cur.timeSlice := SCHED_TIME_SLICE;
        assert Flags(queue[..]) == old(Flags(queue[..]));
        assert Priorities(queue[..]) == old(Priorities(queue[..]));
        slot := Switch(cur);
      }
    }

    /** The end of a slice. */
    method Switch(cur: Process) returns (ghost slot: Option<nat>)
      requires queue.Length == 256 && head < 256 && cur == current
      modifies this`head, this`current, Everyone()`state
      ensures head < 256 && (slot.Some? ==> slot.value < 256)
      ensures Selects(mode, count, old(Flags(queue[..])), old(Priorities(queue[..])), old(head), slot, head)
      ensures current == if slot == None then cur else queue[slot.value]
      ensures cur.state == (if current == cur then old(cur.state) else Ready)
      ensures forall p :: p in old(Everyone()) && p != cur ==> unchanged(p)
    {
      hide Selects, Flags, Priorities;
      ghost var ready, prios := Flags(queue[..]), Priorities(queue[..]);
      var next;
      next, slot := Next();
      assert Flags(queue[..]) == ready && Priorities(queue[..]) == prios;
      SelectedIsReady(mode, count, ready, prios, old(head), slot, head);
      assert slot.Some? ==> next != null && next == queue[slot.value] && next.state == Ready;
      if next != null && next != cur {
        cur.state := Ready;
        current := next;
        next.state := Ready;
      }
    }

    /** scheduler_yield: the rest of the slice is given up, and the tick counted. */
    method Yield() returns (ghost slot: Option<nat>)
      requires queue.Length == 256 && head < 256
      modifies this`ticks, this`head, this`current, Everyone()
      ensures head < 256 && (slot.Some? ==> slot.value < 256)
      ensures old(current) == null ==> slot == None && head == old(head) && ticks == old(ticks)
      ensures old(current) != null ==> ticks == (old(ticks) + 1) % WORD
      ensures old(current) != null ==>
        Selects(mode, count, old(Flags(queue[..])), old(Priorities(queue[..])), old(head), slot, head)
      ensures current == if slot == None then old(current) else queue[slot.value]
      ensures var cur := old(current); cur != null ==>
        && cur.jiffiesUsed == old(cur.jiffiesUsed) + 1 && cur.timeSlice == SCHED_TIME_SLICE
        && cur.state == (if current == cur then old(cur.state) else Ready)
        && cur.priority == old(cur.priority)
      ensures forall p :: p in old(Everyone()) && p != old(current) ==> unchanged(p)
    {
      hide Selects, Flags, Priorities;
      slot := None;
      var cur := current;
      if cur != null {
        cur.timeSlice := 0;
        assert Flags(queue[..]) == old(Flags(queue[..]));
        assert Priorities(queue[..]) == old(Priorities(queue[..]));
        slot := Tick();
      }
    }

    /** Among processes that are all ready a tick is one of the abstract clock. */
    method TickInTurn(ghost procs: seq<Process>, ghost k: TimeSlices.Clock) returns (ghost k': TimeSlices.Clock)
      requires Running(procs, k)
      modifies this`ticks, this`head, this`current, Everyone()
      ensures Running(procs, k') && current != null && TimeSlices.Tickable(k)
      ensures k' == if old(current) == null then k else TimeSlices.Tick(k)
    {
      hide Ring, Accounts, Selects, Everyone, Current, TimeSlices.Later, Flags, Priorities;
      ghost var cur, ready, prios, h := current, Flags(queue[..]), Priorities(queue[..]), head;
      BeforeTurn(procs, k);
      k' := if cur == null then k else TimeSlices.Tick(k);
      ghost var slot := Tick();
      forall i | 0 <= i < |procs| ensures AccountOf(procs[i], k', i) { assert old(AccountOf(procs[i], k, i)); }
      AllAccounts(procs, k');
      if cur == null || k.slice <= 1 {
        SelectsInTurn(|procs|, k, cur == null, h, count, ready, prios, slot, head);
      }
    }

    /** So `m` ticks in a row are `m` ticks of the clock. */
    method TicksInTurn(ghost procs: seq<Process>, ghost k: TimeSlices.Clock, m: nat)
      requires Running(procs, k) && TimeSlices.Ok(k) && current != null
      modifies this`ticks, this`head, this`current, Everyone()
      ensures Running(procs, TimeSlices.Ticks(k, m)) && current != null
    {
      hide *;
      ghost var now := k;
      TimeSlices.NoTicks(k);
      OnlyTheRing(procs, now);
      for i := 0 to m
        invariant TimeSlices.Ok(now) && now == TimeSlices.Ticks(k, i) && Running(procs, now) && current != null
        invariant Everyone() == set p | p in procs
      {
        TimeSlices.OneMoreTick(k, i);
        now := TickInTurn(procs, now);
        OnlyTheRing(procs, now);
      }
    }

    /** Any window of 20 ticks for each of `n` processes, wherever it starts, raises the
        jiffies_used of every process by exactly 20 and ends with the same process running and
        the same rest of its slice. */
    method FairWindow(ghost procs: seq<Process>, ghost k: TimeSlices.Clock, n: nat)
      requires Running(procs, k) && TimeSlices.Ok(k) && current != null && n == |procs|
      modifies this`ticks, this`head, this`current, Everyone()
      ensures forall p :: p in procs ==> p.jiffiesUsed == old(p.jiffiesUsed) + 20
      ensures current == old(current) && current != null && current.timeSlice == old(current.timeSlice)
    {
      TicksInTurn(procs, k, 20 * n);
      TimeSlices.EveryWindowIsFair(k);
    }

    /** And giving up the slice is the abstract yield. */
    method YieldInTurn(ghost procs: seq<Process>, ghost k: TimeSlices.Clock) returns (ghost k': TimeSlices.Clock)
      requires Running(procs, k) && TimeSlices.Ok(k)
      modifies this`ticks, this`head, this`current, Everyone()
      ensures Running(procs, k') && (current == null <==> old(current) == null)
      ensures k' == if old(current) == null then k else TimeSlices.Yield(k)
    {
      hide Ring, Accounts, Selects, Everyone, Current, TimeSlices.Later, Flags, Priorities;
      ghost var cur, ready, prios, h := current, Flags(queue[..]), Priorities(queue[..]), head;
      BeforeTurn(procs, k);
      k' := if cur == null then k else TimeSlices.Yield(k);
      ghost var slot := Yield();
      forall i | 0 <= i < |procs| ensures AccountOf(procs[i], k', i) { assert old(AccountOf(procs[i], k, i)); }
      AllAccounts(procs, k');
      if cur != null {
        SelectsInTurn(|procs|, k, cur == null, h, count, ready, prios, slot, head);
      }
    }

    lemma OnlyTheRing(procs: seq<Process>, k: TimeSlices.Clock)
      requires Running(procs, k)
      ensures Everyone() == set p | p in procs
    {
      assert forall i :: 0 <= i < |procs| ==> queue[i] == procs[i];
    }

    lemma BeforeTurn(procs: seq<Process>, k: TimeSlices.Clock)
      requires Running(procs, k)
      ensures 0 < |procs| <= 256 && Distinct(procs) && |k.used| == |procs| && k.cur < |procs| && mode == RoundRobinMode && count > 0
      ensures queue.Length == 256 && head < 256 && (current == null || current == procs[k.cur])
      ensures forall i :: 0 <= i < |procs| ==> AccountOf(procs[i], k, i) && procs[i] in Everyone() && queue[i] == procs[i]
      ensures ReadyBelow(Flags(queue[..]), |procs|)
    {
      AccountsReady(procs, k);
      PickInFullRing(queue[..], procs, head);
      forall i | 0 <= i < |procs| ensures procs[i] in Everyone() { assert queue[i] == procs[i]; }
    }

    /** Distinct processes that are ready and have full slices, once added, are running on a
        clock at the start of the first one's turn. */
    lemma AddedIsRunning(procs: seq<Process>, k: TimeSlices.Clock)
      requires Adding(procs) && current == null && mode == RoundRobinMode && procs != [] && Distinct(procs)
      requires Accounts(procs, k) && k.cur == 0 && k.slice == SCHED_TIME_SLICE
      ensures Running(procs, k)
    {
    }

    lemma FirstRuns(procs: seq<Process>, k: TimeSlices.Clock)
      requires Running(procs, k) && current != null
      ensures current == procs[k.cur]
    {
    }

    lemma SecondWaits(a: Process, b: Process)
      requires Running([a, b], TimeSlices.Clock(0, SCHED_TIME_SLICE, [0, 0]))
      ensures a != b && b.state == Ready && queue.Length == 256 && queue[1] == b && mode == RoundRobinMode && count > 0 && head < 256
      ensures forall i :: 0 <= i < 256 ==> queue[i] == null || queue[i] == a || queue[i] == b
    {
      assert [a, b][0] == a && [a, b][1] == b;
      assert forall i :: 2 <= i < 256 ==> queue[..][i] == null;
      assert AccountOf([a, b][1], TimeSlices.Clock(0, SCHED_TIME_SLICE, [0, 0]), 1);
    }
  }

  lemma AccountsReady(procs: seq<Process>, k: TimeSlices.Clock)
    requires Accounts(procs, k)
    ensures AllReady(procs) && |k.used| == |procs|
  {
    forall i | 0 <= i < |procs| ensures procs[i].state == Ready { assert AccountOf(procs[i], k, i); }
  }

  lemma AllAccounts(procs: seq<Process>, k: TimeSlices.Clock)
    requires |k.used| == |procs| && forall i :: 0 <= i < |procs| ==> AccountOf(procs[i], k, i)
    ensures Accounts(procs, k)
  {
  }

  // ------------------------------------------------------------------ running, but not ready

  /** What a selection would find. */
  ghost predicate Found(s: Scheduler)
    reads s, s.queue, s.queue[..]
  {
    Selectable(s.mode, s.count, Flags(s.queue[..]), Priorities(s.queue[..]))
  }

  /** When a process that is running but not ready, whatever the reason, yields, it is made
      ready if and only if there is a process to select; otherwise it keeps its state and goes
      on running. */
  method YieldUnready(s: Scheduler)
    requires s.queue.Length == 256 && s.head < 256 && s.current != null && s.current.state != Ready
    modifies s`ticks, s`head, s`current, s.Everyone()
    ensures old(s.current).state == if old(Found(s)) then Ready else old(s.current.state)
    ensures s.current != null && (s.current != old(s.current) <==> old(Found(s)))
  {
    ghost var ready, prios := Flags(s.queue[..]), Priorities(s.queue[..]);
    assert forall t :: 0 <= t < 256 && ready[t] ==> s.queue[t] != null && s.queue[t] != s.current;
    hide *;
    var slot := s.Yield();
    SelectsIff(s.mode, s.count, ready, prios, old(s.head), slot, s.head);
  }

  /** So it is with the tick that ends its slice; the others do not touch its state. */
  method TickUnready(s: Scheduler)
    requires s.queue.Length == 256 && s.head < 256 && s.current != null && s.current.state != Ready
    modifies s`ticks, s`head, s`current, s.Everyone()
    ensures old(s.current).state == if old(s.current.timeSlice) <= 1 && old(Found(s)) then Ready else old(s.current.state)
    ensures s.current != null && (s.current != old(s.current) <==> old(s.current.timeSlice) <= 1 && old(Found(s)))
  {
    ghost var ready, prios := Flags(s.queue[..]), Priorities(s.queue[..]);
    assert forall t :: 0 <= t < 256 && ready[t] ==> s.queue[t] != null && s.queue[t] != s.current;
    hide *;
    var slot := s.Tick();
    if old(s.current.timeSlice) <= 1 { SelectsIff(s.mode, s.count, ready, prios, old(s.head), slot, s.head); }
  }

  /** A fresh scheduler to which distinct processes, new ones, have been added, after the first
      tick: the first one is running. */
  method StartTwo() returns (s: Scheduler, a: Process, b: Process)
    ensures s.Running([a, b], TimeSlices.Clock(0, SCHED_TIME_SLICE, [0, 0])) && s.current == a
    ensures fresh(s) && fresh(a) && fresh(b) && fresh(s.queue)
  {
    a := new Process(1);
    b := new Process(2);
    s := new Scheduler(RoundRobinMode);
    s.Add(a, []);
    s.Add(b, [a]);
    ghost var k := TimeSlices.Clock(0, SCHED_TIME_SLICE, [0, 0]);
    s.AddedIsRunning([a, b], k);
    hide *;
    k := s.TickInTurn([a, b], k);
    s.FirstRuns([a, b], k);
  }

  /** Two processes; the one that is running blocks and yields, and is ready again. */
  method BlockedWakes() returns (s: Scheduler, a: Process, b: Process, atYield: ProcState)
    ensures atYield == Blocked && a.state == Ready && s.current != null && s.current != a
  {
    s, a, b := StartTwo();
    s.SecondWaits(a, b);
    a.state := Blocked;
    atYield := a.state;
    assert s.queue[1] == b && Flags(s.queue[..])[1];
    assert forall p :: p in s.Everyone() ==> p == a || p == b;
    YieldUnready(s);
  }
}
