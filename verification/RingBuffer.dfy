/** Rings whose head and tail run freely and wrap around at a multiple of the capacity. */
module RingBuffer {
  import opened Division

  /** The two counters are `count` apart, modulo the number they wrap around at. */
  ghost predicate RingOk(head: nat, tail: nat, count: nat, cap: nat, wrap: nat) {
    0 < cap && 0 < wrap && head < wrap && count <= cap && tail == (head + count) % wrap
  }

  /** The `count` cells from `head` on. */
  ghost function Window<T>(m: seq<T>, head: nat, count: nat): (r: seq<T>)
    requires |m| > 0
    ensures |r| == count
  {
    seq(count, k requires 0 <= k < count => Nth(m, head, k))
  }

  ghost function Nth<T>(m: seq<T>, head: nat, k: nat): T
    requires |m| > 0
  {
    m[Cell(head + k, |m|)]
  }

  function Cell(p: nat, cap: nat): (i: nat)
    requires 0 < cap
    ensures i < cap
  {
    p % cap
  }

  /** Wrapping around at a multiple of the capacity does not change the cell. */
  lemma WrapKeepsCell(a: nat, k: nat, cap: nat, wrap: nat, q: nat)
    requires 0 < cap && wrap == cap * q && 0 < wrap
    ensures Cell(a % wrap + k, cap) == Cell(a + k, cap)
  {
    var d := a / wrap;
    assert a == wrap * d + a % wrap;
    assert wrap * d == cap * (q * d) by { Assoc(cap, q, d); }
    ModMultiple(a % wrap + k, cap, q * d);
  }

  lemma Assoc(a: nat, b: nat, c: nat)
    ensures a * b * c == a * (b * c)
  {
  }

  /** Cells less than the capacity apart are different. */
  lemma CellsApart(a: nat, d: nat, cap: nat)
    requires 0 < d < cap
    ensures Cell(a, cap) != Cell(a + d, cap)
  {
    var k, r := a / cap, a % cap;
    if r + d < cap {
      DivModUnique(a + d, cap, k, r + d);
    } else {
      assert cap * (k + 1) == cap * k + cap;
      DivModUnique(a + d, cap, k + 1, r + d - cap);
    }
  }

  /** Storing at the tail appends. */
  lemma Push<T>(m: seq<T>, head: nat, tail: nat, count: nat, wrap: nat, q: nat, x: T)
    requires |m| > 0 && RingOk(head, tail, count, |m|, wrap) && wrap == |m| * q && count < |m|
    ensures RingOk(head, (tail + 1) % wrap, count + 1, |m|, wrap)
    ensures Window(m[Cell(tail, |m|) := x], head, count + 1) == Window(m, head, count) + [x]
  {
    hide Cell, Nth;
    TailCell(head, tail, count, |m|, wrap, q);
    ModOnce(head + count, 1, wrap);
    var m' := m[Cell(tail, |m|) := x];
    forall k | 0 <= k < count ensures Nth(m', head, k) == Nth(m, head, k) {
      NthElsewhere(m, head, k, count, x);
    }
    NthHere(m, head, count, x);
    assert Window(m', head, count + 1)[count] == Nth(m', head, count);
  }

  lemma TailCell(head: nat, tail: nat, count: nat, cap: nat, wrap: nat, q: nat)
    requires RingOk(head, tail, count, cap, wrap) && wrap == cap * q
    ensures Cell(tail, cap) == Cell(head + count, cap)
  {
    WrapKeepsCell(head + count, 0, cap, wrap, q);
  }

  lemma NthElsewhere<T>(m: seq<T>, head: nat, k: nat, count: nat, x: T)
    requires k < count < |m|
    ensures Nth(m[Cell(head + count, |m|) := x], head, k) == Nth(m, head, k)
  {
    hide Cell;
    CellsApart(head + k, count - k, |m|);
    assert head + k + (count - k) == head + count;
  }

  lemma NthHere<T>(m: seq<T>, head: nat, count: nat, x: T)
    requires |m| > 0
    ensures Nth(m[Cell(head + count, |m|) := x], head, count) == x
  {
  }

  /** Reading at the head takes the oldest. */
  lemma Pop<T>(m: seq<T>, head: nat, tail: nat, count: nat, wrap: nat, q: nat)
    requires |m| > 0 && RingOk(head, tail, count, |m|, wrap) && wrap == |m| * q && 0 < count
    ensures RingOk((head + 1) % wrap, tail, count - 1, |m|, wrap)
    ensures m[Cell(head, |m|)] == Window(m, head, count)[0]
    ensures Window(m, (head + 1) % wrap, count - 1) == Window(m, head, count)[1..]
  {
    hide Cell;
    ModOnce(head + 1, count - 1, wrap);
    var h := (head + 1) % wrap;
    forall k | 0 <= k < count - 1 ensures Nth(m, h, k) == Nth(m, head, k + 1) {
      WrapKeepsCell(head + 1, k, |m|, wrap, q);
      assert head + 1 + k == head + (k + 1);
    }
    assert m[Cell(head, |m|)] == Nth(m, head, 0);
  }

  lemma ModOnce(a: nat, b: nat, wrap: nat)
    requires 0 < wrap
    ensures (a % wrap + b) % wrap == (a + b) % wrap
  {
    WrapKeepsCell(a, b, wrap, wrap, 1);
  }

  // ------------------------------------------------------------------ what a bounded queue does

  /** Of what is offered, the part that fits is appended. */
  function Accepted<T>(c: seq<T>, xs: seq<T>, cap: nat): (r: seq<T>)
    ensures r <= xs && (r == [] || |c| + |r| <= cap) && (r == xs || |c| + |r| >= cap)
  {
    if |c| + |xs| <= cap then xs else if |c| <= cap then xs[..cap - |c|] else []
  }

  /** Of what is asked for, as much as there is, oldest first. */
  function Delivered<T>(c: seq<T>, n: nat): (r: seq<T>)
    ensures r <= c && |r| == if n <= |c| then n else |c|
  {
    if n <= |c| then c[..n] else c
  }

  datatype Slot<T> = Slot(active: bool, contents: seq<T>)

  datatype Op<T> =
    | Create
    | Offer(fd: int, items: seq<T>)
    | Take(fd: int, n: nat)
    | Close(fd: int)

  /** The lowest free slot. */
  function FirstFree<T>(s: seq<Slot<T>>): (r: int)
    ensures -1 <= r < |s|
    ensures r >= 0 ==> !s[r].active && forall i :: 0 <= i < r ==> s[i].active
    ensures r == -1 ==> forall i :: 0 <= i < |s| ==> s[i].active
  {
    FreeFrom(s, 0)
  }

  function FreeFrom<T>(s: seq<Slot<T>>, i: nat): (r: int)
    requires i <= |s| && forall k :: 0 <= k < i ==> s[k].active
    ensures -1 <= r < |s|
    ensures r >= 0 ==> !s[r].active && forall i :: 0 <= i < r ==> s[i].active
    ensures r == -1 ==> forall i :: 0 <= i < |s| ==> s[i].active
    decreases |s| - i
  {
    if i == |s| then -1 else if !s[i].active then i else FreeFrom(s, i + 1)
  }

  /** A descriptor that names an open slot. */
  predicate Open<T>(s: seq<Slot<T>>, fd: int) {
    0 <= fd < |s| && s[fd].active
  }

  function Step<T>(s: seq<Slot<T>>, op: Op<T>, cap: nat): (r: seq<Slot<T>>)
    ensures |r| == |s|
  {
    match op
    case Create => var i := FirstFree(s); if i < 0 then s else s[i := Slot(true, [])]
    case Offer(fd, xs) => if Open(s, fd) then s[fd := Slot(true, s[fd].contents + Accepted(s[fd].contents, xs, cap))] else s
    case Take(fd, n) => if Open(s, fd) then s[fd := Slot(true, s[fd].contents[|Delivered(s[fd].contents, n)|..])] else s
    case Close(fd) => if 0 <= fd < |s| then s[fd := s[fd].(active := false)] else s
  }

  ghost function Run<T>(s: seq<Slot<T>>, ops: seq<Op<T>>, cap: nat): (r: seq<Slot<T>>)
    ensures |r| == |s|
    decreases |ops|
  {
    if ops == [] then s else Run(Step(s, ops[0], cap), ops[1..], cap)
  }

  /** What slot `fd` takes in in one operation. */
  function TakesIn<T>(s: seq<Slot<T>>, op: Op<T>, cap: nat, fd: int): seq<T> {
    if op.Offer? && op.fd == fd && Open(s, fd) then Accepted(s[fd].contents, op.items, cap) else []
  }

  /** What slot `fd` gives out in one operation. */
  function GivesOut<T>(s: seq<Slot<T>>, op: Op<T>, fd: int): seq<T> {
    if op.Take? && op.fd == fd && Open(s, fd) then Delivered(s[fd].contents, op.n) else []
  }

  ghost function AllAccepted<T>(s: seq<Slot<T>>, ops: seq<Op<T>>, cap: nat, fd: int): seq<T>
    decreases |ops|
  {
    if ops == [] then [] else TakesIn(s, ops[0], cap, fd) + AllAccepted(Step(s, ops[0], cap), ops[1..], cap, fd)
  }

  ghost function AllDelivered<T>(s: seq<Slot<T>>, ops: seq<Op<T>>, cap: nat, fd: int): seq<T>
    decreases |ops|
  {
    if ops == [] then [] else GivesOut(s, ops[0], fd) + AllDelivered(Step(s, ops[0], cap), ops[1..], cap, fd)
  }

  ghost predicate NeverClosed<T>(ops: seq<Op<T>>, fd: int) {
    forall i :: 0 <= i < |ops| ==> ops[i] != Close(fd)
  }

  /** However the operations on all the slots are interleaved: as long as `fd` is not closed,
      what it has given out followed by what it still holds is what it held at first followed
      by what it has taken in. */
  lemma {:induction false} NothingLost<T>(s: seq<Slot<T>>, ops: seq<Op<T>>, cap: nat, fd: int)
    requires Open(s, fd) && NeverClosed(ops, fd)
    ensures Open(Run(s, ops, cap), fd)
    ensures AllDelivered(s, ops, cap, fd) + Run(s, ops, cap)[fd].contents == s[fd].contents + AllAccepted(s, ops, cap, fd)
    decreases |ops|
  {
    hide Step, TakesIn, GivesOut;
    if ops != [] {
      var t := Step(s, ops[0], cap);
      assert ops[0] != Close(fd);
      forall i | 0 <= i < |ops[1..]| ensures ops[1..][i] != Close(fd) { assert ops[1..][i] == ops[i + 1]; }
      StepKeeps(s, ops[0], cap, fd);
      NothingLost(t, ops[1..], cap, fd);
      Balance(GivesOut(s, ops[0], fd), AllDelivered(t, ops[1..], cap, fd), Run(s, ops, cap)[fd].contents,
              t[fd].contents, s[fd].contents, TakesIn(s, ops[0], cap, fd), AllAccepted(t, ops[1..], cap, fd));
    }
  }

  lemma StepKeeps<T>(s: seq<Slot<T>>, op: Op<T>, cap: nat, fd: int)
    requires Open(s, fd) && op != Close(fd)
    ensures var t := Step(s, op, cap);
      && Open(t, fd)
      && GivesOut(s, op, fd) + t[fd].contents == s[fd].contents + TakesIn(s, op, cap, fd)
  {
  }

  lemma Balance<T>(d: seq<T>, ds: seq<T>, r: seq<T>, c': seq<T>, c: seq<T>, a: seq<T>, as': seq<T>)
    requires d + c' == c + a && ds + r == c' + as'
    ensures (d + ds) + r == c + (a + as')
  {
    assert (d + ds) + r == d + (ds + r);
    assert d + (c' + as') == (d + c') + as';
    assert (c + a) + as' == c + (a + as');
  }

  /** No slot ever holds more than its capacity. */
  lemma {:induction false} NeverOverfull<T>(s: seq<Slot<T>>, ops: seq<Op<T>>, cap: nat)
    requires forall i :: 0 <= i < |s| ==> |s[i].contents| <= cap
    ensures forall i :: 0 <= i < |s| ==> |Run(s, ops, cap)[i].contents| <= cap
    decreases |ops|
  {
    if ops != [] { NeverOverfull(Step(s, ops[0], cap), ops[1..], cap); }
  }

  // ------------------------------------------------------------------ descriptors

  /** No operation changes a slot other than its own, and none with a descriptor that is not
      open changes anything, except that closing needs no more than a number in range. */
  lemma OthersUntouched<T>(s: seq<Slot<T>>, op: Op<T>, cap: nat, k: nat)
    requires k < |s| && (if op.Create? then FirstFree(s) != k else op.fd != k)
    ensures Step(s, op, cap)[k] == s[k]
  {
  }

  lemma BadDescriptor<T>(s: seq<Slot<T>>, op: Op<T>, cap: nat)
    requires !op.Create? && !(0 <= op.fd < |s| && s[op.fd].active)
    ensures Step(s, op, cap) == s
  {
    if op.Close? && 0 <= op.fd < |s| { assert s[op.fd].(active := false) == s[op.fd]; }
  }

  /** Creating opens the lowest slot that is not, empty, and with all slots open does nothing. */
  lemma CreateOpensEmpty<T>(s: seq<Slot<T>>, cap: nat, k: nat)
    requires k < |s| && !s[k].active && forall i :: 0 <= i < k ==> s[i].active
    ensures !Open(s, k) && Open(Step(s, Create, cap), k) && Step(s, Create, cap)[k].contents == []
  {
  }

  lemma CreateInFullTable<T>(s: seq<Slot<T>>, cap: nat)
    requires forall i :: 0 <= i < |s| ==> s[i].active
    ensures Step(s, Create, cap) == s
  {
  }

  /** A slot that has been closed is not open, whatever others do, until it is created again. */
  lemma {:induction false} ClosedStaysClosed<T>(s: seq<Slot<T>>, fd: nat, ops: seq<Op<T>>, cap: nat)
    requires fd < |s| && forall i :: 0 <= i < |ops| ==> !ops[i].Create?
    ensures !Open(Run(Step(s, Close(fd), cap), ops, cap), fd)
  {
    StaysClosed(Step(s, Close(fd), cap), fd, ops, cap);
  }

  lemma {:induction false} StaysClosed<T>(s: seq<Slot<T>>, fd: nat, ops: seq<Op<T>>, cap: nat)
    requires !Open(s, fd) && forall i :: 0 <= i < |ops| ==> !ops[i].Create?
    ensures !Open(Run(s, ops, cap), fd)
    decreases |ops|
  {
    if ops != [] {
      assert !ops[0].Create?;
      StaysClosed(Step(s, ops[0], cap), fd, ops[1..], cap);
    }
  }

  /** Whoever gets the descriptor next finds nothing of what was in it: through any operations
      on other slots, closing and then creating it again leaves it open and empty. */
  lemma ReusedIsEmpty<T>(s: seq<Slot<T>>, fd: nat, ops: seq<Op<T>>, cap: nat)
    requires fd < |s| && forall i :: 0 <= i < |ops| ==> !ops[i].Create?
    requires var t := Run(Step(s, Close(fd), cap), ops, cap);
      forall i :: 0 <= i < fd ==> t[i].active
    ensures var t := Step(Run(Step(s, Close(fd), cap), ops, cap), Create, cap);
      Open(t, fd) && t[fd].contents == []
  {
    ClosedStaysClosed(s, fd, ops, cap);
    CreateOpensEmpty(Run(Step(s, Close(fd), cap), ops, cap), cap, fd);
  }
}
