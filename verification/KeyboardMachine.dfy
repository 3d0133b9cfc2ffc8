/** The interrupt handler and keyboard_getchar as one machine: an interrupt may come between
    any two steps of the reader. */
module KeyboardMachine {
  import opened Options
  import opened Words
  import opened RingBuffer
  import opened KeyDecoder

  const KB_BUFFER_SIZE: nat := 256

  datatype Kb = Kb(buffer: string, head: nat, tail: nat, mods: Mods)

  /** How far keyboard_getchar has come: waiting for input; past the test; the character read;
      the next head computed but not yet stored. */
  datatype Reader = Polling | Ready | Loaded(c: char) | Stepped(c: char, next: nat)

  datatype World = World(kb: Kb, reader: Reader)

  datatype Event = Irq(sc: byte) | Read

  function Count(head: nat, tail: nat): nat
    requires head < 256
  {
    if tail >= head then tail - head else tail + 256 - head
  }

  ghost predicate KbOk(kb: Kb) {
    |kb.buffer| == 256 && kb.head < 256 && kb.tail < 256
  }

  /** The characters in the buffer, oldest first. */
  ghost function Pending(kb: Kb): (r: string)
    requires KbOk(kb)
    ensures |r| < KB_BUFFER_SIZE
  {
    Window(kb.buffer, kb.head, Count(kb.head, kb.tail))
  }

  lemma Counted(kb: Kb)
    requires KbOk(kb)
    ensures RingOk(kb.head, kb.tail, Count(kb.head, kb.tail), 256, 256)
    ensures Count(kb.head, kb.tail) == 0 <==> kb.head == kb.tail
    ensures Count(kb.head, kb.tail) == 255 <==> (kb.tail + 1) % 256 == kb.head
  {
  }

  // ------------------------------------------------------------------ steps

  /** keyboard_irq_handler. */
  function OnIrq(kb: Kb, sc: byte): (r: Kb)
    requires KbOk(kb)
    ensures KbOk(r)
  {
    var c := Char(kb.mods, sc);
    var next := (kb.tail + 1) % 256;
    if c.None? || next == kb.head then kb.(mods := NextMods(kb.mods, sc))
    else Kb(kb.buffer[kb.tail := c.value], kb.head, next, NextMods(kb.mods, sc))
  }

  /** What a step of the reader does when it is all the reader has to itself. */
  function OnRead(w: World): (r: World)
    requires KbOk(w.kb) && (w.reader.Stepped? ==> w.reader.next < 256)
    ensures KbOk(r.kb)
  {
    match w.reader
    case Polling => w.(reader := if w.kb.head != w.kb.tail then Ready else Polling)
    case Ready => w.(reader := Loaded(w.kb.buffer[w.kb.head]))
    case Loaded(c) => w.(reader := Stepped(c, (w.kb.head + 1) % 256))
    case Stepped(c, next) => World(w.kb.(head := next), Polling)
  }

  /** What the reader knows stays true whatever interrupts come in between. */
  ghost predicate Sound(w: World) {
    && KbOk(w.kb)
    && match w.reader
       case Polling => true
       case Ready => Pending(w.kb) != []
       case Loaded(c) => Pending(w.kb) != [] && c == Pending(w.kb)[0]
       case Stepped(c, next) => Pending(w.kb) != [] && c == Pending(w.kb)[0] && next == (w.kb.head + 1) % 256
  }

  function Step(w: World, e: Event): World
    requires KbOk(w.kb) && (w.reader.Stepped? ==> w.reader.next < 256)
  {
    match e
    case Irq(sc) => w.(kb := OnIrq(w.kb, sc))
    case Read => OnRead(w)
  }

  /** What an event stores in the buffer. */
  function Stored(w: World, e: Event): (r: string)
    requires KbOk(w.kb)
  {
    if e.Irq? && OnIrq(w.kb, e.sc).tail != w.kb.tail then [OnIrq(w.kb, e.sc).buffer[w.kb.tail]] else []
  }

  /** What an event returns to the caller of keyboard_getchar. */
  function Returned(w: World, e: Event): string {
    if e.Read? && w.reader.Stepped? then [w.reader.c] else []
  }

  /** An interrupt only appends: no unread slot is overwritten. */
  lemma IrqAppends(kb: Kb, sc: byte)
    requires KbOk(kb)
    ensures Pending(OnIrq(kb, sc)) == Pending(kb) + (if |Pending(kb)| < 255 then OptSeq(Char(kb.mods, sc)) else [])
    ensures OnIrq(kb, sc).tail != kb.tail <==> Char(kb.mods, sc).Some? && |Pending(kb)| < 255
    ensures OnIrq(kb, sc).tail != kb.tail ==> OnIrq(kb, sc).buffer[kb.tail] == Char(kb.mods, sc).value
    ensures OnIrq(kb, sc).mods == NextMods(kb.mods, sc) && OnIrq(kb, sc).head == kb.head
  {
    hide Char, NextMods, Window;
    Counted(kb);
    var c := Char(kb.mods, sc);
    if c.Some? && |Pending(kb)| < 255 { StoreAppends(kb, c.value, NextMods(kb.mods, sc)); }
  }

  lemma StoreAppends(kb: Kb, c: char, m: Mods)
    requires KbOk(kb) && |Pending(kb)| < 255
    ensures var kb' := Kb(kb.buffer[kb.tail := c], kb.head, (kb.tail + 1) % 256, m);
      KbOk(kb') && Pending(kb') == Pending(kb) + [c]
  {
    hide Window;
    Counted(kb);
    var n := Count(kb.head, kb.tail);
    OneMoreCounted(kb.head, kb.tail);
    Push(kb.buffer, kb.head, kb.tail, n, 256, 1, c);
  }

  lemma OneMoreCounted(head: nat, tail: nat)
    requires head < 256 && tail < 256 && Count(head, tail) < 255
    ensures Count(head, (tail + 1) % 256) == Count(head, tail) + 1 && Cell(tail, 256) == tail
  {
  }

  lemma ReadTakes(w: World)
    requires Sound(w)
    ensures Sound(OnRead(w)) && OnRead(w).kb.mods == w.kb.mods
    ensures Returned(w, Read) + Pending(OnRead(w).kb) == Pending(w.kb)
  {
    Counted(w.kb);
    if Pending(w.kb) != [] {
      var n := Count(w.kb.head, w.kb.tail);
      Pop(w.kb.buffer, w.kb.head, w.kb.tail, n, 256, 1);
      assert Cell(w.kb.head, 256) == w.kb.head;
      if w.reader.Stepped? { assert Count(w.reader.next, w.kb.tail) == n - 1; }
    }
  }

  lemma StepSound(w: World, e: Event)
    requires Sound(w)
    ensures Sound(Step(w, e))
    ensures Returned(w, e) + Pending(Step(w, e).kb) == Pending(w.kb) + Stored(w, e)
  {
    hide OnIrq, OnRead, Pending;
    match e
    case Irq(sc) => IrqAppends(w.kb, sc);
    case Read => ReadTakes(w);
  }

  // ------------------------------------------------------------------ runs

  ghost function Run(w: World, es: seq<Event>): (r: World)
    requires Sound(w)
    ensures Sound(r)
    decreases |es|
  {
    if es == [] then w
    else
      StepSound(w, es[0]);
      Run(Step(w, es[0]), es[1..])
  }

  ghost function Accepted(w: World, es: seq<Event>): string
    requires Sound(w)
    decreases |es|
  {
    if es == [] then []
    else
      StepSound(w, es[0]);
      Stored(w, es[0]) + Accepted(Step(w, es[0]), es[1..])
  }

  ghost function Delivered(w: World, es: seq<Event>): string
    requires Sound(w)
    decreases |es|
  {
    if es == [] then []
    else
      StepSound(w, es[0]);
      Returned(w, es[0]) + Delivered(Step(w, es[0]), es[1..])
  }

  /** Nothing that was accepted is lost, delivered twice or out of order, wherever the
      interrupts fall; at most 255 characters wait. */
  lemma {:induction false} NothingLost(w: World, es: seq<Event>)
    requires Sound(w)
    ensures Delivered(w, es) + Pending(Run(w, es).kb) == Pending(w.kb) + Accepted(w, es)
    ensures |Pending(Run(w, es).kb)| <= 255
    decreases |es|
  {
    hide Step, Pending, Stored, Returned;
    if es != [] {
      var t := Step(w, es[0]);
      StepSound(w, es[0]);
      NothingLost(t, es[1..]);
      Balance(Returned(w, es[0]), Delivered(t, es[1..]), Pending(Run(w, es).kb), Pending(t.kb), Pending(w.kb),
              Stored(w, es[0]), Accepted(t, es[1..]));
    }
  }

  lemma {:induction false} RunSplit(w: World, a: seq<Event>, b: seq<Event>)
    requires Sound(w)
    ensures Run(w, a + b) == Run(Run(w, a), b)
    ensures Delivered(w, a + b) == Delivered(w, a) + Delivered(Run(w, a), b)
    decreases |a|
  {
    hide Step, Pending, Stored, Returned;
    if a == [] {
      assert a + b == b;
    } else {
      StepSound(w, a[0]);
      RunSplit(Step(w, a[0]), a[1..], b);
      assert (a + b)[1..] == a[1..] + b;
    }
  }

  // ------------------------------------------------------------------ what is accepted

  function Scancodes(es: seq<Event>): seq<byte> {
    if es == [] then [] else (if es[0].Irq? then [es[0].sc] else []) + Scancodes(es[1..])
  }

  /** For every character the scancodes give, whether the buffer was full when it came. */
  ghost function Drops(w: World, es: seq<Event>): seq<bool>
    requires Sound(w)
    decreases |es|
  {
    if es == [] then []
    else
      StepSound(w, es[0]);
      (if es[0].Irq? && Char(w.kb.mods, es[0].sc).Some? then [|Pending(w.kb)| == 255] else [])
      + Drops(Step(w, es[0]), es[1..])
  }

  /** `s` without the characters that are marked. */
  function Keep(s: string, drop: seq<bool>): string
    requires |s| == |drop|
  {
    if s == [] then [] else (if drop[0] then [] else [s[0]]) + Keep(s[1..], drop[1..])
  }

  /** What gets into the buffer is the scancode stream run through the modifiers, minus exactly
      the characters that came when 255 were waiting.  The reader has no influence on the
      decoding. */
  lemma {:induction false} AcceptedIsDecoded(w: World, es: seq<Event>)
    requires Sound(w)
    ensures |Decode(w.kb.mods, Scancodes(es))| == |Drops(w, es)|
    ensures Accepted(w, es) == Keep(Decode(w.kb.mods, Scancodes(es)), Drops(w, es))
    ensures Run(w, es).kb.mods == ModsAfter(w.kb.mods, Scancodes(es))
    decreases |es|
  {
    hide Pending, Char, NextMods, OnIrq, OnRead;
    if es != [] {
      StepSound(w, es[0]);
      AcceptedIsDecoded(Step(w, es[0]), es[1..]);
      match es[0] {
        case Read =>
          ReadTakes(w);
          StreamRead(w, es);
        case Irq(sc) =>
          IrqAppends(w.kb, sc);
          StreamHead(es);
          KeepHead(OptSeq(Char(w.kb.mods, sc)), Decode(NextMods(w.kb.mods, sc), Scancodes(es[1..])),
                   |Pending(w.kb)| == 255, Drops(Step(w, es[0]), es[1..]));
      }
    }
  }

  lemma StreamHead(es: seq<Event>)
    requires es != [] && es[0].Irq?
    ensures Scancodes(es) != [] && Scancodes(es)[0] == es[0].sc && Scancodes(es)[1..] == Scancodes(es[1..])
  {
  }

  lemma StreamRead(w: World, es: seq<Event>)
    requires Sound(w) && es != [] && es[0].Read? && Sound(Step(w, es[0]))
    ensures Scancodes(es) == Scancodes(es[1..])
    ensures Drops(w, es) == Drops(Step(w, es[0]), es[1..]) && Accepted(w, es) == Accepted(Step(w, es[0]), es[1..])
  {
  }

  lemma {:induction false} KeepHead(c: string, s: string, full: bool, drop: seq<bool>)
    requires |c| <= 1 && |s| == |drop|
    ensures var d := if c == [] then [] else [full];
      |c + s| == |d + drop| && Keep(c + s, d + drop) == (if full then [] else c) + Keep(s, drop)
  {
    hide Keep;
    if c == [] {
      assert c + s == s && [] + drop == drop;
    } else {
      assert c == [c[0]];
      KeepFirst(c[0], s, full, drop);
    }
  }

  lemma {:induction false} KeepFirst(c: char, s: string, full: bool, drop: seq<bool>)
    requires |s| == |drop|
    ensures Keep([c] + s, [full] + drop) == (if full then [] else [c]) + Keep(s, drop)
  {
    assert ([c] + s)[1..] == s && ([full] + drop)[1..] == drop;
  }

  /** As long as the buffer is never full when a key comes, every character gets in. */
  lemma NothingDropped(w: World, es: seq<Event>)
    requires Sound(w) && forall i :: 0 <= i < |Drops(w, es)| ==> !Drops(w, es)[i]
    ensures Accepted(w, es) == Decode(w.kb.mods, Scancodes(es))
  {
    AcceptedIsDecoded(w, es);
    KeepAll(Decode(w.kb.mods, Scancodes(es)), Drops(w, es));
  }

  lemma {:induction false} KeepAll(s: string, drop: seq<bool>)
    requires |s| == |drop| && forall i :: 0 <= i < |drop| ==> !drop[i]
    ensures Keep(s, drop) == s
    decreases |s|
  {
    if s != [] { KeepAll(s[1..], drop[1..]); }
  }
}
