/** drivers/keyboard.c: the keyboard state, changed in place by the interrupt handler and by
    keyboard_getchar. */
module Keyboard {
  import opened Options
  import opened Words
  import opened Bits
  import opened KeyDecoder
  import opened KeyboardMachine

  /** The tests of the handler on the raw scancode. */
  lemma ScancodeBits(sc: byte)
    ensures And(sc, 0x80) != 0 <==> Release(sc)
    ensures And(sc, 0x7F) == Key(sc)
  {
    hide And, Pow2;
    Powers();
    Power8();
    AndHigh(sc, 7, 8);
    AndLow(sc, 7);
  }

  lemma Power8()
    ensures Pow2(8) == 256
  {
  }

  /** Interrupts and reader steps in the order in which they happen: before each step of the
      reader comes a burst of interrupts. */
  ghost function Schedule(bursts: seq<seq<byte>>, n: nat): seq<Event> {
    if n == 0 then [] else Schedule(bursts, n - 1) + Irqs(Burst(bursts, n - 1)) + [Read]
  }

  function Burst(bursts: seq<seq<byte>>, i: nat): seq<byte> {
    if i < |bursts| then bursts[i] else []
  }

  ghost function Irqs(scs: seq<byte>): (r: seq<Event>) {
    seq(|scs|, i requires 0 <= i < |scs| => Irq(scs[i]))
  }

  /** One more burst and one more step of the reader. */
  lemma ScheduleStep(w: World, bursts: seq<seq<byte>>, n: nat)
    requires Sound(w)
    ensures Sound(Run(Run(w, Schedule(bursts, n)), Irqs(Burst(bursts, n))))
    ensures var v := Run(Run(w, Schedule(bursts, n)), Irqs(Burst(bursts, n)));
      && Run(w, Schedule(bursts, n + 1)) == OnRead(v)
      && Delivered(w, Schedule(bursts, n + 1)) == Delivered(w, Schedule(bursts, n)) + Returned(v, Read)
  {
    hide OnRead, Sound;
    var es, burst := Schedule(bursts, n), Irqs(Burst(bursts, n));
    var u := Run(w, es);
    var v := Run(u, burst);
    RunSplit(w, es + burst, [Read]);
    RunSplit(w, es, burst);
    RunOne(v);
    IrqsDeliverNothing(u, Burst(bursts, n));
  }

  lemma RunOne(v: World)
    requires Sound(v)
    ensures Run(v, [Read]) == OnRead(v) && Delivered(v, [Read]) == Returned(v, Read)
  {
    StepSound(v, Read);
    assert [Read][1..] == [];
  }

  lemma {:induction false} IrqsDeliverNothing(w: World, scs: seq<byte>)
    requires Sound(w)
    ensures Delivered(w, Irqs(scs)) == [] && Run(w, Irqs(scs)).reader == w.reader
    decreases |scs|
  {
    hide OnIrq;
    if scs != [] {
      StepSound(w, Irq(scs[0]));
      assert Irqs(scs)[0] == Irq(scs[0]) && Irqs(scs)[1..] == Irqs(scs[1..]);
      IrqsDeliverNothing(Step(w, Irq(scs[0])), scs[1..]);
    }
  }

  lemma IrqsStep(w: World, scs: seq<byte>, i: nat)
    requires Sound(w) && i < |scs|
    ensures var v := Run(w, Irqs(scs[..i]));
      Run(w, Irqs(scs[..i + 1])) == v.(kb := OnIrq(v.kb, scs[i]))
  {
    assert Irqs(scs[..i + 1]) == Irqs(scs[..i]) + [Irq(scs[i])];
    RunSplit(w, Irqs(scs[..i]), [Irq(scs[i])]);
    var v := Run(w, Irqs(scs[..i]));
    StepSound(v, Irq(scs[i]));
    assert [Irq(scs[i])][1..] == [];
  }

  class Keyboard {
    const buffer: array<char>
    var head: nat
    var tail: nat
    var shift: bool
    var ctrl: bool
    var alt: bool
    var caps: bool

    ghost predicate Valid()
      reads this
    {
      buffer.Length == 256 && head < 256 && tail < 256
    }

    ghost function View(): (r: Kb)
      requires Valid()
      reads this, buffer
      ensures KbOk(r)
    {
      Kb(buffer[..], head, tail, Mods(shift, ctrl, alt, caps))
    }

    /** keyboard_init. */
    constructor ()
      ensures Valid() && Pending(View()) == [] && View().mods == Mods(false, false, false, false)
    {
      buffer := new char[256](_ => '\0');
      head, tail, shift, ctrl, alt, caps := 0, 0, false, false, false, false;
    }

    /** keyboard_irq_handler, with the scancode read from the port. */
    method IrqHandler(scancode: byte)
      requires Valid()
      modifies this, buffer
      ensures Valid() && View() == OnIrq(old(View()), scancode)
    {
      hide And, Plain, Shifted;
      ScancodeBits(scancode);
      var rel := And(scancode, 0x80) != 0;
      var sc := And(scancode, 0x7F);
      if sc == KEY_LSHIFT || sc == KEY_RSHIFT { shift := !rel; return; }
      if sc == KEY_CTRL { ctrl := !rel; return; }
      if sc == KEY_ALT { alt := !rel; return; }
      if sc == KEY_CAPS && !rel { caps := !caps; return; }
      if rel { return; }
      var up := shift != caps;
      var c := if sc < 58 then (if up then Shifted()[sc] else Plain()[sc]) else '\0';
      if c == '\0' { return; }
      var next := (tail + 1) % 256;
      if next != head {
        buffer[tail] := c;
        tail := next;
      }
    }

    /** keyboard_has_input. */
    method HasInput() returns (b: bool)
      requires Valid()
      ensures b <==> Pending(View()) != []
    {
      Counted(View());
      b := head != tail;
    }

    /** The interrupts of one burst. */
    method Interrupts(scs: seq<byte>, ghost w: World)
      requires Valid() && Sound(w) && w.kb == View()
      modifies this, buffer
      ensures Valid() && View() == Run(w, Irqs(scs)).kb && Run(w, Irqs(scs)).reader == w.reader
    {
      hide OnIrq;
      assert Irqs(scs[..0]) == [];
      for i := 0 to |scs|
        invariant Valid() && View() == Run(w, Irqs(scs[..i])).kb
      {
        IrqHandler(scs[i]);
        IrqsStep(w, scs, i);
      }
      assert scs[..|scs|] == scs;
      IrqsDeliverNothing(w, scs);
    }

    /** keyboard_getchar, with interrupts before each of its steps as `bursts` says: it keeps
        polling until there is input, and gives up here only when the bursts have run out while
        there is none.  Together with the interrupts this is a run of the machine, and the
        character returned is the one thing the run delivers. */
    method GetChar(bursts: seq<seq<byte>>) returns (c: Option<char>, ghost steps: nat)
      requires Valid()
      modifies this, buffer
      ensures Valid()
      ensures Sound(World(old(View()), Polling))
      ensures var w := World(old(View()), Polling);
        && Run(w, Schedule(bursts, steps)) == World(View(), Polling)
        && Delivered(w, Schedule(bursts, steps)) == OptSeq(c)
      ensures c.None? ==> Pending(View()) == []
    {
      hide OnIrq, Pending, Run, Delivered, Irqs, Burst, Schedule, KeyDecoder.NextMods, KeyDecoder.Char;
      ghost var w := World(View(), Polling);
      steps := 0;
      ScheduleNone(w, bursts);
      var i := 0;
      Interrupts(Burst(bursts, i), Run(w, Schedule(bursts, steps)));
      ScheduleStep(w, bursts, steps);
      steps := steps + 1;
      while head == tail
        invariant Valid() && i + 1 == steps && Sound(w)
        invariant Run(w, Schedule(bursts, steps)) == World(View(), if head != tail then Ready else Polling)
        invariant Delivered(w, Schedule(bursts, steps)) == []
        decreases |bursts| - i
      {
        if i >= |bursts| {
          NoneWaiting(View());
          return None, steps;
        }
        i := i + 1;
        Interrupts(Burst(bursts, i), Run(w, Schedule(bursts, steps)));
        ScheduleStep(w, bursts, steps);
        steps := steps + 1;
      }
      var ch := FetchChar(bursts, i + 1, w);
      steps := steps + 3;
      c := Some(ch);
    }

    /** The steps of keyboard_getchar once there is input. */
    method FetchChar(bursts: seq<seq<byte>>, i: nat, ghost w: World) returns (ch: char)
      requires Valid() && Sound(w) && Run(w, Schedule(bursts, i)) == World(View(), Ready)
      modifies this, buffer
      ensures Valid() && Run(w, Schedule(bursts, i + 3)) == World(View(), Polling)
      ensures Delivered(w, Schedule(bursts, i + 3)) == Delivered(w, Schedule(bursts, i)) + [ch]
    {
      hide OnIrq, Pending, Run, Delivered, Irqs, Burst, Schedule, KeyDecoder.NextMods, KeyDecoder.Char;
      Interrupts(Burst(bursts, i), Run(w, Schedule(bursts, i)));
      ScheduleStep(w, bursts, i);
      ch := buffer[head];
      Interrupts(Burst(bursts, i + 1), Run(w, Schedule(bursts, i + 1)));
      ScheduleStep(w, bursts, i + 1);
      var next := (head + 1) % 256;
      Interrupts(Burst(bursts, i + 2), Run(w, Schedule(bursts, i + 2)));
      ScheduleStep(w, bursts, i + 2);
      head := next;
    }
  }

  lemma NoneWaiting(kb: Kb)
    requires KbOk(kb) && kb.head == kb.tail
    ensures Pending(kb) == []
  {
    Counted(kb);
  }

  lemma ScheduleNone(w: World, bursts: seq<seq<byte>>)
    requires Sound(w)
    ensures Run(w, Schedule(bursts, 0)) == w && Delivered(w, Schedule(bursts, 0)) == []
  {
  }
}
