/** drivers/keyboard.c: what a scancode does to the modifier keys and which character it gives. */
module KeyDecoder {
  import opened Options
  import opened Words

  const KEY_LSHIFT: nat := 0x2A
  const KEY_RSHIFT: nat := 0x36
  const KEY_CTRL: nat := 0x1D
  const KEY_ALT: nat := 0x38
  const KEY_CAPS: nat := 0x3A

  /** sc_map and sc_shift, by rows of the keyboard. */
  function Plain(): (r: string)
    ensures |r| == 58
  {
    PlainDigits() + PlainTop() + PlainMiddle() + PlainBottom()
  }

  function Shifted(): (r: string)
    ensures |r| == 58
  {
    ShiftedDigits() + ShiftedTop() + ShiftedMiddle() + ShiftedBottom()
  }

  function PlainDigits(): (r: string) ensures |r| == 15 { "\0\U{1B}1234567890-=\U{8}" }
  function ShiftedDigits(): (r: string) ensures |r| == 15 { "\0\U{1B}!@#$%^&*()_+\U{8}" }
  function PlainTop(): (r: string) ensures |r| == 14 { "\tqwertyuiop[]\n" }
  function ShiftedTop(): (r: string) ensures |r| == 14 { "\tQWERTYUIOP{}\n" }
  function PlainMiddle(): (r: string) ensures |r| == 13 { "\0asdfghjkl;'`" }
  function ShiftedMiddle(): (r: string) ensures |r| == 13 { "\0ASDFGHJKL:\"~" }
  function PlainBottom(): (r: string) ensures |r| == 16 { "\0\\zxcvbnm,./\0*\0 " }
  function ShiftedBottom(): (r: string) ensures |r| == 16 { "\0|ZXCVBNM<>?\0*\0 " }

  datatype Mods = Mods(shift: bool, ctrl: bool, alt: bool, caps: bool)

  /** The key of a scancode, and whether it has been let go. */
  function Key(sc: byte): nat { sc % 128 }

  predicate Release(sc: byte) { sc >= 128 }

  predicate IsShift(sc: byte) {
    Key(sc) == KEY_LSHIFT || Key(sc) == KEY_RSHIFT
  }

  /** The modifiers after a scancode.  There is one flag for both shift keys, and only pressing
      caps lock does anything. */
  function NextMods(m: Mods, sc: byte): Mods {
    if IsShift(sc) then m.(shift := !Release(sc))
    else if Key(sc) == KEY_CTRL then m.(ctrl := !Release(sc))
    else if Key(sc) == KEY_ALT then m.(alt := !Release(sc))
    else if Key(sc) == KEY_CAPS && !Release(sc) then m.(caps := !m.caps)
    else m
  }

  /** The character the scancode gives, if any. */
  function Char(m: Mods, sc: byte): Option<char> {
    if IsShift(sc) || Key(sc) == KEY_CTRL || Key(sc) == KEY_ALT || Release(sc) || Key(sc) >= 58 then None
    else
      var c := if m.shift != m.caps then Shifted()[Key(sc)] else Plain()[Key(sc)];
      if c == '\0' then None else Some(c)
  }

  function OptSeq(c: Option<char>): (r: string)
    ensures |r| <= 1
  {
    match c case None => [] case Some(x) => [x]
  }

  /** The modifiers after a stream of scancodes, and the characters it gives. */
  function ModsAfter(m: Mods, scs: seq<byte>): Mods
    decreases |scs|
  {
    if scs == [] then m else ModsAfter(NextMods(m, scs[0]), scs[1..])
  }

  function Decode(m: Mods, scs: seq<byte>): string
    decreases |scs|
  {
    if scs == [] then [] else OptSeq(Char(m, scs[0])) + Decode(NextMods(m, scs[0]), scs[1..])
  }

  lemma {:induction false} DecodeSplit(m: Mods, a: seq<byte>, b: seq<byte>)
    ensures ModsAfter(m, a + b) == ModsAfter(ModsAfter(m, a), b)
    ensures Decode(m, a + b) == Decode(m, a) + Decode(ModsAfter(m, a), b)
    decreases |a|
  {
    hide Char, NextMods, OptSeq;
    if a == [] {
      assert a + b == b;
    } else {
      DecodeSplit(NextMods(m, a[0]), a[1..], b);
      assert (a + b)[1..] == a[1..] + b;
    }
  }

  /** The shift flag remembers the last event of either shift key. */
  lemma {:induction false} ShiftIsLastEvent(m: Mods, a: seq<byte>, sc: byte, b: seq<byte>)
    requires IsShift(sc) && forall i :: 0 <= i < |b| ==> !IsShift(b[i])
    ensures ModsAfter(m, a + [sc] + b).shift == !Release(sc)
    decreases |b|
  {
    if b == [] {
      assert a + [sc] + b == a + [sc];
      DecodeSplit(m, a, [sc]);
      OneAfter(ModsAfter(m, a), sc);
    } else {
      var n := |b| - 1;
      ShiftIsLastEvent(m, a, sc, b[..n]);
      assert a + [sc] + b == (a + [sc] + b[..n]) + [b[n]];
      DecodeSplit(m, a + [sc] + b[..n], [b[n]]);
      OneAfter(ModsAfter(m, a + [sc] + b[..n]), b[n]);
    }
  }

  lemma OneAfter(m: Mods, sc: byte)
    ensures ModsAfter(m, [sc]) == NextMods(m, sc)
  {
  }

  function CapsPresses(scs: seq<byte>): nat {
    if scs == [] then 0 else (if scs[0] == KEY_CAPS then 1 else 0) + CapsPresses(scs[1..])
  }

  /** Caps lock is toggled by presses and by nothing else. */
  lemma {:induction false} CapsIsParity(m: Mods, scs: seq<byte>)
    ensures ModsAfter(m, scs).caps == if CapsPresses(scs) % 2 == 0 then m.caps else !m.caps
    decreases |scs|
  {
    if scs != [] { CapsIsParity(NextMods(m, scs[0]), scs[1..]); }
  }

  /** The keys that carry letters. */
  predicate Letter(sc: byte) {
    16 <= sc <= 25 || 30 <= sc <= 38 || 44 <= sc <= 50
  }

  /** Letters come in capitals exactly when one of shift and caps lock is on, but not both. */
  lemma LettersFollowCase(m: Mods, sc: byte)
    requires Letter(sc)
    ensures 'a' <= Plain()[sc] <= 'z'
    ensures Char(m, sc) == Some(if m.shift != m.caps then Upper(Plain()[sc]) else Plain()[sc])
  {
    hide PlainDigits, PlainTop, PlainMiddle, PlainBottom, ShiftedDigits, ShiftedTop, ShiftedMiddle, ShiftedBottom;
    if sc <= 25 { TopRow(sc - 15); } else if sc <= 38 { MiddleRow(sc - 29); } else { BottomRow(sc - 42); }
  }

  function Upper(c: char): char
    requires 'a' <= c <= 'z'
  {
    c - 'a' + 'A'
  }

  lemma TopRow(k: nat)
    requires 1 <= k <= 10
    ensures 'a' <= PlainTop()[k] <= 'z' && ShiftedTop()[k] == Upper(PlainTop()[k])
  {
  }

  lemma MiddleRow(k: nat)
    requires 1 <= k <= 9
    ensures 'a' <= PlainMiddle()[k] <= 'z' && ShiftedMiddle()[k] == Upper(PlainMiddle()[k])
  {
  }

  lemma BottomRow(k: nat)
    requires 2 <= k <= 8
    ensures 'a' <= PlainBottom()[k] <= 'z' && ShiftedBottom()[k] == Upper(PlainBottom()[k])
  {
  }

  // ------------------------------------------------------------------ letting keys go

  /** The codes below 128, which say that a key has been pressed. */
  function Presses(scs: seq<byte>): nat {
    if scs == [] then 0 else (if scs[0] < 128 then 1 else 0) + Presses(scs[1..])
  }

  /** Each press gives one character at most, and letting a key go gives none. */
  lemma {:induction false} OnlyPressesGive(m: Mods, scs: seq<byte>)
    ensures |Decode(m, scs)| <= Presses(scs)
    decreases |scs|
  {
    hide Plain, Shifted;
    if scs != [] { OnlyPressesGive(NextMods(m, scs[0]), scs[1..]); }
  }

  /** The stream without the codes that say that an ordinary key has been let go, that is, one
      other than shift (0xAA and 0xB6), ctrl (0x9D) and alt (0xB8). */
  function WithoutReleases(scs: seq<byte>): seq<byte> {
    if scs == [] then []
    else (if scs[0] >= 128 && scs[0] !in {0xAA, 0xB6, 0x9D, 0xB8} then [] else [scs[0]]) + WithoutReleases(scs[1..])
  }

  /** Nobody can tell the difference. */
  lemma {:induction false} ReleasesDoNothing(m: Mods, scs: seq<byte>)
    ensures Decode(m, WithoutReleases(scs)) == Decode(m, scs)
    ensures ModsAfter(m, WithoutReleases(scs)) == ModsAfter(m, scs)
    decreases |scs|
  {
    hide Char, NextMods;
    if scs != [] {
      var sc, rest := scs[0], scs[1..];
      ReleasesDoNothing(NextMods(m, sc), rest);
      if sc >= 128 && sc !in {0xAA, 0xB6, 0x9D, 0xB8} {
        ReleaseDoesNothing(m, sc);
        assert WithoutReleases(scs) == WithoutReleases(rest);
      } else {
        assert WithoutReleases(scs) == [sc] + WithoutReleases(rest);
        assert ([sc] + WithoutReleases(rest))[1..] == WithoutReleases(rest);
      }
    }
  }

  lemma ReleaseDoesNothing(m: Mods, sc: byte)
    requires sc >= 128 && sc !in {0xAA, 0xB6, 0x9D, 0xB8}
    ensures NextMods(m, sc) == m && Char(m, sc) == None
  {
    assert sc != 0xAA && sc != 0xB6 && sc != 0x9D && sc != 0xB8;
  }

  // ------------------------------------------------------------------ ctrl and alt

  /** The ctrl flag says whether the last event of the key was a press, and is as before when
      there was none. */
  lemma {:induction false} CtrlIsLastEvent(m: Mods, scs: seq<byte>)
    ensures ModsAfter(m, scs).ctrl == LastOf(scs, 0x1D, 0x9D, m.ctrl)
    decreases |scs|
  {
    if scs != [] { CtrlIsLastEvent(NextMods(m, scs[0]), scs[1..]); }
  }

  /** So does the alt flag. */
  lemma {:induction false} AltIsLastEvent(m: Mods, scs: seq<byte>)
    ensures ModsAfter(m, scs).alt == LastOf(scs, 0x38, 0xB8, m.alt)
    decreases |scs|
  {
    if scs != [] { AltIsLastEvent(NextMods(m, scs[0]), scs[1..]); }
  }

  /** Whether `on` comes after the last `off`; `before` if neither comes. */
  function LastOf(scs: seq<byte>, on: byte, off: byte, before: bool): bool {
    if scs == [] then before
    else LastOf(scs[1..], on, off, if scs[0] == on then true else if scs[0] == off then false else before)
  }

  // ------------------------------------------------------------------ typing a text

  /** A key, and whether shift is held. */
  datatype Stroke = Stroke(key: nat, shift: bool)

  /** The strokes for the characters from the space on in the order of their codes, sixteen to
      a row. */
  function SpaceRow(): (r: seq<Stroke>)
    ensures |r| == 16
  {
    [Stroke(57, false), Stroke(2, true), Stroke(40, true), Stroke(4, true), Stroke(5, true), Stroke(6, true), Stroke(8, true), Stroke(40, false),
     Stroke(10, true), Stroke(11, true), Stroke(9, true), Stroke(13, true), Stroke(51, false), Stroke(12, false), Stroke(52, false), Stroke(53, false)]
  }

  function DigitsRow(): (r: seq<Stroke>)
    ensures |r| == 16
  {
    [Stroke(11, false), Stroke(2, false), Stroke(3, false), Stroke(4, false), Stroke(5, false), Stroke(6, false), Stroke(7, false), Stroke(8, false),
     Stroke(9, false), Stroke(10, false), Stroke(39, true), Stroke(39, false), Stroke(51, true), Stroke(13, false), Stroke(52, true), Stroke(53, true)]
  }

  function CapitalsRow(): (r: seq<Stroke>)
    ensures |r| == 16
  {
    [Stroke(3, true), Stroke(30, true), Stroke(48, true), Stroke(46, true), Stroke(32, true), Stroke(18, true), Stroke(33, true), Stroke(34, true),
     Stroke(35, true), Stroke(23, true), Stroke(36, true), Stroke(37, true), Stroke(38, true), Stroke(50, true), Stroke(49, true), Stroke(24, true)]
  }

  function MoreCapitalsRow(): (r: seq<Stroke>)
    ensures |r| == 16
  {
    [Stroke(25, true), Stroke(16, true), Stroke(19, true), Stroke(31, true), Stroke(20, true), Stroke(22, true), Stroke(47, true), Stroke(17, true),
     Stroke(45, true), Stroke(21, true), Stroke(44, true), Stroke(26, false), Stroke(43, false), Stroke(27, false), Stroke(7, true), Stroke(12, true)]
  }

  function LettersRow(): (r: seq<Stroke>)
    ensures |r| == 16
  {
    [Stroke(41, false), Stroke(30, false), Stroke(48, false), Stroke(46, false), Stroke(32, false), Stroke(18, false), Stroke(33, false), Stroke(34, false),
     Stroke(35, false), Stroke(23, false), Stroke(36, false), Stroke(37, false), Stroke(38, false), Stroke(50, false), Stroke(49, false), Stroke(24, false)]
  }

  function MoreLettersRow(): (r: seq<Stroke>)
    ensures |r| == 15
  {
    [Stroke(25, false), Stroke(16, false), Stroke(19, false), Stroke(31, false), Stroke(20, false), Stroke(22, false), Stroke(47, false), Stroke(17, false),
     Stroke(45, false), Stroke(21, false), Stroke(44, false), Stroke(26, true), Stroke(43, true), Stroke(27, true), Stroke(41, true)]
  }

  /** Printable characters, line break, tab, Backspace and Escape. */
  predicate Typable(c: char) {
    ' ' <= c <= '~' || c == '\n' || c == '\t' || c == '\U{8}' || c == '\U{1B}'
  }

  function StrokeFor(c: char): Stroke
    requires Typable(c)
  {
    var n := c as int - 32;
    if c == '\n' then Stroke(28, false) else if c == '\t' then Stroke(15, false)
    else if c == '\U{8}' then Stroke(14, false) else if c == '\U{1B}' then Stroke(1, false)
    else if n < 16 then SpaceRow()[n] else if n < 32 then DigitsRow()[n - 16] else if n < 48 then CapitalsRow()[n - 32]
    else if n < 64 then MoreCapitalsRow()[n - 48] else if n < 80 then LettersRow()[n - 64] else MoreLettersRow()[n - 80]
  }

  /** The key carries the character, and is not one of the modifiers. */
  predicate Carries(k: Stroke, c: char) {
    k.key < 58 && k.key !in {KEY_LSHIFT, KEY_RSHIFT, KEY_CTRL, KEY_ALT} && c == if k.shift then Shifted()[k.key] else Plain()[k.key]
  }

  lemma SpaceCarried(i: nat)
    requires i < 16
    ensures Carries(SpaceRow()[i], (32 + i) as char)
  {
  }

  lemma DigitsCarried(i: nat)
    requires i < 16
    ensures Carries(DigitsRow()[i], (48 + i) as char)
  {
  }

  lemma CapitalsCarried(i: nat)
    requires i < 16
    ensures Carries(CapitalsRow()[i], (64 + i) as char)
  {
  }

  lemma MoreCapitalsCarried(i: nat)
    requires i < 16
    ensures Carries(MoreCapitalsRow()[i], (80 + i) as char)
  {
  }

  lemma LettersCarried(i: nat)
    requires i < 16
    ensures Carries(LettersRow()[i], (96 + i) as char)
  {
  }

  lemma MoreLettersCarried(i: nat)
    requires i < 15
    ensures Carries(MoreLettersRow()[i], (112 + i) as char)
  {
  }

  lemma ControlsCarried()
    ensures Carries(Stroke(28, false), '\n') && Carries(Stroke(15, false), '\t')
    ensures Carries(Stroke(14, false), '\U{8}') && Carries(Stroke(1, false), '\U{1B}')
  {
  }

  lemma AllCarried(c: char)
    requires Typable(c)
    ensures Carries(StrokeFor(c), c)
  {
    hide Carries, SpaceRow, DigitsRow, CapitalsRow, MoreCapitalsRow, LettersRow, MoreLettersRow;
    ControlsCarried();
    if c < ' ' { return; }
    var n: nat := c as int - 32;
    if n < 16 { SpaceCarried(n); } else if n < 32 { DigitsCarried(n - 16); } else if n < 48 { CapitalsCarried(n - 32); }
    else if n < 64 { MoreCapitalsCarried(n - 48); } else if n < 80 { LettersCarried(n - 64); } else { MoreLettersCarried(n - 80); }
  }

  /** Pressing and letting go of the key, with the left shift key held if need be. */
  function Typing(c: char): (r: seq<byte>)
    requires Typable(c)
  {
    AllCarried(c);
    var k := StrokeFor(c);
    if k.shift then [0x2A, k.key, k.key + 128, 0xAA] else [k.key, k.key + 128]
  }

  function TypingText(s: string): seq<byte>
    requires forall i :: 0 <= i < |s| ==> Typable(s[i])
  {
    if s == "" then [] else Typing(s[0]) + TypingText(s[1..])
  }

  lemma TypingOne(m: Mods, c: char)
    requires Typable(c) && !m.shift && !m.caps
    ensures Decode(m, Typing(c)) == [c] && ModsAfter(m, Typing(c)) == m
  {
    hide StrokeFor, Decode, ModsAfter, Carries, Char;
    AllCarried(c);
    var k := StrokeFor(c);
    CarriedGives(m.(shift := k.shift), k, c);
    if k.shift { PressWithShift(m, k.key); } else { PressAndRelease(m, k.key); }
  }

  lemma CarriedGives(m: Mods, k: Stroke, c: char)
    requires Carries(k, c) && c != '\0' && m.shift == k.shift && !m.caps
    ensures k.key < 58 && k.key !in {KEY_LSHIFT, KEY_RSHIFT, KEY_CTRL, KEY_ALT} && Char(m, k.key) == Some(c)
  {
    hide Plain, Shifted;
  }

  lemma ShiftDownAndUp(m: Mods)
    requires !m.shift
    ensures Char(m, 0x2A) == None && NextMods(m, 0x2A) == m.(shift := true)
    ensures Char(m.(shift := true), 0xAA) == None && NextMods(m.(shift := true), 0xAA) == m
  {
    hide Plain, Shifted;
  }

  lemma PressWithShift(m: Mods, key: nat)
    requires key < 58 && key !in {KEY_LSHIFT, KEY_RSHIFT, KEY_CTRL, KEY_ALT} && !m.shift
    ensures Decode(m, [0x2A, key, key + 128, 0xAA]) == OptSeq(Char(m.(shift := true), key))
    ensures ModsAfter(m, [0x2A, key, key + 128, 0xAA]) == m
  {
    hide Decode, ModsAfter, Char, NextMods;
    var held := m.(shift := true);
    ShiftDownAndUp(m);
    DecodeOne(m, 0x2A);
    DecodeOne(held, 0xAA);
    PressAndRelease(held, key);
    DecodeSplit(held, [key, key + 128], [0xAA]);
    DecodeSplit(m, [0x2A], [key, key + 128] + [0xAA]);
    assert [0x2A] + ([key, key + 128] + [0xAA]) == [0x2A, key, key + 128, 0xAA];
  }

  lemma DecodeOne(m: Mods, sc: byte)
    ensures Decode(m, [sc]) == OptSeq(Char(m, sc)) && ModsAfter(m, [sc]) == NextMods(m, sc)
  {
    hide Char, NextMods;
    assert [sc][1..] == [];
  }

  lemma PressAndRelease(m: Mods, key: nat)
    requires key < 58 && key !in {KEY_LSHIFT, KEY_RSHIFT, KEY_CTRL, KEY_ALT}
    ensures Decode(m, [key, key + 128]) == OptSeq(Char(m, key)) && ModsAfter(m, [key, key + 128]) == m
  {
    hide Plain, Shifted;
    DecodeOne(m, key);
    DecodeOne(m, key + 128);
    DecodeSplit(m, [key], [key + 128]);
    assert [key] + [key + 128] == [key, key + 128];
  }

  /** Every text of these characters can be typed: from the state with neither shift nor caps
      lock, its strokes give exactly that text and lead back to that state. */
  lemma {:induction false} TypedIsDecoded(m: Mods, s: string)
    requires (forall i :: 0 <= i < |s| ==> Typable(s[i])) && !m.shift && !m.caps
    ensures Decode(m, TypingText(s)) == s && ModsAfter(m, TypingText(s)) == m
    decreases |s|
  {
    hide Typing, Char, NextMods;
    if s != "" {
      TypingOne(m, s[0]);
      TypedIsDecoded(m, s[1..]);
      DecodeSplit(m, Typing(s[0]), TypingText(s[1..]));
    }
  }

  /** The star of the number block, and the keys on which shift makes no difference. */
  lemma ShiftMakesNoDifference(m: Mods, sc: byte)
    requires sc in {0x01, 0x0E, 0x0F, 0x1C, 0x37, 0x39}
    ensures Char(m, 0x37) == Some('*')
    ensures Char(m.(shift := true), sc) == Char(m.(shift := false), sc)
  {
    hide Plain, Shifted, Char;
    SameCharacters();
    StarKey(m);
    assert sc == 0x01 || sc == 0x0E || sc == 0x0F || sc == 0x1C || sc == 0x37 || sc == 0x39;
    EitherTable(m, sc);
  }

  lemma StarKey(m: Mods)
    ensures Char(m, 0x37) == Some('*')
  {
    hide Plain, Shifted;
    SameCharacters();
  }

  lemma EitherTable(m: Mods, sc: byte)
    requires sc < 58 && Plain()[sc] == Shifted()[sc]
    ensures Char(m.(shift := true), sc) == Char(m.(shift := false), sc)
  {
    hide Plain, Shifted;
  }

  lemma SameCharacters()
    ensures Plain()[0x01] == Shifted()[0x01] && Plain()[0x0E] == Shifted()[0x0E] && Plain()[0x0F] == Shifted()[0x0F]
    ensures Plain()[0x1C] == Shifted()[0x1C] && Plain()[0x39] == Shifted()[0x39] && Plain()[0x37] == Shifted()[0x37] == '*'
    ensures Plain()[0] == Shifted()[0] == '\0'
  {
  }

  /** Codes without a key of the table give nothing. */
  lemma SilentKeys(m: Mods, sc: byte)
    requires sc == 0 || sc >= 58
    ensures Char(m, sc) == None
  {
    hide Plain, Shifted;
    SameCharacters();
  }

  /** Caps lock does to every key what shift does, digits included: with it the key of the 1
      gives an exclamation mark. */
  lemma CapsIsShift(m: Mods, sc: byte)
    ensures Char(m.(shift := false, caps := true), sc) == Char(m.(shift := true, caps := false), sc)
    ensures Char(m.(shift := false, caps := true), 2) == Some('!')
  {
  }
}
