/** snprintf of kernel/generic.c: the conversions %d %i %u %x %llu %s %c and %%, without
    widths, into a buffer of limited size. */
module Snprintf {
  import opened Options
  import opened Collections
  import opened Words
  import opened Numerals
  import opened CStrings
  import opened NumberText

  type long = x: int | 0 <= x < 0x1_0000_0000_0000_0000

  /** An argument, as its caller passed it.  A null pointer is no string. */
  datatype Arg = Int(i: int32) | Uint(u: word) | Long(l: long) | Str(s: Option<string>) | Chr(c: char)

  datatype Conversion = Plain(c: char) | Signed | Unsigned | Hex | LongUnsigned | Text | Character | Nothing

  // ------------------------------------------------------------------ formats

  /** What the format asks for first, and how many of its characters say so.  A letter that is
      not known after a '%', such as the digit of a width, is skipped with it. */
  function First(fmt: string): (r: (Conversion, nat))
    requires fmt != []
    ensures r.1 >= 1
  {
    if fmt[0] != '%' then (Plain(fmt[0]), 1)
    else if |fmt| == 1 then (Nothing, 2)
    else match fmt[1]
      case 'd' => (Signed, 2)
      case 'i' => (Signed, 2)
      case 'u' => (Unsigned, 2)
      case 'x' => (Hex, 2)
      case 'l' => if |fmt| > 2 && fmt[2] == 'l' then (LongUnsigned, 4) else (Nothing, 3)
      case 's' => (Text, 2)
      case 'c' => (Character, 2)
      case '%' => (Plain('%'), 2)
      case _ => (Nothing, 2)
  }

  /** How many arguments it takes. */
  function Takes(k: Conversion): nat {
    if k.Plain? || k.Nothing? then 0 else 1
  }

  predicate Agrees(k: Conversion, args: seq<Arg>) {
    Takes(k) <= |args| &&
    match k
    case Signed => args[0].Int?
    case Unsigned => args[0].Uint?
    case Hex => args[0].Uint?
    case LongUnsigned => args[0].Long?
    case Text => args[0].Str?
    case Character => args[0].Chr?
    case _ => true
  }

  /** The format ends with the end of its last conversion, and each conversion finds an
      argument of its type; further arguments are ignored. */
  predicate Fits(fmt: string, args: seq<Arg>)
    decreases |fmt|
  {
    fmt == [] ||
    var (k, n) := First(fmt);
    n <= |fmt| && Agrees(k, args) && Fits(fmt[n..], args[Takes(k)..])
  }

  function Shown(k: Conversion, args: seq<Arg>): string
    requires Agrees(k, args)
  {
    match k
    case Plain(c) => [c]
    case Signed => IntText(args[0].i, 10)
    case Unsigned => Numeral(args[0].u, 10)
    case Hex => Numeral(args[0].u, 16)
    case LongUnsigned => Numeral(args[0].l, 10)
    case Text => if args[0].s.Some? then args[0].s.value else "(null)"
    case Character => [args[0].c]
    case Nothing => ""
  }

  /** The whole text, however long. */
  function Formatted(fmt: string, args: seq<Arg>): string
    requires Fits(fmt, args)
    decreases |fmt|
  {
    if fmt == [] then ""
    else
      var (k, n) := First(fmt);
      Shown(k, args) + Formatted(fmt[n..], args[Takes(k)..])
  }

  /** The format, taken in full, uses up all arguments. */
  predicate UsesAll(fmt: string, args: seq<Arg>)
    requires Fits(fmt, args)
    decreases |fmt|
  {
    if fmt == [] then args == []
    else
      var (k, n) := First(fmt);
      UsesAll(fmt[n..], args[Takes(k)..])
  }

  /** The format turns exactly these arguments into this text. */
  ghost predicate Prints(fmt: string, args: seq<Arg>, text: string) {
    Fits(fmt, args) && UsesAll(fmt, args) && Formatted(fmt, args) == text
  }

  /** A format can be read in parts. */
  lemma {:induction false} FormattedParts(f: string, x: seq<Arg>, g: string, y: seq<Arg>)
    requires Fits(f, x) && UsesAll(f, x) && Fits(g, y)
    ensures Fits(f + g, x + y) && Formatted(f + g, x + y) == Formatted(f, x) + Formatted(g, y)
    ensures UsesAll(f + g, x + y) <==> UsesAll(g, y)
    decreases |f|
  {
    hide Shown, Agrees, First, Takes;
    if f == [] {
      assert f + g == g && x + y == y;
    } else {
      var (k, n) := First(f);
      FirstOfMore(f, g);
      AgreesWithMore(k, x, y);
      DropOfSum(f, g, n);
      DropOfSum(x, y, Takes(k));
      FormattedParts(f[n..], x[Takes(k)..], g, y);
    }
  }

  lemma DropOfSum<T>(s: seq<T>, t: seq<T>, n: nat)
    requires n <= |s|
    ensures (s + t)[n..] == s[n..] + t
  {
  }

  lemma FirstOfMore(f: string, g: string)
    requires f != [] && First(f).1 <= |f|
    ensures First(f + g) == First(f)
  {
  }

  lemma AgreesWithMore(k: Conversion, x: seq<Arg>, y: seq<Arg>)
    requires Agrees(k, x)
    ensures Takes(k) <= |x| && Agrees(k, x + y) && Shown(k, x + y) == Shown(k, x)
  {
  }

  // ------------------------------------------------------------------ texts with gaps

  /** A conversion of one letter, the text after it, and then a format whose text is known. */
  lemma TextInFront(letter: char, x: Arg, tail: string, fmt: string, args: seq<Arg>, text: string)
    requires letter in "diuxsc" && Agrees(First(['%', letter]).0, [x]) && '%' !in tail
    requires Fits(fmt, args) && Formatted(fmt, args) == text
    ensures Fits(['%', letter] + tail + fmt, [x] + args)
    ensures UsesAll(['%', letter] + tail + fmt, [x] + args) <==> UsesAll(fmt, args)
    ensures Formatted(['%', letter] + tail + fmt, [x] + args) == Shown(First(['%', letter]).0, [x]) + tail + text
  {
    hide First, Agrees, Shown, Fits, UsesAll, Formatted;
    PartText(letter, x, tail);
    FormattedParts(['%', letter] + tail, [x], fmt, args);
  }

  lemma StringInFront(s: string, tail: string, fmt: string, args: seq<Arg>, text: string)
    requires '%' !in tail && Prints(fmt, args, text)
    ensures Prints("%s" + tail + fmt, [Str(Some(s))] + args, s + (tail + text))
  {
    hide Fits, Formatted, UsesAll;
    TextInFront('s', Str(Some(s)), tail, fmt, args, text);
    assert s + tail + text == s + (tail + text);
  }

  lemma NumberInFront(n: word, tail: string, fmt: string, args: seq<Arg>, text: string)
    requires '%' !in tail && Prints(fmt, args, text)
    ensures Prints("%u" + tail + fmt, [Uint(n)] + args, Numeral(n, 10) + (tail + text))
  {
    hide Fits, Formatted, UsesAll, Numeral;
    TextInFront('u', Uint(n), tail, fmt, args, text);
    assert Numeral(n, 10) + tail + text == Numeral(n, 10) + (tail + text);
  }

  lemma PartText(letter: char, x: Arg, tail: string)
    requires letter in "diuxsc" && Agrees(First(['%', letter]).0, [x]) && '%' !in tail
    ensures var f := ['%', letter] + tail;
      && Fits(f, [x]) && UsesAll(f, [x])
      && Formatted(f, [x]) == Shown(First(['%', letter]).0, [x]) + tail
  {
    hide Shown;
    PlainText(tail);
    var f := ['%', letter] + tail;
    assert f[2..] == tail && [x][1..] == [];
    assert First(f) == First(['%', letter]);
  }

  lemma {:induction false} PlainText(s: string)
    requires '%' !in s
    ensures Fits(s, []) && UsesAll(s, []) && Formatted(s, []) == s
    decreases |s|
  {
    if s != [] {
      PlainText(s[1..]);
      assert First(s) == (Plain(s[0]), 1);
      var none: seq<Arg> := [];
      assert none[0..] == [];
    }
  }

  /** The conversions there are. */
  lemma Conversions(i: int32, u: word, l: long, s: string, c: char)
    ensures Prints("%d", [Int(i)], IntText(i, 10)) && Prints("%i", [Int(i)], IntText(i, 10))
    ensures Prints("%u", [Uint(u)], Numeral(u, 10)) && Prints("%x", [Uint(u)], Numeral(u, 16))
    ensures Prints("%llu", [Long(l)], Numeral(l, 10)) && Prints("%c", [Chr(c)], [c])
    ensures Prints("%s", [Str(Some(s))], s) && Prints("%s", [Str(None)], "(null)")
    ensures Prints("%%", [], "%")
  {
    hide Prints, IntText, Numeral;
    WholeFormat("%d", [Int(i)]);
    WholeFormat("%i", [Int(i)]);
    WholeFormat("%u", [Uint(u)]);
    WholeFormat("%x", [Uint(u)]);
    WholeFormat("%llu", [Long(l)]);
    WholeFormat("%c", [Chr(c)]);
    WholeFormat("%s", [Str(Some(s))]);
    WholeFormat("%s", [Str(None)]);
    WholeFormat("%%", []);
  }

  /** One letter l is not enough: "%ld" prints nothing and takes no argument. */
  lemma LongPrintsNothing()
    ensures Prints("%ld", [], "")
  {
    hide Prints;
    WholeFormat("%ld", []);
  }

  /** A format that is a single conversion. */
  lemma WholeFormat(fmt: string, args: seq<Arg>)
    requires fmt != [] && First(fmt).1 == |fmt| && Agrees(First(fmt).0, args) && |args| == Takes(First(fmt).0)
    ensures Prints(fmt, args, Shown(First(fmt).0, args))
  {
    hide Shown, Agrees, First;
    var (k, n) := First(fmt);
    assert fmt[n..] == [] && args[Takes(k)..] == [];
    assert Fits(fmt[n..], args[Takes(k)..]) && UsesAll(fmt[n..], args[Takes(k)..]);
    assert Fits(fmt, args);
    assert UsesAll(fmt, args);
    assert Formatted(fmt[n..], args[Takes(k)..]) == "";
    assert Formatted(fmt, args) == Shown(k, args) + "";
    assert Shown(k, args) + "" == Shown(k, args);
  }

  /** Widths are not known: "%4d" prints the letter d, whatever the number is. */
  lemma WidthPrintsLetter(n: int32)
    ensures Fits("%4d", [Int(n)]) && Formatted("%4d", [Int(n)]) == "d"
  {
    var x := [Int(n)];
    assert x[0..] == x;
    assert "%4d"[2..] == "d" && "d"[1..] == "";
    assert First("d") == (Plain('d'), 1) && Formatted("", x) == "";
    assert Formatted("d", x) == "d";
  }

  // ------------------------------------------------------------------ the loops

  /** Of the text `done` the buffer holds what fits below `limit`, and nothing else has changed. */
  ghost predicate Printed(before: seq<char>, after: seq<char>, limit: nat, pos: nat, done: string) {
    && pos == |Cut(done, limit)| && pos <= |after| && |after| == |before|
    && after[..pos] == Cut(done, limit) && after[pos..] == before[pos..]
  }

  lemma CutMore(done: string, s: string, limit: nat)
    ensures Cut(Cut(done, limit) + s, limit) == Cut(done + s, limit)
    ensures |Cut(done, limit)| == limit ==> Cut(done + s, limit) == Cut(done, limit)
  {
  }

  lemma PutOne(before: seq<char>, m: seq<char>, limit: nat, pos: nat, done: string, c: char)
    requires limit < |m| && Printed(before, m, limit, pos, done) && pos < limit
    ensures Printed(before, m[pos := c], limit, pos + 1, done + [c])
  {
    assert Cut(done, limit) == done && Cut(done + [c], limit) == done + [c];
    assert m[pos := c][pos + 1..] == m[pos..][1..];
  }

  lemma PutNone(before: seq<char>, m: seq<char>, limit: nat, pos: nat, done: string, rest: string)
    requires Printed(before, m, limit, pos, done) && (pos < limit ==> rest == "")
    ensures Printed(before, m, limit, pos, done + rest)
  {
    assert rest == "" ==> done + rest == done;
    CutMore(done, rest, limit);
  }

  /** `while (*s && pos < size-1) buf[pos++] = *s++;` */
  method Put(buf: array<char>, limit: nat, pos: nat, s: string, ghost before: seq<char>, ghost done: string) returns (end: nat)
    requires limit < buf.Length && Printed(before, buf[..], limit, pos, done)
    modifies buf
    ensures Printed(before, buf[..], limit, end, done + s)
  {
    hide Printed;
    end := pos;
    var i := 0;
    assert done + s[..0] == done;
    while i < |s| && end < limit
      invariant i <= |s| && Printed(before, buf[..], limit, end, done + s[..i])
    {
      PutOne(before, buf[..], limit, end, done + s[..i], s[i]);
      assert done + s[..i] + [s[i]] == done + s[..i + 1];
      ghost var m := buf[..];
      buf[end] := s[i];
      assert buf[..] == m[end := s[i]];
      end := end + 1;
      i := i + 1;
    }
    PutNone(before, buf[..], limit, end, done + s[..i], s[i..]);
    assert done + s[..i] + s[i..] == done + s;
  }

  /** The text of a number, by way of the scratch array. */
  method NumberString(k: Conversion, args: seq<Arg>, tmp: array<char>) returns (s: string)
    requires k in {Signed, Unsigned, Hex, LongUnsigned} && Agrees(k, args) && tmp.Length == 64
    modifies tmp
    ensures s == Shown(k, args)
  {
    NumberFits(k, args);
    ghost var was := tmp[..];
    match args[0] {
      case Int(i) => IntToStr(i, 10, tmp, 0);
      case Uint(u) => UintToStr(u, if k == Hex then 16 else 10, tmp, 0);
      case Long(l) => UintToStr(l, 10, tmp, 0);
    }
    WroteString(was, tmp[..], 0, Shown(k, args));
    s := CStr(tmp[..], 0);
  }

  lemma NumberFits(k: Conversion, args: seq<Arg>)
    requires k in {Signed, Unsigned, Hex, LongUnsigned} && Agrees(k, args)
    ensures |Shown(k, args)| <= 32 && '\0' !in Shown(k, args)
  {
    hide Digits, IsDigit, DigitVal;
    var n := match args[0] case Int(i) => Abs(i) case Uint(u) => u case Long(l) => l case _ => 0;
    var b := if k == Hex then 16 else 10;
    SixtyFourBits(n, b);
    NumeralValue(n, b);
    NoNulInDigits(Numeral(n, b), b);
    assert k != Signed ==> Shown(k, args) == Numeral(n, b);
    assert k == Signed ==> Shown(k, args) == (if args[0].i < 0 then "-" else "") + Numeral(n, b);
  }

  lemma NoNulInDigits(s: string, b: nat)
    requires AllDigits(s, b) && b <= 36
    ensures '\0' !in s
  {
    forall i | 0 <= i < |s| ensures s[i] != '\0' { assert IsDigit(s[i], b); }
  }

  /** One round of the loop. */
  method PutNext(buf: array<char>, limit: nat, pos: nat, fmt: string, args: seq<Arg>, tmp: array<char>, ghost before: seq<char>, ghost done: string)
    returns (end: nat, n: nat, taken: nat)
    requires limit < buf.Length && Printed(before, buf[..], limit, pos, done) && pos < limit
    requires fmt != [] && First(fmt).1 <= |fmt| && Agrees(First(fmt).0, args) && tmp.Length == 64 && tmp != buf
    modifies buf, tmp
    ensures n == First(fmt).1 <= |fmt| && taken == Takes(First(fmt).0) <= |args|
    ensures Printed(before, buf[..], limit, end, done + Shown(First(fmt).0, args))
  {
    hide Printed;
    var k := First(fmt).0;
    n := First(fmt).1;
    taken := Takes(k);
    var s;
    if k in {Signed, Unsigned, Hex, LongUnsigned} {
      ghost var m := buf[..];
      s := NumberString(k, args, tmp);
      assert buf[..] == m;
    } else {
      s := Shown(k, args);
    }
    end := Put(buf, limit, pos, s, before, done);
  }

  /** snprintf: as much of the text as fits with its NUL; the result is its length. */
  method Snprintf(buf: array<char>, size: nat, fmt: string, args: seq<Arg>) returns (pos: nat)
    requires 0 < size <= buf.Length && Fits(fmt, args)
    modifies buf
    ensures Wrote(old(buf[..]), buf[..], 0, Cut(Formatted(fmt, args), size - 1))
    ensures pos == |Cut(Formatted(fmt, args), size - 1)|
  {
    hide Printed, First, Agrees, Shown;
    ghost var before, done := buf[..], "";
    var tmp := new char[64];
    var f, a := fmt, args;
    pos := 0;
    NothingPrinted(before, size - 1);
    assert done + Formatted(f, a) == Formatted(f, a);
    while f != [] && pos < size - 1
      invariant Fits(f, a) && Formatted(fmt, args) == done + Formatted(f, a)
      invariant Printed(before, buf[..], size - 1, pos, done)
      decreases |f|
    {
      var n, taken;
      ghost var k := First(f).0;
      pos, n, taken := PutNext(buf, size - 1, pos, f, a, tmp, before, done);
      done := done + Shown(k, a);
      f, a := f[n..], a[taken..];
    }
    EndPrinted(before, buf[..], size - 1, pos, done, Formatted(f, a));
    ghost var m := buf[..];
    buf[pos] := '\0';
    assert buf[..] == m[pos := '\0'];
  }

  lemma NothingPrinted(before: seq<char>, limit: nat)
    ensures Printed(before, before, limit, 0, "")
  {
  }

  lemma EndPrinted(before: seq<char>, m: seq<char>, limit: nat, pos: nat, done: string, rest: string)
    requires limit < |before| && Printed(before, m, limit, pos, done) && (pos < limit ==> rest == "")
    ensures pos < |m| && pos == |Cut(done + rest, limit)| && Wrote(before, m[pos := '\0'], 0, Cut(done + rest, limit))
  {
    CutMore(done, rest, limit);
    assert rest == "" ==> done + rest == done;
    forall k | pos < k < |m| ensures m[k] == before[k] { assert m[pos..][k - pos] == before[pos..][k - pos]; }
    forall k | 0 <= k < pos ensures m[k] == Cut(done + rest, limit)[k] { assert m[..pos][k] == m[k]; }
  }
}
