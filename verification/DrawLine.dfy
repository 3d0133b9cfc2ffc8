/** gui/gui.c: the back buffer and Bresenham's line. */
module DrawLine {
  import opened LinePoints
  import opened Words

  const SCREEN_WIDTH: nat := 1920
  const SCREEN_HEIGHT: nat := 1080
  type uint16 = x: int | 0 <= x < 65536

  predicate OnScreen(x: int, y: int) {
    0 <= x < 1920 && 0 <= y < 1080
  }

  /** The cell of the back buffer behind a pixel. */
  function Cell(x: int, y: int): (c: int)
    requires OnScreen(x, y)
    ensures 0 <= c < 1920 * 1080
  {
    y * 1920 + x
  }

  /** The buffer begins with the top left corner and holds the screen row by row, each from left
      to right. */
  lemma Corner()
    ensures OnScreen(0, 0) && Cell(0, 0) == 0
  {
  }

  lemma NextInRow(x: int, y: int)
    requires OnScreen(x, y) && x < 1919
    ensures OnScreen(x + 1, y) && Cell(x + 1, y) == Cell(x, y) + 1
  {
  }

  lemma NextRow(x: int, y: int)
    requires OnScreen(x, y) && x == 1919 && y < 1079
    ensures OnScreen(0, y + 1) && Cell(0, y + 1) == Cell(x, y) + 1
  {
  }

  lemma CellsDiffer(x: int, y: int, x': int, y': int)
    requires OnScreen(x, y) && OnScreen(x', y') && Cell(x, y) == Cell(x', y')
    ensures x == x' && y == y'
  {
  }

  /** Every cell of `b` is as in `a`, except those of the pixels `ps`, which have `color`. */
  ghost predicate Painted(a: seq<byte>, b: seq<byte>, ps: set<(int, int)>, color: byte) {
    && |a| == 1920 * 1080 && |b| == 1920 * 1080
    && forall x, y :: OnScreen(x, y) ==> b[Cell(x, y)] == if (x, y) in ps then color else a[Cell(x, y)]
  }

  /** gui_set_pixel: clipped at the edges of the screen. */
  method SetPixel(buffer: array<byte>, x: uint16, y: uint16, color: byte)
    requires buffer.Length == 1920 * 1080
    modifies buffer
    ensures Painted(old(buffer[..]), buffer[..], {(x, y)}, color)
  {
    if x >= SCREEN_WIDTH || y >= SCREEN_HEIGHT { return; }
    buffer[Cell(x, y)] := color;
    forall x', y' | OnScreen(x', y') && Cell(x', y') == Cell(x, y) ensures x' == x && y' == y {
      CellsDiffer(x, y, x', y');
    }
  }

  lemma PaintedTwice(a: seq<byte>, b: seq<byte>, c: seq<byte>, ps: set<(int, int)>, qs: set<(int, int)>, color: byte)
    requires Painted(a, b, ps, color) && Painted(b, c, qs, color)
    ensures Painted(a, c, ps + qs, color)
  {
  }

  /** The pixel that point number `k` of a line is. */
  function Pixel(x1: int, y1: int, x2: int, y2: int, k: nat): (int, int) {
    var p := Point(Abs(x2 - x1), Abs(y2 - y1), k);
    (if x1 < x2 then x1 + p.i else x1 - p.i, if y1 < y2 then y1 + p.j else y1 - p.j)
  }

  /** Drawn from the other end, the line has the same pixel at a point if and only if the ideal
      line does not pass exactly between two pixels there. */
  lemma SameFromBothEnds(x1: int, y1: int, x2: int, y2: int, k: nat)
    requires k <= Max(Abs(x2 - x1), Abs(y2 - y1))
    ensures var major, minor := Max(Abs(x2 - x1), Abs(y2 - y1)), Min(Abs(x2 - x1), Abs(y2 - y1));
      Pixel(x2, y2, x1, y1, major - k) == Pixel(x1, y1, x2, y2, k) <==> !Tie(major, minor, k)
  {
    hide Point, Tie;
    var dx, dy := Abs(x2 - x1), Abs(y2 - y1);
    InBox(dx, dy, k);
    InBox(dx, dy, Max(dx, dy) - k);
    if Max(dx, dy) > 0 { PointFromBothEnds(dx, dy, k); } else { NoTie(dx, dy, k); }
  }

  /** For example the line from (0, 0) to (2, 1), which passes between (1, 0) and (1, 1). */
  lemma DiffersFromOtherEnd()
    ensures Pixel(0, 0, 2, 1, 1) == (1, 0) && Pixel(2, 1, 0, 0, 1) == (1, 1)
  {
  }

  lemma NoTie(dx: nat, dy: nat, k: nat)
    requires Max(dx, dy) == 0
    ensures !Tie(Max(dx, dy), Min(dx, dy), k)
  {
  }

  /** The first `n` pixels of a line. */
  ghost function Pixels(x1: int, y1: int, x2: int, y2: int, n: nat): (r: set<(int, int)>)
  {
    set k | 0 <= k < n :: Pixel(x1, y1, x2, y2, k)
  }

  /** The error term the loop carries. */
  function Err(dx: nat, dy: nat, p: Steps): int {
    dx - dy + Deviation(dx, dy, p)
  }

  /** The two tests of the loop body on a point of the line lead to the next one. */
  lemma StepAlong(dx: nat, dy: nat, k: nat)
    requires k < Max(dx, dy)
    ensures var p := Point(dx, dy, k);
      var e2 := 2 * Err(dx, dy, p);
      Point(dx, dy, k + 1) == Steps(p.i + if e2 > -(dy as int) then 1 else 0, p.j + if e2 < dx then 1 else 0)
  {
    hide Minor;
    if dx >= dy {
      MinorStepRule(dx, dy, k);
      if dx == dy { DiagonalMinor(dx, k); }
    } else {
      MinorStepRule(dy, dx, k);
    }
  }

  lemma PixelsGrow(x1: int, y1: int, x2: int, y2: int, k: nat)
    ensures Pixels(x1, y1, x2, y2, k) + {Pixel(x1, y1, x2, y2, k)} == Pixels(x1, y1, x2, y2, k + 1)
  {
    hide Pixel;
  }

  /** Only the last pixel is the far end, and all lie between the ends. */
  lemma PixelsInBetween(x1: uint16, y1: uint16, x2: uint16, y2: uint16, k: nat)
    requires k <= Max(Abs(x2 - x1), Abs(y2 - y1))
    ensures var (x, y) := Pixel(x1, y1, x2, y2, k);
      && 0 <= x < 65536 && 0 <= y < 65536
      && ((x, y) == (x2, y2) <==> k == Max(Abs(x2 - x1), Abs(y2 - y1)))
  {
    var dx, dy := Abs(x2 - x1), Abs(y2 - y1);
    InBox(dx, dy, k);
    PointEnds(dx, dy);
    hide Minor;
  }

  /** gui_draw_line.  For any two end points the loop ends after exactly as many pixels as the
      longer axis has, plus one; they are the rounded points of the ideal line, first to last;
      and no other cell of the back buffer changes. */
  method DrawLine(buffer: array<byte>, x1: uint16, y1: uint16, x2: uint16, y2: uint16, color: byte)
    returns (ghost trail: seq<(int, int)>)
    requires buffer.Length == 1920 * 1080
    modifies buffer
    ensures |trail| == Max(Abs(x2 - x1), Abs(y2 - y1)) + 1
    ensures forall k :: 0 <= k < |trail| ==> trail[k] == Pixel(x1, y1, x2, y2, k)
    ensures trail[0] == (x1, y1) && trail[|trail| - 1] == (x2, y2)
    ensures Painted(old(buffer[..]), buffer[..], Pixels(x1, y1, x2, y2, |trail|), color)
  {
    hide Painted, Point, Pixels, Pixel, Err;
    var dx := if x2 > x1 then x2 - x1 else x1 - x2;
    var dy := if y2 > y1 then y2 - y1 else y1 - y2;
    var sx := if x1 < x2 then 1 else -1;
    var sy := if y1 < y2 then 1 else -1;
    var err := dx - dy;
    var x: int, y: int := x1, y1;
    trail := [];
    ghost var k, m := 0, Max(dx, dy);
    ErrSteps(dx, dy, Steps(0, 0));
    Start(buffer[..], x1, y1, x2, y2, color);
    while true
      invariant 0 <= k == |trail| <= m
      invariant (x, y) == Pixel(x1, y1, x2, y2, k) && err == Err(dx, dy, Point(dx, dy, k))
      invariant forall i :: 0 <= i < k ==> trail[i] == Pixel(x1, y1, x2, y2, i)
      invariant Painted(old(buffer[..]), buffer[..], Pixels(x1, y1, x2, y2, k), color)
      decreases m - k
    {
      PixelsInBetween(x1, y1, x2, y2, k);
      ghost var before := buffer[..];
      SetPixel(buffer, x, y, color);
      PaintedTwice(old(buffer[..]), before, buffer[..], Pixels(x1, y1, x2, y2, k), {(x, y)}, color);
      PixelsGrow(x1, y1, x2, y2, k);
      trail := trail + [(x, y)];
      if x == x2 && y == y2 { break; }
      NextPixel(x1, y1, x2, y2, k, err);
      var e2 := 2 * err;
      if e2 > -dy { err, x := err - dy, x + sx; }
      if e2 < dx { err, y := err + dx, y + sy; }
      k := k + 1;
    }
  }

  /** What the loop body does to the position and the error term. */
  lemma NextPixel(x1: uint16, y1: uint16, x2: uint16, y2: uint16, k: nat, err: int)
    requires k < Max(Abs(x2 - x1), Abs(y2 - y1)) && err == Err(Abs(x2 - x1), Abs(y2 - y1), Point(Abs(x2 - x1), Abs(y2 - y1), k))
    ensures var dx, dy := Abs(x2 - x1), Abs(y2 - y1);
      var (x, y) := Pixel(x1, y1, x2, y2, k);
      var alongX, alongY := 2 * err > -(dy as int), 2 * err < dx;
      && Pixel(x1, y1, x2, y2, k + 1) ==
         (if alongX then x + (if x1 < x2 then 1 else -1) else x, if alongY then y + (if y1 < y2 then 1 else -1) else y)
      && Err(dx, dy, Point(dx, dy, k + 1)) == err - (if alongX then dy else 0) + (if alongY then dx else 0)
  {
    hide Point, Err;
    var dx, dy := Abs(x2 - x1), Abs(y2 - y1);
    var p := Point(dx, dy, k);
    StepAlong(dx, dy, k);
    ErrSteps(dx, dy, p);
    ErrSteps(dx, dy, Steps(p.i + 1, p.j));
  }

  lemma Start(a: seq<byte>, x1: uint16, y1: uint16, x2: uint16, y2: uint16, color: byte)
    requires |a| == 1920 * 1080
    ensures Pixel(x1, y1, x2, y2, 0) == (x1, y1) && Point(Abs(x2 - x1), Abs(y2 - y1), 0) == Steps(0, 0)
    ensures Painted(a, a, Pixels(x1, y1, x2, y2, 0), color)
  {
    PointEnds(Abs(x2 - x1), Abs(y2 - y1));
  }

  /** The updates of the error term are what a step along x or y does to the deviation. */
  lemma ErrSteps(dx: nat, dy: nat, p: Steps)
    ensures Err(dx, dy, Steps(p.i + 1, p.j)) == Err(dx, dy, p) - dy
    ensures Err(dx, dy, Steps(p.i, p.j + 1)) == Err(dx, dy, p) + dx
    ensures Err(dx, dy, Steps(p.i + 1, p.j + 1)) == Err(dx, dy, p) - dy + dx
    ensures Err(dx, dy, Steps(0, 0)) == dx - dy
  {
    assert dx * (p.j + 1) == dx * p.j + dx;
    assert dy * (p.i + 1) == dy * p.i + dy;
  }
}
