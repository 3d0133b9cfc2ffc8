/** The points of a straight line on a pixel grid, defined by rounding instead of by an
    algorithm, with the properties that make them a line. */
module LinePoints {
  import opened Division
  import opened Words

  /** Steps taken along x and along y from the starting point. */
  datatype Steps = Steps(i: int, j: int)

  function Max(a: int, b: int): int {
    if a > b then a else b
  }

  function Min(a: int, b: int): int {
    if a > b then b else a
  }

  /** After `k` steps along the longer axis: how many along the shorter one, rounding to the
      nearest with ties towards the start. */
  function Minor(major: nat, minor: nat, k: nat): nat {
    if major == 0 then 0 else (2 * minor * k + major - 1) / (2 * major)
  }

  /** Point number `k` of the line from (0, 0) to (dx, dy). */
  function Point(dx: nat, dy: nat, k: nat): Steps {
    if dx >= dy then Steps(k, Minor(dx, dy, k)) else Steps(Minor(dy, dx, k), k)
  }

  /** How far a point is from the ideal line, along the shorter axis, in units of which the
      longer axis has as many as a pixel. */
  function Deviation(dx: nat, dy: nat, p: Steps): int {
    dx * p.j - dy * p.i
  }

  // ------------------------------------------------------------------ rounding

  /** `q` is within half a unit of `minor * k / major`. */
  ghost predicate Rounds(major: nat, minor: nat, k: nat, q: int) {
    0 <= 2 * (major * q - minor * k) + major < 2 * major
  }

  lemma MinorRounds(major: nat, minor: nat, k: nat)
    requires 0 < major
    ensures Rounds(major, minor, k, Minor(major, minor, k))
  {
    var a := 2 * minor * k + major - 1;
    var q, r := a / (2 * major), a % (2 * major);
    assert a == 2 * major * q + r;
    assert 2 * major * q == 2 * (major * q);
    assert 2 * minor * k == 2 * (minor * k);
  }

  /** Only one number does. */
  lemma RoundsUnique(major: nat, minor: nat, k: nat, p: int, q: int)
    requires Rounds(major, minor, k, p) && Rounds(major, minor, k, q)
    ensures p == q
  {
    if p > q { MulGap(major, q, p, 1); } else if q > p { MulGap(major, p, q, 1); }
  }

  lemma RoundsIsMinor(major: nat, minor: nat, k: nat, q: nat)
    requires 0 < major && Rounds(major, minor, k, q)
    ensures q == Minor(major, minor, k)
  {
    MinorRounds(major, minor, k);
    RoundsUnique(major, minor, k, q, Minor(major, minor, k));
  }

  // ------------------------------------------------------------------ the line

  lemma PointEnds(dx: nat, dy: nat)
    ensures Point(dx, dy, 0) == Steps(0, 0)
    ensures Point(dx, dy, Max(dx, dy)) == Steps(dx, dy)
  {
    if dx > 0 && dx >= dy {
      RoundsIsMinor(dx, dy, 0, 0);
      RoundsIsMinor(dx, dy, dx, dy);
    } else if dy > 0 {
      RoundsIsMinor(dy, dx, 0, 0);
      RoundsIsMinor(dy, dx, dy, dx);
    }
  }

  /** Every point is at most half a pixel away from the ideal line. */
  lemma HalfPixel(dx: nat, dy: nat, k: nat)
    requires k <= Max(dx, dy)
    ensures 2 * Abs(Deviation(dx, dy, Point(dx, dy, k))) <= Max(dx, dy)
  {
    if dx > 0 && dx >= dy {
      MinorRounds(dx, dy, k);
    } else if dy > 0 {
      MinorRounds(dy, dx, k);
      assert dx * k - dy * Minor(dy, dx, k) == -(dy * Minor(dy, dx, k) - dx * k);
    }
  }

  /** From one point to the next the shorter axis advances by one or not at all. */
  lemma MinorSteps(major: nat, minor: nat, k: nat)
    requires 0 < major && minor <= major
    ensures Minor(major, minor, k) <= Minor(major, minor, k + 1) <= Minor(major, minor, k) + 1
  {
    var q, q' := Minor(major, minor, k), Minor(major, minor, k + 1);
    MinorRounds(major, minor, k);
    MinorRounds(major, minor, k + 1);
    RoundsStep(major, minor, k, q, q');
  }

  lemma RoundsStep(major: nat, minor: nat, k: nat, q: int, q': int)
    requires minor <= major && Rounds(major, minor, k, q) && Rounds(major, minor, k + 1, q')
    ensures q <= q' <= q + 1
  {
    assert minor * (k + 1) == minor * k + minor;
    if q > q' { MulGap(major, q', q, 1); } else if q' > q + 1 { MulGap(major, q, q', 2); }
  }

  /** Whether it advances can be told from how far off the point is. */
  lemma MinorStepRule(major: nat, minor: nat, k: nat)
    requires 0 < major && minor <= major
    ensures var q := Minor(major, minor, k);
      && Rounds(major, minor, k, q)
      && Minor(major, minor, k + 1) == q + if 2 * (major * q - minor * k - minor) + major < 0 then 1 else 0
  {
    var q := Minor(major, minor, k);
    MinorRounds(major, minor, k);
    assert minor * (k + 1) == minor * k + minor;
    assert major * (q + 1) == major * q + major;
    RoundsIsMinor(major, minor, k + 1, if 2 * (major * q - minor * k - minor) + major < 0 then q + 1 else q);
  }

  lemma DiagonalMinor(major: nat, k: nat)
    requires 0 < major
    ensures Minor(major, major, k) == k
  {
    RoundsIsMinor(major, major, k, k);
  }

  /** Consecutive points are neighbours, one of the eight around a pixel, and none lies outside
      the rectangle that the end points span. */
  lemma Neighbours(dx: nat, dy: nat, k: nat)
    requires k < Max(dx, dy)
    ensures var p, q := Point(dx, dy, k), Point(dx, dy, k + 1);
      && 0 <= q.i - p.i <= 1 && 0 <= q.j - p.j <= 1 && p != q
  {
    if dx >= dy { MinorSteps(dx, dy, k); } else { MinorSteps(dy, dx, k); }
  }

  lemma {:induction false} InBox(dx: nat, dy: nat, k: nat)
    requires k <= Max(dx, dy)
    ensures var p := Point(dx, dy, k);
      0 <= p.i <= dx && 0 <= p.j <= dy
    decreases Max(dx, dy) - k
  {
    if k == Max(dx, dy) {
      PointEnds(dx, dy);
    } else {
      InBox(dx, dy, k + 1);
      Neighbours(dx, dy, k);
    }
  }

  /** `k` steps along the longer axis lead exactly between two pixels. */
  predicate Tie(major: nat, minor: nat, k: nat) {
    major > 0 && 2 * minor * k % (2 * major) == major
  }

  lemma TieIff(major: nat, minor: nat, k: nat)
    requires 0 < major
    ensures Tie(major, minor, k) <==> 2 * (major * Minor(major, minor, k) - minor * k) == -(major as int)
  {
    hide Minor;
    var n, d := 2 * minor * k, 2 * major;
    var a, q := n / d, Minor(major, minor, k);
    assert n == d * a + n % d;
    assert d * a == 2 * (major * a) && d * q == 2 * (major * q) && n == 2 * (minor * k);
    if n % d == major { RoundsIsMinor(major, minor, k, a); }
    if 2 * (major * q - minor * k) == -(major as int) { DivModUnique(n, d, q, major); }
  }

  /** Seen from the other end, the steps along the shorter axis are the same except at a tie,
      which the two directions round to different sides. */
  lemma MinorFromBothEnds(major: nat, minor: nat, k: nat)
    requires 0 < major && k <= major
    ensures Minor(major, minor, major - k) == minor - Minor(major, minor, k) <==> !Tie(major, minor, k)
  {
    hide Minor, Tie;
    var q, r := Minor(major, minor, k), Minor(major, minor, major - k);
    TieIff(major, minor, k);
    MinorRounds(major, minor, k);
    MinorRounds(major, minor, major - k);
    assert minor * (major - k) == minor * major - minor * k;
    assert major * (minor - q) == major * minor - major * q;
    assert 2 * (major * (minor - q) - minor * (major - k)) == -2 * (major * q - minor * k);
    if 2 * (major * q - minor * k) != -(major as int) {
      RoundsUnique(major, minor, major - k, r, minor - q);
    }
  }

  lemma PointFromBothEnds(dx: nat, dy: nat, k: nat)
    requires k <= Max(dx, dy) && 0 < Max(dx, dy)
    ensures var p := Point(dx, dy, k);
      Point(dx, dy, Max(dx, dy) - k) == Steps(dx - p.i, dy - p.j) <==> !Tie(Max(dx, dy), Min(dx, dy), k)
  {
    hide Minor, Tie;
    MinorFromBothEnds(Max(dx, dy), Min(dx, dy), k);
  }
}
