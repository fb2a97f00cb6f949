/** Bresenham's line: the error-counter loop against the closed form "nearest row, ties downwards". */
module Lines {
  import opened Arith
  import opened Framebuffer

  /** How far the minor coordinate has moved after i steps: i * dy / dx rounded to nearest, ties down. */
  function Rise(i: nat, dx: nat, dy: nat): nat
  {
    if dx == 0 then 0
    else
      ProductIsNat(i, dy);
      QuotientIsNat(i * dy + (dx - 1) / 2, dx);
      (i * dy + (dx - 1) / 2) / dx
  }

  /** A line in the direction its pixels are drawn: the major coordinate runs upwards from `major`. */
  datatype Slope = Slope(major: int, minor: int, dx: nat, dy: nat, up: bool, steep: bool)
  {
    function At(i: nat): Point
    {
      PointAt(major + i, if up then minor + Rise(i, dx, dy) else minor - Rise(i, dx, dy))
    }

    function PointAt(a: int, b: int): Point { if steep then Point(b, a) else Point(a, b) }

    function Points(): seq<Point> { seq(dx + 1, i requires 0 <= i => At(i)) }
  }

  function SlopeOf(p: Point, q: Point): (s: Slope)
    ensures s.dy <= s.dx
  {
    if Abs(q.y - p.y) > Abs(q.x - p.x) then Upwards(p.y, p.x, q.y, q.x, true)
    else Upwards(p.x, p.y, q.x, q.y, false)
  }

  function Upwards(x0: int, y0: int, x1: int, y1: int, steep: bool): Slope
  {
    if x0 > x1 then Slope(x1, y1, x0 - x1, Abs(y0 - y1), y1 < y0, steep)
    else Slope(x0, y0, x1 - x0, Abs(y1 - y0), y0 < y1, steep)
  }

  /** The pixels of the line from p to q, in drawing order. */
  function LinePoints(p: Point, q: Point): seq<Point> { SlopeOf(p, q).Points() }

  // ----- The error counter -----

  /** The value of the error counter when pixel i is drawn and the minor coordinate has moved by j. */
  function Err(i: nat, j: nat, dx: nat, dy: nat): int
  {
    dx / 2 - i * dy + j * dx
  }

  /** The counter is in [0, dx) exactly when the minor coordinate is the nearest one. */
  lemma {:induction false} ErrCharacterizesRise(i: nat, j: nat, dx: nat, dy: nat)
    requires 0 < dx
    ensures 0 <= Err(i, j, dx, dy) < dx <==> j == Rise(i, dx, dy)
  {
    var n := i * dy + (dx - 1) / 2;
    assert dx / 2 + (dx - 1) / 2 == dx - 1;
    assert n == Rise(i, dx, dy) * dx + n % dx;
    // Err(i, j) == dx - 1 - n + j * dx
    if j == Rise(i, dx, dy) {
    } else if 0 <= Err(i, j, dx, dy) < dx {
      SameQuotient(Rise(i, dx, dy), j, n % dx, n - j * dx, dx);
      assert false;
    }
  }

  /** One turn of the loop: subtracting dy, and adding dx when the counter went below zero. Even between the
      two the counter stays in [-dy, dx), so 16 bits hold it for all lines whose extent fits 16 bits. */
  lemma {:induction false} ErrStep(i: nat, dx: nat, dy: nat)
    requires 0 < dx && dy <= dx
    ensures var err := Err(i, Rise(i, dx, dy), dx, dy) - dy;
            && 0 <= err + dy && err < dx
            && Rise(i + 1, dx, dy) == Rise(i, dx, dy) + (if err < 0 then 1 else 0)
            && Err(i + 1, Rise(i + 1, dx, dy), dx, dy) == if err < 0 then err + dx else err
  {
    var j := Rise(i, dx, dy);
    ErrCharacterizesRise(i, j, dx, dy);
    var err := Err(i, j, dx, dy) - dy;
    assert (i + 1) * dy == i * dy + dy;
    assert (j + 1) * dx == j * dx + dx;
    ErrCharacterizesRise(i + 1, if err < 0 then j + 1 else j, dx, dy);
  }

  // ----- What the line is -----

  lemma {:induction false} RiseAtEnds(dx: nat, dy: nat)
    ensures Rise(0, dx, dy) == 0
    ensures dy <= dx ==> Rise(dx, dx, dy) == dy
  {
    if dx > 0 {
      ErrCharacterizesRise(0, 0, dx, dy);
      assert dx * dy == dy * dx;
      ErrCharacterizesRise(dx, dy, dx, dy);
    }
  }

  /** The line has max(|dx|, |dy|) + 1 pixels and runs from one given endpoint to the other. */
  lemma {:induction false} LineEnds(p: Point, q: Point)
    ensures var points := LinePoints(p, q);
            && |points| == (if Abs(q.x - p.x) >= Abs(q.y - p.y) then Abs(q.x - p.x) else Abs(q.y - p.y)) + 1
            && ((points[0] == p && points[|points| - 1] == q) || (points[0] == q && points[|points| - 1] == p))
  {
    var s := SlopeOf(p, q);
    RiseAtEnds(s.dx, s.dy);
  }

  predicate Neighbours(p: Point, q: Point)
  {
    p != q && Abs(q.x - p.x) <= 1 && Abs(q.y - p.y) <= 1
  }

  /** Each pixel touches the one before. */
  lemma {:induction false} LineIsConnected(p: Point, q: Point, i: nat)
    requires i + 1 < |LinePoints(p, q)|
    ensures Neighbours(LinePoints(p, q)[i], LinePoints(p, q)[i + 1])
  {
    var s := SlopeOf(p, q);
    ErrStep(i, s.dx, s.dy);
  }

  /** Pixel r lies on a line that rises at most one row a column, from its left end a to its right end b: its row is
      the nearest one to the true line, and of two equally near ones the one that is not yet passed. */
  predicate NearestRow(a: Point, b: Point, r: Point)
  {
    var n, rise := b.x - a.x, if a.y < b.y then r.y - a.y else a.y - r.y;
    a.x <= r.x <= b.x &&
    if n == 0 then r.y == a.y else 0 <= 2 * (rise * n - (r.x - a.x) * Abs(b.y - a.y)) + n < 2 * n
  }

  lemma {:induction false} OnSlope(s: Slope, r: Point)
    requires s.dy <= s.dx
    ensures r in s.Points() <==>
      var x, y := if s.steep then r.y else r.x, if s.steep then r.x else r.y;
      var rise := if s.up then y - s.minor else s.minor - y;
      s.major <= x <= s.major + s.dx &&
      if s.dx == 0 then y == s.minor else 0 <= 2 * (rise * s.dx - (x - s.major) * s.dy) + s.dx < 2 * s.dx
  {
    var x, y := if s.steep then r.y else r.x, if s.steep then r.x else r.y;
    var rise := if s.up then y - s.minor else s.minor - y;
    if s.major <= x <= s.major + s.dx {
      var i: nat := x - s.major;
      assert s.Points()[i] == s.At(i);
      if s.dx > 0 {
        NearestRise(i, rise, s.dx, s.dy);
      }
      assert r == s.At(i) <==> rise == Rise(i, s.dx, s.dy);
    }
  }

  lemma {:induction false} NearestRise(i: nat, j: int, dx: nat, dy: nat)
    requires 0 < dx
    ensures j == Rise(i, dx, dy) <==> 0 <= 2 * (j * dx - i * dy) + dx < 2 * dx
  {
    if j >= 0 {
      ErrCharacterizesRise(i, j, dx, dy);
    } else {
      ProductIsNat(i, dy);
      Monotone(j, -1, dx);
    }
  }

  function Transposed(p: Point): Point { Point(p.y, p.x) }

  /** Which pixels a line has, in numbers; a steep line is a flat one with its coordinates exchanged. */
  lemma {:induction false} LineInNumbers(p: Point, q: Point, r: Point)
    ensures r in LinePoints(p, q) <==>
      if Abs(q.y - p.y) <= Abs(q.x - p.x)
      then NearestRow(if p.x <= q.x then p else q, if p.x <= q.x then q else p, r)
      else NearestRow(Transposed(if p.y <= q.y then p else q), Transposed(if p.y <= q.y then q else p), Transposed(r))
  {
    OnSlope(SlopeOf(p, q), r);
  }

  /** Twice the distance along the minor axis from pixel r to the line through p and q, times the extent. */
  function TwiceOffLine(p: Point, q: Point, r: Point): int
  {
    2 * ((q.x - p.x) * (r.y - p.y) - (q.y - p.y) * (r.x - p.x))
  }

  /** No pixel is further than half a pixel from the true line. */
  lemma {:induction false} LineIsStraight(p: Point, q: Point, i: nat)
    requires i < |LinePoints(p, q)|
    ensures Abs(TwiceOffLine(p, q, LinePoints(p, q)[i])) <= |LinePoints(p, q)| - 1
  {
    var s := SlopeOf(p, q);
    if s.dx > 0 {
      var j := Rise(i, s.dx, s.dy);
      ErrCharacterizesRise(i, j, s.dx, s.dy);
      assert Abs(2 * (i * s.dy - j * s.dx)) <= s.dx;
      OffLine(p, q, i, j);
    }
  }

  /** Turning, mirroring and swapping the ends of a line keep the distance. */
  lemma {:induction false} OffLine(p: Point, q: Point, i: nat, j: nat)
    requires SlopeOf(p, q).dx > 0
    ensures var s := SlopeOf(p, q);
            var r := s.PointAt(s.major + i, if s.up then s.minor + j else s.minor - j);
            Abs(TwiceOffLine(p, q, r)) == Abs(2 * (i * s.dy - j * s.dx))
  {
    var s := SlopeOf(p, q);
    var b: int, e: int := if s.up then j else 0 - j, if s.up then s.dy else 0 - s.dy;
    Mirrored(s.dx, s.dy, i, j);
    var start, end := s.PointAt(s.major, s.minor), s.PointAt(s.major + s.dx, s.minor + e);
    var r := s.PointAt(s.major + i, s.minor + b);
    if start == p {
      assert end == q;
    } else {
      assert start == q && end == p;
      Reversed(start, end, r);
    }
    FromStart(s, e, i, b);
  }

  lemma {:induction false} FromStart(s: Slope, e: int, i: nat, b: int)
    ensures Abs(TwiceOffLine(s.PointAt(s.major, s.minor), s.PointAt(s.major + s.dx, s.minor + e),
                             s.PointAt(s.major + i, s.minor + b))) == Abs(2 * (s.dx * b - e * i))
  {
  }

  lemma {:induction false} Mirrored(dx: int, dy: int, i: int, j: int)
    ensures dx * (0 - j) - (0 - dy) * i == -(dx * j - dy * i)
    ensures Abs(2 * (dx * j - dy * i)) == Abs(2 * (i * dy - j * dx))
  {
  }

  lemma {:induction false} Reversed(p: Point, q: Point, r: Point)
    ensures TwiceOffLine(q, p, r) == -TwiceOffLine(p, q, r)
  {
    Shifted(q.x - p.x, q.y - p.y, r.x - q.x, r.y - q.y);
    Negated(q.x - p.x, r.y - q.y);
    Negated(q.y - p.y, r.x - q.x);
  }

  lemma {:induction false} Negated(a: int, b: int)
    ensures (0 - a) * b == -(a * b)
  {
  }

  lemma {:induction false} Shifted(ax: int, ay: int, rx: int, ry: int)
    ensures ax * (ry + ay) - ay * (rx + ax) == ax * ry - ay * rx
  {
  }

  // ----- The loop -----

  /** The minor coordinate and the error counter after i turns of the loop. */
  function Traced(s: Slope, i: nat): (int, int)
  {
    if i == 0 then
      (s.minor, s.dx / 2)
    else
      var (y, err) := Traced(s, i - 1);
      if err - s.dy < 0 then (if s.up then y + 1 else y - 1, err - s.dy + s.dx) else (y, err - s.dy)
  }

  lemma {:induction false} TracedIsNearest(s: Slope, i: nat)
    requires s.dy <= s.dx
    ensures Traced(s, i).0 == if s.up then s.minor + Rise(i, s.dx, s.dy) else s.minor - Rise(i, s.dx, s.dy)
    ensures 0 < s.dx ==> Traced(s, i).1 == Err(i, Rise(i, s.dx, s.dy), s.dx, s.dy)
    ensures 0 == s.dx ==> Traced(s, i).1 == 0
  {
    RiseAtEnds(s.dx, s.dy);
    if i > 0 {
      TracedIsNearest(s, i - 1);
      if s.dx > 0 {
        ErrStep(i - 1, s.dx, s.dy);
      }
    }
  }

  /** The first n pixels the loop draws. */
  function Trail(s: Slope, n: nat): seq<Point>
  {
    if n == 0 then [] else Trail(s, n - 1) + [s.PointAt(s.major + n - 1, Traced(s, n - 1).0)]
  }

  lemma {:induction false} TrailIsNearest(s: Slope, n: nat)
    requires s.dy <= s.dx && n <= s.dx + 1
    ensures Trail(s, n) == s.Points()[..n]
  {
    if n > 0 {
      TrailIsNearest(s, n - 1);
      TracedIsNearest(s, n - 1);
    }
  }

  lemma {:induction false} TrailIsLine(s: Slope)
    requires s.dy <= s.dx
    ensures Trail(s, s.dx + 1) == s.Points()
  {
    TrailIsNearest(s, s.dx + 1);
    assert s.Points()[..s.dx + 1] == s.Points();
  }

  /** Swaps axes and ends so that the major coordinate runs upwards. */
  method Turned(p: Point, q: Point) returns (x0: int, y0: int, x1: int, y1: int, steep: bool)
    ensures x0 <= x1 && Abs(y1 - y0) <= x1 - x0
    ensures SlopeOf(p, q) == Slope(x0, y0, x1 - x0, Abs(y1 - y0), y0 < y1, steep)
  {
    x0, y0, x1, y1 := p.x, p.y, q.x, q.y;
    steep := Abs(y1 - y0) > Abs(x1 - x0);
    if steep {
      x0, y0 := y0, x0;
      x1, y1 := y1, x1;
    }
    if x0 > x1 {
      x0, x1 := x1, x0;
      y0, y1 := y1, y0;
    }
  }

  /** The virtual-pixel version: `drawn` are the calls of writePixel, in order. */
  method WriteLine(p: Point, q: Point) returns (drawn: seq<Point>)
    ensures drawn == LinePoints(p, q)
  {
    var x0, y0, x1, y1, steep := Turned(p, q);
    var dx: int, dy: int := x1 - x0, Abs(y1 - y0);
    var err: int := dx / 2;
    var ystep: int := if y0 < y1 then 1 else -1;

    ghost var s := Slope(x0, y0, dx, dy, y0 < y1, steep);
    ghost var i: nat := 0;
    drawn := [];
    while x0 <= x1
      invariant x0 == s.major + i <= x1 + 1
      invariant y0 == Traced(s, i).0 && err == Traced(s, i).1
      invariant drawn == Trail(s, i)
    {
      if steep {
        drawn := drawn + [Point(y0, x0)];
      } else {
        drawn := drawn + [Point(x0, y0)];
      }
      assert drawn == Trail(s, i + 1);
      err := err - dy;
      if err < 0 {
        y0 := y0 + ystep;
        err := err + dx;
      }
      x0 := x0 + 1;
      i := i + 1;
    }
    TrailIsLine(s);
  }

  /** The framebuffer after i turns of the loop. */
  ghost function Picture(screen: Screen, fb: seq<bv8>, s: Slope, i: nat, color: bv8): (after: seq<bv8>)
    requires screen.Valid() && |fb| == screen.Size()
    ensures |after| == |fb|
  {
    if i == 0 then fb
    else Plot(screen, Picture(screen, fb, s, i - 1, color), s.PointAt(s.major + i - 1, Traced(s, i - 1).0), color)
  }

  lemma {:induction false} PictureIsPainted(screen: Screen, fb: seq<bv8>, s: Slope, i: nat, color: bv8)
    requires screen.Valid() && |fb| == screen.Size()
    ensures Picture(screen, fb, s, i, color) == Painted(screen, fb, Trail(s, i), color)
  {
    if i > 0 {
      PictureIsPainted(screen, fb, s, i - 1, color);
      PaintedExtends(screen, fb, Trail(s, i - 1), s.PointAt(s.major + i - 1, Traced(s, i - 1).0), color);
    }
  }

  method DrawTurned(screen: Screen, steep: bool, x: int, y: int, color: bv8, fb: array<bv8>)
    requires screen.Valid() && fb.Length == screen.Size()
    modifies fb
    ensures fb[..] == Plot(screen, old(fb[..]), if steep then Point(y, x) else Point(x, y), color)
  {
    if steep {
      DrawPixel(screen, y, x, color, fb);
    } else {
      DrawPixel(screen, x, y, color, fb);
    }
  }

  /** One turn draws the next pixel of the picture. */
  method DrawTurn(screen: Screen, s: Slope, ghost i: nat, x0: int, y0: int, color: bv8, fb: array<bv8>,
                  ghost before: seq<bv8>)
    requires screen.Valid() && fb.Length == screen.Size() == |before|
    requires x0 == s.major + i && y0 == Traced(s, i).0 && fb[..] == Picture(screen, before, s, i, color)
    modifies fb
    ensures fb[..] == Picture(screen, before, s, i + 1, color)
  {
    DrawTurned(screen, s.steep, x0, y0, color, fb);
  }

  method DrawSlope(screen: Screen, s: Slope, color: bv8, fb: array<bv8>)
    requires screen.Valid() && fb.Length == screen.Size()
    modifies fb
    ensures fb[..] == Picture(screen, old(fb[..]), s, s.dx + 1, color)
  {
    ghost var before := fb[..];
    var x0, y0 := s.major, s.minor;
    var err: int := s.dx / 2;
    var ystep: int := if s.up then 1 else -1;
    ghost var i: nat := 0;
    while x0 <= s.major + s.dx
      invariant x0 == s.major + i <= s.major + s.dx + 1
      invariant y0 == Traced(s, i).0 && err == Traced(s, i).1
      invariant fb[..] == Picture(screen, before, s, i, color)
    {
      DrawTurn(screen, s, i, x0, y0, color, fb, before);
      i := i + 1;
      err := err - s.dy;
      if err < 0 {
        y0 := y0 + ystep;
        err := err + s.dx;
      }
      x0 := x0 + 1;
    }
  }

  /** The framebuffer version of the same loop. */
  method WriteLineInPlace(screen: Screen, p: Point, q: Point, color: bv8, fb: array<bv8>)
    requires screen.Valid() && fb.Length == screen.Size()
    modifies fb
    ensures fb[..] == Painted(screen, old(fb[..]), LinePoints(p, q), color)
  {
    var x0, y0, x1, y1, steep := Turned(p, q);
    var s := Slope(x0, y0, x1 - x0, Abs(y1 - y0), y0 < y1, steep);
    DrawSlope(screen, s, color, fb);
    PictureIsPainted(screen, old(fb[..]), s, s.dx + 1, color);
    TrailIsLine(s);
  }

  // ----- 16-bit arithmetic -----

  /** The loop variables before turn i. */
  predicate StateFits(s: Slope, i: nat)
  {
    Int16(s.major + i) && Int16(Traced(s, i).0) && Int16(Traced(s, i).1)
  }

  /** Everything the loop holds during turn i. */
  predicate TurnFits(s: Slope, i: nat)
  {
    StateFits(s, i) && Int16(Traced(s, i).1 - s.dy) && StateFits(s, i + 1)
  }

  /** The minor coordinate of the last pixel. */
  function LastMinor(s: Slope): int { if s.up then s.minor + s.dy else s.minor - s.dy }

  /** The last turn moves the minor coordinate once more, past the end of the line. */
  predicate StepsPastEnd(s: Slope) { s.dx / 2 < s.dy }

  lemma {:induction false} RiseWithin(i: nat, dx: nat, dy: nat)
    requires i <= dx && dy <= dx
    ensures Rise(i, dx, dy) <= dy
  {
    if dx > 0 {
      var j := Rise(i, dx, dy);
      ErrCharacterizesRise(i, j, dx, dy);
      Monotone(i, dx, dy);
      assert dx * dy == dy * dx;
      if j > dy {
        NotBelow(dy, j, dx);
      }
    }
  }

  /** Up to the last pixel the counter is in [0, dx) and the minor coordinate between its ends. */
  lemma {:induction false} TracedWithin(s: Slope, i: nat)
    requires s.dy <= s.dx && i <= s.dx
    ensures var (y, err) := Traced(s, i);
      0 <= err <= s.dx && (if s.up then s.minor <= y <= LastMinor(s) else LastMinor(s) <= y <= s.minor)
  {
    TracedIsNearest(s, i);
    RiseWithin(i, s.dx, s.dy);
    if s.dx > 0 {
      ErrCharacterizesRise(i, Rise(i, s.dx, s.dy), s.dx, s.dy);
    }
  }

  lemma {:induction false} TracedEnd(s: Slope)
    requires s.dy <= s.dx
    ensures Traced(s, s.dx) == (LastMinor(s), s.dx / 2)
    ensures var (y, err) := Traced(s, s.dx + 1);
      y == (if !StepsPastEnd(s) then LastMinor(s) else if s.up then LastMinor(s) + 1 else LastMinor(s) - 1)
      && 0 <= err <= s.dx
  {
    TracedIsNearest(s, s.dx);
    RiseAtEnds(s.dx, s.dy);
    assert s.dx * s.dy == s.dy * s.dx;
  }

  /** What a caller can test: the extent fits, the line ends before the last column (or row) of 16 bits, and if
      the last turn steps past the end sideways, there is room for it. */
  predicate Drawable(s: Slope)
  {
    && s.dx <= 0x7FFF && s.major + s.dx < 0x7FFF
    && (StepsPastEnd(s) ==> Int16(if s.up then LastMinor(s) + 1 else LastMinor(s) - 1))
  }

  lemma {:induction false} TurnFitsWithin(s: Slope, i: nat)
    requires s.dy <= s.dx && i <= s.dx && Int16(s.major) && Int16(s.minor) && Int16(LastMinor(s)) && Drawable(s)
    ensures TurnFits(s, i)
  {
    TracedWithin(s, i);
    if i < s.dx {
      TracedWithin(s, i + 1);
    } else {
      TracedEnd(s);
    }
  }

  lemma {:induction false} SlopeInRange(p: Point, q: Point)
    requires Int16(p.x) && Int16(p.y) && Int16(q.x) && Int16(q.y)
    ensures var s := SlopeOf(p, q);
      Int16(s.major) && Int16(s.minor) && Int16(s.major + s.dx) && Int16(LastMinor(s))
  {
  }

  /** Between any two points of 16 bits, the 16-bit loop computes without overflow if and only if the line is
      drawable. */
  lemma {:induction false} NoOverflow(p: Point, q: Point)
    requires Int16(p.x) && Int16(p.y) && Int16(q.x) && Int16(q.y)
    ensures var s := SlopeOf(p, q);
      Int16(s.dx) && (forall i: nat | i <= s.dx :: TurnFits(s, i)) <==> Drawable(s)
  {
    SlopeInRange(p, q);
    var s := SlopeOf(p, q);
    if Drawable(s) {
      forall i: nat | i <= s.dx
        ensures TurnFits(s, i)
      {
        TurnFitsWithin(s, i);
      }
    } else if forall i: nat | i <= s.dx :: TurnFits(s, i) {
      TracedEnd(s);
      assert TurnFits(s, s.dx);
    }
  }

  // ----- The axis-aligned shortcuts -----

  lemma {:induction false} FlatRise(i: nat, dx: nat)
    ensures Rise(i, dx, 0) == 0
  {
    if dx > 0 {
      ErrCharacterizesRise(i, 0, dx, 0);
    }
  }

  lemma {:induction false} VerticalLine(x: int, y0: int, y1: int)
    requires y0 <= y1
    ensures LinePoints(Point(x, y0), Point(x, y1)) == ColumnOf(x, y0, y1 - y0 + 1)
    ensures LinePoints(Point(x, y1), Point(x, y0)) == ColumnOf(x, y0, y1 - y0 + 1)
  {
    var n: nat := y1 - y0;
    forall i: nat
      ensures Rise(i, n, 0) == 0
    {
      FlatRise(i, n);
    }
  }

  lemma {:induction false} HorizontalLine(x0: int, x1: int, y: int)
    requires x0 <= x1
    ensures LinePoints(Point(x0, y), Point(x1, y)) == RowOf(x0, y, x1 - x0 + 1)
    ensures LinePoints(Point(x1, y), Point(x0, y)) == RowOf(x0, y, x1 - x0 + 1)
  {
    var n: nat := x1 - x0;
    forall i: nat
      ensures Rise(i, n, 0) == 0
    {
      FlatRise(i, n);
    }
  }

  /** Whichever shortcut is taken, the framebuffer ends as the general loop would leave it. */
  method DrawLine(screen: Screen, p: Point, q: Point, color: bv8, fb: array<bv8>)
    requires screen.Valid() && fb.Length == screen.Size()
    modifies fb
    ensures fb[..] == Painted(screen, old(fb[..]), LinePoints(p, q), color)
  {
    var x0, y0, x1, y1 := p.x, p.y, q.x, q.y;
    if x0 == x1 {
      if y0 > y1 {
        y0, y1 := y1, y0;
      }
      DrawVLine(screen, x0, y0, y1 - y0 + 1, color, fb);
      VerticalLine(x0, y0, y1);
    } else if y0 == y1 {
      if x0 > x1 {
        x0, x1 := x1, x0;
      }
      DrawHLine(screen, x0, y0, x1 - x0 + 1, color, fb);
      HorizontalLine(x0, x1, y0);
    } else {
      WriteLineInPlace(screen, p, q, color, fb);
    }
  }
}
