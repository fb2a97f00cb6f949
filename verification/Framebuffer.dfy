/** The grayscale framebuffer, two pixels to a byte, and what painting a list of points does to it. */
module Framebuffer {
  import Arith

  datatype Point = Point(x: int, y: int)

  datatype Screen = Screen(width: nat, height: nat)
  {
    /** The panel width is a multiple of 16; only that it is even matters here. */
    predicate Valid() { width > 0 && width % 2 == 0 }

    predicate Contains(p: Point) { 0 <= p.x < width && 0 <= p.y < height }

    function Size(): nat { width / 2 * height }

    function At(p: Point): int { p.y * (width / 2) + p.x / 2 }

    lemma {:induction false} AtIsInside(p: Point)
      requires Valid() && Contains(p)
      ensures 0 <= At(p) < Size()
      ensures At(p) == p.y * width / 2 + p.x / 2
    {
      var stride := width / 2;
      assert width == stride * 2;
      assert p.y * width == p.y * stride * 2;
      Arith.NotBelow(p.y, height, stride);
    }

    lemma {:induction false} AtSeparates(p: Point, q: Point)
      requires Valid() && Contains(p) && Contains(q) && At(p) == At(q)
      ensures p.y == q.y && p.x / 2 == q.x / 2
    {
      AtIsInside(p);
      AtIsInside(q);
      Arith.SameQuotient(p.y, q.y, p.x / 2, q.x / 2, width / 2);
    }

    lemma {:induction false} PairAt(row: nat, column: nat)
      requires Valid() && row < height && column < width / 2
      ensures var p, q := Point(2 * column, row), Point(2 * column + 1, row);
        Contains(p) && Contains(q) && At(p) == At(q) == row * (width / 2) + column
    {
    }

    /** Every byte holds the two pixels of some on-screen pair. */
    lemma {:induction false} ByteIsAt(k: nat) returns (p: Point)
      requires Valid() && k < Size()
      ensures Contains(p) && Contains(p.(x := p.x + 1)) && p.x % 2 == 0 && At(p) == At(p.(x := p.x + 1)) == k
    {
      var stride := width / 2;
      var row, column := k / stride, k % stride;
      p := Point(2 * column, row);
      Arith.QuotientBelow(k, stride, height);
      Arith.Remainder(k, stride);
      PairAt(row, column);
    }
  }

  /** The 4-bit shade stored for a pixel: even columns in the low nibble. */
  function ShadeIn(byte: bv8, x: int): bv8
  {
    if x % 2 == 1 then byte >> 4 else byte & 0x0F
  }

  function WithShade(byte: bv8, x: int, color: bv8): bv8
  {
    if x % 2 == 1 then (byte & 0x0F) | (color & 0xF0) else (byte & 0xF0) | (color >> 4)
  }

  lemma {:induction false} ShadeStored(byte: bv8, x: int, color: bv8, x': int)
    ensures ShadeIn(WithShade(byte, x, color), x') ==
            if x % 2 == x' % 2 then color >> 4 else ShadeIn(byte, x')
  {
  }

  lemma {:induction false} ShadesMakeByte(a: bv8, b: bv8)
    requires a & 0x0F == b & 0x0F && a >> 4 == b >> 4
    ensures a == b
  {
  }

  function Plot(screen: Screen, fb: seq<bv8>, p: Point, color: bv8): (after: seq<bv8>)
    requires screen.Valid() && |fb| == screen.Size()
    ensures |after| == |fb|
  {
    if screen.Contains(p) then
      screen.AtIsInside(p);
      fb[screen.At(p) := WithShade(fb[screen.At(p)], p.x, color)]
    else
      fb
  }

  function Painted(screen: Screen, fb: seq<bv8>, points: seq<Point>, color: bv8): (after: seq<bv8>)
    requires screen.Valid() && |fb| == screen.Size()
    ensures |after| == |fb|
  {
    if points == [] then fb
    else Plot(screen, Painted(screen, fb, points[..|points| - 1], color), points[|points| - 1], color)
  }

  lemma {:induction false} PaintedExtends(screen: Screen, fb: seq<bv8>, points: seq<Point>, p: Point, color: bv8)
    requires screen.Valid() && |fb| == screen.Size()
    ensures Painted(screen, fb, points + [p], color) == Plot(screen, Painted(screen, fb, points, color), p, color)
  {
    assert (points + [p])[..|points|] == points;
  }

  lemma {:induction false} PlotShade(screen: Screen, fb: seq<bv8>, q: Point, color: bv8, p: Point)
    requires screen.Valid() && |fb| == screen.Size() && screen.Contains(p)
    ensures 0 <= screen.At(p) < |fb|
    ensures ShadeIn(Plot(screen, fb, q, color)[screen.At(p)], p.x)
         == if p == q then color >> 4 else ShadeIn(fb[screen.At(p)], p.x)
  {
    screen.AtIsInside(p);
    if screen.Contains(q) {
      screen.AtIsInside(q);
      ShadeStored(fb[screen.At(q)], q.x, color, p.x);
      if screen.At(p) == screen.At(q) {
        screen.AtSeparates(p, q);
      }
    }
  }

  /** Painting gives exactly the on-screen points of the list the colour's upper nibble; every other pixel,
      including the one sharing a byte with a painted one, keeps its shade. */
  lemma {:induction false} PaintedShade(screen: Screen, fb: seq<bv8>, points: seq<Point>, color: bv8, p: Point)
    requires screen.Valid() && |fb| == screen.Size() && screen.Contains(p)
    ensures 0 <= screen.At(p) < |fb|
    ensures ShadeIn(Painted(screen, fb, points, color)[screen.At(p)], p.x)
         == if p in points then color >> 4 else ShadeIn(fb[screen.At(p)], p.x)
  {
    screen.AtIsInside(p);
    if points != [] {
      var most, last := points[..|points| - 1], points[|points| - 1];
      PaintedShade(screen, fb, most, color, p);
      PlotShade(screen, Painted(screen, fb, most, color), last, color, p);
      assert points == most + [last];
    }
  }

  /** The same in numbers: a row takes half as many bytes as it has pixels, and odd columns are the upper nibbles. */
  lemma {:induction false} PaintedInNumbers(screen: Screen, fb: seq<bv8>, points: seq<Point>, color: bv8, x: nat,
                                            y: nat)
    requires screen.Valid() && |fb| == screen.Size() && x < screen.width && y < screen.height
    ensures var after, at := Painted(screen, fb, points, color), y * (screen.width / 2) + x / 2;
      && 0 <= at < |fb|
      && (if x % 2 == 1 then after[at] >> 4 else after[at] & 0x0F)
         == if Point(x, y) in points then color >> 4
            else if x % 2 == 1 then fb[at] >> 4 else fb[at] & 0x0F
  {
    PaintedShade(screen, fb, points, color, Point(x, y));
  }

  /** Only the set of points matters, not their order or how often they are painted. */
  lemma {:induction false} SamePointsSamePicture(screen: Screen, fb: seq<bv8>, a: seq<Point>, b: seq<Point>, color: bv8)
    requires screen.Valid() && |fb| == screen.Size()
    requires forall p :: screen.Contains(p) ==> (p in a <==> p in b)
    ensures Painted(screen, fb, a, color) == Painted(screen, fb, b, color)
  {
    var pa, pb := Painted(screen, fb, a, color), Painted(screen, fb, b, color);
    forall k | 0 <= k < |fb|
      ensures pa[k] == pb[k]
    {
      var p := screen.ByteIsAt(k);
      PaintedShade(screen, fb, a, color, p);
      PaintedShade(screen, fb, b, color, p);
      var q := p.(x := p.x + 1);
      PaintedShade(screen, fb, a, color, q);
      PaintedShade(screen, fb, b, color, q);
      ShadesMakeByte(pa[k], pb[k]);
    }
  }

  // ----- Drawing in place -----

  method DrawPixel(screen: Screen, x: int, y: int, color: bv8, fb: array<bv8>)
    requires screen.Valid() && fb.Length == screen.Size()
    modifies fb
    ensures fb[..] == Plot(screen, old(fb[..]), Point(x, y), color)
  {
    if x < 0 || x >= screen.width {
      return;
    }
    if y < 0 || y >= screen.height {
      return;
    }
    screen.AtIsInside(Point(x, y));
    var at := y * screen.width / 2 + x / 2;
    if x % 2 != 0 {
      fb[at] := (fb[at] & 0x0F) | (color & 0xF0);
    } else {
      fb[at] := (fb[at] & 0xF0) | (color >> 4);
    }
  }

  lemma {:induction false} PaintedAppend(screen: Screen, fb: seq<bv8>, a: seq<Point>, b: seq<Point>, color: bv8)
    requires screen.Valid() && |fb| == screen.Size()
    ensures Painted(screen, fb, a + b, color) == Painted(screen, Painted(screen, fb, a, color), b, color)
  {
    if b == [] {
      assert a + b == a;
    } else {
      var most := b[..|b| - 1];
      PaintedAppend(screen, fb, a, most, color);
      PaintedExtends(screen, fb, a + most, b[|b| - 1], color);
      assert a + b == a + most + [b[|b| - 1]];
    }
  }

  /** A run of pixel calls. */
  method DrawPoints(screen: Screen, points: seq<Point>, color: bv8, fb: array<bv8>)
    requires screen.Valid() && fb.Length == screen.Size()
    modifies fb
    ensures fb[..] == Painted(screen, old(fb[..]), points, color)
  {
    for i := 0 to |points|
      invariant fb[..] == Painted(screen, old(fb[..]), points[..i], color)
    {
      DrawPixel(screen, points[i].x, points[i].y, color, fb);
      PaintedExtends(screen, old(fb[..]), points[..i], points[i], color);
      assert points[..i + 1] == points[..i] + [points[i]];
    }
    assert points[..|points|] == points;
  }

  /** Points (x, y), (x + 1, y), ... */
  function RowOf(x: int, y: int, length: int): seq<Point>
  {
    seq(if length < 0 then 0 else length, i => Point(x + i, y))
  }

  function ColumnOf(x: int, y: int, length: int): seq<Point>
  {
    seq(if length < 0 then 0 else length, i => Point(x, y + i))
  }

  lemma {:induction false} RowPoints(x: int, y: int, length: int, p: Point)
    ensures p in RowOf(x, y, length) <==> p.y == y && x <= p.x < x + length
  {
    if p.y == y && x <= p.x < x + length {
      assert RowOf(x, y, length)[p.x - x] == p;
    }
  }

  lemma {:induction false} ColumnPoints(x: int, y: int, length: int, p: Point)
    ensures p in ColumnOf(x, y, length) <==> p.x == x && y <= p.y < y + length
  {
    if p.x == x && y <= p.y < y + length {
      assert ColumnOf(x, y, length)[p.y - y] == p;
    }
  }

  method DrawHLine(screen: Screen, x: int, y: int, length: int, color: bv8, fb: array<bv8>)
    requires screen.Valid() && fb.Length == screen.Size()
    modifies fb
    ensures fb[..] == Painted(screen, old(fb[..]), RowOf(x, y, length), color)
  {
    var i := 0;
    ghost var all := RowOf(x, y, length);
    while i < length
      invariant 0 <= i <= |all|
      invariant fb[..] == Painted(screen, old(fb[..]), all[..i], color)
    {
      DrawPixel(screen, x + i, y, color, fb);
      PaintedExtends(screen, old(fb[..]), all[..i], all[i], color);
      assert all[..i + 1] == all[..i] + [all[i]];
      i := i + 1;
    }
    assert all[..i] == all;
  }

  method DrawVLine(screen: Screen, x: int, y: int, length: int, color: bv8, fb: array<bv8>)
    requires screen.Valid() && fb.Length == screen.Size()
    modifies fb
    ensures fb[..] == Painted(screen, old(fb[..]), ColumnOf(x, y, length), color)
  {
    var i := 0;
    ghost var all := ColumnOf(x, y, length);
    while i < length
      invariant 0 <= i <= |all|
      invariant fb[..] == Painted(screen, old(fb[..]), all[..i], color)
    {
      DrawPixel(screen, x, y + i, color, fb);
      PaintedExtends(screen, old(fb[..]), all[..i], all[i], color);
      assert all[..i + 1] == all[..i] + [all[i]];
      i := i + 1;
    }
    assert all[..i] == all;
  }
}
