/** The filled round rectangle: a middle block and two quarter-circle sides. */
module RoundRects {
  import opened Framebuffer
  import opened Fills
  import Arith
  import Lines

  /** Integer division by two, truncating. */
  function Halved(v: int): int { if v < 0 then -((-v) / 2) else v / 2 }

  function Clamped(w: int, h: int, r: int): int
  {
    var most := Halved(if w < h then w else h);
    if r > most then most else r
  }

  lemma {:induction false} ClampedFits(w: int, h: int, r: int)
    requires r >= 0 && h >= 0
    ensures var s := Clamped(w, h, r);
            && s <= r && 2 * s <= h
            && (if w >= 0 then 0 <= 2 * s <= w else s <= 0 && w <= 2 * s)
  {
  }

  method FillRect(x: int, y: int, w: int, h: int) returns (lines: seq<VLine>)
    ensures forall k :: Count(lines, k) == if x <= k < x + w then 1 else 0
    ensures forall line | line in lines :: x <= line.x < x + w && line.y == y && line.h == h
  {
    var i := x;
    lines := [];
    while i < x + w
      invariant x <= i && (i <= x + w || i == x)
      invariant forall k :: Count(lines, k) == if x <= k < i then 1 else 0
      invariant forall line | line in lines :: x <= line.x < i && line.y == y && line.h == h
    {
      forall k
        ensures Count(lines + [VLine(i, y, h)], k) == if x <= k < i + 1 then 1 else 0
      {
        CountOne(VLine(i, y, h), k);
        CountAppend(lines, [VLine(i, y, h)], k);
      }
      lines := lines + [VLine(i, y, h)];
      i := i + 1;
    }
  }

  /** A call of the full height, or, in the first and last r columns, one whose ends lie on the outline of the
      corner circle and of the same circle moved down to the lower corner. */
  ghost predicate RoundedOff(x: int, y: int, w: int, h: int, r: int, line: VLine)
  {
    && x <= line.x < x + w
    && if x + r <= line.x < x + w - r then line.y == y && line.h == h
       else
         && r >= 1
         && FitsOutline(Point(if line.x < x + r then x + r else x + w - r - 1, y + r), r, h - 2 * r, line)
  }

  /** Pixel p is in the rectangle with corners rounded by r: between the corner columns, or in the circle around the
      nearest corner centre, the rows between the upper and the lower centres counting as none. */
  predicate InRoundRect(x: int, y: int, w: int, h: int, r: int, p: Point)
  {
    && x <= p.x < x + w && y <= p.y < y + h
    && (x + r <= p.x < x + w - r ||
        InCircle(r, if p.x < x + r then x + r - p.x else Arith.Abs(p.x - (x + w - r - 1)),
                 RowsOff(y + r, h - 2 * r, p.y)))
  }

  lemma {:induction false} RoundedOffCovers(x: int, y: int, w: int, h: int, r: int, line: VLine, p: Point)
    requires r >= 0 && 2 * r <= w && 2 * r <= h && RoundedOff(x, y, w, h, r, line) && p.x == line.x
    ensures Covers(line, p) <==> InRoundRect(x, y, w, h, r, p)
  {
    if !(x + r <= line.x < x + w - r) {
      var c := Point(if line.x < x + r then x + r else x + w - r - 1, y + r);
      FitCovers(c, r, h - 2 * r, line, p);
      if InCircle(r, Arith.Abs(p.x - c.x), RowsOff(y + r, h - 2 * r, p.y)) {
        NotBeside(r, RowsOff(y + r, h - 2 * r, p.y), Arith.Abs(p.x - c.x));
      }
    }
  }

  /** All calls of a round rectangle together paint exactly its pixels. */
  lemma {:induction false} RoundRectPainted(x: int, y: int, w: int, h: int, r: int, lines: seq<VLine>, p: Point)
    requires r >= 0 && 2 * r <= w && 2 * r <= h && Count(lines, p.x) == if x <= p.x < x + w then 1 else 0
    requires forall line | line in lines :: RoundedOff(x, y, w, h, r, line)
    ensures PaintedBy(lines, p) <==> InRoundRect(x, y, w, h, r, p)
  {
    if PaintedBy(lines, p) {
      var i :| 0 <= i < |lines| && Covers(lines[i], p);
      RoundedOffCovers(x, y, w, h, r, lines[i], p);
    } else if x <= p.x < x + w {
      var i := ColumnCalled(lines, |lines|, p.x);
      RoundedOffCovers(x, y, w, h, r, lines[i], p);
    }
  }

  lemma {:induction false} AllPainted(x: int, y: int, w: int, h: int, r: int, lines: seq<VLine>)
    requires r >= 0 && 2 * r <= w && 2 * r <= h
    requires forall k :: Count(lines, k) == if x <= k < x + w then 1 else 0
    requires forall line | line in lines :: RoundedOff(x, y, w, h, r, line)
    ensures forall p :: PaintedBy(lines, p) <==> InRoundRect(x, y, w, h, r, p)
  {
    forall p
      ensures PaintedBy(lines, p) <==> InRoundRect(x, y, w, h, r, p)
    {
      RoundRectPainted(x, y, w, h, r, lines, p);
    }
  }

  lemma {:induction false} CountParts(block: seq<VLine>, right: seq<VLine>, left: seq<VLine>, k: int)
    ensures Count(block + right + left, k) == Count(block, k) + Count(right, k) + Count(left, k)
  {
    CountAppend(block + right, left, k);
    CountAppend(block, right, k);
  }

  /** How many calls column k gets with radius r. */
  function PartsCount(x: int, w: int, r: int, k: int): nat
  {
    (if x + r <= k < x + w - r then 1 else 0) + (if 1 <= k - (x + w - r - 1) <= r then 1 else 0)
    + (if 1 <= x + r - k <= r then 1 else 0)
  }

  /** The radius, once clamped, neither widens the block nor overlaps the sides. */
  predicate Sensible(w: int, h: int, r: int)
  {
    Clamped(w, h, r) >= 0 || w <= 2 * Clamped(w, h, r)
  }

  lemma {:induction false} PartsTile(x: int, w: int, h: int, r: int, k: int)
    requires Sensible(w, h, r)
    ensures PartsCount(x, w, Clamped(w, h, r), k) == if x <= k < x + w then 1 else 0
  {
  }

  /** Exactly with a sensible radius, so in particular with non-negative sizes, each column of the rectangle is
      painted exactly once and no other column is touched; then each call is rounded off as the radius asks. */
  method FillRoundRect(x: int, y: int, w: int, h: int, r0: int) returns (lines: seq<VLine>)
    ensures Sensible(w, h, r0) <==> forall k :: Count(lines, k) == if x <= k < x + w then 1 else 0
    ensures Sensible(w, h, r0) ==> forall line | line in lines :: RoundedOff(x, y, w, h, Clamped(w, h, r0), line)
    ensures 0 <= r0 && 2 * r0 <= w && 2 * r0 <= h ==>
              && (forall line | line in lines :: RoundedOff(x, y, w, h, r0, line))
              && forall p :: PaintedBy(lines, p) <==> InRoundRect(x, y, w, h, r0, p)
    ensures 0 <= w && 0 <= h && (2 * r0 > w || 2 * r0 > h) ==>
              var s := (if w < h then w else h) / 2;
              && (forall line | line in lines :: RoundedOff(x, y, w, h, s, line))
              && forall p :: PaintedBy(lines, p) <==> InRoundRect(x, y, w, h, s, p)
  {
    var r := r0;
    var maxRadius := Halved(if w < h then w else h);
    if r > maxRadius {
      r := maxRadius;
    }
    assert r == Clamped(w, h, r0);
    lines := FillClamped(x, y, w, h, r);
    if Sensible(w, h, r0) {
      forall k
        ensures Count(lines, k) == if x <= k < x + w then 1 else 0
      {
        PartsTile(x, w, h, r0, k);
      }
      if r >= 0 && 2 * r <= w && 2 * r <= h {
        AllPainted(x, y, w, h, r, lines);
      }
    } else {
      assert Count(lines, x + r) == 1;
    }
  }

  /** The same once the radius has been clamped. */
  method FillClamped(x: int, y: int, w: int, h: int, r: int) returns (lines: seq<VLine>)
    ensures forall k :: Count(lines, k) == PartsCount(x, w, r, k)
    ensures (r >= 0 || w <= 2 * r) && (r >= 1 ==> 2 * r <= w) ==>
              forall line | line in lines :: RoundedOff(x, y, w, h, r, line)
  {
    var block := FillRect(x + r, y, w - 2 * r, h);
    var right := FillCircleHelper(Point(x + w - r - 1, y + r), r, true, false, h - 2 * r - 1);
    var left := FillCircleHelper(Point(x + r, y + r), r, false, true, h - 2 * r - 1);
    lines := block + right + left;
    forall k
      ensures Count(lines, k) == PartsCount(x, w, r, k)
    {
      CountParts(block, right, left, k);
    }
  }

  // ----- Inside the rectangle -----

  /** What the base class paints for a call, by drawing the line from the first to the last row. */
  function RowsPainted(line: VLine): seq<Point>
  {
    Lines.LinePoints(Point(line.x, line.y), Point(line.x, line.y + line.h - 1))
  }

  lemma {:induction false} RowsAre(line: VLine, p: Point)
    requires p in RowsPainted(line)
    ensures p.x == line.x
    ensures if line.h >= 1 then line.y <= p.y < line.y + line.h else line.y + line.h - 1 <= p.y <= line.y
  {
    if line.h >= 1 {
      Lines.VerticalLine(line.x, line.y, line.y + line.h - 1);
    } else {
      Lines.VerticalLine(line.x, line.y + line.h - 1, line.y);
    }
  }

  /** Every call stays between the top and the bottom row, even the calls of height zero that a radius of half
      the height leads to, for which the base class paints two rows. Without a row to stay in, every call
      still paints something. */
  lemma {:induction false} RoundedOffStaysInside(x: int, y: int, w: int, h: int, r: int, line: VLine, p: Point)
    requires RoundedOff(x, y, w, h, Clamped(w, h, r), line) && p in RowsPainted(line)
    ensures y <= p.y < y + h <==> h >= 1
  {
    if h >= 1 && r >= 0 {
      ClampedFits(w, h, r);
    }
    RowsAre(line, p);
  }
}
