/** Which pixels the scanlines of a triangle cover, said with the vertices alone. */
module TriangleArea {
  import opened Arith
  import opened Framebuffer
  import opened Triangles

  /** The cross product that tells on which side of the line through a and b the point c lies; in c's row it is the
      distance to the line times the height of the edge. */
  function Side(a: Point, b: Point, c: Point): int
  {
    (c.x - a.x) * (b.y - a.y) - (b.x - a.x) * (c.y - a.y)
  }

  /** The edge goes down from a to b and through row y. */
  predicate EdgeAt(a: Point, b: Point, y: int) { a.y < b.y && a.y <= y <= b.y }

  /** x is where the edge from a down to b crosses row y, rounded towards a. */
  predicate RoundedCrossing(a: Point, b: Point, y: int, x: int)
  {
    var off, height := Side(a, b, Point(x, y)), b.y - a.y;
    (a.x <= b.x ==> 0 < off + height <= height) && (b.x <= a.x ==> 0 <= off < height)
  }

  lemma {:induction false} Signed(d: int, i: nat)
    ensures (d >= 0 ==> d * i >= 0) && (d <= 0 ==> d * i <= 0)
  {
    if d >= 0 {
      Monotone(0, d, i);
    } else {
      Monotone(d, 0, i);
    }
  }

  lemma {:induction false} CrossingRounds(a: Point, b: Point, y: int)
    requires EdgeAt(a, b, y)
    ensures RoundedCrossing(a, b, y, Crossing(a, b, y))
  {
    Signed(b.x - a.x, y - a.y);
    TruncatedIsClose((b.x - a.x) * (y - a.y), b.y - a.y);
  }

  /** The short edge of a row is the upper one above the middle vertex, and also at it if there is no lower one. */
  lemma {:induction false} ScanlineEnds(t: Triangle, y: int) returns (short: int, long: int)
    requires t.p.y <= t.q.y <= t.r.y && t.p.y < t.r.y && t.p.y <= y <= t.r.y
    ensures if y < t.q.y || t.q.y == t.r.y then RoundedCrossing(t.p, t.q, y, short)
            else RoundedCrossing(t.q, t.r, y, short)
    ensures RoundedCrossing(t.p, t.r, y, long)
    ensures |Scanlines(t)| == t.r.y - t.p.y + 1
    ensures Scanlines(t)[y - t.p.y] == if short < long then HLine(short, y, long - short + 1)
                                       else HLine(long, y, short - long + 1)
  {
    long := Crossing(t.p, t.r, y);
    CrossingRounds(t.p, t.r, y);
    if Upper(t, y) {
      short := Crossing(t.p, t.q, y);
      CrossingRounds(t.p, t.q, y);
    } else {
      short := Crossing(t.q, t.r, y);
      CrossingRounds(t.q, t.r, y);
    }
    assert SortedByRow(t) == t;
    assert Scanlines(t)[y - t.p.y] == Span(t, y);
  }

  // ----- The closed triangle -----

  /** c is in the closed triangle, on no outer side of an edge; for vertices in one line, between the outer two. */
  predicate InTriangle(t: Triangle, c: Point)
  {
    && MinX(t) <= c.x <= MaxX(t) && MinY(t) <= c.y <= MaxY(t)
    && ((Side(t.p, t.q, c) >= 0 && Side(t.q, t.r, c) >= 0 && Side(t.r, t.p, c) >= 0) ||
        (Side(t.p, t.q, c) <= 0 && Side(t.q, t.r, c) <= 0 && Side(t.r, t.p, c) <= 0))
  }

  /** c is less than a pixel to the right of where the edge crosses its row, or to the left of it. */
  predicate LeftOfEnd(a: Point, b: Point, c: Point) { EdgeAt(a, b, c.y) && Side(a, b, c) < b.y - a.y }

  predicate RightOfEnd(a: Point, b: Point, c: Point) { EdgeAt(a, b, c.y) && Side(a, b, c) + (b.y - a.y) > 0 }

  /** In its row, c is less than a pixel away from the triangle on both sides. */
  predicate NearTriangle(t: Triangle, c: Point)
  {
    if t.p.y == t.q.y == t.r.y then c.y == t.p.y && MinX(t) <= c.x <= MaxX(t)
    else
      && (exists a, b | a in {t.p, t.q, t.r} && b in {t.p, t.q, t.r} :: LeftOfEnd(a, b, c))
      && (exists a, b | a in {t.p, t.q, t.r} && b in {t.p, t.q, t.r} :: RightOfEnd(a, b, c))
  }

  predicate Covered(t: Triangle, c: Point)
  {
    exists i | 0 <= i < |Scanlines(t)| :: Covers(Scanlines(t)[i], c)
  }

  lemma {:induction false} Backwards(ax: int, ay: int, dx: int, dy: int, x: int, y: int)
    ensures (x - (ax + dx)) * (0 - dy) - (0 - dx) * (y - (ay + dy)) + ((x - ax) * dy - dx * (y - ay)) == 0
  {
  }

  lemma {:induction false} SideBackwards(a: Point, b: Point, c: Point)
    ensures Side(b, a, c) + Side(a, b, c) == 0
  {
    Backwards(a.x, a.y, b.x - a.x, b.y - a.y, c.x, c.y);
  }

  lemma {:induction false} InSortedTriangle(t: Triangle, c: Point)
    requires InTriangle(t, c)
    ensures InTriangle(SortedByRow(t), c)
  {
    SameExtent(t, SortedByRow(t));
    SideBackwards(t.p, t.q, c);
    SideBackwards(t.q, t.r, c);
    SideBackwards(t.r, t.p, c);
  }

  /** Pixels a crossing and the row's true crossing differ by, scaled by the height of the edge. */
  lemma {:induction false} SideMoves(a: Point, b: Point, y: int, x: int, x': int)
    ensures Side(a, b, Point(x', y)) - Side(a, b, Point(x, y)) == (x' - x) * (b.y - a.y)
  {
    Distributes(x' - a.x, x - a.x, b.y - a.y);
  }

  /** A pixel on or right of an edge is not left of its rounded crossing, and the other way round. */
  lemma {:induction false} NotBeyond(a: Point, b: Point, y: int, x: int, end: int)
    requires a.y < b.y && RoundedCrossing(a, b, y, end)
    ensures Side(a, b, Point(x, y)) >= 0 ==> end <= x
    ensures Side(a, b, Point(x, y)) <= 0 ==> x <= end
    ensures x <= end ==> Side(a, b, Point(x, y)) < b.y - a.y
    ensures end <= x ==> Side(a, b, Point(x, y)) + (b.y - a.y) > 0
  {
    var height: nat := b.y - a.y;
    SideMoves(a, b, y, end, x);
    if x < end {
      Monotone(x - end, -1, height);
    } else if end < x {
      Monotone(1, x - end, height);
    }
  }

  lemma {:induction false} SortedCovered(t: Triangle, c: Point)
    requires Sorted(t) && t.p.y < t.r.y && t.p.y <= c.y <= t.r.y
    ensures InTriangle(t, c) ==> Covers(Span(t, c.y), c)
    ensures Covers(Span(t, c.y), c) ==> NearTriangle(t, c)
  {
    var a, b := if Upper(t, c.y) then t.p else t.q, if Upper(t, c.y) then t.q else t.r;
    CrossingRounds(a, b, c.y);
    CrossingRounds(t.p, t.r, c.y);
    NotBeyond(a, b, c.y, c.x, Crossing(a, b, c.y));
    NotBeyond(t.p, t.r, c.y, c.x, Crossing(t.p, t.r, c.y));
    SideBackwards(t.p, t.r, c);
    if Covers(Span(t, c.y), c) {
      assert LeftOfEnd(a, b, c) || LeftOfEnd(t.p, t.r, c);
      assert RightOfEnd(a, b, c) || RightOfEnd(t.p, t.r, c);
    }
  }

  lemma {:induction false} CoveredIs(t: Triangle, c: Point)
    ensures var s := SortedByRow(t);
      Covered(t, c) <==>
        && s.p.y <= c.y <= s.r.y
        && if s.p.y == s.r.y then MinX(s) <= c.x <= MaxX(s) else Covers(Span(s, c.y), c)
  {
    var s := SortedByRow(t);
    if Covered(t, c) {
      var i :| 0 <= i < |Scanlines(t)| && Covers(Scanlines(t)[i], c);
      assert s.p.y < s.r.y ==> Scanlines(t)[i] == Span(s, s.p.y + i);
    } else if s.p.y <= c.y <= s.r.y {
      var i := c.y - s.p.y;
      assert s.p.y < s.r.y ==> Scanlines(t)[i] == Span(s, s.p.y + i);
      assert !Covers(Scanlines(t)[i], c);
    }
  }

  /** Every pixel of the closed triangle is covered, for vertices in any order. */
  lemma {:induction false} InsideIsCovered(t: Triangle, c: Point)
    requires InTriangle(t, c)
    ensures Covered(t, c)
  {
    var s := SortedByRow(t);
    InSortedTriangle(t, c);
    CoveredIs(t, c);
    if s.p.y < s.r.y {
      SortedCovered(s, c);
    }
  }

  /** And no pixel that is a pixel or more away from the triangle in its row. */
  lemma {:induction false} CoveredIsNear(t: Triangle, c: Point)
    requires Covered(t, c)
    ensures NearTriangle(t, c)
  {
    var s := SortedByRow(t);
    CoveredIs(t, c);
    SameExtent(t, s);
    if s.p.y < s.r.y {
      SortedCovered(s, c);
    }
  }
}
