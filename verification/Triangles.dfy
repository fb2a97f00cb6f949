/** The filled triangle: incremental scanline crossings against the truncating interpolation. */
module Triangles {
  import opened Arith
  import opened Framebuffer

  /** A call of writeFastHLine. */
  datatype HLine = HLine(x: int, y: int, w: int)

  datatype Triangle = Triangle(p: Point, q: Point, r: Point)

  lemma {:induction false} TruncatedIsClose(a: int, n: int)
    requires n > 0
    ensures var t := Truncated(a, n);
            -n < a - t * n < n && (a >= 0 ==> 0 <= t * n <= a) && (a <= 0 ==> a <= t * n <= 0)
  {
    if a < 0 {
      Remainder(-a, n);
    } else {
      Remainder(a, n);
    }
  }

  lemma {:induction false} Remainder(a: nat, n: int)
    requires n > 0
    ensures 0 <= a / n * n <= a < a / n * n + n
    ensures (-(a / n)) * n == -(a / n * n)
  {
  }

  lemma {:induction false} TruncatedGrows(a: int, b: int, n: int)
    requires n > 0 && a <= b
    ensures Truncated(a, n) <= Truncated(b, n)
  {
    TruncatedIsClose(a, n);
    TruncatedIsClose(b, n);
    var t, u := Truncated(a, n), Truncated(b, n);
    Cancel(t, u + 1, n);
    OneAfter(u, u + 1, n);
    Cancel(t, 1, n);
    Cancel(-1, u, n);
  }

  lemma {:induction false} TruncatedIsOdd(a: int, b: int, n: int)
    requires n > 0 && a + b == 0
    ensures Truncated(a, n) + Truncated(b, n) == 0
  {
    if a == 0 {
      TruncatedIsClose(0, n);
      Cancel(Truncated(0, n), 1, n);
      Cancel(-1, Truncated(0, n), n);
    }
  }

  // ----- What is drawn -----

  /** Where the edge from p down to q crosses row y, interpolated and truncated towards p. */
  function Crossing(p: Point, q: Point, y: int): int
    requires p.y < q.y
  {
    p.x + Truncated((q.x - p.x) * (y - p.y), q.y - p.y)
  }

  function Between(a: int, b: int, y: int): HLine
  {
    if a > b then HLine(b, y, a - b + 1) else HLine(a, y, b - a + 1)
  }

  /** u has the same vertices as t. */
  predicate Permuted(t: Triangle, u: Triangle)
  {
    || (u.p == t.p && ((u.q == t.q && u.r == t.r) || (u.q == t.r && u.r == t.q)))
    || (u.p == t.q && ((u.q == t.p && u.r == t.r) || (u.q == t.r && u.r == t.p)))
    || (u.p == t.r && ((u.q == t.p && u.r == t.q) || (u.q == t.q && u.r == t.p)))
  }

  predicate Sorted(t: Triangle) { t.p.y <= t.q.y <= t.r.y }

  /** The vertices in order of their rows. */
  function SortedByRow(t: Triangle): (s: Triangle)
    ensures Sorted(s) && Permuted(t, s)
  {
    var (p, q) := if t.p.y > t.q.y then (t.q, t.p) else (t.p, t.q);
    var (q, r) := if q.y > t.r.y then (t.r, q) else (q, t.r);
    var (p, q) := if p.y > q.y then (q, p) else (p, q);
    Triangle(p, q, r)
  }

  /** The row of the middle vertex belongs to the lower part, unless there is none. */
  predicate Upper(t: Triangle, y: int) { y < t.q.y || t.q.y == t.r.y }

  function Span(t: Triangle, y: int): HLine
    requires Sorted(t) && t.p.y < t.r.y && t.p.y <= y <= t.r.y
  {
    Between(if Upper(t, y) then Crossing(t.p, t.q, y) else Crossing(t.q, t.r, y), Crossing(t.p, t.r, y), y)
  }

  function MinX(t: Triangle): int { Min(Min(t.p.x, t.q.x), t.r.x) }

  function MaxX(t: Triangle): int { Max(Max(t.p.x, t.q.x), t.r.x) }

  function SortedLines(t: Triangle): seq<HLine>
    requires Sorted(t)
  {
    if t.p.y == t.r.y then [HLine(MinX(t), t.p.y, MaxX(t) - MinX(t) + 1)]
    else seq(t.r.y - t.p.y + 1, i requires 0 <= i <= t.r.y - t.p.y => Span(t, t.p.y + i))
  }

  /** The scanlines of a triangle given in any order, from top to bottom. */
  function Scanlines(t: Triangle): seq<HLine> { SortedLines(SortedByRow(t)) }

  // ----- The loops -----

  method FillTriangle(t: Triangle) returns (lines: seq<HLine>)
    ensures lines == Scanlines(t)
  {
    var p, q, r := t.p, t.q, t.r;
    if p.y > q.y {
      p, q := q, p;
    }
    if q.y > r.y {
      r, q := q, r;
    }
    if p.y > q.y {
      p, q := q, p;
    }
    ghost var s := Triangle(p, q, r);
    assert s == SortedByRow(t);
    if p.y == r.y {
      var a, b := p.x, p.x;
      if q.x < a {
        a := q.x;
      } else if q.x > b {
        b := q.x;
      }
      if r.x < a {
        a := r.x;
      } else if r.x > b {
        b := r.x;
      }
      lines := [HLine(a, p.y, b - a + 1)];
    } else {
      lines := FillSorted(p, q, r);
    }
  }

  method FillSorted(p: Point, q: Point, r: Point) returns (lines: seq<HLine>)
    requires p.y <= q.y <= r.y && p.y < r.y
    ensures lines == SortedLines(Triangle(p, q, r))
  {
    ghost var t := Triangle(p, q, r);
    var dx01, dy01, dx02, dy02 := q.x - p.x, q.y - p.y, r.x - p.x, r.y - p.y;
    var dx12, dy12 := r.x - q.x, r.y - q.y;
    var sa, sb := 0, 0;
    var last := if q.y == r.y then q.y else q.y - 1;
    var y := p.y;
    lines := [];
    while y <= last
      invariant p.y <= y <= last + 1
      invariant sa == dx01 * (y - p.y) && sb == dx02 * (y - p.y)
      invariant lines == SortedLines(t)[..y - p.y]
    {
      var a := p.x + Truncated(sa, dy01);
      var b := p.x + Truncated(sb, dy02);
      OneMore(dx01, y - p.y);
      OneMore(dx02, y - p.y);
      sa := sa + dx01;
      sb := sb + dx02;
      if a > b {
        a, b := b, a;
      }
      assert HLine(a, y, b - a + 1) == Span(t, y);
      lines := lines + [HLine(a, y, b - a + 1)];
      y := y + 1;
    }
    sa := dx12 * (y - q.y);
    sb := dx02 * (y - p.y);
    while y <= r.y
      invariant last + 1 <= y <= r.y + 1
      invariant sa == dx12 * (y - q.y) && sb == dx02 * (y - p.y)
      invariant lines == SortedLines(t)[..y - p.y]
    {
      var a := q.x + Truncated(sa, dy12);
      var b := p.x + Truncated(sb, dy02);
      OneMore(dx12, y - q.y);
      OneMore(dx02, y - p.y);
      sa := sa + dx12;
      sb := sb + dx02;
      if a > b {
        a, b := b, a;
      }
      assert HLine(a, y, b - a + 1) == Span(t, y);
      lines := lines + [HLine(a, y, b - a + 1)];
      y := y + 1;
    }
  }

  // ----- What the drawing is -----

  /** Crossings stay between the ends of their edge, and within a pixel of it. */
  lemma {:induction false} CrossingIsOnEdge(p: Point, q: Point, y: int)
    requires p.y < q.y && p.y <= y <= q.y
    ensures var x := Crossing(p, q, y);
            && Min(p.x, q.x) <= x <= Max(p.x, q.x)
            && -(q.y - p.y) < (q.x - p.x) * (y - p.y) - (x - p.x) * (q.y - p.y) < q.y - p.y
    ensures Crossing(p, q, p.y) == p.x && Crossing(p, q, q.y) == q.x
  {
    var dx, n, i := q.x - p.x, q.y - p.y, y - p.y;
    TruncatedIsClose(dx * i, n);
    EndsExactly(dx, n);
    StaysBetween(dx, n, i);
  }

  lemma {:induction false} EndsExactly(dx: int, n: int)
    requires n > 0
    ensures Truncated(dx * n, n) == dx && Truncated(dx * 0, n) == 0
  {
    TruncatedIsClose(dx * n, n);
    var t := Truncated(dx * n, n);
    Distributes(dx, t, n);
    if t < dx {
      NotBelow(t, dx, n);
    } else if dx < t {
      NotBelow(dx, t, n);
    }
  }

  lemma {:induction false} StaysBetween(dx: int, n: int, i: int)
    requires n > 0 && 0 <= i <= n
    ensures Min(0, dx) <= Truncated(dx * i, n) <= Max(0, dx)
  {
    TruncatedIsClose(dx * i, n);
    var t := Truncated(dx * i, n);
    Scaled(dx, i, n);
    if t > Max(0, dx) {
      NotBelow(Max(0, dx), t, n);
    } else if t < Min(0, dx) {
      NotBelow(t, Min(0, dx), n);
    }
  }

  function MinY(t: Triangle): int { Min(Min(t.p.y, t.q.y), t.r.y) }

  function MaxY(t: Triangle): int { Max(Max(t.p.y, t.q.y), t.r.y) }

  lemma {:induction false} SameExtent(t: Triangle, u: Triangle)
    requires Permuted(t, u)
    ensures MinX(t) == MinX(u) && MaxX(t) == MaxX(u) && MinY(t) == MinY(u) && MaxY(t) == MaxY(u)
  {
  }

  /** One call for each row from the topmost to the lowest vertex, in this order. */
  lemma {:induction false} EachRowOnce(t: Triangle, i: nat)
    ensures |Scanlines(t)| == MaxY(t) - MinY(t) + 1
    ensures i < |Scanlines(t)| ==> Scanlines(t)[i].y == MinY(t) + i && Scanlines(t)[i].w >= 1
  {
    var s := SortedByRow(t);
    SameExtent(t, s);
    assert |Scanlines(t)| == s.r.y - s.p.y + 1;
    assert i < |Scanlines(t)| && s.p.y < s.r.y ==> Scanlines(t)[i] == Span(s, s.p.y + i);
    assert MinY(s) == s.p.y && MaxY(s) == s.r.y;
  }

  predicate Covers(line: HLine, p: Point)
  {
    p.y == line.y && line.x <= p.x < line.x + line.w
  }

  lemma {:induction false} VerticesAreCovered(t: Triangle, v: Point)
    requires v in {t.p, t.q, t.r}
    ensures exists i | 0 <= i < |Scanlines(t)| :: Covers(Scanlines(t)[i], v)
  {
    var s := SortedByRow(t);
    var i := v.y - s.p.y;
    if s.p.y == s.r.y {
      assert Covers(Scanlines(t)[0], v);
    } else {
      SpanCovers(s, v);
      assert Scanlines(t)[i] == Span(s, v.y);
    }
  }

  lemma {:induction false} SpanCovers(s: Triangle, v: Point)
    requires Sorted(s) && s.p.y < s.r.y && v in {s.p, s.q, s.r}
    ensures Covers(Span(s, v.y), v)
  {
    CrossingIsOnEdge(s.p, s.r, v.y);
    if s.p.y < s.q.y && v.y <= s.q.y {
      CrossingIsOnEdge(s.p, s.q, v.y);
    }
    if s.q.y < s.r.y && v.y >= s.q.y {
      CrossingIsOnEdge(s.q, s.r, v.y);
    }
  }

  lemma {:induction false} SpansStayInside(t: Triangle, i: nat)
    requires i < |Scanlines(t)|
    ensures MinX(t) <= Scanlines(t)[i].x && Scanlines(t)[i].x + Scanlines(t)[i].w - 1 <= MaxX(t)
  {
    var s := SortedByRow(t);
    SameExtent(t, s);
    if s.p.y < s.r.y {
      SpanIsInside(s, s.p.y + i);
    }
  }

  lemma {:induction false} SpanIsInside(s: Triangle, y: int)
    requires Sorted(s) && s.p.y < s.r.y && s.p.y <= y <= s.r.y
    ensures MinX(s) <= Span(s, y).x && Span(s, y).x + Span(s, y).w - 1 <= MaxX(s)
  {
    CrossingIsOnEdge(s.p, s.r, y);
    if Upper(s, y) {
      CrossingIsOnEdge(s.p, s.q, y);
    } else {
      CrossingIsOnEdge(s.q, s.r, y);
    }
  }

  // ----- The order of the vertices -----

  lemma {:induction false} TieAtTheTop(s: Triangle)
    requires Sorted(s) && s.p.y == s.q.y < s.r.y
    ensures SortedLines(s) == SortedLines(Triangle(s.q, s.p, s.r))
  {
    var u := Triangle(s.q, s.p, s.r);
    forall y | s.p.y <= y <= s.r.y
      ensures Span(s, y) == Span(u, y)
    {
    }
  }

  lemma {:induction false} TieAtTheBottom(s: Triangle)
    requires Sorted(s) && s.p.y < s.q.y == s.r.y
    ensures SortedLines(s) == SortedLines(Triangle(s.p, s.r, s.q))
  {
    var u := Triangle(s.p, s.r, s.q);
    forall y | s.p.y <= y <= s.r.y
      ensures Span(s, y) == Span(u, y)
    {
    }
  }

  lemma {:induction false} SortedVerticesDecide(s: Triangle, u: Triangle)
    requires Sorted(s) && Sorted(u) && Permuted(s, u)
    ensures SortedLines(s) == SortedLines(u)
  {
    if s.p.y == s.r.y {
      SameExtent(s, u);
    } else if s.p.y == s.q.y {
      assert u == s || u == Triangle(s.q, s.p, s.r);
      TieAtTheTop(s);
    } else if s.q.y == s.r.y {
      assert u == s || u == Triangle(s.p, s.r, s.q);
      TieAtTheBottom(s);
    } else {
      assert u == s;
    }
  }

  lemma {:induction false} Composed(s: Triangle, t: Triangle, u: Triangle, v: Triangle)
    requires Permuted(t, s) && Permuted(t, u) && Permuted(u, v)
    ensures Permuted(s, v)
  {
  }

  /** The picture does not depend on the order in which the vertices are given. */
  lemma {:induction false} OrderDoesNotMatter(t: Triangle, u: Triangle)
    requires Permuted(t, u)
    ensures Scanlines(t) == Scanlines(u)
  {
    Composed(SortedByRow(t), t, u, SortedByRow(u));
    SortedVerticesDecide(SortedByRow(t), SortedByRow(u));
  }
}
