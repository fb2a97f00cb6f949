/** Which triangles the 16-bit scanline loops draw without an overflow. */
module TriangleRange {
  import opened Arith
  import opened Framebuffer
  import opened Triangles

  // ----- The row of the middle vertex decides about the width -----

  // The upper edge moves by da over m rows, the lower one by dc over l rows, and the long one by db == da + dc over
  // all n == m + l rows. Crossings are a, b and c, `mid` is that of the long edge in the middle row, and the
  // difference of two crossings is compared with the limit w.

  /** Above the middle vertex, both edges leaning to the right. */
  lemma {:induction false} UpperRight(da: int, db: int, m: nat, n: nat, i: nat, a: int, b: int, mid: int, w: nat)
    requires 0 < m && 0 < n && i <= m && 1 <= w
    requires a * m <= da * i && db * i < (b + 1) * n && mid * n <= db * m && da - mid < w
    ensures a - b < w
  {
    var e := da - w + 1;
    Monotone(e, mid, n);
    Monotone(e * n, db * m, i);
    Cancel(db * i, (b + 1) * n, m);
    Swap(e, n, i);
    Swap(db, m, i);
    Swap(b + 1, n, m);
    Cancel(e * i, (b + 1) * m, n);
    Distributes(da, w - 1, i);
    Distributes(a, b + 1, m);
    Commutes(w - 1, i);
    Monotone(i, m, w - 1);
    Commutes(w - 1, m);
    Cancel(a - (b + 1), w - 1, m);
  }

  lemma {:induction false} Commutes(a: int, b: int)
    ensures a * b == b * a
  {
  }

  /** The same, both edges leaning to the left. */
  lemma {:induction false} UpperLeft(da: int, db: int, m: nat, n: nat, i: nat, a: int, b: int, mid: int, w: nat)
    requires 0 < m <= w && 0 < n && i < m
    requires da * i < (a + 1) * m && b * n <= db * i && db * m < (mid + 1) * n && mid - da < w
    ensures b - a < w
  {
    var e := da + w;
    Monotone(mid + 1, e, n);
    Monotone(db * m, e * n, i);
    Monotone(b * n, db * i, m);
    Swap(db, m, i);
    Swap(e, n, i);
    Swap(b, n, m);
    Cancel(e * i, b * m, n);
    Sum(da, w, i);
    Distributes(b, a + 1, m);
    UpperStrict(b - (a + 1), m, i, w);
  }

  lemma {:induction false} UpperStrict(g: int, m: nat, i: nat, w: nat)
    requires 0 < m <= w && i < m && g * m < w * i
    ensures g < w - 1
  {
    Commutes(w, i);
    Monotone(i, m - 1, w);
    Distributes(m, 1, w);
    Commutes(w, m);
    Distributes(w, 1, m);
    if g >= w - 1 {
      Monotone(w - 1, g, m);
    }
  }

  /** Below the middle vertex, m rows down one edge to it and l rows down the other edge from it: the rows cut
      the same share off the distance of the edges. */
  lemma {:induction false} LowerShare(da: int, dc: int, m: int, l: int, j: int, n: int)
    requires n == m + l
    ensures (da * l + dc * j) * n - (da + dc) * (m + j) * l == (da * l - dc * m) * (l - j)
  {
    var p, q := da * l, dc * m;
    assert (da + dc) * (m + j) == da * m + da * j + q + dc * j;
    assert (da + dc) * (m + j) * l == da * m * l + da * j * l + q * l + dc * j * l;
    assert (p + dc * j) * n == p * m + p * l + dc * j * m + dc * j * l;
    assert (p - q) * (l - j) == p * l - p * j - q * l + q * j;
    Swap(da, m, l);
    Swap(da, j, l);
    Swap(dc, j, m);
  }

  lemma {:induction false} SharesAre(da: int, dc: int, m: int, l: int, n: int)
    requires n == m + l
    ensures da * l - dc * m == da * n - (da + dc) * m
  {
    Sum(da, dc, m);
    Commutes(da, n);
    Sum(m, l, da);
    Commutes(da, m);
    Commutes(da, l);
  }

  lemma {:induction false} LowerScaled(g: int, base: int, x: int, u: int, d: int, l: nat, n: nat, share: int)
    requires g <= base + x - d * l && u <= d * n && base * n - u * l == share
    ensures g * n <= share + x * n
  {
    Monotone(g, base + x - d * l, n);
    Distributes(base + x, d * l, n);
    Sum(base, x, n);
    Swap(d, l, n);
    Monotone(u, d * n, l);
  }

  /** The difference of the crossings in row m + j, scaled by both heights. */
  lemma {:induction false} LowerDifference(da: int, dc: int, m: nat, l: nat, j: nat, c: int, x: int, d: int)
    requires 0 < l && j <= l && c * l <= dc * j + x && (da + dc) * (m + j) <= d * (m + l)
    ensures (da + c - d) * l * (m + l) <= (da * l - dc * m) * (l - j) + x * (m + l)
  {
    var n := m + l;
    LowerShare(da, dc, m, l, j, n);
    Sum(da, c, l);
    Distributes(da + c, d, l);
    LowerScaled((da + c - d) * l, da * l + dc * j, x, (da + dc) * (m + j), d, l, n, (da * l - dc * m) * (l - j));
  }

  /** Below the middle vertex, the long edge leaning to the right and the other one too. */
  lemma {:induction false} LowerRight(da: int, dc: int, m: nat, l: nat, j: nat, c: int, b: int, mid: int, w: nat)
    requires 0 < l && j <= l && 1 <= w
    requires c * l <= dc * j && (da + dc) * (m + j) < (b + 1) * (m + l)
    requires mid * (m + l) <= (da + dc) * m && da - mid < w
    ensures da + c - b < w
  {
    var n, v := m + l, da * l - dc * m;
    SharesAre(da, dc, m, l, n);
    Distributes(da, mid, n);
    Monotone(da - mid, w - 1, n);
    Monotone(v, (w - 1) * n, l - j);
    Swap(w - 1, n, l - j);
    Commutes(w - 1, l - j);
    Monotone(l - j, l, w - 1);
    Commutes(w - 1, l);
    Monotone((w - 1) * (l - j), (w - 1) * l, n);
    LowerStrict(da, dc, m, l, j, c, b + 1);
    Cancel((da + c - (b + 1)) * l, (w - 1) * l, n);
    Cancel(da + c - (b + 1), w - 1, l);
  }

  lemma {:induction false} LowerStrict(da: int, dc: int, m: nat, l: nat, j: nat, c: int, d: int)
    requires 0 < l && j <= l && c * l <= dc * j && (da + dc) * (m + j) < d * (m + l)
    ensures (da + c - d) * l * (m + l) < (da * l - dc * m) * (l - j)
  {
    var n := m + l;
    LowerShare(da, dc, m, l, j, n);
    Sum(da, c, l);
    Distributes(da + c, d, l);
    var g, base, u := (da + c - d) * l, da * l + dc * j, (da + dc) * (m + j);
    Monotone(g, base - d * l, n);
    Distributes(base, d * l, n);
    Swap(d, l, n);
    Cancel(u, d * n, l);
  }

  /** The long edge leaning to the left. The other one may be rounded up by x. */
  lemma {:induction false} LowerLeft(da: int, dc: int, m: nat, l: nat, j: nat, c: int, x: nat, b: int, mid: int, w: nat)
    requires 0 < l && j <= l && 1 <= w && (x == 0 || (x == l - 1 && l <= w && 1 <= j))
    requires c * l <= dc * j + x && (da + dc) * (m + j) <= b * (m + l)
    requires (mid - 1) * (m + l) < (da + dc) * m && da - mid < w
    ensures da + c - b < w
  {
    var n, v, d := m + l, da * l - dc * m, da + c - b;
    LowerDifference(da, dc, m, l, j, c, x, b);
    SharesAre(da, dc, m, l, n);
    Distributes(da, mid - 1, n);
    Monotone(da - (mid - 1), w, n);
    if v <= 0 {
      Monotone(v, 0, l - j);
      Monotone(x, l - 1, n);
      Cancel(d * l, l, n);
      Distributes(l, 1, n);
      Cancel(d, 1, l);
    } else if x == 0 {
      Commutes(v, l - j);
      Monotone(l - j, l, v);
      Commutes(l, v);
      Cancel(v, w * n, l);
      Swap(w, n, l);
      Cancel(d * l, w * l, n);
      Cancel(d, w, l);
    } else {
      LowerRoundedUp(d, v, j, l, n, w);
    }
  }

  lemma {:induction false} LowerRoundedUp(d: int, v: nat, j: nat, l: nat, n: nat, w: nat)
    requires 1 <= j <= l <= w && 0 < n && v < w * n && d * l * n <= v * (l - j) + (l - 1) * n
    ensures d < w
  {
    Commutes(v, l - j);
    Monotone(l - j, l - 1, v);
    Commutes(l - 1, v);
    Monotone(v, w * n, l - 1);
    Swap(w, n, l - 1);
    Sum(w * (l - 1), l - 1, n);
    if d >= w {
      Monotone(w, d, l);
      Distributes(l, 1, w);
      Commutes(w, l - 1);
      Commutes(w, l);
      Cancel(w * (l - 1) + (l - 1), w * l, n);
      Monotone(w * l, d * l, n);
    }
  }

  // ----- The same about truncated crossings -----

  lemma {:induction false} Negate(a: int, b: int, n: int)
    requires a + b == 0
    ensures a * n + b * n == 0
  {
    Sum(a, b, n);
  }

  lemma {:induction false} Signed(a: int, i: nat)
    ensures (a >= 0 ==> a * i >= 0) && (a <= 0 ==> a * i <= 0)
  {
    if a >= 0 {
      Monotone(0, a, i);
    } else {
      Monotone(a, 0, i);
    }
  }

  /** If the edges differ by less than w in the middle row, so they do, to this side, in a row above. */
  lemma {:induction false} UpperSide(da: int, db: int, m: nat, n: nat, i: nat, w: nat)
    requires 0 < m <= w && 0 < n && i <= m && da - Truncated(db * m, n) < w
    ensures Truncated(da * i, m) - Truncated(db * i, n) < w
  {
    var a, b, mid := Truncated(da * i, m), Truncated(db * i, n), Truncated(db * m, n);
    Signed(da, i);
    Signed(db, i);
    Signed(db, m);
    TruncatedIsClose(da * i, m);
    TruncatedIsClose(db * i, n);
    TruncatedIsClose(db * m, n);
    if i == m {
      EndsExactly(da, m);
    } else if da >= 0 && db >= 0 {
      OneAfter(b, b + 1, n);
      UpperRight(da, db, m, n, i, a, b, mid, w);
    } else if da <= 0 && db <= 0 {
      UpperMirrored(da, db, m, n, i, a, b, mid, w);
    } else if da >= 0 {
      StaysBetween(da, m, i);
      LessSteep(db, i, m);
      TruncatedGrows(db * m, db * i, n);
    } else {
      Cancel(a, 1, m);
      Cancel(-1, b, n);
    }
  }

  lemma {:induction false} LessSteep(db: int, i: nat, k: nat)
    requires i <= k
    ensures (db <= 0 ==> db * k <= db * i) && (db >= 0 ==> db * i <= db * k)
  {
    Scaled(db, i, k);
  }

  lemma {:induction false} UpperMirrored(da: int, db: int, m: nat, n: nat, i: nat, a: int, b: int, mid: int, w: nat)
    requires 0 < m <= w && 0 < n && i < m && da - mid < w
    requires da * i - a * m + m > 0 && db * i <= b * n && db * m - mid * n + n > 0
    ensures a - b < w
  {
    Negate(da, -da, i);
    Negate(db, -db, i);
    Negate(db, -db, m);
    Negate(b, -b, n);
    Negate(a, -a, m);
    Negate(mid, -mid, n);
    OneAfter(-a, -a + 1, m);
    OneAfter(-mid, -mid + 1, n);
    UpperLeft(-da, -db, m, n, i, -a, -b, -mid, w);
  }

  /** And in a row below. */
  lemma {:induction false} LowerSide(da: int, dc: int, m: nat, l: nat, j: nat, w: nat)
    requires 0 < l <= w && j <= l && da - Truncated((da + dc) * m, m + l) < w
    ensures da + Truncated(dc * j, l) - Truncated((da + dc) * (m + j), m + l) < w
  {
    var db, n := da + dc, m + l;
    var c, b, mid := Truncated(dc * j, l), Truncated(db * (m + j), n), Truncated(db * m, n);
    Signed(dc, j);
    Signed(db, m + j);
    Signed(db, m);
    TruncatedIsClose(dc * j, l);
    TruncatedIsClose(db * (m + j), n);
    TruncatedIsClose(db * m, n);
    if j == 0 {
      EndsExactly(dc, l);
    } else if db >= 0 && dc >= 0 {
      OneAfter(b, b + 1, n);
      LowerRight(da, dc, m, l, j, c, b, mid, w);
    } else if db >= 0 {
      LessSteep(db, m, m + j);
      TruncatedGrows(db * m, db * (m + j), n);
      Cancel(c, 1, l);
    } else {
      OneAfter(mid - 1, mid, n);
      LowerLeft(da, dc, m, l, j, c, if dc >= 0 then 0 else l - 1, b, mid, w);
    }
  }

  /** The difference of the crossings in the middle row bounds it in every row, to both sides. */
  lemma {:induction false} UpperSides(da: int, db: int, m: nat, n: nat, i: nat, w: nat)
    requires 0 < m <= w && 0 < n && i <= m && Abs(da - Truncated(db * m, n)) < w
    ensures Abs(Truncated(da * i, m) - Truncated(db * i, n)) < w
  {
    UpperSide(da, db, m, n, i, w);
    NegatedCrossing(db, m, n);
    NegatedCrossing(da, i, m);
    NegatedCrossing(db, i, n);
    UpperSide(-da, -db, m, n, i, w);
  }

  lemma {:induction false} LowerSides(da: int, dc: int, m: nat, l: nat, j: nat, w: nat)
    requires 0 < l <= w && j <= l && Abs(da - Truncated((da + dc) * m, m + l)) < w
    ensures Abs(da + Truncated(dc * j, l) - Truncated((da + dc) * (m + j), m + l)) < w
  {
    LowerSide(da, dc, m, l, j, w);
    NegatedCrossing(da + dc, m, m + l);
    NegatedCrossing(dc, j, l);
    NegatedCrossing(da + dc, m + j, m + l);
    assert -da + -dc == -(da + dc);
    LowerSide(-da, -dc, m, l, j, w);
  }

  lemma {:induction false} NegatedCrossing(a: int, i: nat, n: nat)
    requires n > 0
    ensures Truncated(-a * i, n) == -Truncated(a * i, n)
  {
    Negate(a, -a, i);
    TruncatedIsOdd(a * i, -a * i, n);
  }

  // ----- The triangle -----

  /** The vertices in order of their rows, not all in one. */
  predicate Proper(t: Triangle) { Sorted(t) && t.p.y < t.r.y }

  lemma {:induction false} SpanIsDifference(t: Triangle, y: int)
    requires Proper(t) && t.p.y <= y <= t.r.y
    ensures Upper(t, y) ==> Span(t, y).w == Abs(Crossing(t.p, t.q, y) - Crossing(t.p, t.r, y)) + 1
    ensures !Upper(t, y) ==> Span(t, y).w == Abs(Crossing(t.q, t.r, y) - Crossing(t.p, t.r, y)) + 1
  {
  }

  lemma {:induction false} MiddleSpan(t: Triangle)
    requires Proper(t)
    ensures Span(t, t.q.y).w == Abs(t.q.x - Crossing(t.p, t.r, t.q.y)) + 1
  {
    SpanIsDifference(t, t.q.y);
    if t.q.y == t.r.y {
      CrossingIsOnEdge(t.p, t.q, t.q.y);
    } else {
      CrossingIsOnEdge(t.q, t.r, t.q.y);
    }
  }

  /** No scanline is wider than the limit unless the one at the middle vertex is, for a limit not below the
      heights of the two parts. Without that, truncation can make another one wider by a pixel. */
  lemma {:induction false} MiddleRowDecides(t: Triangle, y: int, w: nat)
    requires Proper(t) && t.p.y <= y <= t.r.y && t.q.y - t.p.y <= w && t.r.y - t.q.y <= w
    requires Span(t, t.q.y).w <= w
    ensures Span(t, y).w <= w
  {
    MiddleSpan(t);
    SpanIsDifference(t, y);
    var da, dc, m, l: nat := t.q.x - t.p.x, t.r.x - t.q.x, t.q.y - t.p.y, t.r.y - t.q.y;
    if Upper(t, y) {
      UpperSides(da, t.r.x - t.p.x, m, m + l, y - t.p.y, w);
    } else {
      LowerSides(da, dc, m, l, y - t.q.y, w);
    }
  }

  // ----- 16-bit and 32-bit arithmetic -----

  predicate PointFits(p: Point) { Int16(p.x) && Int16(p.y) }

  predicate DifferencesFit(p: Point, q: Point) { Int16(q.x - p.x) && Int16(q.y - p.y) }

  /** The differences that are taken before the loops. */
  predicate AllDifferencesFit(t: Triangle)
  {
    DifferencesFit(t.p, t.q) && DifferencesFit(t.p, t.r) && DifferencesFit(t.q, t.r)
  }

  /** The last row of the first loop. */
  function LastUpper(t: Triangle): int { if t.q.y == t.r.y then t.q.y else t.q.y - 1 }

  /** An accumulator for the edge from p down to q when row y is drawn, and afterwards. */
  predicate AccumulatorFits(p: Point, q: Point, y: int)
  {
    Int32((q.x - p.x) * (y - p.y)) && Int32((q.x - p.x) * (y + 1 - p.y))
  }

  /** Everything a loop holds while it draws row y. */
  predicate RowFits(t: Triangle, y: int)
    requires Proper(t) && t.p.y <= y <= t.r.y
  {
    && AccumulatorFits(t.p, t.r, y) && Int16(Crossing(t.p, t.r, y))
    && (if Upper(t, y) then AccumulatorFits(t.p, t.q, y) && Int16(Crossing(t.p, t.q, y))
        else AccumulatorFits(t.q, t.r, y) && Int16(Crossing(t.q, t.r, y)))
    && Int16(Span(t, y).w) && Int16(y + 1)
  }

  /** Everything that is computed for sorted vertices: for a flat triangle its one scanline; else the
      differences, the end of the first loop, the accumulators the second loop starts with, and all rows. */
  ghost predicate EverythingFits(t: Triangle)
    requires Sorted(t)
  {
    if t.p.y == t.r.y then Int16(MaxX(t) - MinX(t) + 1)
    else
      && AllDifferencesFit(t) && Int16(LastUpper(t))
      && Int32((t.r.x - t.q.x) * (LastUpper(t) + 1 - t.q.y)) && Int32((t.r.x - t.p.x) * (LastUpper(t) + 1 - t.p.y))
      && forall y | t.p.y <= y <= t.r.y :: RowFits(t, y)
  }

  /** What a caller can test: no difference overflows, the middle vertex is not in the first row of 16 bits
      unless the lowest is, the lowest is not in the last one, and the scanline at the middle vertex fits. */
  predicate Drawable(t: Triangle)
    requires Sorted(t)
  {
    if t.p.y == t.r.y then MaxX(t) - MinX(t) < 0x7FFF
    else
      && AllDifferencesFit(t) && (t.q.y == t.r.y || -0x8000 < t.q.y) && t.r.y < 0x7FFF
      && Abs(t.q.x - Crossing(t.p, t.r, t.q.y)) < 0x7FFF
  }

  lemma {:induction false} ProductFits(dx: int, i: int)
    requires Int16(dx) && 0 <= i <= 0x8000
    ensures Int32(dx * i)
  {
    Scaled(dx, i, 0x8000);
  }

  lemma {:induction false} EdgeFits(p: Point, q: Point, y: int)
    requires p.y < q.y && p.y <= y <= q.y && PointFits(p) && PointFits(q) && DifferencesFit(p, q)
    ensures AccumulatorFits(p, q, y) && Int16(Crossing(p, q, y))
  {
    ProductFits(q.x - p.x, y - p.y);
    ProductFits(q.x - p.x, y + 1 - p.y);
    CrossingIsOnEdge(p, q, y);
  }

  /** Once the differences fit, only the width and the row count can overflow in a row. */
  lemma {:induction false} RowFitsIn(t: Triangle, y: int)
    requires Proper(t) && PointFits(t.p) && PointFits(t.q) && PointFits(t.r) && AllDifferencesFit(t)
    requires t.p.y <= y <= t.r.y
    ensures RowFits(t, y) <==> Span(t, y).w < 0x8000 && y < 0x7FFF
  {
    EdgeFits(t.p, t.r, y);
    if Upper(t, y) {
      EdgeFits(t.p, t.q, y);
    } else {
      EdgeFits(t.q, t.r, y);
    }
  }

  lemma {:induction false} SecondStartFits(t: Triangle)
    requires Proper(t) && AllDifferencesFit(t)
    ensures Int32((t.r.x - t.q.x) * (LastUpper(t) + 1 - t.q.y)) && Int32((t.r.x - t.p.x) * (LastUpper(t) + 1 - t.p.y))
  {
    ProductFits(t.r.x - t.q.x, LastUpper(t) + 1 - t.q.y);
    ProductFits(t.r.x - t.p.x, LastUpper(t) + 1 - t.p.y);
  }

  /** For vertices of 16 bits in any order, nothing overflows if and only if the triangle is drawable. */
  lemma {:induction false} NoOverflow(t: Triangle)
    requires PointFits(t.p) && PointFits(t.q) && PointFits(t.r)
    ensures EverythingFits(SortedByRow(t)) <==> Drawable(SortedByRow(t))
  {
    var s := SortedByRow(t);
    if Proper(s) && AllDifferencesFit(s) {
      SecondStartFits(s);
      MiddleSpan(s);
      if Drawable(s) {
        DrawableFits(s);
      } else {
        RowFitsIn(s, s.q.y);
        RowFitsIn(s, s.r.y);
      }
    }
  }

  lemma {:induction false} DrawableFits(s: Triangle)
    requires Proper(s) && PointFits(s.p) && PointFits(s.q) && PointFits(s.r) && Drawable(s)
    ensures forall y | s.p.y <= y <= s.r.y :: RowFits(s, y)
  {
    MiddleSpan(s);
    forall y | s.p.y <= y <= s.r.y
      ensures RowFits(s, y)
    {
      MiddleRowDecides(s, y, 0x7FFF);
      RowFitsIn(s, y);
    }
  }

  predicate Within(p: Point, t: Triangle)
  {
    MinX(t) <= p.x <= MaxX(t) && MinY(t) <= p.y <= MaxY(t)
  }

  lemma {:induction false} VerticesWithin(t: Triangle)
    ensures Within(t.p, t) && Within(t.q, t) && Within(t.r, t)
  {
  }

  lemma {:induction false} SmallDifferencesFit(t: Triangle, p: Point, q: Point)
    requires Within(p, t) && Within(q, t) && MaxX(t) - MinX(t) < 0x7FFF && MaxY(t) - MinY(t) < 0x7FFF
    ensures DifferencesFit(p, q)
  {
  }

  /** So it is enough that the bounding box is less than 32767 pixels wide and high and off the outermost rows. */
  lemma {:induction false} SmallTrianglesFit(t: Triangle)
    requires PointFits(t.p) && PointFits(t.q) && PointFits(t.r)
    requires MaxX(t) - MinX(t) < 0x7FFF && MaxY(t) - MinY(t) < 0x7FFF && -0x8000 < MinY(t) && MaxY(t) < 0x7FFF
    ensures EverythingFits(SortedByRow(t))
  {
    var s := SortedByRow(t);
    SameExtent(t, s);
    NoOverflow(t);
    VerticesWithin(s);
    if Proper(s) {
      SmallDifferencesFit(s, s.p, s.q);
      SmallDifferencesFit(s, s.p, s.r);
      SmallDifferencesFit(s, s.q, s.r);
      SpanIsInside(s, s.q.y);
      MiddleSpan(s);
    }
  }

  // ----- The division by zero -----

  /** The first loop is entered and divides by the height of the upper part, all in 16 bits. */
  predicate DividesByZero(t: Triangle)
    requires Proper(t)
  {
    t.p.y <= Wrapped16(LastUpper(t)) && Wrapped16(t.q.y - t.p.y) == 0
  }

  /** It divides by zero exactly if the two upper vertices lie in the first row of 16 bits: the last row of the
      first loop then wraps around to the greatest number. */
  lemma {:induction false} FlatTopInFirstRow(t: Triangle)
    requires Proper(t) && PointFits(t.p) && PointFits(t.q) && PointFits(t.r)
    ensures DividesByZero(t) <==> t.p.y == t.q.y == -0x8000
  {
  }

  /** Such a triangle, whose differences all fit. */
  lemma {:induction false} FirstRowFails() returns (t: Triangle)
    ensures Proper(t) && PointFits(t.p) && PointFits(t.q) && PointFits(t.r) && AllDifferencesFit(t)
    ensures DividesByZero(t) && !EverythingFits(t)
  {
    t := Triangle(Point(0, -0x8000), Point(10, -0x8000), Point(0, -1));
    FlatTopInFirstRow(t);
  }
}
