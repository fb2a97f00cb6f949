/** Filled circles and round rectangles: which columns are painted, how often, and how far up and down. */
module Fills {
  import opened Arith
  import opened Framebuffer
  import opened Circles

  /** A call of writeFastVLine. */
  datatype VLine = VLine(x: int, y: int, h: int)

  /** The calls for the columns d to the right and left of c. */
  function Sides(c: Point, d: int, half: int, right: bool, left: bool, delta: int): seq<VLine>
  {
    (if right then [VLine(c.x + d, c.y - half, 2 * half + delta)] else []) +
    (if left then [VLine(c.x - d, c.y - half, 2 * half + delta)] else [])
  }

  /** In turn n the column under the octant point is painted, up to the diagonal. */
  function InnerLines(c: Point, r: int, right: bool, left: bool, delta: int, n: nat): seq<VLine>
  {
    if n <= Height(r, n) then Sides(c, n, Height(r, n), right, left, delta) else []
  }

  /** When y has changed, so is the column under the mirrored octant that has just been completed. */
  function OuterLines(c: Point, r: int, right: bool, left: bool, delta: int, n: nat): seq<VLine>
    requires n > 0
  {
    if Height(r, n) != Height(r, n - 1) then Sides(c, Height(r, n - 1), n - 1, right, left, delta) else []
  }

  function TurnLines(c: Point, r: int, right: bool, left: bool, delta: int, n: nat): seq<VLine>
    requires n > 0
  {
    InnerLines(c, r, right, left, delta, n) + OuterLines(c, r, right, left, delta, n)
  }

  function HelperLines(c: Point, r: int, right: bool, left: bool, delta: int, n: nat): seq<VLine>
  {
    if n == 0 then [] else HelperLines(c, r, right, left, delta, n - 1) + TurnLines(c, r, right, left, delta, n)
  }

  method HelperLoop(c: Point, r: int, right: bool, left: bool, delta0: int) returns (lines: seq<VLine>)
    ensures lines == HelperLines(c, r, right, left, delta0 + 1, Last(r))
  {
    var f := 1 - r;
    var ddFx, ddFy := 1, -2 * r;
    var x, y := 0, r;
    var px, py := x, y;
    var delta := delta0 + 1;
    lines := [];
    while x < y
      invariant 0 <= x && Reached(r, x) && y == Height(r, x) && px == x && py == y
      invariant f == Traced(r, x).1 && ddFx == 2 * x + 1 && ddFy == -2 * y
      invariant lines == HelperLines(c, r, right, left, delta, x)
      decreases y - x
    {
      if f >= 0 {
        y := y - 1;
        ddFy := ddFy + 2;
        f := f + ddFy;
      }
      x := x + 1;
      ddFx := ddFx + 2;
      f := f + ddFx;
      var inner, outer := [], [];
      if x < y + 1 {
        inner := Sides(c, x, y, right, left, delta);
      }
      if y != py {
        outer := Sides(c, py, px, right, left, delta);
        py := y;
      }
      px := x;
      assert inner == InnerLines(c, r, right, left, delta, x);
      assert outer == OuterLines(c, r, right, left, delta, x);
      lines := lines + (inner + outer);
    }
    LastIsUnique(r, x);
  }

  // ----- Every column once -----

  /** How many of the first n calls paint column x. */
  function CountTo(lines: seq<VLine>, n: nat, x: int): nat
    requires n <= |lines|
  {
    if n == 0 then 0 else CountTo(lines, n - 1, x) + (if lines[n - 1].x == x then 1 else 0)
  }

  function Count(lines: seq<VLine>, x: int): nat { CountTo(lines, |lines|, x) }

  lemma {:induction false} CountToAppend(a: seq<VLine>, b: seq<VLine>, n: nat, x: int)
    requires n <= |a| + |b|
    ensures CountTo(a + b, n, x) == if n <= |a| then CountTo(a, n, x) else CountTo(a, |a|, x) + CountTo(b, n - |a|, x)
  {
    if n > 0 {
      CountToAppend(a, b, n - 1, x);
    }
  }

  lemma {:induction false} CountAppend(a: seq<VLine>, b: seq<VLine>, x: int)
    ensures Count(a + b, x) == Count(a, x) + Count(b, x)
  {
    CountToAppend(a, b, |a| + |b|, x);
  }

  lemma {:induction false} MemberCounts(lines: seq<VLine>, n: nat, i: nat)
    requires i < n <= |lines|
    ensures CountTo(lines, n, lines[i].x) >= 1
  {
    if i < n - 1 {
      MemberCounts(lines, n - 1, i);
    }
  }

  lemma {:induction false} CountOne(line: VLine, x: int)
    ensures Count([line], x) == if line.x == x then 1 else 0
  {
    assert CountTo([line], 0, x) == 0;
  }

  lemma {:induction false} CountSides(c: Point, d: int, half: int, right: bool, left: bool, delta: int, x: int)
    ensures Count(Sides(c, d, half, right, left, delta), x)
         == (if right && x == c.x + d then 1 else 0) + (if left && x == c.x - d then 1 else 0)
  {
    var one := VLine(c.x + d, c.y - half, 2 * half + delta);
    var two := VLine(c.x - d, c.y - half, 2 * half + delta);
    CountOne(one, x);
    CountOne(two, x);
    CountAppend(if right then [one] else [], if left then [two] else [], x);
  }

  /** The columns done after n turns: the first n from the middle, and those from the rim inwards to y. */
  predicate Done(r: int, n: nat, k: int)
  {
    1 <= k && ((k <= n && k <= Height(r, n)) || Height(r, n) < k <= r)
  }

  lemma {:induction false} CountHelper(c: Point, r: int, right: bool, left: bool, delta: int, n: nat, x: int)
    requires r >= 0 && Reached(r, n)
    ensures Count(HelperLines(c, r, right, left, delta, n), x)
         == (if right && Done(r, n, x - c.x) then 1 else 0) + (if left && Done(r, n, c.x - x) then 1 else 0)
  {
    if n > 0 {
      assert n - 1 < Height(r, n - 1);
      CountHelper(c, r, right, left, delta, n - 1, x);
      CountTurn(c, r, right, left, delta, n, x);
      CountAppend(HelperLines(c, r, right, left, delta, n - 1), TurnLines(c, r, right, left, delta, n), x);
      TurnDoes(r, n, x - c.x);
      TurnDoes(r, n, c.x - x);
    }
  }

  /** Column k is painted in turn n. */
  predicate InTurn(r: int, n: nat, k: int)
    requires n > 0
  {
    (n <= Height(r, n) && k == n) || (Height(r, n) != Height(r, n - 1) && k == Height(r, n - 1))
  }

  lemma {:induction false} CountInner(c: Point, r: int, right: bool, left: bool, delta: int, n: nat, x: int)
    ensures Count(InnerLines(c, r, right, left, delta, n), x) ==
            if n <= Height(r, n) then
              (if right && x == c.x + n then 1 else 0) + (if left && x == c.x - n then 1 else 0)
            else 0
  {
    CountSides(c, n, Height(r, n), right, left, delta, x);
  }

  lemma {:induction false} CountOuter(c: Point, r: int, right: bool, left: bool, delta: int, n: nat, x: int)
    requires n > 0
    ensures Count(OuterLines(c, r, right, left, delta, n), x) ==
            var d := Height(r, n - 1);
            if Height(r, n) != d then
              (if right && x == c.x + d then 1 else 0) + (if left && x == c.x - d then 1 else 0)
            else 0
  {
    CountSides(c, Height(r, n - 1), n - 1, right, left, delta, x);
  }

  lemma {:induction false} CountTurn(c: Point, r: int, right: bool, left: bool, delta: int, n: nat, x: int)
    requires n > 0 && n - 1 < Height(r, n - 1)
    ensures Count(TurnLines(c, r, right, left, delta, n), x)
         == (if right && InTurn(r, n, x - c.x) then 1 else 0) + (if left && InTurn(r, n, c.x - x) then 1 else 0)
  {
    CountInner(c, r, right, left, delta, n, x);
    CountOuter(c, r, right, left, delta, n, x);
    CountAppend(InnerLines(c, r, right, left, delta, n), OuterLines(c, r, right, left, delta, n), x);
    TurnIsOneStep(r, n);
  }

  lemma {:induction false} TurnIsOneStep(r: int, n: nat)
    requires n > 0
    ensures Height(r, n - 1) - 1 <= Height(r, n) <= Height(r, n - 1)
  {
  }

  lemma {:induction false} TurnDoes(r: int, n: nat, k: int)
    requires r >= 0 && n > 0 && n - 1 < Height(r, n - 1)
    ensures Done(r, n, k) <==> Done(r, n - 1, k) || InTurn(r, n, k)
    ensures !(Done(r, n - 1, k) && InTurn(r, n, k))
  {
  }

  lemma {:induction false} AllDone(r: int, k: int)
    requires r >= 0
    ensures Done(r, Last(r), k) <==> 1 <= k <= r
  {
    if r >= 1 {
      OctantIsNearest(r, Last(r));
    } else {
      LastIsUnique(r, 0);
    }
  }

  // ----- Up to the outline -----

  /** The outline of the circle reaches exactly `half` rows up and down in the column d off its centre. */
  ghost predicate Reaches(r: int, d: nat, half: nat)
  {
    OnOutline(r, d, half) && forall h: nat | OnOutline(r, d, h) :: h <= half
  }

  lemma {:induction false} HeightFalls(r: int, a: nat, b: nat)
    requires a <= b
    ensures Height(r, b) <= Height(r, a)
  {
    if a < b {
      HeightFalls(r, a, b - 1);
    }
  }

  lemma {:induction false} HeightRange(r: int, n: nat)
    requires r >= 1 && n <= Last(r)
    ensures 0 <= Height(r, n) <= r && n <= Height(r, n) + 1
  {
    assert Reached(r, n);
    OctantIsNearest(r, n);
  }

  lemma {:induction false} InnerColumn(r: int, n: nat)
    requires r >= 1 && n <= Last(r) && n <= Height(r, n)
    ensures Reaches(r, n, Height(r, n))
  {
    forall h: nat | OnOutline(r, n, h)
      ensures h <= Height(r, n)
    {
      if h <= Last(r) && n == Height(r, h) {
        HeightRange(r, h);
      }
    }
  }

  /** The mirrored octant ends before the column that is painted when y changes. */
  lemma {:induction false} NotReached(r: int, n: nat)
    requires 0 < n && Height(r, n) != Height(r, n - 1) && n < Height(r, n - 1)
    ensures Last(r) < Height(r, n - 1)
  {
    var d: nat := Height(r, n - 1);
    var before: nat := d - 1;
    HeightFalls(r, n, before);
    if d <= Last(r) {
      ReachedAt(r, Last(r), before);
    }
  }

  lemma {:induction false} OuterColumn(r: int, n: nat)
    requires r >= 1 && 0 < n <= Last(r) && Height(r, n) != Height(r, n - 1)
    ensures n - 1 < Height(r, n - 1) && Reaches(r, Height(r, n - 1), n - 1)
  {
    var d: int := Height(r, n - 1);
    ReachedAt(r, Last(r), n - 1);
    if n < d {
      NotReached(r, n);
    }
    forall h: nat | OnOutline(r, d, h)
      ensures h <= n - 1
    {
      if n <= h {
        HeightFalls(r, n, h);
      }
    }
  }

  /** A call covers its column exactly from outline to outline, the lower half of the circle being moved down
      by `delta` - 1 rows. */
  ghost predicate FitsOutline(c: Point, r: int, delta: int, line: VLine)
  {
    exists half: nat | half <= r ::
      line.y == c.y - half && line.h == 2 * half + delta && Reaches(r, Abs(line.x - c.x), half)
  }

  lemma {:induction false} SidesAre(c: Point, d: nat, half: int, right: bool, left: bool, delta: int, line: VLine)
    requires line in Sides(c, d, half, right, left, delta)
    ensures line.y == c.y - half && line.h == 2 * half + delta && Abs(line.x - c.x) == d
  {
  }

  lemma {:induction false} InnerFits(c: Point, r: int, right: bool, left: bool, delta: int, n: nat, line: VLine)
    requires r >= 1 && 0 < n <= Last(r) && line in InnerLines(c, r, right, left, delta, n)
    ensures FitsOutline(c, r, delta, line)
  {
    HeightRange(r, n);
    InnerColumn(r, n);
    SidesAre(c, n, Height(r, n), right, left, delta, line);
  }

  lemma {:induction false} OuterFits(c: Point, r: int, right: bool, left: bool, delta: int, n: nat, line: VLine)
    requires r >= 1 && 0 < n <= Last(r) && line in OuterLines(c, r, right, left, delta, n)
    ensures FitsOutline(c, r, delta, line)
  {
    OuterColumn(r, n);
    SidesAre(c, Height(r, n - 1), n - 1, right, left, delta, line);
  }

  lemma {:induction false} HelperFitsOutline(c: Point, r: int, right: bool, left: bool, delta: int, n: nat, line: VLine)
    requires r >= 1 && n <= Last(r) && line in HelperLines(c, r, right, left, delta, n)
    ensures FitsOutline(c, r, delta, line)
  {
    if n > 0 {
      if line in HelperLines(c, r, right, left, delta, n - 1) {
        HelperFitsOutline(c, r, right, left, delta, n - 1, line);
      } else {
        assert line in TurnLines(c, r, right, left, delta, n);
        if line in InnerLines(c, r, right, left, delta, n) {
          InnerFits(c, r, right, left, delta, n, line);
        } else {
          OuterFits(c, r, right, left, delta, n, line);
        }
      }
    }
  }

  // ----- Which pixels -----

  predicate Covers(line: VLine, p: Point)
  {
    p.x == line.x && line.y <= p.y < line.y + line.h
  }

  predicate PaintedBy(lines: seq<VLine>, p: Point)
  {
    exists i | 0 <= i < |lines| :: Covers(lines[i], p)
  }

  /** Pixel (dx, dy) is inside the circle around the origin, or on its outline. */
  predicate InCircle(r: int, dx: nat, dy: nat)
  {
    var k, m := if dx < dy then dx else dy, if dx < dy then dy else dx;
    k * k + m * m - m < r * r
  }

  lemma {:induction false} OnOutlineIs(r: int, dx: nat, dy: nat)
    requires r >= 1
    ensures var k, m := if dx < dy then dx else dy, if dx < dy then dy else dx;
      OnOutline(r, dx, dy) <==> InCircle(r, dx, dy) && r * r <= k * k + m * m + m
  {
    OutlineInNumbers(Point(0, 0), r, Point(dx, dy));
    OutlinePoints(Point(0, 0), r, Point(dx, dy));
  }

  lemma {:induction false} LowerInCircle(r: int, d: nat, h: nat, h': nat)
    requires h <= h' && InCircle(r, d, h')
    ensures InCircle(r, d, h)
    decreases h'
  {
    if h < h' {
      OneLower(r, d, h' - 1);
      LowerInCircle(r, d, h, h' - 1);
    }
  }

  lemma {:induction false} OneLower(r: int, d: nat, h: nat)
    requires InCircle(r, d, h + 1)
    ensures InCircle(r, d, h)
  {
    assert (h + 1) * (h + 1) == h * h + 2 * h + 1;
  }

  /** Above the pixel where the outline reaches highest in a column there is nothing of the circle. */
  lemma {:induction false} NothingAbove(r: int, d: nat, half: nat)
    requires r >= 1 && Reaches(r, d, half)
    ensures !InCircle(r, d, half + 1)
  {
    OnOutlineIs(r, d, half);
    OnOutlineIs(r, d, half + 1);
    NextRow(r * r, d, half, half * half, (half + 1) * (half + 1), d * d);
  }

  lemma {:induction false} NextRow(rr: int, d: nat, h: nat, hh: int, next: int, dd: int)
    requires hh == h * h && next == (h + 1) * (h + 1) && dd == d * d
    ensures next == hh + 2 * h + 1
    ensures d <= h && rr <= dd + hh + h ==> !(dd + next - (h + 1) < rr)
    ensures d > h && rr <= dd + hh + d ==> rr <= dd + next + d
  {
  }

  lemma {:induction false} ReachIsCircle(r: int, d: nat, half: nat, h: nat)
    requires r >= 1 && Reaches(r, d, half)
    ensures h <= half <==> InCircle(r, d, h)
  {
    OnOutlineIs(r, d, half);
    if h <= half {
      LowerInCircle(r, d, h, half);
    } else if InCircle(r, d, h) {
      LowerInCircle(r, d, half + 1, h);
      NothingAbove(r, d, half);
    }
  }

  /** How many rows row y is away from the `delta` rows from `top` on. */
  function RowsOff(top: int, delta: int, y: int): nat { Max(0, Max(top - y, y - (top + delta - 1))) }

  lemma {:induction false} FitCovers(c: Point, r: int, delta: int, line: VLine, p: Point)
    requires r >= 1 && FitsOutline(c, r, delta, line)
    ensures Covers(line, p) <==> p.x == line.x && InCircle(r, Abs(p.x - c.x), RowsOff(c.y, delta, p.y))
  {
    var half: nat :| half <= r && line.y == c.y - half && line.h == 2 * half + delta
                     && Reaches(r, Abs(line.x - c.x), half);
    ReachIsCircle(r, Abs(line.x - c.x), half, RowsOff(c.y, delta, p.y));
  }

  lemma {:induction false} ColumnCalled(lines: seq<VLine>, n: nat, x: int) returns (i: nat)
    requires n <= |lines| && CountTo(lines, n, x) > 0
    ensures i < n && lines[i].x == x
  {
    i := n - 1;
    if lines[n - 1].x != x {
      i := ColumnCalled(lines, n - 1, x);
    }
  }

  lemma {:induction false} CirclePainted(c: Point, r: int, lines: seq<VLine>, p: Point)
    requires r >= 1 && Count(lines, p.x) == if c.x - r <= p.x <= c.x + r then 1 else 0
    requires forall line | line in lines :: FitsOutline(c, r, 1, line)
    ensures PaintedBy(lines, p) <==> InCircle(r, Abs(p.x - c.x), Abs(p.y - c.y))
  {
    if PaintedBy(lines, p) {
      var i :| 0 <= i < |lines| && Covers(lines[i], p);
      FitCovers(c, r, 1, lines[i], p);
    } else if InCircle(r, Abs(p.x - c.x), Abs(p.y - c.y)) {
      NotBeside(r, Abs(p.x - c.x), Abs(p.y - c.y));
      var i := ColumnCalled(lines, |lines|, p.x);
      FitCovers(c, r, 1, lines[i], p);
    }
  }

  lemma {:induction false} NotBeside(r: int, dx: nat, dy: nat)
    requires r >= 1 && InCircle(r, dx, dy)
    ensures dx <= r
  {
    LowerInCircle(r, dx, 0, dy);
    if dx > r {
      Between(r, dx);
    }
  }

  // ----- The operations -----

  /** With radius r, column x is one of the r columns to the right of c, or to the left. */
  function SideCount(c: Point, r: int, right: bool, left: bool, x: int): nat
  {
    (if right && 1 <= x - c.x <= r then 1 else 0) + (if left && 1 <= c.x - x <= r then 1 else 0)
  }

  lemma {:induction false} CountAll(c: Point, r: int, right: bool, left: bool, delta: int, x: int)
    ensures Count(HelperLines(c, r, right, left, delta, Last(r)), x) == SideCount(c, r, right, left, x)
  {
    if r >= 0 {
      CountHelper(c, r, right, left, delta, Last(r), x);
      AllDone(r, x - c.x);
      AllDone(r, c.x - x);
    } else {
      LastIsUnique(r, 0);
    }
  }

  lemma {:induction false} AllFit(c: Point, r: int, right: bool, left: bool, delta: int, line: VLine)
    requires line in HelperLines(c, r, right, left, delta, Last(r))
    ensures r >= 1 && FitsOutline(c, r, delta, line)
  {
    if r >= 1 {
      HelperFitsOutline(c, r, right, left, delta, Last(r), line);
    } else {
      LastIsUnique(r, 0);
      assert false;
    }
  }

  /** The helper paints each of the r columns on the asked sides once, each up to the outline. */
  method FillCircleHelper(c: Point, r: int, right: bool, left: bool, delta: int) returns (lines: seq<VLine>)
    ensures forall x :: Count(lines, x) == SideCount(c, r, right, left, x)
    ensures r < 0 ==> lines == []
    ensures forall line | line in lines ::
              && r >= 1 && FitsOutline(c, r, delta + 1, line)
              && SideCount(c, r, right, left, line.x) >= 1
  {
    lines := HelperLoop(c, r, right, left, delta);
    if r < 0 {
      LastIsUnique(r, 0);
    }
    forall x
      ensures Count(lines, x) == SideCount(c, r, right, left, x)
    {
      CountAll(c, r, right, left, delta + 1, x);
    }
    forall line | line in lines
      ensures r >= 1 && FitsOutline(c, r, delta + 1, line)
      ensures SideCount(c, r, right, left, line.x) >= 1
    {
      var i :| 0 <= i < |lines| && lines[i] == line;
      MemberCounts(lines, |lines|, i);
      assert Count(lines, line.x) >= 1;
      AllFit(c, r, right, left, delta + 1, line);
    }
  }

  lemma {:induction false} MiddleColumn(c: Point, r: int)
    requires r >= 0
    ensures FitsOutline(c, r, 1, VLine(c.x, c.y - r, 2 * r + 1))
  {
    if r == 0 {
      LastIsUnique(0, 0);
      assert OnOutline(0, 0, 0);
    } else {
      InnerColumn(r, 0);
    }
    assert Reaches(r, 0, r);
  }

  /** Nothing is drawn twice: each column of the circle gets exactly one call and every other column none.
      And each call covers what lies between the pixels of the drawn outline in its column, no more. A negative
      radius leaves only the first call. */
  method FillCircle(c: Point, r: int) returns (lines: seq<VLine>)
    ensures r >= 0 ==> forall x :: Count(lines, x) == if c.x - r <= x <= c.x + r then 1 else 0
    ensures r >= 0 ==> forall line | line in lines :: FitsOutline(c, r, 1, line)
    ensures r >= 1 ==> forall p :: PaintedBy(lines, p) <==> InCircle(r, Abs(p.x - c.x), Abs(p.y - c.y))
    ensures r == 0 ==> lines == [VLine(c.x, c.y, 1)]
    ensures r < 0 ==> lines == [VLine(c.x, c.y - r, 2 * r + 1)]
  {
    var middle := VLine(c.x, c.y - r, 2 * r + 1);
    var sides := FillCircleHelper(c, r, true, true, 0);
    lines := [middle] + sides;
    if r >= 0 {
      forall x
        ensures Count(lines, x) == if c.x - r <= x <= c.x + r then 1 else 0
      {
        CountOne(middle, x);
        CountAppend([middle], sides, x);
      }
      MiddleColumn(c, r);
      if r == 0 {
        LastIsUnique(0, 0);
      } else {
        forall p
          ensures PaintedBy(lines, p) <==> InCircle(r, Abs(p.x - c.x), Abs(p.y - c.y))
        {
          CirclePainted(c, r, lines, p);
        }
      }
    }
  }
}
