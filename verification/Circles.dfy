/** The midpoint circle: which points the loop traces, and the outline it draws. */
module Circles {
  import opened Arith
  import opened Framebuffer

  // ----- The octant traced by the loop -----

  /** How far the lattice point (x, y) is outside the circle, in squared distance. */
  function Outside(x: int, y: int, r: int): int
  {
    x * x + y * y - r * r
  }

  /** The decision value: negative exactly when the midpoint below (x + 1, y) is inside the circle. */
  function Decision(x: int, y: int, r: int): int
  {
    (x + 1) * (x + 1) + y * y - y - r * r
  }

  /** y and the counter f after x turns of the loop; every turn moves x by one. */
  function Traced(r: int, x: nat): (s: (int, int))
    ensures s.0 <= r
  {
    if x == 0 then (r, 1 - r)
    else
      var (y, f) := Traced(r, x - 1);
      if f >= 0 then (y - 1, f - 2 * (y - 1) + 2 * x + 1) else (y, f + 2 * x + 1)
  }

  function Height(r: int, x: nat): (y: int)
    ensures y <= r
  {
    Traced(r, x).0
  }

  /** The incrementally kept counter is the decision value. */
  lemma {:induction false} CounterIsDecision(r: int, x: nat)
    ensures Traced(r, x).1 == Decision(x, Height(r, x), r)
  {
    if x > 0 {
      CounterIsDecision(r, x - 1);
      DecisionIs(x - 1, Height(r, x - 1), r);
      DecisionIs(x, Height(r, x), r);
    }
  }

  /** The loop makes at least x turns. */
  ghost predicate Reached(r: int, x: nat)
  {
    forall k | 0 <= k < x :: k < Height(r, k)
  }

  ghost function LastFrom(r: int, x: nat): (n: nat)
    requires Reached(r, x)
    ensures Reached(r, n) && n >= Height(r, n)
    decreases Height(r, x) - x
  {
    if x < Height(r, x) then LastFrom(r, x + 1) else x
  }

  /** The number of turns of the loop. */
  ghost function Last(r: int): (n: nat)
    ensures Reached(r, n) && n >= Height(r, n)
  {
    LastFrom(r, 0)
  }

  lemma {:induction false} ReachedAt(r: int, x: nat, k: nat)
    requires Reached(r, x) && k < x
    ensures k < Height(r, k)
  {
  }

  lemma {:induction false} LastIsUnique(r: int, n: nat)
    requires Reached(r, n) && n >= Height(r, n)
    ensures n == Last(r)
  {
    if n < Last(r) {
      ReachedAt(r, Last(r), n);
    } else if Last(r) < n {
      ReachedAt(r, n, Last(r));
    }
  }

  /** y is the integer nearest to the height of the true circle above x. */
  predicate Nearest(x: int, y: int, r: int)
  {
    y * y - y + x * x < r * r <= y * y + y + x * x
  }

  lemma {:induction false} NearestIsUnique(x: int, y: nat, z: nat, r: int)
    requires Nearest(x, y, r) && Nearest(x, z, r)
    ensures y == z
  {
    if y < z {
      Between(y, z);
    } else if z < y {
      Between(z, y);
    }
  }

  lemma {:induction false} Between(y: nat, z: nat)
    requires y < z
    ensures y * y + y <= z * z - z
  {
    assert y * (y + 1) <= (z - 1) * z by {
      assert y * (y + 1) <= y * z;
      assert y * z <= (z - 1) * z;
    }
  }

  lemma {:induction false} DecisionIs(x: int, y: int, r: int)
    ensures Decision(x, y, r) == Outside(x, y, r) + 2 * x + 1 - y
    ensures Outside(x + 1, y, r) == Decision(x, y, r) + y
    ensures Outside(x + 1, y - 1, r) == Decision(x, y, r) - (y - 1)
  {
  }

  /** Along the octant the y of every turn is the nearest one. Only the last turn may step one beyond the
      diagonal, where the point is still within x of the circle. */
  lemma {:induction false} OctantIsNearest(r: int, x: nat)
    requires r >= 1 && Reached(r, x)
    ensures var y := Height(r, x);
            && 0 <= y <= r && x <= y + 1
            && (if x <= y then -y <= Outside(x, y, r) < y else -y <= Outside(x, y, r) <= y)
    ensures x <= Height(r, x) ==> Nearest(x, Height(r, x), r)
  {
    if x > 0 {
      assert x - 1 < Height(r, x - 1);
      OctantIsNearest(r, x - 1);
      CounterIsDecision(r, x - 1);
      DecisionIs(x - 1, Height(r, x - 1), r);
    }
  }

  /** The other direction: every nearest point up to the diagonal is reached. */
  lemma {:induction false} NearestIsReached(r: int, x: nat, y: nat)
    requires r >= 1 && x <= y && Nearest(x, y, r)
    ensures x <= Last(r) && Height(r, x) == y
  {
    var n := Last(r);
    OctantIsNearest(r, n);
    if x > n {
      TooFarOut(r, n, Height(r, n), x, y);
    } else {
      assert Reached(r, x);
      OctantIsNearest(r, x);
      if x > Height(r, x) {
        TooFarOut(r, x, Height(r, x), x, y);
      } else {
        NearestIsUnique(x, y, Height(r, x), r);
      }
    }
  }

  /** A nearest point cannot lie to the upper right of a point that is not inside the circle. */
  lemma {:induction false} TooFarOut(r: int, x: nat, y: nat, x': nat, y': nat)
    requires x <= x' && y < y' && Outside(x, y, r) + y >= 0
    ensures !Nearest(x', y', r)
  {
    Between(y, y');
    assert x * x <= x' * x';
  }

  // ----- The outline -----

  function Eight(c: Point, x: int, y: int): seq<Point>
  {
    [Point(c.x + x, c.y + y), Point(c.x - x, c.y + y), Point(c.x + x, c.y - y), Point(c.x - x, c.y - y),
     Point(c.x + y, c.y + x), Point(c.x - y, c.y + x), Point(c.x + y, c.y - x), Point(c.x - y, c.y - x)]
  }

  function Four(c: Point, r: int): seq<Point>
  {
    [Point(c.x, c.y + r), Point(c.x, c.y - r), Point(c.x + r, c.y), Point(c.x - r, c.y)]
  }

  function Ring(c: Point, r: int, n: nat): seq<Point>
  {
    if n == 0 then Four(c, r) else Ring(c, r, n - 1) + Eight(c, n, Height(r, n))
  }

  /** All pixels of the outline, in drawing order. */
  ghost function Outline(c: Point, r: int): seq<Point> { Ring(c, r, Last(r)) }

  method DrawCircle(c: Point, r: int) returns (drawn: seq<Point>)
    ensures drawn == Outline(c, r)
  {
    var f := 1 - r;
    var ddFx, ddFy := 1, -2 * r;
    var x, y := 0, r;
    drawn := [Point(c.x, c.y + r), Point(c.x, c.y - r), Point(c.x + r, c.y), Point(c.x - r, c.y)];
    while x < y
      invariant 0 <= x && Reached(r, x) && y == Height(r, x)
      invariant f == Traced(r, x).1 && ddFx == 2 * x + 1 && ddFy == -2 * y
      invariant drawn == Ring(c, r, x)
      decreases y - x
    {
      if f >= 0 {
        y := y - 1;
        ddFy := ddFy + 2;
        f := f + ddFy;
      }
      x := x + 1;
      ddFx := ddFx + 2;
      f := f + ddFx;
      drawn := drawn +
        [Point(c.x + x, c.y + y), Point(c.x - x, c.y + y), Point(c.x + x, c.y - y), Point(c.x - x, c.y - y),
         Point(c.x + y, c.y + x), Point(c.x - y, c.y + x), Point(c.x + y, c.y - x), Point(c.x - y, c.y - x)];
    }
    LastIsUnique(r, x);
  }

  /** The eight pixels of one turn. */
  method DrawEight(screen: Screen, c: Point, r: int, x: nat, y: int, color: bv8, fb: array<bv8>, ghost before: seq<bv8>)
    requires screen.Valid() && fb.Length == screen.Size() == |before| && x > 0 && y == Height(r, x)
    requires fb[..] == Painted(screen, before, Ring(c, r, x - 1), color)
    modifies fb
    ensures fb[..] == Painted(screen, before, Ring(c, r, x), color)
  {
    PaintedAppend(screen, before, Ring(c, r, x - 1), Eight(c, x, y), color);
    DrawPoints(screen, Eight(c, x, y), color, fb);
  }

  /** The same on the framebuffer. */
  method DrawCircleInPlace(screen: Screen, c: Point, r: int, color: bv8, fb: array<bv8>)
    requires screen.Valid() && fb.Length == screen.Size()
    modifies fb
    ensures fb[..] == Painted(screen, old(fb[..]), Outline(c, r), color)
  {
    var f := 1 - r;
    var ddFx, ddFy := 1, -2 * r;
    var x, y := 0, r;
    ghost var before := fb[..];
    DrawPoints(screen, Four(c, r), color, fb);
    while x < y
      invariant 0 <= x && Reached(r, x) && y == Height(r, x)
      invariant f == Traced(r, x).1 && ddFx == 2 * x + 1 && ddFy == -2 * y
      invariant fb[..] == Painted(screen, before, Ring(c, r, x), color)
      decreases y - x
    {
      if f >= 0 {
        y := y - 1;
        ddFy := ddFy + 2;
        f := f + ddFy;
      }
      x := x + 1;
      ddFx := ddFx + 2;
      f := f + ddFx;
      DrawEight(screen, c, r, x, y, color, fb, before);
    }
    LastIsUnique(r, x);
  }

  /** p is one of the eight mirror images of (x, y) around c. */
  predicate Mirrors(c: Point, p: Point, x: int, y: int)
  {
    var dx, dy := Abs(p.x - c.x), Abs(p.y - c.y);
    (dx == x && dy == y) || (dx == y && dy == x)
  }

  lemma {:induction false} EightMirrors(c: Point, x: nat, y: nat, p: Point)
    ensures p in Eight(c, x, y) <==> Mirrors(c, p, x, y)
  {
  }

  ghost predicate MirrorsOneOf(c: Point, r: int, n: nat, p: Point)
  {
    exists x: nat | x <= n :: Mirrors(c, p, x, Height(r, x))
  }

  lemma {:induction false} OneMoreMirror(c: Point, r: int, n: nat, p: Point)
    requires n > 0
    ensures MirrorsOneOf(c, r, n, p) <==> MirrorsOneOf(c, r, n - 1, p) || Mirrors(c, p, n, Height(r, n))
  {
  }

  lemma {:induction false} RingPoints(c: Point, r: int, n: nat, p: Point)
    requires r >= 0 && Reached(r, n)
    ensures p in Ring(c, r, n) <==> MirrorsOneOf(c, r, n, p)
  {
    if n == 0 {
      assert p in Four(c, r) <==> Mirrors(c, p, 0, Height(r, 0));
    } else {
      ReachedAt(r, n, n - 1);
      if r > 0 {
        OctantIsNearest(r, n);
      }
      RingPoints(c, r, n - 1, p);
      EightMirrors(c, n, Height(r, n), p);
      OneMoreMirror(c, r, n, p);
    }
  }

  /** The outline has a pixel dx columns and dy rows off the centre. */
  ghost predicate OnOutline(r: int, dx: nat, dy: nat)
  {
    exists x: nat | x <= Last(r) :: (dx == x && dy == Height(r, x)) || (dy == x && dx == Height(r, x))
  }

  /** The drawn pixels are the mirror images of the octant points, for all eight mirrors. */
  lemma {:induction false} OutlinePoints(c: Point, r: int, p: Point)
    requires r >= 0
    ensures p in Outline(c, r) <==> OnOutline(r, Abs(p.x - c.x), Abs(p.y - c.y))
  {
    RingPoints(c, r, Last(r), p);
    if p in Outline(c, r) {
      var x: nat :| x <= Last(r) && Mirrors(c, p, x, Height(r, x));
    } else if OnOutline(r, Abs(p.x - c.x), Abs(p.y - c.y)) {
      var dx, dy := Abs(p.x - c.x), Abs(p.y - c.y);
      var x: nat :| x <= Last(r) && ((dx == x && dy == Height(r, x)) || (dy == x && dx == Height(r, x)));
      assert Mirrors(c, p, x, Height(r, x));
    }
  }

  lemma {:induction false} OctantIsRound(r: int, x: nat, dx: nat, dy: nat)
    requires r >= 1 && Reached(r, x)
    requires (dx == x && dy == Height(r, x)) || (dy == x && dx == Height(r, x))
    ensures Abs(dx * dx + dy * dy - r * r) <= Max(dx, dy)
  {
    OctantIsNearest(r, x);
    assert dx * dx + dy * dy - r * r == Outside(x, Height(r, x), r);
  }

  /** Every pixel of the outline is as near to the true circle as a pixel can be. */
  lemma {:induction false} OutlineIsRound(c: Point, r: int, p: Point)
    requires r >= 0 && p in Outline(c, r)
    ensures var dx, dy := Abs(p.x - c.x), Abs(p.y - c.y);
            Abs(dx * dx + dy * dy - r * r) <= Max(dx, dy)
  {
    OutlinePoints(c, r, p);
    var dx, dy := Abs(p.x - c.x), Abs(p.y - c.y);
    if r == 0 {
      assert Last(0) == 0;
    } else {
      var x: nat :| x <= Last(r) && ((dx == x && dy == Height(r, x)) || (dy == x && dx == Height(r, x)));
      OctantIsRound(r, x, dx, dy);
    }
  }

  /** The outline is complete: each column up to the diagonal has its nearest pixel, above and below, left
      and right, and likewise each row. */
  lemma {:induction false} OutlineIsComplete(c: Point, r: int, p: Point)
    requires r >= 1
    requires var dx, dy := Abs(p.x - c.x), Abs(p.y - c.y);
             Nearest(if dx < dy then dx else dy, Max(dx, dy), r)
    ensures p in Outline(c, r)
  {
    var dx, dy := Abs(p.x - c.x), Abs(p.y - c.y);
    NearestIsReached(r, if dx < dy then dx else dy, Max(dx, dy));
    OutlinePoints(c, r, p);
  }

  lemma {:induction false} OctantInNumbers(r: int, x: nat)
    requires r >= 1 && Reached(r, x)
    ensures var y := Height(r, x);
      y >= 0 && Nearest(if x < y then x else y, Max(x, y), r)
  {
    OctantIsNearest(r, x);
  }

  /** Which pixels the outline has, in numbers: those nearest to the true circle in their column, or in their row
      beyond the diagonal, and no others. */
  lemma {:induction false} OutlineInNumbers(c: Point, r: int, p: Point)
    requires r >= 1
    ensures var dx, dy := Abs(p.x - c.x), Abs(p.y - c.y);
      var k, m := if dx < dy then dx else dy, if dx < dy then dy else dx;
      p in Outline(c, r) <==> k * k + m * m - m < r * r <= k * k + m * m + m
  {
    OutlinePoints(c, r, p);
    var dx, dy := Abs(p.x - c.x), Abs(p.y - c.y);
    if OnOutline(r, dx, dy) {
      var x: nat :| x <= Last(r) && ((dx == x && dy == Height(r, x)) || (dy == x && dx == Height(r, x)));
      assert Reached(r, x);
      OctantInNumbers(r, x);
    } else if Nearest(if dx < dy then dx else dy, Max(dx, dy), r) {
      OutlineIsComplete(c, r, p);
    }
  }

  // ----- 16-bit arithmetic -----

  /** Everything the loop holds after x turns, and while it makes the next one, fits 16 bits. */
  predicate TurnFits(r: int, x: nat)
  {
    var (y, f) := Traced(r, x);
    && Int16(y) && Int16(f) && Int16(2 * x + 1) && Int16(-2 * y)
    && (x < y && f >= 0 ==> Int16(f - 2 * (y - 1)))
  }

  /** The counter stays linear in the radius. */
  lemma {:induction false} CounterRange(r: int, x: nat)
    requires 1 <= r && Reached(r, x)
    ensures var (y, f) := Traced(r, x);
            0 <= y <= r && x <= y + 1 && 2 * x + 1 - 2 * y <= f <= 2 * x + 1
  {
    OctantIsNearest(r, x);
    CounterIsDecision(r, x);
    DecisionIs(x, Height(r, x), r);
  }

  lemma {:induction false} TurnsAreFew(r: int, x: nat)
    requires 3 <= r && Reached(r, x)
    ensures x < r
  {
    var last: nat := r - 1;
    if x >= r {
      TurnIsLow(r);
      ReachedAt(r, x, last);
    }
  }

  lemma {:induction false} TurnIsLow(r: int)
    requires 3 <= r && Reached(r, r - 1)
    ensures Height(r, r - 1) < r
  {
    var x: nat := r - 1;
    OctantIsNearest(r, x);
    if Height(r, x) == r {
      TooFarUp(x, r);
    }
  }

  lemma {:induction false} TooFarUp(x: nat, r: int)
    requires 3 <= r == x + 1
    ensures Outside(x, r, r) > r
  {
    assert Outside(x, r, r) == x * x;
    AtLeastOnce(x - 1, x);
    Distributes(x, 1, x);
  }

  lemma {:induction false} TurnFitsBelow(r: int, x: nat)
    requires 1 <= r <= 16384 && Reached(r, x)
    ensures TurnFits(r, x)
  {
    CounterRange(r, x);
    if r >= 3 {
      TurnsAreFew(r, x);
    }
  }

  /** The 16-bit version computes without overflow exactly up to radius 16384. */
  lemma {:induction false} NoOverflow(r: int)
    requires Int16(r)
    ensures (forall x: nat | x <= Last(r) :: TurnFits(r, x)) <==> -16384 < r <= 16384
  {
    if -16384 < r <= 16384 {
      forall x: nat | x <= Last(r)
        ensures TurnFits(r, x)
      {
        if r >= 1 {
          TurnFitsBelow(r, x);
        } else {
          LastIsUnique(r, 0);
        }
      }
    } else {
      assert !TurnFits(r, 0);
    }
  }
}
