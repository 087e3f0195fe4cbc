/**
 * The all-octant integer Bresenham rasteriser. `LinePath` is the sequence of points the
 * rasteriser visits, defined by the same error-term steps the loop performs; the lemmas give
 * its shape.
 */
module Lines {
  import opened Primitives
  import opened Pixels

  /** Both coordinates keep their value when the rasteriser casts them to `i32`. */
  predicate FitsI32(p: Point)
  {
    p.x <= I32_MAX && p.y <= I32_MAX
  }

  function Dx(a: Point, b: Point): int { Abs(b.x - a.x) }

  function Dy(a: Point, b: Point): int { Abs(b.y - a.y) }

  function Sx(a: Point, b: Point): int { if a.x < b.x then 1 else -1 }

  function Sy(a: Point, b: Point): int { if a.y < b.y then 1 else -1 }

  /** Columns still to travel from `x` to the end point, in the direction of travel. */
  function RestX(a: Point, b: Point, x: int): int
  {
    if a.x < b.x then b.x - x else x - b.x
  }

  /** Rows still to travel from `y` to the end point, in the direction of travel. */
  function RestY(a: Point, b: Point, y: int): int
  {
    if a.y < b.y then b.y - y else y - b.y
  }

  /** The loop's variables: the current position and the error term. */
  datatype Cursor = Cursor(x: int, y: int, err: int)

  /** Steps left before the cursor reaches the end point. */
  function Remaining(a: Point, b: Point, k: Cursor): int
  {
    Max(RestX(a, b, k.x), RestY(a, b, k.y))
  }

  /**
   * What holds at the head of every iteration: the cursor lies between the end points, the error
   * term is determined by the distances left, and the cursor never falls behind on the major axis.
   */
  predicate Tracking(a: Point, b: Point, k: Cursor)
  {
    Balanced(Dx(a, b), Dy(a, b), RestX(a, b, k.x), RestY(a, b, k.y), k.err)
  }

  /** The invariant in terms of the distances `dx`, `dy` and the distances `u`, `v` still to go. */
  predicate Balanced(dx: int, dy: int, u: int, v: int, err: int)
  {
    0 <= u <= dx && 0 <= v <= dy
    && err == dx - dy + Times(u, dy) - Times(v, dx)
    && (dx >= dy ==> v <= u && (u > 0 ==> 2 * err > -dy))
    && (dy >= dx ==> u <= v && (v > 0 ==> 2 * err < dx))
    && (dx == dy ==> err == 0)
  }

  /**
   * `n * d` as repeated addition; the invariant uses it so that the loop's proof obligations
   * stay linear, and `TimesIsProduct` connects it to multiplication.
   */
  function Times(n: nat, d: int): int
  {
    if n == 0 then 0 else Times(n - 1, d) + d
  }

  lemma {:induction false} TimesIsProduct(n: nat, d: int)
    ensures Times(n, d) == n * d
  {
    if n > 0 {
      TimesIsProduct(n - 1, d);
    }
  }

  /** The loop's variables before the first iteration. */
  function Start(a: Point, b: Point): Cursor
  {
    Cursor(a.x, a.y, Dx(a, b) - Dy(a, b))
  }

  lemma StartTracking(a: Point, b: Point)
    ensures Tracking(a, b, Start(a, b)) && Remaining(a, b, Start(a, b)) == Max(Dx(a, b), Dy(a, b))
  {
    TimesIsProduct(Dx(a, b), Dy(a, b));
    TimesIsProduct(Dy(a, b), Dx(a, b));
  }

  predicate AtEnd(b: Point, k: Cursor)
  {
    k.x == b.x && k.y == b.y
  }

  /** One iteration after the point is drawn: the doubled error decides which axes advance. */
  function Step(a: Point, b: Point, k: Cursor): Cursor
  {
    var e2 := 2 * k.err;
    var k1 := if e2 > -Dy(a, b) then k.(err := k.err - Dy(a, b), x := k.x + Sx(a, b)) else k;
    if e2 < Dx(a, b) then k1.(err := k1.err + Dx(a, b), y := k1.y + Sy(a, b)) else k1
  }

  /** `Step` spelled out branch by branch, as the loop body updates its variables. */
  lemma StepBranches(a: Point, b: Point, k: Cursor)
    ensures var mx, my := 2 * k.err > -Dy(a, b), 2 * k.err < Dx(a, b);
      Step(a, b, k) == Cursor(if mx then k.x + Sx(a, b) else k.x,
                             if my then k.y + Sy(a, b) else k.y,
                             k.err - (if mx then Dy(a, b) else 0) + (if my then Dx(a, b) else 0))
  {}

  /** A tracking cursor lies inside the box spanned by the two end points. */
  lemma TrackingInBox(a: Point, b: Point, k: Cursor)
    requires Tracking(a, b, k)
    ensures Min(a.x, b.x) <= k.x <= Max(a.x, b.x) && Min(a.y, b.y) <= k.y <= Max(a.y, b.y)
    ensures RestX(a, b, k.x) == Abs(b.x - k.x) && RestY(a, b, k.y) == Abs(b.y - k.y)
    ensures AtEnd(b, k) <==> Remaining(a, b, k) == 0
  {}

  /** An x-move happens only with columns left, and a y-move only with rows left. */
  lemma NoOvershoot(dx: int, dy: int, u: int, v: int, err: int)
    requires Balanced(dx, dy, u, v, err) && (u > 0 || v > 0)
    ensures 2 * err > -dy ==> u > 0
    ensures 2 * err < dx ==> v > 0
  {
    if u == 0 {
      TimesIsProduct(v, dx);
      MulAtLeast(v, dx);
      assert err <= -dy;
    }
    if v == 0 {
      TimesIsProduct(u, dy);
      MulAtLeast(u, dy);
      assert err >= dx;
    }
  }

  /** The major axis always advances, and so does the minor one on the diagonal of what is left. */
  lemma MajorMoves(dx: int, dy: int, u: int, v: int, err: int)
    requires Balanced(dx, dy, u, v, err) && (u > 0 || v > 0)
    ensures dx >= dy ==> 2 * err > -dy
    ensures dy >= dx ==> 2 * err < dx
    ensures dx >= dy && u == v ==> 2 * err < dx
    ensures dy >= dx && u == v ==> 2 * err > -dy
  {
    if u == v {
      // On the diagonal of the remaining box the error is (dx - dy) * (1 - u).
      TimesIsProduct(u, dy);
      TimesIsProduct(u, dx);
      assert err == (dx - dy) * (1 - u);
      if dx > dy {
        MulAtLeast(u, dx - dy);
      } else if dy > dx {
        MulAtLeast(u, dy - dx);
      }
    }
  }

  lemma BalancedStep(dx: int, dy: int, u: int, v: int, err: int)
    requires Balanced(dx, dy, u, v, err) && (u > 0 || v > 0)
    ensures var mx, my := 2 * err > -dy, 2 * err < dx;
      var u1 := if mx then u - 1 else u;
      var v1 := if my then v - 1 else v;
      var err1 := err - (if mx then dy else 0) + (if my then dx else 0);
      Balanced(dx, dy, u1, v1, err1) && Max(u1, v1) == Max(u, v) - 1
  {
    NoOvershoot(dx, dy, u, v, err);
    MajorMoves(dx, dy, u, v, err);
  }

  /**
   * Each iteration keeps the cursor tracking and brings it exactly one step closer to the end,
   * always advancing along the major axis.
   */
  lemma StepPreserves(a: Point, b: Point, k: Cursor)
    requires Tracking(a, b, k) && !AtEnd(b, k)
    ensures Tracking(a, b, Step(a, b, k))
    ensures Remaining(a, b, Step(a, b, k)) == Remaining(a, b, k) - 1
    ensures Dx(a, b) >= Dy(a, b) ==> Step(a, b, k).x == k.x + Sx(a, b)
    ensures Dy(a, b) >= Dx(a, b) ==> Step(a, b, k).y == k.y + Sy(a, b)
    ensures Abs(Step(a, b, k).x - k.x) <= 1 && Abs(Step(a, b, k).y - k.y) <= 1
    ensures Step(a, b, k).x == k.x || Step(a, b, k).x == k.x + Sx(a, b)
    ensures Step(a, b, k).y == k.y || Step(a, b, k).y == k.y + Sy(a, b)
    ensures RestX(a, b, Step(a, b, k).x) <= RestX(a, b, k.x)
    ensures RestY(a, b, Step(a, b, k).y) <= RestY(a, b, k.y)
  {
    var dx, dy, u, v := Dx(a, b), Dy(a, b), RestX(a, b, k.x), RestY(a, b, k.y);
    TrackingInBox(a, b, k);
    BalancedStep(dx, dy, u, v, k.err);
    MajorMoves(dx, dy, u, v, k.err);
    var k1 := Step(a, b, k);
    assert RestX(a, b, k1.x) == if 2 * k.err > -dy then u - 1 else u;
    assert RestY(a, b, k1.y) == if 2 * k.err < dx then v - 1 else v;
  }

  /** Number of steps the loop takes: the iteration count is the larger of the two distances. */
  function Steps(a: Point, b: Point): nat
  {
    Max(Dx(a, b), Dy(a, b))
  }

  /** The loop's variables after `n` iterations. */
  function CursorAt(a: Point, b: Point, n: nat): Cursor
  {
    if n == 0 then Start(a, b) else Step(a, b, CursorAt(a, b, n - 1))
  }

  /** The cursor keeps tracking for `Steps` iterations, one step closer to the end each time. */
  lemma {:induction false} CursorAtTracking(a: Point, b: Point, n: nat)
    requires n <= Steps(a, b)
    ensures Tracking(a, b, CursorAt(a, b, n))
    ensures Remaining(a, b, CursorAt(a, b, n)) == Steps(a, b) - n
  {
    if n == 0 {
      StartTracking(a, b);
    } else {
      var k := CursorAt(a, b, n - 1);
      CursorAtTracking(a, b, n - 1);
      TrackingInBox(a, b, k);
      StepPreserves(a, b, k);
    }
  }

  /** What the drawing loop needs to know about its variables after `n` iterations. */
  lemma CursorFacts(a: Point, b: Point, n: nat)
    requires n <= Steps(a, b)
    ensures var k := CursorAt(a, b, n);
      0 <= k.x <= U32_MAX && 0 <= k.y <= U32_MAX && (AtEnd(b, k) <==> n == Steps(a, b))
  {
    CursorAtTracking(a, b, n);
    TrackingInBox(a, b, CursorAt(a, b, n));
  }

  /** The pixel the loop draws in iteration `n`. */
  function PointAt(a: Point, b: Point, n: nat): Point
    requires n <= Steps(a, b)
  {
    CursorFacts(a, b, n);
    Point(CursorAt(a, b, n).x, CursorAt(a, b, n).y)
  }

  /** The points drawn from iteration `n` on: one per iteration, up to and including the end point. */
  function PathFrom(a: Point, b: Point, n: nat): (path: seq<Point>)
    requires n <= Steps(a, b)
    ensures |path| == Steps(a, b) - n + 1
    decreases Steps(a, b) - n
  {
    [PointAt(a, b, n)] + (if n == Steps(a, b) then [] else PathFrom(a, b, n + 1))
  }

  /** The points `draw_line` draws, in drawing order. */
  function LinePath(a: Point, b: Point): seq<Point>
  {
    PathFrom(a, b, 0)
  }

  lemma {:induction false} PathFromAt(a: Point, b: Point, n: nat)
    requires n <= Steps(a, b)
    ensures forall i :: 0 <= i < |PathFrom(a, b, n)| ==> PathFrom(a, b, n)[i] == PointAt(a, b, n + i)
    decreases Steps(a, b) - n
  {
    if n < Steps(a, b) {
      PathFromAt(a, b, n + 1);
      var path := PathFrom(a, b, n);
      assert path == [PointAt(a, b, n)] + PathFrom(a, b, n + 1);
      forall i | 1 <= i < |path|
        ensures path[i] == PointAt(a, b, n + i)
      {
        assert path[i] == PathFrom(a, b, n + 1)[i - 1];
      }
    }
  }

  /** The i-th point of the line is the point drawn in iteration i. */
  lemma LinePathAt(a: Point, b: Point)
    ensures |LinePath(a, b)| == Steps(a, b) + 1
    ensures forall i :: 0 <= i < |LinePath(a, b)| ==> LinePath(a, b)[i] == PointAt(a, b, i)
  {
    PathFromAt(a, b, 0);
  }

  function Chebyshev(p: Point, q: Point): nat
  {
    Max(Abs(p.x - q.x), Abs(p.y - q.y))
  }

  predicate InBox(a: Point, b: Point, q: Point)
  {
    Min(a.x, b.x) <= q.x <= Max(a.x, b.x) && Min(a.y, b.y) <= q.y <= Max(a.y, b.y)
  }

  /** `q` is `p` or one of its eight neighbours. */
  predicate Adjacent(p: Point, q: Point)
  {
    Abs(q.x - p.x) <= 1 && Abs(q.y - p.y) <= 1
  }

  predicate Connected(path: seq<Point>)
  {
    forall i :: 0 <= i < |path| - 1 ==> Adjacent(path[i], path[i + 1])
  }

  /**
   * The rasterised line starts at `a`, ends at `b` and has max(dx, dy) + 1 points, all inside
   * the box the two points span.
   */
  lemma LinePathEnds(a: Point, b: Point)
    ensures var path := LinePath(a, b);
      |path| == Max(Dx(a, b), Dy(a, b)) + 1 && path[0] == a && path[|path| - 1] == b
    ensures var path := LinePath(a, b);
      forall i :: 0 <= i < |path| ==> InBox(a, b, path[i])
  {
    var path := LinePath(a, b);
    LinePathAt(a, b);
    CursorFacts(a, b, Steps(a, b));
    forall i | 0 <= i < |path|
      ensures InBox(a, b, path[i])
    {
      CursorAtTracking(a, b, i);
      TrackingInBox(a, b, CursorAt(a, b, i));
    }
  }

  /** The i-th point of the line is exactly |path| - 1 - i pixels (in Chebyshev distance) from `b`. */
  lemma LinePathCountdown(a: Point, b: Point)
    ensures var path := LinePath(a, b);
      forall i :: 0 <= i < |path| ==> Chebyshev(path[i], b) == |path| - 1 - i
  {
    var path := LinePath(a, b);
    LinePathAt(a, b);
    forall i | 0 <= i < |path|
      ensures Chebyshev(path[i], b) == |path| - 1 - i
    {
      CursorAtTracking(a, b, i);
      TrackingInBox(a, b, CursorAt(a, b, i));
    }
  }

  /** Each step of the line moves to one of the eight neighbouring pixels. */
  lemma LinePathConnected(a: Point, b: Point)
    ensures Connected(LinePath(a, b))
  {
    var path := LinePath(a, b);
    LinePathAt(a, b);
    forall i | 0 <= i < |path| - 1
      ensures Adjacent(path[i], path[i + 1])
    {
      var k := CursorAt(a, b, i);
      CursorAtTracking(a, b, i);
      TrackingInBox(a, b, k);
      StepPreserves(a, b, k);
    }
  }

  /**
   * From `p` to `q` each coordinate stays or moves by its sign towards `b`, so neither moves
   * away from `b`.
   */
  predicate MovesToward(a: Point, b: Point, p: Point, q: Point)
  {
    (q.x == p.x || q.x == p.x + Sx(a, b)) && (q.y == p.y || q.y == p.y + Sy(a, b))
    && Abs(b.x - q.x) <= Abs(b.x - p.x) && Abs(b.y - q.y) <= Abs(b.y - p.y)
  }

  /** Every step of the line moves each coordinate either not at all or one pixel towards `b`. */
  lemma LinePathMonotone(a: Point, b: Point)
    ensures var path := LinePath(a, b);
      forall i :: 0 <= i < |path| - 1 ==> MovesToward(a, b, path[i], path[i + 1])
  {
    var path := LinePath(a, b);
    LinePathAt(a, b);
    forall i | 0 <= i < |path| - 1
      ensures MovesToward(a, b, path[i], path[i + 1])
    {
      PointAtToward(a, b, i);
    }
  }

  /** Iteration `n + 1` draws a point no further from `b` than iteration `n`, on either axis. */
  lemma PointAtToward(a: Point, b: Point, n: nat)
    requires n < Steps(a, b)
    ensures MovesToward(a, b, PointAt(a, b, n), PointAt(a, b, n + 1))
  {
    var k := CursorAt(a, b, n);
    CursorAtTracking(a, b, n);
    CursorAtTracking(a, b, n + 1);
    TrackingInBox(a, b, k);
    TrackingInBox(a, b, Step(a, b, k));
    StepPreserves(a, b, k);
  }

  /** Along the major axis the i-th point of the line is exactly i pixels from `a`. */
  lemma LinePathMajor(a: Point, b: Point)
    ensures var path := LinePath(a, b);
      Dx(a, b) >= Dy(a, b) ==> forall i :: 0 <= i < |path| ==> Abs(path[i].x - a.x) == i
    ensures var path := LinePath(a, b);
      Dy(a, b) >= Dx(a, b) ==> forall i :: 0 <= i < |path| ==> Abs(path[i].y - a.y) == i
  {
    var path := LinePath(a, b);
    LinePathAt(a, b);
    forall i | 0 <= i < |path|
      ensures Dx(a, b) >= Dy(a, b) ==> Abs(path[i].x - a.x) == i
      ensures Dy(a, b) >= Dx(a, b) ==> Abs(path[i].y - a.y) == i
    {
      CursorAtTracking(a, b, i);
      TrackingInBox(a, b, CursorAt(a, b, i));
    }
  }

  /** No point is drawn twice by one line. */
  lemma LinePathDistinct(a: Point, b: Point)
    ensures var path := LinePath(a, b);
      forall i, j :: 0 <= i < j < |path| ==> path[i] != path[j]
  {
    LinePathCountdown(a, b);
  }

  /** An axis-parallel line covers exactly the pixels between its end points. */
  lemma StraightLineCovers(a: Point, b: Point, q: Point)
    requires a.x == b.x || a.y == b.y
    ensures q in LinePath(a, b) <==> InBox(a, b, q)
  {
    var path := LinePath(a, b);
    LinePathEnds(a, b);
    LinePathMajor(a, b);
    if InBox(a, b, q) {
      if a.y == b.y {
        var i := Abs(q.x - a.x);
        assert path[i].x == q.x;
      } else {
        var i := Abs(q.y - a.y);
        assert path[i].y == q.y;
      }
    }
  }

  /** Drawing the point of iteration `n` leaves the points of the later iterations to draw. */
  lemma LineDrawStep(s: seq<byte>, a: Point, b: Point, n: nat, c: Rgb)
    requires Drawable(s) && n <= Steps(a, b)
    ensures Drawable(PutPixel(s, PointAt(a, b, n), c))
    ensures Plot(s, PathFrom(a, b, n), c)
      == Plot(PutPixel(s, PointAt(a, b, n), c), if n == Steps(a, b) then [] else PathFrom(a, b, n + 1), c)
  {
    PlotCons(s, PointAt(a, b, n), if n == Steps(a, b) then [] else PathFrom(a, b, n + 1), c);
  }

  method DrawLine(a: array<byte>, start: Point, end: Point, c: Rgb)
    requires Drawable(a[..]) && FitsI32(start) && FitsI32(end)
    modifies a
    ensures a[..] == Plot(old(a[..]), LinePath(start, end), c)
  {
    var x0: int, y0: int := start.x, start.y;
    var x1: int, y1: int := end.x, end.y;
    var dx: int := Abs(x1 - x0);
    var dy: int := Abs(y1 - y0);
    var sx := if x0 < x1 then 1 else -1;
    var sy := if y0 < y1 then 1 else -1;
    var err := dx - dy;
    assert dx == Dx(start, end) && dy == Dy(start, end);
    assert sx == Sx(start, end) && sy == Sy(start, end);
    ghost var n: nat := 0;
    while true
      invariant n <= Steps(start, end) && Cursor(x0, y0, err) == CursorAt(start, end, n)
      invariant Drawable(a[..])
      invariant Plot(old(a[..]), LinePath(start, end), c) == Plot(a[..], PathFrom(start, end, n), c)
      decreases Steps(start, end) - n
    {
      CursorFacts(start, end, n);
      assert Point(x0, y0) == PointAt(start, end, n);
      LineDrawStep(a[..], start, end, n, c);
      DrawPoint(a, Point(x0, y0), c);
      if x0 == x1 && y0 == y1 {
        break;
      }
      ghost var k := Cursor(x0, y0, err);
      assert Step(start, end, k) == CursorAt(start, end, n + 1);
      StepBranches(start, end, k);
      var e2 := 2 * err;
      if e2 > -dy {
        err := err - dy;
        x0 := x0 + sx;
      }
      if e2 < dx {
        err := err + dx;
        y0 := y0 + sy;
      }
      assert x0 == Step(start, end, k).x;
      assert y0 == Step(start, end, k).y;
      assert err == Step(start, end, k).err;
      n := n + 1;
    }
  }
}
