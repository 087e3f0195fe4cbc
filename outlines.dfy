/**
 * Outlines built from rasterised lines: the axis-aligned rectangle given by two opposite
 * corners, and the polygon through a list of vertices.
 */
module Outlines {
  import opened Primitives
  import opened Pixels
  import opened Lines

  /** The four lines `draw_rectangle` draws, in order: down/up the side of `p1`, across, back, and home. */
  function RectanglePoints(p1: Point, p2: Point): seq<Point>
  {
    var p3, p4 := Point(p1.x, p2.y), Point(p2.x, p1.y);
    LinePath(p1, p3) + LinePath(p3, p2) + LinePath(p2, p4) + LinePath(p4, p1)
  }

  /** `q` lies on the border of the box spanned by `p1` and `p2`. */
  predicate OnPerimeter(p1: Point, p2: Point, q: Point)
  {
    InBox(p1, p2, q) && (q.x == p1.x || q.x == p2.x || q.y == p1.y || q.y == p2.y)
  }

  /** The rectangle is exactly the perimeter of the box spanned by its two corners. */
  lemma RectangleIsPerimeter(p1: Point, p2: Point, q: Point)
    ensures q in RectanglePoints(p1, p2) <==> OnPerimeter(p1, p2, q)
  {
    var p3, p4 := Point(p1.x, p2.y), Point(p2.x, p1.y);
    StraightLineCovers(p1, p3, q);
    StraightLineCovers(p3, p2, q);
    StraightLineCovers(p2, p4, q);
    StraightLineCovers(p4, p1, q);
  }

  method DrawRectangle(a: array<byte>, p1: Point, p2: Point, c: Rgb)
    requires Drawable(a[..]) && FitsI32(p1) && FitsI32(p2)
    modifies a
    ensures a[..] == Plot(old(a[..]), RectanglePoints(p1, p2), c)
  {
    var p3 := Point(p1.x, p2.y);
    var p4 := Point(p2.x, p1.y);
    ghost var s0 := a[..];
    DrawLine(a, p1, p3, c);
    DrawLine(a, p3, p2, c);
    DrawLine(a, p2, p4, c);
    DrawLine(a, p4, p1, c);
    ghost var l1, l2, l3, l4 := LinePath(p1, p3), LinePath(p3, p2), LinePath(p2, p4), LinePath(p4, p1);
    PlotAppend(s0, l1 + l2 + l3, l4, c);
    PlotAppend(s0, l1 + l2, l3, c);
    PlotAppend(s0, l1, l2, c);
  }

  /** All vertices can be cast to `i32` by the line drawer. */
  predicate AllFitI32(ps: seq<Point>)
  {
    forall i :: 0 <= i < |ps| ==> FitsI32(ps[i])
  }

  /** The lines joining consecutive vertices `ps[0]`, ..., `ps[n]`, in drawing order. */
  function Chain(ps: seq<Point>, n: nat): seq<Point>
    requires n < |ps|
  {
    if n == 0 then [] else Chain(ps, n - 1) + LinePath(ps[n - 1], ps[n])
  }

  /**
   * The points `draw_polygon` draws: the chain through all vertices, then the closing line,
   * which runs from the first vertex to the last.
   */
  function PolygonPoints(ps: seq<Point>): seq<Point>
    requires |ps| >= 1
  {
    Chain(ps, |ps| - 1) + LinePath(ps[0], ps[|ps| - 1])
  }

  method DrawPolygon(a: array<byte>, ps: seq<Point>, c: Rgb)
    requires Drawable(a[..]) && |ps| >= 1 && AllFitI32(ps)
    modifies a
    ensures a[..] == Plot(old(a[..]), PolygonPoints(ps), c)
  {
    for i := 0 to |ps| - 1
      invariant Drawable(a[..]) && a[..] == Plot(old(a[..]), Chain(ps, i), c)
    {
      DrawLine(a, ps[i], ps[i + 1], c);
      PlotAppend(old(a[..]), Chain(ps, i), LinePath(ps[i], ps[i + 1]), c);
    }
    DrawLine(a, ps[0], ps[|ps| - 1], c);
    PlotAppend(old(a[..]), Chain(ps, |ps| - 1), LinePath(ps[0], ps[|ps| - 1]), c);
  }

  /** A point is on the chain exactly when it is on one of its lines. */
  lemma {:induction false} ChainMembers(ps: seq<Point>, n: nat, q: Point)
    requires n < |ps|
    ensures q in Chain(ps, n) <==> exists i :: 0 <= i < n && q in LinePath(ps[i], ps[i + 1])
  {
    if n > 0 {
      ChainMembers(ps, n - 1, q);
      if q in LinePath(ps[n - 1], ps[n]) {
        assert 0 <= n - 1 < n && q in LinePath(ps[n - 1], ps[n - 1 + 1]);
      }
    }
  }

  /**
   * A point is drawn exactly when it lies on the line between two consecutive vertices or on
   * the closing line from the first vertex to the last.
   */
  lemma PolygonMembers(ps: seq<Point>, q: Point)
    requires |ps| >= 1
    ensures q in PolygonPoints(ps) <==>
      (exists i :: 0 <= i < |ps| - 1 && q in LinePath(ps[i], ps[i + 1]))
      || q in LinePath(ps[0], ps[|ps| - 1])
  {
    ChainMembers(ps, |ps| - 1, q);
  }

  /** Every vertex is drawn. */
  lemma PolygonVertices(ps: seq<Point>, i: nat)
    requires i < |ps|
    ensures ps[i] in PolygonPoints(ps)
  {
    var last := |ps| - 1;
    PolygonMembers(ps, ps[i]);
    if i < last {
      LinePathEnds(ps[i], ps[i + 1]);
      assert LinePath(ps[i], ps[i + 1])[0] == ps[i];
    } else {
      LinePathEnds(ps[0], ps[last]);
      var path := LinePath(ps[0], ps[last]);
      assert path[|path| - 1] == ps[i];
    }
  }

  /** A line from a point to itself is that single point. */
  lemma DegenerateLine(p: Point)
    ensures LinePath(p, p) == [p]
  {
    LinePathEnds(p, p);
  }

  /** A polygon with a single vertex draws just that vertex. */
  lemma SingleVertexPolygon(p: Point)
    ensures PolygonPoints([p]) == [p]
  {
    DegenerateLine(p);
  }
}
