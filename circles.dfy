/**
 * The filled circle: every pixel of the (saturated) bounding box whose squared distance from
 * the centre is at most the squared radius, visited row by row and left to right.
 */
module Circles {
  import opened Primitives
  import opened Pixels

  /** `u32::saturating_sub`: the least `u32` at or above the exact difference. */
  function SatSub(a: u32, b: u32): (r: u32)
    ensures r >= a - b && (r == 0 || r == a - b)
  {
    if a >= b then a - b else 0
  }

  /** `u32::saturating_add`: the greatest `u32` at or below the exact sum. */
  function SatAdd(a: u32, b: u32): (r: u32)
    ensures r <= a + b && (r == U32_MAX || r == a + b)
  {
    if a + b <= U32_MAX then a + b else U32_MAX
  }

  /**
   * The circle test done in `i32` stays exact: every visited coordinate, the centre and the
   * radius keep their value when cast, and the sum of two squares up to the squared radius
   * does not overflow.
   */
  predicate CircleFitsI32(center: Point, radius: u32)
  {
    center.x + radius <= I32_MAX && center.y + radius <= I32_MAX && 2 * radius * radius <= I32_MAX
  }

  /** The pixel test of `draw_circle`: the squared distance from the centre is at most the squared radius. */
  predicate InDisk(center: Point, radius: u32, q: Point)
  {
    (q.x - center.x) * (q.x - center.x) + (q.y - center.y) * (q.y - center.y) <= radius * radius
  }

  function MinX(center: Point, radius: u32): u32 { SatSub(center.x, radius) }
  function MaxX(center: Point, radius: u32): u32 { SatAdd(center.x, radius) }
  function MinY(center: Point, radius: u32): u32 { SatSub(center.y, radius) }
  function MaxY(center: Point, radius: u32): u32 { SatAdd(center.y, radius) }

  /** The disk's pixels in row `y` with `lo <= x < hi`, left to right. */
  function RowPoints(center: Point, radius: u32, y: u32, lo: nat, hi: nat): seq<Point>
    requires hi <= U32_MAX + 1
    decreases hi
  {
    if hi <= lo then []
    else
      RowPoints(center, radius, y, lo, hi - 1)
      + (if InDisk(center, radius, Point(hi - 1, y)) then [Point(hi - 1, y)] else [])
  }

  /** The disk's pixels in the rows `lo <= y < hi` of the bounding box, in drawing order. */
  function Rows(center: Point, radius: u32, lo: nat, hi: nat): seq<Point>
    requires hi <= U32_MAX + 1
    decreases hi
  {
    if hi <= lo then []
    else
      Rows(center, radius, lo, hi - 1)
      + RowPoints(center, radius, hi - 1, MinX(center, radius), MaxX(center, radius) + 1)
  }

  /** The points `draw_circle` draws, in drawing order. */
  function CirclePoints(center: Point, radius: u32): seq<Point>
  {
    Rows(center, radius, MinY(center, radius), MaxY(center, radius) + 1)
  }

  /** One more column of a row: the pixel is appended when it passes the test. */
  lemma RowPointsStep(center: Point, radius: u32, y: u32, lo: nat, x: u32)
    requires lo <= x
    ensures RowPoints(center, radius, y, lo, x + 1) == RowPoints(center, radius, y, lo, x)
      + (if InDisk(center, radius, Point(x, y)) then [Point(x, y)] else [])
  {}

  /** One more row of the box. */
  lemma RowsStep(center: Point, radius: u32, lo: nat, y: u32)
    requires lo <= y
    ensures Rows(center, radius, lo, y + 1) == Rows(center, radius, lo, y)
      + RowPoints(center, radius, y, MinX(center, radius), MaxX(center, radius) + 1)
  {}

  /** The inner loop of `draw_circle`: the pixels of row `y` of the bounding box, left to right. */
  method DrawCircleRow(a: array<byte>, center: Point, radius: u32, y: u32, c: Rgb)
    requires Drawable(a[..]) && CircleFitsI32(center, radius)
    modifies a
    ensures a[..] == Plot(old(a[..]), RowPoints(center, radius, y, MinX(center, radius), MaxX(center, radius) + 1), c)
  {
    var minX := SatSub(center.x, radius);
    var maxX := SatAdd(center.x, radius);
    for x := minX to maxX + 1
      invariant Drawable(a[..]) && a[..] == Plot(old(a[..]), RowPoints(center, radius, y, minX, x), c)
    {
      ghost var row := RowPoints(center, radius, y, minX, x);
      RowPointsStep(center, radius, y, minX, x);
      var p := Point(x, y);
      if InDisk(center, radius, p) {
        PlotSnoc(old(a[..]), row, p, c);
        DrawPoint(a, p, c);
      } else {
        assert row + [] == row;
      }
    }
  }

  method DrawCircle(a: array<byte>, center: Point, radius: u32, c: Rgb)
    requires Drawable(a[..]) && CircleFitsI32(center, radius)
    modifies a
    ensures a[..] == Plot(old(a[..]), CirclePoints(center, radius), c)
  {
    var minY := SatSub(center.y, radius);
    var maxY := SatAdd(center.y, radius);
    for y := minY to maxY + 1
      invariant Drawable(a[..]) && a[..] == Plot(old(a[..]), Rows(center, radius, minY, y), c)
    {
      ghost var above := Rows(center, radius, minY, y);
      DrawCircleRow(a, center, radius, y, c);
      RowsStep(center, radius, minY, y);
      PlotAppend(old(a[..]), above, RowPoints(center, radius, y, MinX(center, radius), MaxX(center, radius) + 1), c);
    }
  }

  /** A square no larger than `r * r` belongs to a number no further than `r` from zero. */
  lemma SquareBound(d: int, r: nat)
    requires d * d <= r * r
    ensures Abs(d) <= r
  {}

  /** Two squares summing to at most `r * r` each belong to a number no further than `r` from zero. */
  lemma SquaresBound(dx: int, dy: int, r: nat)
    requires dx * dx + dy * dy <= r * r
    ensures Abs(dx) <= r && Abs(dy) <= r
  {
    assert dx * dx >= 0 && dy * dy >= 0;
    SquareBound(dx, r);
    SquareBound(dy, r);
  }

  /** Every pixel of the disk lies in the bounding box the loops visit. */
  lemma DiskInBox(center: Point, radius: u32, q: Point)
    requires InDisk(center, radius, q)
    ensures MinX(center, radius) <= q.x <= MaxX(center, radius)
    ensures MinY(center, radius) <= q.y <= MaxY(center, radius)
  {
    SquaresBound(q.x - center.x, q.y - center.y, radius);
  }

  /** A pixel is in a row's stretch exactly when it is in that row and stretch and in the disk. */
  lemma {:induction false} RowMembers(center: Point, radius: u32, y: u32, lo: nat, hi: nat, q: Point)
    requires hi <= U32_MAX + 1
    ensures q in RowPoints(center, radius, y, lo, hi) <==>
      q.y == y && lo <= q.x < hi && InDisk(center, radius, q)
    decreases hi
  {
    if hi > lo {
      RowMembers(center, radius, y, lo, hi - 1, q);
    }
  }

  /** A pixel is in a band of rows exactly when it is in the band, the box's columns and the disk. */
  lemma {:induction false} RowsMembers(center: Point, radius: u32, lo: nat, hi: nat, q: Point)
    requires hi <= U32_MAX + 1
    ensures q in Rows(center, radius, lo, hi) <==>
      lo <= q.y < hi && MinX(center, radius) <= q.x <= MaxX(center, radius) && InDisk(center, radius, q)
    decreases hi
  {
    if hi > lo {
      RowsMembers(center, radius, lo, hi - 1, q);
      RowMembers(center, radius, hi - 1, MinX(center, radius), MaxX(center, radius) + 1, q);
    }
  }

  /** The circle is the whole disk: a pixel is drawn exactly when it passes the distance test. */
  lemma CircleIsDisk(center: Point, radius: u32, q: Point)
    ensures q in CirclePoints(center, radius) <==> InDisk(center, radius, q)
  {
    RowsMembers(center, radius, MinY(center, radius), MaxY(center, radius) + 1, q);
    if InDisk(center, radius, q) {
      DiskInBox(center, radius, q);
    }
  }

  /** Drawing order: row by row upwards, left to right within a row. */
  predicate Before(p: Point, q: Point)
  {
    p.y < q.y || (p.y == q.y && p.x < q.x)
  }

  predicate Ordered(pts: seq<Point>)
  {
    forall i, j :: 0 <= i < j < |pts| ==> Before(pts[i], pts[j])
  }

  lemma OrderedAppend(xs: seq<Point>, ys: seq<Point>)
    requires Ordered(xs) && Ordered(ys)
    requires forall p, q :: p in xs && q in ys ==> Before(p, q)
    ensures Ordered(xs + ys)
  {
    var zs := xs + ys;
    forall i, j | 0 <= i < j < |zs|
      ensures Before(zs[i], zs[j])
    {
      if j < |xs| {
        assert zs[i] == xs[i] && zs[j] == xs[j];
      } else if i >= |xs| {
        assert zs[i] == ys[i - |xs|] && zs[j] == ys[j - |xs|];
      } else {
        assert zs[i] in xs && zs[j] in ys;
      }
    }
  }

  lemma {:induction false} RowOrdered(center: Point, radius: u32, y: u32, lo: nat, hi: nat)
    requires hi <= U32_MAX + 1
    ensures Ordered(RowPoints(center, radius, y, lo, hi))
    decreases hi
  {
    if hi > lo {
      RowOrdered(center, radius, y, lo, hi - 1);
      var front := RowPoints(center, radius, y, lo, hi - 1);
      var last := if InDisk(center, radius, Point(hi - 1, y)) then [Point(hi - 1, y)] else [];
      forall p, q | p in front && q in last
        ensures Before(p, q)
      {
        RowMembers(center, radius, y, lo, hi - 1, p);
      }
      OrderedAppend(front, last);
    }
  }

  lemma {:induction false} RowsOrdered(center: Point, radius: u32, lo: nat, hi: nat)
    requires hi <= U32_MAX + 1
    ensures Ordered(Rows(center, radius, lo, hi))
    decreases hi
  {
    if hi > lo {
      RowsOrdered(center, radius, lo, hi - 1);
      var minX: nat, maxX: nat := MinX(center, radius), MaxX(center, radius);
      RowOrdered(center, radius, hi - 1, minX, maxX + 1);
      var front := Rows(center, radius, lo, hi - 1);
      var row := RowPoints(center, radius, hi - 1, minX, maxX + 1);
      forall p, q | p in front && q in row
        ensures Before(p, q)
      {
        RowsMembers(center, radius, lo, hi - 1, p);
        RowMembers(center, radius, hi - 1, minX, maxX + 1, q);
      }
      OrderedAppend(front, row);
    }
  }

  /**
   * The circle is drawn row by row from the bottom of the box, left to right, so no pixel is
   * drawn twice.
   */
  lemma CircleOrdered(center: Point, radius: u32)
    ensures Ordered(CirclePoints(center, radius))
    ensures var pts := CirclePoints(center, radius);
      forall i, j :: 0 <= i < j < |pts| ==> pts[i] != pts[j]
  {
    RowsOrdered(center, radius, MinY(center, radius), MaxY(center, radius) + 1);
  }
}
