/**
 * Geometry of the interactive scanner: corner points on the edit canvas,
 * squared distances, and `orderPoints`, the component's own corner
 * ordering (by y, then by x), which differs from the scan service's
 * ordering by coordinate sum and difference.
 */
module ScannerGeometry {
  import opened Arrays

  /** A canvas point; coordinates are floating point in the source and real numbers here. */
  datatype Point = Point(x: real, y: real)

  /** Square of the Euclidean distance; the source takes its square root. */
  function SqDistance(a: Point, b: Point): (d: real)
    ensures d >= 0.0
  {
    (b.x - a.x) * (b.x - a.x) + (b.y - a.y) * (b.y - a.y)
  }

  /** Sort keys of the three comparators `a.y - b.y`, `a.x - b.x` and `b.x - a.x`. */
  function PointY(p: Point): real { p.y }
  function PointX(p: Point): real { p.x }
  function NegPointX(p: Point): real { -p.x }

  /**
   * The layout `orderPoints` produces from four points: the top pair
   * (indices 0, 1) lies no lower than the bottom pair (2, 3); the top pair
   * runs left to right and the bottom pair right to left, and equal x keeps
   * the higher point first.
   */
  predicate CornerLayout(r: seq<Point>)
    requires |r| == 4
  {
    && r[0].y <= r[2].y && r[0].y <= r[3].y && r[1].y <= r[2].y && r[1].y <= r[3].y
    && (r[0].x < r[1].x || (r[0].x == r[1].x && r[0].y <= r[1].y))
    && (r[3].x < r[2].x || (r[3].x == r[2].x && r[2].y <= r[3].y))
  }

  /**
   * `orderPoints`: any list not of four points comes back unchanged;
   * otherwise a stable sort by y splits the points into the top two and the
   * bottom two, the top pair is stably sorted by ascending x and the bottom
   * pair by descending x, giving [top-left, top-right, bottom-right,
   * bottom-left].
   */
  function OrderPoints(points: seq<Point>): (r: seq<Point>)
    ensures |points| != 4 ==> r == points
    ensures |points| == 4 ==> |r| == 4 && multiset(r) == multiset(points) && CornerLayout(r)
  {
    if |points| != 4 then points
    else
      var byY := Sort(PointY, points);
      var top := Sort(PointX, [byY[0], byY[1]]);      // points.slice(0, 2)
      var bottom := Sort(NegPointX, [byY[2], byY[3]]); // points.slice(2)
      SortPermutes(PointY, points);
      SortSorted(PointY, points);
      PairsOfSorted(byY);
      [top[0], top[1], bottom[0], bottom[1]]
  }

  /**
   * The corners `OrderPoints` returns, named by their positions in `points`.
   * Every top corner comes before every bottom corner in the stable y
   * order (smaller y, or equal y and earlier in `points`). Within the top
   * pair the left corner is the one of smaller x, and on equal x the one
   * first in the y order; within the bottom pair the right corner is the
   * one of larger x, and on equal x the one first in the y order. Since
   * that y order is a strict total order on the four positions, these
   * conditions leave no choice.
   */
  ghost predicate TieBroken(points: seq<Point>, i0: int, i1: int, i2: int, i3: int) {
    && |points| == 4
    && Precedes(PointY, points, i0, i2) && Precedes(PointY, points, i0, i3)
    && Precedes(PointY, points, i1, i2) && Precedes(PointY, points, i1, i3)
    && (points[i0].x < points[i1].x || (points[i0].x == points[i1].x && Precedes(PointY, points, i0, i1)))
    && (points[i3].x < points[i2].x || (points[i3].x == points[i2].x && Precedes(PointY, points, i2, i3)))
  }

  /**
   * `orderPoints` breaks ties the way the stable sorts do: with two points
   * of equal y on the boundary between the pairs, the one listed first
   * goes into the top pair.
   */
  lemma OrderPointsTieBreak(points: seq<Point>) returns (i0: int, i1: int, i2: int, i3: int)
    requires |points| == 4
    ensures TieBroken(points, i0, i1, i2, i3)
    ensures OrderPoints(points) == [points[i0], points[i1], points[i2], points[i3]]
  {
    var byY := Sort(PointY, points);
    var sigma := SortStable(PointY, points);
    assert byY[0] == points[sigma[0]] && byY[1] == points[sigma[1]];
    assert byY[2] == points[sigma[2]] && byY[3] == points[sigma[3]];
    assert Precedes(PointY, points, sigma[0], sigma[1]) && Precedes(PointY, points, sigma[2], sigma[3]);
    assert Precedes(PointY, points, sigma[0], sigma[2]) && Precedes(PointY, points, sigma[0], sigma[3]);
    assert Precedes(PointY, points, sigma[1], sigma[2]) && Precedes(PointY, points, sigma[1], sigma[3]);
    SortPair(PointX, byY[0], byY[1]);
    SortPair(NegPointX, byY[2], byY[3]);
    if byY[1].x < byY[0].x {
      i0, i1 := sigma[1], sigma[0];
    } else {
      i0, i1 := sigma[0], sigma[1];
    }
    if byY[3].x > byY[2].x {
      i2, i3 := sigma[3], sigma[2];
    } else {
      i2, i3 := sigma[2], sigma[3];
    }
  }

  /** The conditions of `TieBroken` name the corners uniquely. */
  lemma TieBrokenUnique(points: seq<Point>, i0: int, i1: int, i2: int, i3: int, j0: int, j1: int, j2: int, j3: int)
    requires TieBroken(points, i0, i1, i2, i3) && TieBroken(points, j0, j1, j2, j3)
    ensures i0 == j0 && i1 == j1 && i2 == j2 && i3 == j3
  {
    TopOfTieBroken(points, i0, i1, i2, i3, j0);
    TopOfTieBroken(points, i0, i1, i2, i3, j1);
    TopOfTieBroken(points, j0, j1, j2, j3, i0);
    TopOfTieBroken(points, j0, j1, j2, j3, i1);
  }

  /** A top corner of one `TieBroken` naming is a top corner of any other. */
  lemma TopOfTieBroken(points: seq<Point>, i0: int, i1: int, i2: int, i3: int, t: int)
    requires TieBroken(points, i0, i1, i2, i3)
    requires 0 <= t < 4 && t != i2 && t != i3
    ensures t == i0 || t == i1
  {
  }

  /**
   * The 45-degree diamond with top (5, 0), right (10, 5), bottom (5, 10)
   * and left (0, 5), listed top, left, bottom, right: right and left share
   * y = 5 and left is listed first, so left joins the top pair and becomes
   * the top-left corner.
   */
  lemma OrderPointsDiamond()
    ensures OrderPoints([Point(5.0, 0.0), Point(0.0, 5.0), Point(5.0, 10.0), Point(10.0, 5.0)])
      == [Point(0.0, 5.0), Point(5.0, 0.0), Point(10.0, 5.0), Point(5.0, 10.0)]
  {
    var points := [Point(5.0, 0.0), Point(0.0, 5.0), Point(5.0, 10.0), Point(10.0, 5.0)];
    var i0, i1, i2, i3 := OrderPointsTieBreak(points);
    TieBrokenUnique(points, i0, i1, i2, i3, 1, 0, 3, 2);
  }

  /** Sorting the top and bottom halves of a y-sorted four-point list yields the corner layout. */
  lemma PairsOfSorted(byY: seq<Point>)
    requires |byY| == 4 && SortedBy(PointY, byY)
    ensures var top := Sort(PointX, [byY[0], byY[1]]);
            var bottom := Sort(NegPointX, [byY[2], byY[3]]);
            var r := [top[0], top[1], bottom[0], bottom[1]];
            multiset(r) == multiset(byY) && CornerLayout(r)
  {
    var p, q, u, v := byY[0], byY[1], byY[2], byY[3];
    assert byY == [p, q, u, v];
    assert p.y <= q.y && q.y <= u.y && u.y <= v.y;
    PairsOfPoints(p, q, u, v);
  }

  /** `PairsOfSorted` for the four points of a y-sorted list, named one by one. */
  lemma PairsOfPoints(p: Point, q: Point, u: Point, v: Point)
    requires p.y <= q.y <= u.y <= v.y
    ensures var top := Sort(PointX, [p, q]);
            var bottom := Sort(NegPointX, [u, v]);
            var r := [top[0], top[1], bottom[0], bottom[1]];
            multiset(r) == multiset([p, q, u, v]) && CornerLayout(r)
  {
    TopPair(p, q);
    BottomPair(u, v);
    var top := Sort(PointX, [p, q]);
    var bottom := Sort(NegPointX, [u, v]);
    var a, b, c, d := top[0], top[1], bottom[0], bottom[1];
    PairsSwapped(a, b, c, d, p, q, u, v);
    MultisetOfFour(a, b, c, d);
    MultisetOfFour(p, q, u, v);
    PairsLayout(a, b, c, d, p, q, u, v);
  }

  /** Two pairs taken from the top and bottom halves, each in its own x order, are in the corner layout. */
  lemma PairsLayout(a: Point, b: Point, c: Point, d: Point, p: Point, q: Point, u: Point, v: Point)
    requires p.y <= q.y <= u.y <= v.y
    requires (a == p && b == q) || (a == q && b == p)
    requires (c == u && d == v) || (c == v && d == u)
    requires a.x < b.x || (a.x == b.x && a.y <= b.y)
    requires d.x < c.x || (d.x == c.x && c.y <= d.y)
    ensures CornerLayout([a, b, c, d])
  {
  }

  /** Four points made of two pairs, each possibly swapped, are a rearrangement of the original four. */
  lemma PairsSwapped(a: Point, b: Point, c: Point, d: Point, p: Point, q: Point, u: Point, v: Point)
    requires (a == p && b == q) || (a == q && b == p)
    requires (c == u && d == v) || (c == v && d == u)
    ensures multiset{a, b, c, d} == multiset{p, q, u, v}
  {
  }

  /** The multiset of a four-point list. */
  lemma MultisetOfFour(a: Point, b: Point, c: Point, d: Point)
    ensures multiset([a, b, c, d]) == multiset{a, b, c, d}
  {
  }

  /** The top pair, stably sorted by ascending x, from a pair already in y order. */
  lemma TopPair(u: Point, v: Point)
    requires u.y <= v.y
    ensures var t := Sort(PointX, [u, v]);
            && |t| == 2 && ((t[0] == u && t[1] == v) || (t[0] == v && t[1] == u))
            && (t[0].x < t[1].x || (t[0].x == t[1].x && t[0].y <= t[1].y))
  {
    SortPair(PointX, u, v);
  }

  /** The bottom pair, stably sorted by descending x, from a pair already in y order. */
  lemma BottomPair(u: Point, v: Point)
    requires u.y <= v.y
    ensures var t := Sort(NegPointX, [u, v]);
            && |t| == 2 && ((t[0] == u && t[1] == v) || (t[0] == v && t[1] == u))
            && (t[1].x < t[0].x || (t[1].x == t[0].x && t[0].y <= t[1].y))
  {
    SortPair(NegPointX, u, v);
  }

  /** Four points already in the layout `orderPoints` produces are returned as they are. */
  lemma OrderPointsKeepsLayout(r: seq<Point>)
    requires |r| == 4 && CornerLayout(r)
    ensures OrderPoints(r) == r
  {
    var a, b, c, d := r[0], r[1], r[2], r[3];
    assert r == [a, b, c, d];
    SortSplitsPairs(PointY, a, b, c, d);
    SortPair(PointY, a, b);
    SortPair(PointY, c, d);
    var byY := Sort(PointY, r);
    assert [byY[0], byY[1]] == Sort(PointY, [a, b]) && [byY[2], byY[3]] == Sort(PointY, [c, d]);
    SortPair(PointX, a, b);
    SortPair(PointX, b, a);
    SortPair(NegPointX, c, d);
    SortPair(NegPointX, d, c);
  }

  /** Ordering the ordered corners again changes nothing. */
  lemma OrderPointsIdempotent(points: seq<Point>)
    ensures OrderPoints(OrderPoints(points)) == OrderPoints(points)
  {
    if |points| == 4 {
      OrderPointsKeepsLayout(OrderPoints(points));
    }
  }
}
