/**
 * Geometry kernel of the one-shot document scan: integer contour vertices,
 * squared distances, corner ordering by coordinate sum and difference, and
 * the shoelace polygon area.
 */
module ScanGeometry {

  /** A contour vertex as read from an OpenCV integer point matrix. */
  datatype IntPoint = IntPoint(x: int, y: int)

  /** The two keys the corner ordering ranks points by. */
  datatype OrderKey = SumKey | DiffKey

  /** x+y separates top-left (least) from bottom-right (greatest); x-y separates bottom-left from top-right. */
  function KeyOf(key: OrderKey, p: IntPoint): int {
    match key
    case SumKey => p.x + p.y
    case DiffKey => p.x - p.y
  }

  /** Squared Euclidean distance; the service takes its square root. */
  function SqDist(a: IntPoint, b: IntPoint): nat {
    Square(a.x - b.x) + Square(a.y - b.y)
  }

  /**
   * n * n, defined by the odd-number sum (n*n = (n-1)*(n-1) + 2n - 1) so
   * that the solver meets no products until a proof asks for one.
   */
  function Square(n: int): nat
    decreases if n < 0 then -n else n, if n < 0 then 1 else 0
  {
    if n < 0 then Square(-n)
    else if n == 0 then 0
    else Square(n - 1) + 2 * n - 1
  }

  lemma {:induction false} SquareIsProduct(n: int)
    ensures Square(n) == n * n
    decreases if n < 0 then -n else n, if n < 0 then 1 else 0
  {
    if n < 0 {
      SquareIsProduct(-n);
    } else if n > 0 {
      SquareIsProduct(n - 1);
    }
  }

  /** Along a horizontal or vertical segment the squared distance is the squared coordinate gap. */
  lemma SqDistAxisAligned(a: IntPoint, b: IntPoint)
    ensures a.y == b.y ==> SqDist(a, b) == Square(b.x - a.x)
    ensures a.x == b.x ==> SqDist(a, b) == Square(b.y - a.y)
  {
    SquareIsProduct(a.x - b.x);
    SquareIsProduct(b.x - a.x);
    SquareIsProduct(a.y - b.y);
    SquareIsProduct(b.y - a.y);
    SquareIsProduct(0);
  }

  /** `i` is the first index at which `key` is least over `points`. */
  ghost predicate FirstMinAt(points: seq<IntPoint>, key: OrderKey, i: int) {
    && 0 <= i < |points|
    && (forall j :: 0 <= j < |points| ==> KeyOf(key, points[i]) <= KeyOf(key, points[j]))
    && (forall j :: 0 <= j < i ==> KeyOf(key, points[i]) < KeyOf(key, points[j]))
  }

  /** `i` is the first index at which `key` is greatest over `points`. */
  ghost predicate FirstMaxAt(points: seq<IntPoint>, key: OrderKey, i: int) {
    && 0 <= i < |points|
    && (forall j :: 0 <= j < |points| ==> KeyOf(key, points[j]) <= KeyOf(key, points[i]))
    && (forall j :: 0 <= j < i ==> KeyOf(key, points[j]) < KeyOf(key, points[i]))
  }

  /** `keys.indexOf(Math.min(...keys))` where `keys` maps `key` over the points. */
  function IndexOfMin(points: seq<IntPoint>, key: OrderKey): (i: nat)
    requires |points| > 0
    ensures FirstMinAt(points, key, i)
  {
    var n := |points|;
    if n == 1 then 0
    else
      var i := IndexOfMin(points[..n - 1], key);
      if KeyOf(key, points[n - 1]) < KeyOf(key, points[i]) then n - 1 else i
  }

  /** `keys.indexOf(Math.max(...keys))` where `keys` maps `key` over the points. */
  function IndexOfMax(points: seq<IntPoint>, key: OrderKey): (i: nat)
    requires |points| > 0
    ensures FirstMaxAt(points, key, i)
  {
    var n := |points|;
    if n == 1 then 0
    else
      var i := IndexOfMax(points[..n - 1], key);
      if KeyOf(key, points[i]) < KeyOf(key, points[n - 1]) then n - 1 else i
  }

  /**
   * `orderContour`: slot 0 (top-left) is the first point of least x+y,
   * slot 1 (top-right) the first of greatest x-y, slot 2 (bottom-right) the
   * first of greatest x+y and slot 3 (bottom-left) the first of least x-y.
   * No coordinate is changed. On an empty list the source indexes with -1
   * and yields undefined entries, so a non-empty list is required.
   */
  function OrderContour(points: seq<IntPoint>): (r: seq<IntPoint>)
    requires |points| > 0
    ensures |r| == 4
    ensures exists i :: FirstMinAt(points, SumKey, i) && r[0] == points[i]
    ensures exists i :: FirstMaxAt(points, DiffKey, i) && r[1] == points[i]
    ensures exists i :: FirstMaxAt(points, SumKey, i) && r[2] == points[i]
    ensures exists i :: FirstMinAt(points, DiffKey, i) && r[3] == points[i]
  {
    [ points[IndexOfMin(points, SumKey)], points[IndexOfMax(points, DiffKey)],
      points[IndexOfMax(points, SumKey)], points[IndexOfMin(points, DiffKey)] ]
  }

  /** The four corners of the axis-aligned rectangle [x0, x1] x [y0, y1], in order TL, TR, BR, BL. */
  function Rectangle(x0: int, y0: int, x1: int, y1: int): seq<IntPoint> {
    [IntPoint(x0, y0), IntPoint(x1, y0), IntPoint(x1, y1), IntPoint(x0, y1)]
  }

  /** `r` picks its four corners from `points` at the indices the ordering rules name. */
  ghost predicate PicksCorners(points: seq<IntPoint>, r: seq<IntPoint>, i0: int, i1: int, i2: int, i3: int) {
    && |r| == 4
    && FirstMinAt(points, SumKey, i0) && r[0] == points[i0]
    && FirstMaxAt(points, DiffKey, i1) && r[1] == points[i1]
    && FirstMaxAt(points, SumKey, i2) && r[2] == points[i2]
    && FirstMinAt(points, DiffKey, i3) && r[3] == points[i3]
  }

  /** The indices behind the ordered contour. */
  lemma OrderContourCorners(points: seq<IntPoint>) returns (i0: int, i1: int, i2: int, i3: int)
    requires |points| > 0
    ensures PicksCorners(points, OrderContour(points), i0, i1, i2, i3)
  {
    var r := OrderContour(points);
    i0 :| FirstMinAt(points, SumKey, i0) && r[0] == points[i0];
    i1 :| FirstMaxAt(points, DiffKey, i1) && r[1] == points[i1];
    i2 :| FirstMaxAt(points, SumKey, i2) && r[2] == points[i2];
    i3 :| FirstMinAt(points, DiffKey, i3) && r[3] == points[i3];
  }

  /** Ordering recovers [TL, TR, BR, BL] from any permutation of an axis-aligned rectangle's corners. */
  lemma OrderContourRectangle(points: seq<IntPoint>, x0: int, y0: int, x1: int, y1: int)
    requires x0 < x1 && y0 < y1
    requires multiset(points) == multiset(Rectangle(x0, y0, x1, y1))
    ensures |points| == 4
    ensures OrderContour(points) == Rectangle(x0, y0, x1, y1)
  {
    assert |points| == |multiset(points)| == 4;
    var i0, i1, i2, i3 := OrderContourCorners(points);
    RectangleCorners(points, OrderContour(points), x0, y0, x1, y1, i0, i1, i2, i3);
  }

  lemma RectangleCorners(points: seq<IntPoint>, r: seq<IntPoint>, x0: int, y0: int, x1: int, y1: int,
                         i0: int, i1: int, i2: int, i3: int)
    requires x0 < x1 && y0 < y1
    requires multiset(points) == multiset(Rectangle(x0, y0, x1, y1))
    requires PicksCorners(points, r, i0, i1, i2, i3)
    ensures r == Rectangle(x0, y0, x1, y1)
  {
    var rect := Rectangle(x0, y0, x1, y1);
    SameCorners(points, rect);
    var t0 :| 0 <= t0 < |points| && points[t0] == rect[0];
    var t1 :| 0 <= t1 < |points| && points[t1] == rect[1];
    var t2 :| 0 <= t2 < |points| && points[t2] == rect[2];
    var t3 :| 0 <= t3 < |points| && points[t3] == rect[3];
    RectangleExtremes(points[i0], x0, y0, x1, y1);
    RectangleExtremes(points[i1], x0, y0, x1, y1);
    RectangleExtremes(points[i2], x0, y0, x1, y1);
    RectangleExtremes(points[i3], x0, y0, x1, y1);
  }

  /** Each corner of a proper rectangle is the only one attaining its extreme key. */
  lemma RectangleExtremes(p: IntPoint, x0: int, y0: int, x1: int, y1: int)
    requires x0 < x1 && y0 < y1
    requires p in Rectangle(x0, y0, x1, y1)
    ensures KeyOf(SumKey, p) <= x0 + y0 ==> p == IntPoint(x0, y0)
    ensures KeyOf(DiffKey, p) >= x1 - y0 ==> p == IntPoint(x1, y0)
    ensures KeyOf(SumKey, p) >= x1 + y1 ==> p == IntPoint(x1, y1)
    ensures KeyOf(DiffKey, p) <= x0 - y1 ==> p == IntPoint(x0, y1)
  {
  }

  /** Two lists with the same multiset hold the same points. */
  lemma SameCorners(points: seq<IntPoint>, rect: seq<IntPoint>)
    requires multiset(points) == multiset(rect)
    ensures forall p :: p in points <==> p in rect
  {
    forall p ensures p in points <==> p in rect {
      assert p in points <==> p in multiset(points);
      assert p in rect <==> p in multiset(rect);
    }
  }

  /**
   * Each extreme used by the ordering is attained by a single point value:
   * the condition under which ordering an ordered contour changes nothing.
   */
  ghost predicate ExtremesUnique(points: seq<IntPoint>)
    requires |points| > 0
  {
    var r := OrderContour(points);
    forall p :: p in points ==>
      && (KeyOf(SumKey, p) == KeyOf(SumKey, r[0]) ==> p == r[0])
      && (KeyOf(DiffKey, p) == KeyOf(DiffKey, r[1]) ==> p == r[1])
      && (KeyOf(SumKey, p) == KeyOf(SumKey, r[2]) ==> p == r[2])
      && (KeyOf(DiffKey, p) == KeyOf(DiffKey, r[3]) ==> p == r[3])
  }

  /** With every extreme attained uniquely, ordering the output again returns it unchanged. */
  lemma OrderContourIdempotent(points: seq<IntPoint>)
    requires |points| > 0
    requires ExtremesUnique(points)
    ensures OrderContour(OrderContour(points)) == OrderContour(points)
  {
    var r := OrderContour(points);
    var i0, i1, i2, i3 := OrderContourCorners(points);
    var j0, j1, j2, j3 := OrderContourCorners(r);
    ReorderCorners(points, r, OrderContour(r), i0, i1, i2, i3, j0, j1, j2, j3);
  }

  lemma ReorderCorners(points: seq<IntPoint>, r: seq<IntPoint>, q: seq<IntPoint>,
                       i0: int, i1: int, i2: int, i3: int, j0: int, j1: int, j2: int, j3: int)
    requires PicksCorners(points, r, i0, i1, i2, i3)
    requires PicksCorners(r, q, j0, j1, j2, j3)
    requires forall p :: p in points ==>
      && (KeyOf(SumKey, p) == KeyOf(SumKey, r[0]) ==> p == r[0])
      && (KeyOf(DiffKey, p) == KeyOf(DiffKey, r[1]) ==> p == r[1])
      && (KeyOf(SumKey, p) == KeyOf(SumKey, r[2]) ==> p == r[2])
      && (KeyOf(DiffKey, p) == KeyOf(DiffKey, r[3]) ==> p == r[3])
    ensures q == r
  {
    // every point of r is one of the input points, so r shares their extremes
    var m0 := if j0 == 0 then i0 else if j0 == 1 then i1 else if j0 == 2 then i2 else i3;
    var m1 := if j1 == 0 then i0 else if j1 == 1 then i1 else if j1 == 2 then i2 else i3;
    var m2 := if j2 == 0 then i0 else if j2 == 1 then i1 else if j2 == 2 then i2 else i3;
    var m3 := if j3 == 0 then i0 else if j3 == 1 then i1 else if j3 == 2 then i2 else i3;
    assert r[j0] == points[m0] && r[j1] == points[m1] && r[j2] == points[m2] && r[j3] == points[m3];
  }

  /** The diamond with centre (cx, cy) and half-diagonal d, listed top, right, bottom, left. */
  function Diamond(cx: int, cy: int, d: int): seq<IntPoint> {
    [IntPoint(cx, cy - d), IntPoint(cx + d, cy), IntPoint(cx, cy + d), IntPoint(cx - d, cy)]
  }

  /**
   * A square turned by 45 degrees ties both keys: top-left and top-right
   * both become its top vertex and its left vertex is dropped, so the result
   * is not a permutation of the input.
   */
  lemma OrderContourDiamondRepeatsCorner(cx: int, cy: int, d: int)
    requires d > 0
    ensures OrderContour(Diamond(cx, cy, d)) ==
      [IntPoint(cx, cy - d), IntPoint(cx, cy - d), IntPoint(cx + d, cy), IntPoint(cx, cy + d)]
    ensures IntPoint(cx - d, cy) !in OrderContour(Diamond(cx, cy, d))
  {
    var i0, i1, i2, i3 := OrderContourCorners(Diamond(cx, cy, d));
    DiamondCorners(cx, cy, d, OrderContour(Diamond(cx, cy, d)), i0, i1, i2, i3);
  }

  lemma DiamondCorners(cx: int, cy: int, d: int, r: seq<IntPoint>, i0: int, i1: int, i2: int, i3: int)
    requires d > 0
    requires PicksCorners(Diamond(cx, cy, d), r, i0, i1, i2, i3)
    ensures r == [IntPoint(cx, cy - d), IntPoint(cx, cy - d), IntPoint(cx + d, cy), IntPoint(cx, cy + d)]
  {
    var dm := Diamond(cx, cy, d);
    assert KeyOf(SumKey, dm[0]) == KeyOf(SumKey, dm[3]) < KeyOf(SumKey, dm[1]) == KeyOf(SumKey, dm[2]);
    assert KeyOf(DiffKey, dm[2]) == KeyOf(DiffKey, dm[3]) < KeyOf(DiffKey, dm[0]) == KeyOf(DiffKey, dm[1]);
    assert i0 == 0 && i1 == 0;
    assert i2 == 1 && i3 == 2;
  }

  // ---------------------------------------------------------------------------
  // Shoelace area

  /** z-component of the cross product a x b: one shoelace term. */
  function Cross(a: IntPoint, b: IntPoint): int { Mul(a.x, b.y) - Mul(b.x, a.y) }

  /**
   * a * b, defined by repeated addition so that the solver meets no
   * products until a proof asks for one (`MulIsProduct`).
   */
  function Mul(a: int, b: int): int
    decreases if b < 0 then -b else b, if b < 0 then 1 else 0
  {
    if b < 0 then -Mul(a, -b)
    else if b == 0 then 0
    else Mul(a, b - 1) + a
  }

  lemma {:induction false} MulIsProduct(a: int, b: int)
    ensures Mul(a, b) == a * b
    decreases if b < 0 then -b else b, if b < 0 then 1 else 0
  {
    if b < 0 {
      MulIsProduct(a, -b);
    } else if b > 0 {
      MulIsProduct(a, b - 1);
    }
  }

  /** Index of the vertex after `i` in a closed polygon of `n` vertices, `(i + 1) % n`. */
  function Next(i: nat, n: nat): (j: nat)
    requires i < n
    ensures j == if i + 1 == n then 0 else i + 1
  {
    (i + 1) % n
  }

  /** The loop's terms from index `i` on: each vertex crossed with its successor, wrapping at the end. */
  function LoopSum(points: seq<IntPoint>, i: nat): int
    requires i <= |points|
    decreases |points| - i
  {
    if i == |points| then 0
    else Cross(points[i], points[Next(i, |points|)]) + LoopSum(points, i + 1)
  }

  /**
   * `polygonArea`: the absolute value of half the accumulated shoelace sum,
   * which is half the absolute signed area of the closed path.
   */
  function PolygonArea(points: seq<IntPoint>): (area: real)
    ensures area >= 0.0
    ensures 2.0 * area == (if ClosedSum(points) < 0 then -ClosedSum(points) else ClosedSum(points)) as real
  {
    LoopSumIsClosedSum(points);
    var twice := LoopSum(points, 0);
    (if twice < 0 then -twice else twice) as real / 2.0
  }

  /** Sum of the cross terms along the open path s[0] -> s[1] -> ... -> s[|s|-1]. */
  function PathSum(s: seq<IntPoint>): int {
    if |s| <= 1 then 0 else Cross(s[0], s[1]) + PathSum(s[1..])
  }

  /** Twice the signed area: the open path closed by its last-to-first edge. */
  function ClosedSum(s: seq<IntPoint>): int {
    if |s| == 0 then 0 else PathSum(s) + Cross(s[|s| - 1], s[0])
  }

  lemma {:induction false} LoopSumIsPath(points: seq<IntPoint>, i: nat)
    requires i < |points|
    ensures LoopSum(points, i) == PathSum(points[i..]) + Cross(points[|points| - 1], points[0])
    decreases |points| - i
  {
    var n := |points|;
    if i == n - 1 {
      assert LoopSum(points, n) == 0;
      assert |points[i..]| == 1;
    } else {
      LoopSumIsPath(points, i + 1);
      assert points[i..][1..] == points[i + 1..];
      assert points[i..][0] == points[i] && points[i..][1] == points[i + 1];
    }
  }

  /** The source's modular loop computes the closed-path sum. */
  lemma LoopSumIsClosedSum(points: seq<IntPoint>)
    ensures LoopSum(points, 0) == ClosedSum(points)
  {
    if |points| > 0 {
      LoopSumIsPath(points, 0);
      assert points[0..] == points;
    }
  }

  lemma {:induction false} PathSumAppend(s: seq<IntPoint>, b: IntPoint)
    requires |s| > 0
    ensures PathSum(s + [b]) == PathSum(s) + Cross(s[|s| - 1], b)
    decreases |s|
  {
    if |s| == 1 {
      assert s + [b] == [s[0], b];
      assert (s + [b])[1..] == [b];
    } else {
      assert (s + [b])[1..] == s[1..] + [b];
      PathSumAppend(s[1..], b);
    }
  }

  function Reverse(s: seq<IntPoint>): (r: seq<IntPoint>)
    ensures |r| == |s|
    ensures forall i :: 0 <= i < |s| ==> r[i] == s[|s| - 1 - i]
  {
    if |s| == 0 then [] else Reverse(s[1..]) + [s[0]]
  }

  lemma {:induction false} PathSumReverse(s: seq<IntPoint>)
    ensures PathSum(Reverse(s)) == -PathSum(s)
    decreases |s|
  {
    if |s| <= 1 {
    } else {
      PathSumReverse(s[1..]);
      PathSumAppend(Reverse(s[1..]), s[0]);
      assert Reverse(s[1..])[|s| - 2] == s[1];
    }
  }

  /** Fewer than three vertices enclose nothing. */
  lemma PolygonAreaDegenerate(points: seq<IntPoint>)
    requires |points| < 3
    ensures PolygonArea(points) == 0.0
  {
    LoopSumIsClosedSum(points);
    if |points| == 2 {
      assert PathSum(points[1..]) == 0;
    }
  }

  /** A unit square, wherever it sits (the origin included), has area exactly one. */
  lemma PolygonAreaUnitSquare(x: int, y: int)
    ensures PolygonArea(Rectangle(x, y, x + 1, y + 1)) == 1.0
  {
    PolygonAreaRectangle(x, y, x + 1, y + 1);
  }

  /** Moving the first vertex to the end leaves the area unchanged. */
  lemma PolygonAreaRotate(points: seq<IntPoint>)
    requires |points| > 0
    ensures PolygonArea(points[1..] + [points[0]]) == PolygonArea(points)
  {
    var rot := points[1..] + [points[0]];
    LoopSumIsClosedSum(points);
    LoopSumIsClosedSum(rot);
    if |points| > 1 {
      var t := points[1..];
      PathSumAppend(t, points[0]);
      assert rot[|rot| - 1] == points[0] && rot[0] == t[0];
    }
  }

  /** Reversing the vertex order negates the signed sum and so keeps the area. */
  lemma PolygonAreaReverse(points: seq<IntPoint>)
    ensures PolygonArea(Reverse(points)) == PolygonArea(points)
  {
    var rev := Reverse(points);
    LoopSumIsClosedSum(points);
    LoopSumIsClosedSum(rev);
    if |points| > 0 {
      PathSumReverse(points);
      assert ClosedSum(rev) == -ClosedSum(points);
    }
  }

  /** An axis-aligned rectangle's area is width times height. */
  lemma PolygonAreaRectangle(x0: int, y0: int, x1: int, y1: int)
    requires x0 <= x1 && y0 <= y1
    ensures PolygonArea(Rectangle(x0, y0, x1, y1)) == Mul(x1 - x0, y1 - y0) as real
  {
    var r := Rectangle(x0, y0, x1, y1);
    LoopSumIsClosedSum(r);
    var c0, c1 := Cross(r[0], r[1]), Cross(r[1], r[2]);
    var c2, c3 := Cross(r[2], r[3]), Cross(r[3], r[0]);
    MulIsProduct(x0, y0); MulIsProduct(x1, y0); MulIsProduct(x1, y1); MulIsProduct(x0, y1);
    MulIsProduct(x1 - x0, y1 - y0);
    assert r[1..][1..][1..] == [r[3]];
    assert PathSum(r[1..][1..]) == c2;
    assert PathSum(r) == c0 + c1 + c2;
    assert c0 + c1 + c2 + c3 == 2 * (x1 * y1 - x1 * y0 - x0 * y1 + x0 * y0);
    assert (x1 - x0) * (y1 - y0) == x1 * y1 - x1 * y0 - x0 * y1 + x0 * y0;
    assert (x1 - x0) * (y1 - y0) >= 0;
  }

  // ---------------------------------------------------------------------------
  // Rounded square root

  /**
   * `r` is the integer nearest the square root of `n`: r - 1/2 <= sqrt(n) < r + 1/2,
   * written without square roots.
   */
  ghost predicate NearestRoot(r: int, n: nat) {
    && r >= 0
    && 4 * n < Square(2 * r + 1)
    && (r == 0 || Square(2 * r - 1) <= 4 * n)
  }

  /**
   * `Math.round(Math.sqrt(n))` for a whole number n: the integer nearest the
   * square root. No square root of an integer lies exactly halfway between
   * two integers, so rounding never meets a tie.
   */
  function RoundSqrt(n: nat): (r: nat)
    ensures NearestRoot(r, n)
  {
    RoundSqrtFrom(n, 0)
  }

  function RoundSqrtFrom(n: nat, k: nat): (r: nat)
    requires k == 0 || Square(2 * k - 1) <= 4 * n
    ensures NearestRoot(r, n)
    decreases 4 * n + 1 - k
  {
    if 4 * n < Square(2 * k + 1) then k
    else
      SquareAtLeast(2 * k + 1);
      RoundSqrtFrom(n, k + 1)
  }

  lemma {:induction false} SquareAtLeast(n: nat)
    ensures n <= Square(n)
  {
    if n > 0 {
      SquareAtLeast(n - 1);
    }
  }
  /** The rounded root is 0 exactly for 0. */
  lemma RoundSqrtZero(n: nat)
    ensures RoundSqrt(n) == 0 <==> n == 0
  {
    var r := RoundSqrt(n);
    if r >= 1 {
      SquareAtLeast(2 * r - 1);
    }
    assert Square(1) == 1;
  }


  lemma {:induction false} SquareLess(a: nat, b: nat)
    requires a < b
    ensures Square(a) < Square(b)
    decreases b
  {
    if a < b - 1 {
      SquareLess(a, b - 1);
    }
  }

  lemma {:induction false} SquareOfDouble(k: nat)
    ensures Square(2 * k) == 4 * Square(k)
  {
    if k > 0 {
      SquareOfDouble(k - 1);
      assert Square(2 * k) == Square(2 * k - 2) + 4 * k - 3 + 4 * k - 1;
    }
  }

  /** The only integer nearest the square root of k*k is k. */
  lemma NearestRootOfSquare(k: nat, r: nat)
    requires NearestRoot(r, Square(k))
    ensures r == k
  {
    SquareOfDouble(k);
    if r < k {
      SquareLess(2 * r + 1, 2 * k);
    } else if r > k {
      SquareLess(2 * k, 2 * r - 1);
    }
  }

  /** A perfect square rounds to its exact root. */
  lemma RoundSqrtOfSquare(k: nat)
    ensures RoundSqrt(Square(k)) == k
  {
    NearestRootOfSquare(k, RoundSqrt(Square(k)));
  }
}
