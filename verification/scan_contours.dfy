/**
 * Decision layer of the one-shot document scan: which polygon
 * approximations survive, how they are ranked, which one wins, and the
 * output size and destination rectangle of the perspective warp.
 *
 * Contour extraction and polygon approximation are OpenCV operators; they
 * are represented here by their result, the list of approximations in the
 * order the contour finder returned them.
 */
module ScanContours {
  import opened Wrappers
  import opened ScanGeometry
  import opened Arrays

  /** One polygon approximation of a contour, as a list of integer vertices. */
  type Polygon = seq<IntPoint>

  /** Minimum contour area used when the caller gives none. */
  const DefaultMinContourArea: real := 15000.0

  /** The geometric part of the scan options; absent fields are None. */
  datatype ScanOptions = ScanOptions(
    maxOutputWidth: Option<int>,
    maxOutputHeight: Option<int>,
    minContourArea: Option<real>)

  /** The contour area compared against the minimum: the caller's value, else 15000. */
  function MinArea(options: ScanOptions): (m: real)
    ensures options.minContourArea.Some? ==> m == options.minContourArea.value
    ensures options.minContourArea.None? ==> m == DefaultMinContourArea
  {
    options.minContourArea.GetOr(DefaultMinContourArea)
  }

  /** An approximation is a candidate when it has four vertices and at least `minArea` of area. */
  predicate Qualifies(p: Polygon, minArea: real) {
    |p| == 4 && PolygonArea(p) >= minArea
  }

  /** The candidate test for one minimum area, as a test function. */
  function QualifiesFor(minArea: real): Polygon -> bool {
    p => Qualifies(p, minArea)
  }

  /** The sort key of the comparator `polygonArea(b) - polygonArea(a)`: larger areas first. */
  function NegArea(p: Polygon): real {
    -PolygonArea(p)
  }

  /** Areas never increase along `s`. */
  ghost predicate SortedByArea(s: seq<Polygon>) {
    forall i, j :: 0 <= i < j < |s| ==> PolygonArea(s[j]) <= PolygonArea(s[i])
  }

  /**
   * `extractContours`: the qualifying approximations, each as often as it
   * occurs, stably ranked by decreasing area.
   */
  function ExtractContours(approxs: seq<Polygon>, minArea: real): (r: seq<Polygon>)
    ensures forall p :: p in r <==> p in approxs && Qualifies(p, minArea)
    ensures multiset(r) == multiset(Filter(QualifiesFor(minArea), approxs))
    ensures SortedByArea(r)
  {
    var f := Filter(QualifiesFor(minArea), approxs);
    var r := Sort(NegArea, f);
    FilterMembers(QualifiesFor(minArea), approxs);
    SortPermutes(NegArea, f);
    SortSorted(NegArea, f);
    assert forall p :: p in r <==> p in f by {
      forall p ensures p in r <==> p in f {
        assert p in r <==> p in multiset(r);
        assert p in f <==> p in multiset(f);
      }
    }
    assert forall p :: QualifiesFor(minArea)(p) == Qualifies(p, minArea);
    assert forall i :: 0 <= i < |r| ==> NegArea(r[i]) == -PolygonArea(r[i]);
    r
  }

  /** `i` is the first qualifying approximation of greatest area. */
  ghost predicate FirstLargestAt(approxs: seq<Polygon>, minArea: real, i: int) {
    && 0 <= i < |approxs|
    && Qualifies(approxs[i], minArea)
    && (forall j :: 0 <= j < |approxs| && Qualifies(approxs[j], minArea) ==>
          PolygonArea(approxs[j]) <= PolygonArea(approxs[i]))
    && (forall j :: 0 <= j < i && Qualifies(approxs[j], minArea) ==>
          PolygonArea(approxs[j]) < PolygonArea(approxs[i]))
  }

  /** The head of `extractContours` is the first qualifying approximation of greatest area. */
  lemma ExtractContoursHead(approxs: seq<Polygon>, minArea: real)
    requires |ExtractContours(approxs, minArea)| > 0
    ensures exists i :: FirstLargestAt(approxs, minArea, i) && ExtractContours(approxs, minArea)[0] == approxs[i]
  {
    var i := FilterSortHead(QualifiesFor(minArea), NegArea, approxs);
    assert forall j :: 0 <= j < |approxs| ==> NegArea(approxs[j]) == -PolygonArea(approxs[j]);
    assert forall j :: 0 <= j < |approxs| ==> QualifiesFor(minArea)(approxs[j]) == Qualifies(approxs[j], minArea);
  }

  /** Ranking is idempotent: ranking the ranked candidates again changes nothing. */
  lemma ExtractContoursIdempotent(approxs: seq<Polygon>, minArea: real)
    ensures ExtractContours(ExtractContours(approxs, minArea), minArea) == ExtractContours(approxs, minArea)
  {
    var r := ExtractContours(approxs, minArea);
    FilterAllKept(QualifiesFor(minArea), r);
    assert forall i, j :: 0 <= i < j < |r| ==> NegArea(r[i]) <= NegArea(r[j]);
    SortOfSorted(NegArea, r);
  }

  /** What the service needs to build the perspective transform. */
  datatype WarpPlan = WarpPlan(
    source: seq<IntPoint>,        // ordered contour: TL, TR, BR, BL
    width: int,
    height: int)

  /**
   * The corners the ordered source corners are mapped to: the axis-aligned
   * rectangle from the origin to (W-1, H-1), starting at the origin and
   * going round through (W-1, 0).
   */
  function Destination(plan: WarpPlan): (d: seq<IntPoint>)
    ensures |d| == 4 && d[0] == IntPoint(0, 0) && d[2] == IntPoint(plan.width - 1, plan.height - 1)
    ensures d[1] == IntPoint(d[2].x, d[0].y) && d[3] == IntPoint(d[0].x, d[2].y)
  {
    Rectangle(0, 0, plan.width - 1, plan.height - 1)
  }

  /**
   * The destination is listed in the order `OrderContour` produces, so
   * corner k of the ordered source goes to corner k of the target.
   */
  lemma DestinationOrdered(plan: WarpPlan)
    requires plan.width >= 2 && plan.height >= 2
    ensures OrderContour(Destination(plan)) == Destination(plan)
  {
    OrderContourRectangle(Destination(plan), 0, 0, plan.width - 1, plan.height - 1);
  }

  /** The destination of a non-empty target has area (W-1)(H-1). */
  lemma DestinationArea(plan: WarpPlan)
    requires plan.width >= 1 && plan.height >= 1
    ensures PolygonArea(Destination(plan)) == Mul(plan.width - 1, plan.height - 1) as real
  {
    PolygonAreaRectangle(0, 0, plan.width - 1, plan.height - 1);
  }

  /** Squared length of the longer of the top and bottom sides. */
  function WarpWidthSq(o: seq<IntPoint>): nat
    requires |o| == 4
  {
    var top := SqDist(o[0], o[1]);
    var bottom := SqDist(o[2], o[3]);
    if top >= bottom then top else bottom
  }

  /** Squared length of the longer of the left and right sides. */
  function WarpHeightSq(o: seq<IntPoint>): nat
    requires |o| == 4
  {
    var left := SqDist(o[0], o[3]);
    var right := SqDist(o[1], o[2]);
    if left >= right then left else right
  }

  /**
   * `given ?? Math.round(Math.sqrt(sideSq))`: the caller's size when one is
   * given, otherwise the rounded length of the side.
   */
  function TargetSize(given: Option<int>, sideSq: nat): (n: int)
    ensures given.Some? ==> n == given.value
    ensures given.None? ==> NearestRoot(n, sideSq)
  {
    match given
    case Some(v) => v
    case None => RoundSqrt(sideSq)
  }

  /**
   * Output size and corner correspondence of `warpPerspective`: an explicit
   * size wins, otherwise each dimension is the rounded length of the longer
   * of its two opposite sides. The homography and the resampling are OpenCV.
   */
  function PlanWarp(contour: Polygon, options: ScanOptions): (plan: WarpPlan)
    requires |contour| > 0
    ensures plan.source == OrderContour(contour)
    ensures plan.width == TargetSize(options.maxOutputWidth, WarpWidthSq(plan.source))
    ensures plan.height == TargetSize(options.maxOutputHeight, WarpHeightSq(plan.source))
  {
    var ordered := OrderContour(contour);
    var w := TargetSize(options.maxOutputWidth, WarpWidthSq(ordered));
    var h := TargetSize(options.maxOutputHeight, WarpHeightSq(ordered));
    WarpPlan(ordered, w, h)
  }

  /** The outcome of `processDocument`: the winning contour and how it is warped. */
  datatype Detection = Detection(contour: Polygon, plan: WarpPlan)

  /**
   * `processDocument` and the null check of `scanFromVideo`: the winner is
   * the head of the ranked candidates; with no candidate there is no result.
   */
  function ProcessDocument(approxs: seq<Polygon>, options: ScanOptions): (r: Option<Detection>)
    ensures r.None? <==> forall p :: p in approxs ==> !Qualifies(p, MinArea(options))
    ensures r.Some? ==> exists i :: FirstLargestAt(approxs, MinArea(options), i) && r.value.contour == approxs[i]
    ensures r.Some? ==> r.value.plan == PlanWarp(r.value.contour, options)
  {
    var candidates := ExtractContours(approxs, MinArea(options));
    if |candidates| > 0 then
      ExtractContoursHead(approxs, MinArea(options));
      Some(Detection(candidates[0], PlanWarp(candidates[0], options)))
    else
      None
  }

  /**
   * Without a size from the caller, a target dimension is 0 exactly when
   * both of its opposite sides of the ordered contour have length 0; one
   * side of length 0 is not enough, since the longer side is taken.
   */
  lemma PlanWarpZeroSize(contour: Polygon, options: ScanOptions)
    requires |contour| > 0
    ensures var plan := PlanWarp(contour, options);
      var o := plan.source;
      options.maxOutputWidth.None? ==>
        (plan.width == 0 <==> SqDist(o[0], o[1]) == 0 && SqDist(o[2], o[3]) == 0)
    ensures var plan := PlanWarp(contour, options);
      var o := plan.source;
      options.maxOutputHeight.None? ==>
        (plan.height == 0 <==> SqDist(o[0], o[3]) == 0 && SqDist(o[1], o[2]) == 0)
  {
    var o := OrderContour(contour);
    RoundSqrtZero(WarpWidthSq(o));
    RoundSqrtZero(WarpHeightSq(o));
  }

  /** The warp of an axis-aligned rectangle, given in any order, keeps its exact size. */
  lemma PlanWarpRectangle(contour: Polygon, x0: int, y0: int, x1: int, y1: int, options: ScanOptions)
    requires x0 < x1 && y0 < y1
    requires multiset(contour) == multiset(Rectangle(x0, y0, x1, y1))
    requires options.maxOutputWidth.None? && options.maxOutputHeight.None?
    ensures |contour| == 4
    ensures PlanWarp(contour, options) ==
      WarpPlan(Rectangle(x0, y0, x1, y1), x1 - x0, y1 - y0)
  {
    var plan := PlanWarp(contour, options);
    OrderContourRectangle(contour, x0, y0, x1, y1);
    RectangleSides(x0, y0, x1, y1);
    var rect := Rectangle(x0, y0, x1, y1);
    assert plan.source == rect;
    assert WarpWidthSq(plan.source) == Square(x1 - x0);
    assert WarpHeightSq(plan.source) == Square(y1 - y0);
    TargetSizeOfSquare(x1 - x0);
    TargetSizeOfSquare(y1 - y0);
    assert options.maxOutputWidth == None && options.maxOutputHeight == None;
    assert plan.width == x1 - x0 && plan.height == y1 - y0;
  }

  /** Without an explicit size, a side of whole length k gives a target size of exactly k. */
  lemma TargetSizeOfSquare(k: nat)
    ensures TargetSize(None, Square(k)) == k
  {
    RoundSqrtOfSquare(k);
  }

  /** The longer sides of an axis-aligned rectangle are its width and height. */
  lemma RectangleSides(x0: int, y0: int, x1: int, y1: int)
    ensures WarpWidthSq(Rectangle(x0, y0, x1, y1)) == Square(x1 - x0)
    ensures WarpHeightSq(Rectangle(x0, y0, x1, y1)) == Square(y1 - y0)
  {
    var o := Rectangle(x0, y0, x1, y1);
    SqDistAxisAligned(o[0], o[1]);
    SqDistAxisAligned(o[3], o[2]);
    SqDistAxisAligned(o[0], o[3]);
    SqDistAxisAligned(o[1], o[2]);
    assert SqDist(o[2], o[3]) == SqDist(o[3], o[2]);
  }

  /**
   * A frame whose only approximation is a large enough axis-aligned
   * rectangle is scanned to a warp of exactly that rectangle's size.
   */
  lemma ScanSingleRectangle(x0: int, y0: int, x1: int, y1: int, options: ScanOptions)
    requires x0 < x1 && y0 < y1
    requires Mul(x1 - x0, y1 - y0) as real >= MinArea(options)
    requires options.maxOutputWidth.None? && options.maxOutputHeight.None?
    ensures ProcessDocument([Rectangle(x0, y0, x1, y1)], options) ==
      Some(Detection(Rectangle(x0, y0, x1, y1),
        WarpPlan(Rectangle(x0, y0, x1, y1), x1 - x0, y1 - y0)))
  {
    var rect := Rectangle(x0, y0, x1, y1);
    PolygonAreaRectangle(x0, y0, x1, y1);
    assert Qualifies(rect, MinArea(options));
    var r := ProcessDocument([rect], options);
    var i :| FirstLargestAt([rect], MinArea(options), i) && r.value.contour == [rect][i];
    PlanWarpRectangle(rect, x0, y0, x1, y1, options);
  }
}
