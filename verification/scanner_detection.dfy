/**
 * Automatic corner detection of the interactive scanner: every contour
 * whose area lies in a band of the frame area and whose polygon
 * approximation has four vertices is scored, and the first contour of
 * highest score supplies the corners.
 *
 * The OpenCV measurements of a contour (its area, the area of its convex
 * hull and its polygon approximation) are inputs of the model.
 */
module ScannerDetection {
  import opened ScannerGeometry

  /** What OpenCV reports about one contour. */
  datatype Observation = Observation(
    area: real,                 // contourArea(contour)
    hullArea: real,             // contourArea(convexHull(contour))
    // The vertices of approxPolyDP(contour) as `extractCorners` reads them
    // (document-scanner.component.ts:398-408): through the `data32F` view of
    // the int32 Mat, one point per vertex, taken here as given.
    approx: seq<Point>)

  /** Detection outcome: whether the score passed the threshold, and the ordered corners. */
  datatype CornerResult = CornerResult(detected: bool, corners: seq<Point>)

  /** Smallest score that counts as a detected document (exclusive). */
  const DetectionThreshold: real := 0.3

  /** Weights of the two score components. */
  const ConvexityWeight: real := 0.7
  const AspectWeight: real := 0.3

  /** Area of a contour relative to its hull; 0 when the hull has no positive area. */
  function Convexity(o: Observation): (c: real)
    ensures o.hullArea > 0.0 ==> c * o.hullArea == o.area
    ensures o.hullArea <= 0.0 ==> c == 0.0
    ensures o.area >= 0.0 ==> c >= 0.0
    ensures o.area <= o.hullArea ==> c <= 1.0
  {
    if o.hullArea > 0.0 then o.area / o.hullArea else 0.0
  }

  /** Greater of two squared distances, the square of `Math.max` of the distances. */
  function MaxSq(a: real, b: real): (m: real)
    ensures (m == a || m == b) && a <= m && b <= m
  {
    if a >= b then a else b
  }

  /** Squared width: the longer of the sides 0-1 and 2-3 of the approximation. */
  function ApproxWidthSq(c: seq<Point>): real
    requires |c| == 4
  {
    MaxSq(SqDistance(c[0], c[1]), SqDistance(c[2], c[3]))
  }

  /** Squared height: the longer of the sides 1-2 and 3-0 of the approximation. */
  function ApproxHeightSq(c: seq<Point>): real
    requires |c| == 4
  {
    MaxSq(SqDistance(c[1], c[2]), SqDistance(c[3], c[0]))
  }

  /**
   * The ratio width / height lies in [0.7, 1.4]. Both lengths are square
   * roots of non-negative numbers, so the test is exact on their squares;
   * a zero height gives an infinite or undefined ratio, which fails.
   */
  predicate AspectAcceptable(wSq: real, hSq: real)
  {
    hSq > 0.0 && 0.49 * hSq <= wSq <= 1.96 * hSq
  }

  /** 1 when the sides are in proportion, otherwise 0.5. */
  function Aspect(c: seq<Point>): (a: real)
    requires |c| == 4
    ensures a == 1.0 <==> AspectAcceptable(ApproxWidthSq(c), ApproxHeightSq(c))
    ensures a == 0.5 <==> !AspectAcceptable(ApproxWidthSq(c), ApproxHeightSq(c))
  {
    if AspectAcceptable(ApproxWidthSq(c), ApproxHeightSq(c)) then 1.0 else 0.5
  }

  /** On non-negative reals, squaring keeps the order in both directions. */
  lemma SquareOrder(a: real, b: real)
    requires 0.0 <= a && 0.0 <= b
    ensures a <= b <==> a * a <= b * b
  {
    assert b * b - a * a == (b - a) * (b + a);
    if a <= b {
      ProductSign(b - a, b + a);
    } else {
      var x, y := a - b, a + b;
      ProductSign(x, y);
      assert 0.0 < x * y;
      assert a * a - b * b == x * y;
    }
  }

  /** The sign of a product of non-negative factors. */
  lemma ProductSign(x: real, y: real)
    requires 0.0 <= x && 0.0 <= y
    ensures 0.0 <= x * y
    ensures 0.0 < x && 0.0 < y ==> 0.0 < x * y
  {
  }

  /**
   * The squared test is the source's test `width / height` in [0.7, 1.4]
   * for lengths `w` and `h` whose squares are the squared sides: a zero
   * height fails both.
   */
  lemma AcceptableIsRatio(w: real, h: real)
    requires 0.0 <= w && 0.0 <= h
    ensures AspectAcceptable(w * w, h * h) <==> h > 0.0 && 0.7 <= w / h <= 1.4
  {
    if h > 0.0 {
      var lo, hi := 0.7 * h, 1.4 * h;
      SquareOrder(lo, w);
      SquareOrder(w, hi);
      assert lo * lo == 0.49 * (h * h) && hi * hi == 1.96 * (h * h);
      assert w / h * h == w;
      assert lo <= w <==> 0.7 <= w / h;
      assert w <= hi <==> w / h <= 1.4;
    } else {
      assert h * h == 0.0;
    }
  }

  /**
   * `Aspect` is the source's aspect score: for any non-negative width and
   * height squaring to the squared width and height of the approximation,
   * the score is 1 exactly when width / height lies in [0.7, 1.4].
   */
  lemma AspectOfLengths(c: seq<Point>, width: real, height: real)
    requires |c| == 4 && 0.0 <= width && 0.0 <= height
    requires width * width == ApproxWidthSq(c) && height * height == ApproxHeightSq(c)
    ensures Aspect(c) == 1.0 <==> height > 0.0 && 0.7 <= width / height <= 1.4
  {
    AcceptableIsRatio(width, height);
  }

  /** The weighted sum of the two components; the weights sum to one. */
  function Combine(convexity: real, aspect: real): (r: real)
    ensures convexity == aspect ==> r == convexity
    ensures 0.0 <= convexity <= 1.0 && 0.5 <= aspect <= 1.0 ==> 0.15 <= r <= 1.0
  {
    convexity * ConvexityWeight + aspect * AspectWeight
  }

  /**
   * `evaluateContour`: a contour with non-negative areas scores at least
   * 0.15 (aspect 0.5, convexity 0), and one whose area does not exceed its
   * hull's scores at most 1.
   */
  function Score(o: Observation): (r: real)
    requires |o.approx| == 4
    ensures o.area >= 0.0 && o.hullArea >= 0.0 ==> r >= 0.15
    ensures o.area <= o.hullArea ==> r <= 1.0
  {
    Combine(Convexity(o), Aspect(o.approx))
  }

  /** The score never decreases when either component grows. */
  lemma CombineMonotone(c0: real, a0: real, c1: real, a1: real)
    requires c0 <= c1 && a0 <= a1
    ensures Combine(c0, a0) <= Combine(c1, a1)
  {
  }

  /** A convex contour (area equal to its hull's) of proportioned sides scores exactly 1. */
  lemma ScoreOfConvexProportioned(o: Observation)
    requires |o.approx| == 4 && o.hullArea > 0.0 && o.area == o.hullArea
    requires AspectAcceptable(ApproxWidthSq(o.approx), ApproxHeightSq(o.approx))
    ensures Score(o) == 1.0
  {
    assert Convexity(o) * o.hullArea == o.hullArea;
    assert Convexity(o) == 1.0;
  }

  /**
   * The aspect test depends on which vertex the approximation starts at: a
   * 7 by 10 rectangle listed from its top-left corner passes (ratio 0.7),
   * while the same rectangle listed from its top-right corner gives ratio
   * 10/7, which exceeds 1.4.
   */
  lemma AspectDependsOnStartVertex(x: real, y: real)
    ensures Aspect([Point(x, y), Point(x + 7.0, y), Point(x + 7.0, y + 10.0), Point(x, y + 10.0)]) == 1.0
    ensures Aspect([Point(x + 7.0, y), Point(x + 7.0, y + 10.0), Point(x, y + 10.0), Point(x, y)]) == 0.5
  {
    var a := [Point(x, y), Point(x + 7.0, y), Point(x + 7.0, y + 10.0), Point(x, y + 10.0)];
    var b := [Point(x + 7.0, y), Point(x + 7.0, y + 10.0), Point(x, y + 10.0), Point(x, y)];
    assert ApproxWidthSq(a) == 49.0 && ApproxHeightSq(a) == 100.0;
    assert ApproxWidthSq(b) == 100.0 && ApproxHeightSq(b) == 49.0;
  }

  /** Contours whose area is below 5% or above 95% of the frame are skipped (both bounds inclusive). */
  predicate InAreaBand(area: real, cols: nat, rows: nat)
  {
    var frame := (cols * rows) as real;
    frame * 0.05 <= area <= frame * 0.95
  }

  /** A contour is scored when its area is in the band and its approximation is a quadrilateral. */
  predicate Candidate(o: Observation, cols: nat, rows: nat)
  {
    InAreaBand(o.area, cols, rows) && |o.approx| == 4
  }

  /**
   * `i` is the contour the loop keeps after the first `n` contours: a
   * candidate of positive score, no lower than any candidate among them,
   * and strictly higher than every candidate before it.
   */
  ghost predicate BestAmong(obs: seq<Observation>, cols: nat, rows: nat, n: int, i: int)
    requires 0 <= n <= |obs|
  {
    && 0 <= i < n
    && Candidate(obs[i], cols, rows)
    && Score(obs[i]) > 0.0
    && (forall j :: 0 <= j < n && Candidate(obs[j], cols, rows) ==> Score(obs[j]) <= Score(obs[i]))
    && (forall j :: 0 <= j < i && Candidate(obs[j], cols, rows) ==> Score(obs[j]) < Score(obs[i]))
  }

  /** No candidate among the first `n` contours has a positive score. */
  ghost predicate NoneScored(obs: seq<Observation>, cols: nat, rows: nat, n: int)
    requires 0 <= n <= |obs|
  {
    forall j :: 0 <= j < n && Candidate(obs[j], cols, rows) ==> Score(obs[j]) <= 0.0
  }

  /**
   * `detectDocumentCorners` over the contours of a `cols` by `rows` frame:
   * a contour replaces the best one only with a strictly greater score, the
   * corners are the best approximation put through `orderPoints` (the empty
   * list when there is none), and the document counts as detected when the
   * best score exceeds 0.3.
   */
  method DetectDocumentCorners(obs: seq<Observation>, cols: nat, rows: nat) returns (result: CornerResult)
    ensures NoneScored(obs, cols, rows, |obs|) ==> result == CornerResult(false, [])
    ensures !NoneScored(obs, cols, rows, |obs|) ==>
      exists i :: BestAmong(obs, cols, rows, |obs|, i)
        && result.corners == OrderPoints(obs[i].approx)
        && (result.detected <==> Score(obs[i]) > DetectionThreshold)
  {
    var bestCorners: seq<Point> := [];
    var bestScore: real := 0.0;
    var best := -1;
    var k := 0;
    while k < |obs|
      invariant 0 <= k <= |obs|
      invariant best == -1 ==> NoneScored(obs, cols, rows, k) && bestScore == 0.0 && bestCorners == []
      invariant best != -1 ==>
        (BestAmong(obs, cols, rows, k, best) && bestScore == Score(obs[best]) && bestCorners == obs[best].approx)
    {
      var o := obs[k];
      if InAreaBand(o.area, cols, rows) && |o.approx| == 4 && Score(o) > bestScore {
        BestStep(obs, cols, rows, k, best);
        bestScore := Score(o);
        bestCorners := o.approx;
        best := k;
      } else {
        BestStays(obs, cols, rows, k, best);
      }
      k := k + 1;
    }
    result := CornerResult(bestScore > DetectionThreshold, OrderPoints(bestCorners));
  }

  /** A candidate scoring above the best so far (or above 0 when there is none) becomes the best. */
  lemma BestStep(obs: seq<Observation>, cols: nat, rows: nat, k: int, best: int)
    requires 0 <= k < |obs| && Candidate(obs[k], cols, rows)
    requires best == -1 ==> NoneScored(obs, cols, rows, k) && Score(obs[k]) > 0.0
    requires best != -1 ==> BestAmong(obs, cols, rows, k, best) && Score(obs[k]) > Score(obs[best])
    ensures BestAmong(obs, cols, rows, k + 1, k)
  {
  }

  /** Any other contour leaves the best one (or the absence of one) as it is. */
  lemma BestStays(obs: seq<Observation>, cols: nat, rows: nat, k: int, best: int)
    requires 0 <= k < |obs|
    requires best == -1 ==> NoneScored(obs, cols, rows, k) && !(Candidate(obs[k], cols, rows) && Score(obs[k]) > 0.0)
    requires best != -1 ==>
      (BestAmong(obs, cols, rows, k, best) && !(Candidate(obs[k], cols, rows) && Score(obs[k]) > Score(obs[best])))
    ensures best == -1 ==> NoneScored(obs, cols, rows, k + 1)
    ensures best != -1 ==> BestAmong(obs, cols, rows, k + 1, best)
  {
  }

  /**
   * A frame with one contour that is convex, well proportioned and inside
   * the area band is detected, and its corners come back in the layout of
   * `orderPoints`.
   */
  lemma DetectSingleDocument(o: Observation, cols: nat, rows: nat)
    requires Candidate(o, cols, rows) && o.hullArea > 0.0 && o.area == o.hullArea
    requires AspectAcceptable(ApproxWidthSq(o.approx), ApproxHeightSq(o.approx))
    ensures BestAmong([o], cols, rows, 1, 0) && Score(o) > DetectionThreshold
  {
    ScoreOfConvexProportioned(o);
  }

  /** At most one contour is the best: the choice is determined by the scores and the order. */
  lemma BestUnique(obs: seq<Observation>, cols: nat, rows: nat, n: int, i: int, j: int)
    requires 0 <= n <= |obs|
    requires BestAmong(obs, cols, rows, n, i) && BestAmong(obs, cols, rows, n, j)
    ensures i == j
  {
  }
}
