/**
 * The corner editor of the interactive scanner: four draggable corners on
 * the edit canvas, a hit test around the cursor, a single active corner
 * that the arrow keys nudge, and the clamping that keeps every corner at
 * least 10 pixels inside the canvas.
 *
 * Cursor positions are given in canvas coordinates; the conversion from
 * client coordinates through the canvas's bounding rectangle is not part of
 * this model, and neither is redrawing the overlay.
 */
module CornerEditor {
  import opened ScannerGeometry
  import opened ScannerDetection

  /** One editable corner and its two display flags. */
  datatype Corner = Corner(point: Point, active: bool, dragging: bool)

  /** The scanner's three screens. */
  datatype Step = Capture | Edit | Sign

  /** The keys the editor reacts to; every other key is `OtherKey`. */
  datatype Key = ArrowUp | ArrowDown | ArrowLeft | ArrowRight | OtherKey

  /** Squared hit radius: a corner is hit when strictly closer than 15 pixels. */
  const HitRadiusSq: real := 225.0

  /** Distance every corner keeps from the canvas border. */
  const Margin: real := 10.0

  /** Pixels one arrow key press moves the active corner. */
  const NudgeStep: real := 5.0

  /**
   * The editor's state: the current screen, the corners, the drag in
   * progress (`dragIndex` is -1 when there is none), the last cursor
   * position of the drag, and the canvas size in pixels.
   */
  datatype Editor = Editor(
    step: Step,
    corners: seq<Corner>,
    isDragging: bool,
    dragIndex: int,
    mouseStart: Point,
    width: int,
    height: int)
  {
    /** Four corners, and a drag in progress exactly when the index names one of them. */
    predicate Valid() {
      && |corners| == 4
      && -1 <= dragIndex < |corners|
      && (isDragging <==> dragIndex >= 0)
    }
  }

  /** The positions of the corners. */
  function Points(cs: seq<Corner>): (ps: seq<Point>)
    ensures |ps| == |cs| && forall i :: 0 <= i < |cs| ==> ps[i] == cs[i].point
  {
    seq(|cs|, i requires 0 <= i < |cs| => cs[i].point)
  }

  /** Inactive, not dragged corners at the given points. */
  function FreshCorners(ps: seq<Point>): (cs: seq<Corner>)
    ensures |cs| == |ps| && forall i :: 0 <= i < |ps| ==> cs[i] == Corner(ps[i], false, false)
  {
    seq(|ps|, i requires 0 <= i < |ps| => Corner(ps[i], false, false))
  }

  /** `Math.max(10, Math.min(dim - 10, v))`. */
  function Clamp(v: real, dim: int): (c: real)
    ensures c >= Margin
    ensures dim as real >= 2.0 * Margin ==> c <= dim as real - Margin
    ensures c == v || c == Margin || c == dim as real - Margin
    ensures Margin <= v <= dim as real - Margin ==> c == v
    ensures v < Margin ==> c == Margin
    ensures dim as real >= 2.0 * Margin && v > dim as real - Margin ==> c == dim as real - Margin
    ensures dim as real < 2.0 * Margin ==> c == Margin
  {
    var upper := dim as real - Margin;
    var low := if v <= upper then v else upper;
    if low >= Margin then low else Margin
  }

  /** Clamping a clamped coordinate changes nothing. */
  lemma ClampIdempotent(v: real, dim: int)
    ensures Clamp(Clamp(v, dim), dim) == Clamp(v, dim)
  {
  }

  /** The corner moved by (dx, dy), each coordinate clamped to the canvas. */
  function MovePoint(p: Point, dx: real, dy: real, width: int, height: int): Point {
    Point(Clamp(p.x + dx, width), Clamp(p.y + dy, height))
  }

  /**
   * `adjustCorner`: an index outside the corners changes nothing; otherwise
   * that corner alone moves by (dx, dy), clamped, and keeps its flags.
   */
  function AdjustCorner(e: Editor, index: int, dx: real, dy: real): (r: Editor)
    ensures !(0 <= index < |e.corners|) ==> r == e
    ensures 0 <= index < |e.corners| ==>
      && r == e.(corners := r.corners)
      && |r.corners| == |e.corners|
      && r.corners[index].point.x == Clamp(e.corners[index].point.x + dx, e.width)
      && r.corners[index].point.y == Clamp(e.corners[index].point.y + dy, e.height)
      && r.corners[index].active == e.corners[index].active
      && r.corners[index].dragging == e.corners[index].dragging
      && (forall j :: 0 <= j < |e.corners| && j != index ==> r.corners[j] == e.corners[j])
  {
    if 0 <= index < |e.corners| then
      var c := e.corners[index];
      e.(corners := e.corners[index := c.(point := MovePoint(c.point, dx, dy, e.width, e.height))])
    else
      e
  }

  /**
   * `setActiveCorner`: every corner is deactivated, then the one at `index`
   * (if there is one) is activated. Points and drag flags are untouched.
   */
  function SetActiveCorner(cs: seq<Corner>, index: int): (r: seq<Corner>)
    ensures |r| == |cs|
    ensures forall i :: 0 <= i < |cs| ==> (r[i].active <==> i == index)
    ensures forall i :: 0 <= i < |cs| ==> r[i].point == cs[i].point && r[i].dragging == cs[i].dragging
  {
    seq(|cs|, i requires 0 <= i < |cs| => cs[i].(active := i == index))
  }

  /** Activating one corner and then another leaves only the second active. */
  lemma SetActiveCornerTwice(cs: seq<Corner>, i: int, j: int)
    ensures SetActiveCorner(SetActiveCorner(cs, i), j) == SetActiveCorner(cs, j)
  {
    var a, b := SetActiveCorner(SetActiveCorner(cs, i), j), SetActiveCorner(cs, j);
    assert forall k :: 0 <= k < |cs| ==> a[k] == b[k];
  }

  /** `i` is the first corner of least distance to `p`, and that distance is under the hit radius. */
  ghost predicate NearestHitAt(cs: seq<Corner>, p: Point, i: int) {
    && 0 <= i < |cs|
    && SqDistance(cs[i].point, p) < HitRadiusSq
    && (forall j :: 0 <= j < |cs| ==> SqDistance(cs[i].point, p) <= SqDistance(cs[j].point, p))
    && (forall j :: 0 <= j < i ==> SqDistance(cs[i].point, p) < SqDistance(cs[j].point, p))
  }

  /** No corner lies strictly within the hit radius of `p`. */
  ghost predicate NoneHit(cs: seq<Corner>, p: Point) {
    forall j :: 0 <= j < |cs| ==> SqDistance(cs[j].point, p) >= HitRadiusSq
  }

  /**
   * The hit test of `onCanvasMouseDown`: a corner closer than the best
   * distance so far (initially 15 pixels) becomes the candidate, so ties go
   * to the earlier corner; -1 when no corner is close enough.
   */
  method ClosestCorner(cs: seq<Corner>, p: Point) returns (index: int)
    ensures index == -1 <==> NoneHit(cs, p)
    ensures index != -1 ==> NearestHitAt(cs, p, index)
  {
    index := -1;
    var minSq := HitRadiusSq;
    var k := 0;
    while k < |cs|
      invariant 0 <= k <= |cs|
      invariant index == -1 ==> minSq == HitRadiusSq && forall j :: 0 <= j < k ==> SqDistance(cs[j].point, p) >= HitRadiusSq
      invariant index != -1 ==>
        (0 <= index < k && minSq == SqDistance(cs[index].point, p) && minSq < HitRadiusSq
         && (forall j :: 0 <= j < k ==> minSq <= SqDistance(cs[j].point, p))
         && (forall j :: 0 <= j < index ==> minSq < SqDistance(cs[j].point, p)))
    {
      var d := SqDistance(cs[k].point, p);
      if d < minSq {
        minSq := d;
        index := k;
      }
      k := k + 1;
    }
  }

  /**
   * `onCanvasMouseDown` at canvas point `p`: outside the edit screen, or
   * with no corner within 15 pixels, nothing changes; otherwise the nearest
   * corner starts a drag from `p`, is flagged as dragged, and becomes the
   * only active corner.
   */
  method MouseDown(e: Editor, p: Point) returns (r: Editor)
    ensures e.Valid() ==> r.Valid()
    ensures e.step != Edit || NoneHit(e.corners, p) ==> r == e
    ensures e.step == Edit && !NoneHit(e.corners, p) ==>
      exists i :: NearestHitAt(e.corners, p, i)
        && r == e.(corners := r.corners, isDragging := true, dragIndex := i, mouseStart := p)
        && |r.corners| == |e.corners|
        && r.corners[i].dragging
        && (forall j :: 0 <= j < |e.corners| ==> (r.corners[j].active <==> j == i))
        && (forall j :: 0 <= j < |e.corners| ==> r.corners[j].point == e.corners[j].point)
        && (forall j :: 0 <= j < |e.corners| && j != i ==> r.corners[j].dragging == e.corners[j].dragging)
  {
    if e.step != Edit {
      return e;
    }
    var i := ClosestCorner(e.corners, p);
    if i < 0 {
      return e;
    }
    var grabbed := e.corners[i := e.corners[i].(dragging := true)];
    r := e.(corners := SetActiveCorner(grabbed, i), isDragging := true, dragIndex := i, mouseStart := p);
  }

  /**
   * `onCanvasMouseMove` at canvas point `p`: without a drag nothing
   * changes; otherwise the dragged corner moves by the cursor's movement
   * since the last event, clamped to the canvas, and `p` becomes the new
   * reference position. The reference is the raw cursor position, so a
   * clamped corner does not follow the cursor back until it re-enters.
   */
  function MouseMove(e: Editor, p: Point): (r: Editor)
    requires e.Valid()
    ensures r.Valid()
    ensures !e.isDragging ==> r == e
    ensures e.isDragging ==>
      && r.mouseStart == p
      && r == AdjustCorner(e, e.dragIndex, p.x - e.mouseStart.x, p.y - e.mouseStart.y).(mouseStart := p)
  {
    if !e.isDragging || e.dragIndex < 0 then e
    else
      AdjustCorner(e, e.dragIndex, p.x - e.mouseStart.x, p.y - e.mouseStart.y).(mouseStart := p)
  }

  /** `onCanvasMouseUp`: the dragged corner loses its flag and the drag ends; points are untouched. */
  function MouseUp(e: Editor): (r: Editor)
    requires e.Valid()
    ensures r.Valid() && !r.isDragging && r.dragIndex == -1
    ensures r == e.(corners := r.corners, isDragging := false, dragIndex := -1)
    ensures Points(r.corners) == Points(e.corners)
    ensures forall j :: 0 <= j < |e.corners| ==> r.corners[j].active == e.corners[j].active
    ensures e.isDragging ==> !r.corners[e.dragIndex].dragging
    ensures forall j :: 0 <= j < |e.corners| && j != e.dragIndex ==> r.corners[j] == e.corners[j]
  {
    var cs := if e.isDragging && e.dragIndex >= 0
      then e.corners[e.dragIndex := e.corners[e.dragIndex].(dragging := false)]
      else e.corners;
    e.(corners := cs, isDragging := false, dragIndex := -1)
  }

  /** Index of the first active corner, or -1 (`find` followed by `indexOf`). */
  function FirstActive(cs: seq<Corner>): (i: int)
    ensures -1 <= i < |cs|
    ensures i == -1 <==> forall j :: 0 <= j < |cs| ==> !cs[j].active
    ensures i >= 0 ==> cs[i].active && forall j :: 0 <= j < i ==> !cs[j].active
  {
    if |cs| == 0 then -1
    else if cs[0].active then 0
    else
      var i := FirstActive(cs[1..]);
      if i == -1 then -1 else i + 1
  }

  /** The movement an arrow key asks for; (0, 0) for any other key. */
  function KeyOffset(key: Key): (real, real) {
    match key
    case ArrowUp => (0.0, -NudgeStep)
    case ArrowDown => (0.0, NudgeStep)
    case ArrowLeft => (-NudgeStep, 0.0)
    case ArrowRight => (NudgeStep, 0.0)
    case OtherKey => (0.0, 0.0)
  }

  /**
   * `onKeyDown`: on the edit screen, an arrow key moves the first active
   * corner 5 pixels in its direction (y grows downwards), clamped; any other
   * key, another screen, or no active corner leaves everything as it is.
   */
  function KeyDown(e: Editor, key: Key): (r: Editor)
    ensures e.step != Edit || FirstActive(e.corners) == -1 || key == OtherKey ==> r == e
    ensures e.step == Edit && FirstActive(e.corners) != -1 && key != OtherKey ==>
      r == AdjustCorner(e, FirstActive(e.corners), KeyOffset(key).0, KeyOffset(key).1)
    ensures e.Valid() ==> r.Valid()
  {
    if e.step != Edit then e
    else
      var i := FirstActive(e.corners);
      if i == -1 then e
      else
        match key
        case ArrowUp => AdjustCorner(e, i, 0.0, -NudgeStep)
        case ArrowDown => AdjustCorner(e, i, 0.0, NudgeStep)
        case ArrowLeft => AdjustCorner(e, i, -NudgeStep, 0.0)
        case ArrowRight => AdjustCorner(e, i, NudgeStep, 0.0)
        case OtherKey => e
  }

  /** The corners the component starts with, before any image is loaded. */
  function DefaultPoints(): (ps: seq<Point>)
    ensures |ps| == 4 && CornerLayout(ps)
    ensures ps[0] == Point(100.0, 100.0) && ps[2] == Point(400.0, 300.0)
    ensures ps[1] == Point(ps[2].x, ps[0].y) && ps[3] == Point(ps[0].x, ps[2].y)
  {
    [Point(100.0, 100.0), Point(400.0, 100.0), Point(400.0, 300.0), Point(100.0, 300.0)]
  }

  /** The corners set when an image of the given size is loaded: 10% in from each border. */
  function LoadPoints(width: int, height: int): (ps: seq<Point>)
    ensures |ps| == 4
    ensures ps[0].x == ps[3].x && ps[1].x == ps[2].x && ps[0].y == ps[1].y && ps[2].y == ps[3].y
    ensures ps[0].x * 10.0 == width as real && ps[0].x + ps[1].x == width as real
    ensures ps[0].y * 10.0 == height as real && ps[0].y + ps[3].y == height as real
  {
    var mx := width as real * 0.1;
    var my := height as real * 0.1;
    [Point(mx, my), Point(width as real - mx, my), Point(width as real - mx, height as real - my), Point(mx, height as real - my)]
  }

  /** The editor after loading an image of the given size; the step is unchanged (the caller has already switched to editing). */
  function LoadImage(e: Editor, width: int, height: int): (r: Editor)
    ensures r.Valid() <==> -1 <= e.dragIndex < 4 && (e.isDragging <==> e.dragIndex >= 0)
    ensures Points(r.corners) == LoadPoints(width, height)
    ensures r == e.(corners := r.corners, width := width, height := height)
    ensures forall i :: 0 <= i < 4 ==> !r.corners[i].active && !r.corners[i].dragging
  {
    e.(corners := FreshCorners(LoadPoints(width, height)), width := width, height := height)
  }

  /**
   * `autoDetectDocument`: the detected corners replace the current ones,
   * all inactive, only when the detection succeeded with four corners.
   */
  function ApplyDetection(e: Editor, result: CornerResult): (r: Editor)
    ensures result.detected && |result.corners| == 4 ==>
      r == e.(corners := r.corners) && Points(r.corners) == result.corners
      && forall i :: 0 <= i < 4 ==> !r.corners[i].active && !r.corners[i].dragging
    ensures !(result.detected && |result.corners| == 4) ==> r == e
    ensures e.Valid() ==> r.Valid()
  {
    if result.detected && |result.corners| == 4 then e.(corners := FreshCorners(result.corners)) else e
  }

  /** Up then down on an active corner away from the top and bottom margins restores the editor. */
  lemma KeyUpThenDown(e: Editor)
    requires e.step == Edit && FirstActive(e.corners) != -1
    requires var c := e.corners[FirstActive(e.corners)].point;
      && Margin <= c.x <= e.width as real - Margin
      && Margin + NudgeStep <= c.y <= e.height as real - Margin
    ensures KeyDown(KeyDown(e, ArrowUp), ArrowDown) == e
  {
    var i := FirstActive(e.corners);
    var up := KeyDown(e, ArrowUp);
    assert FirstActive(up.corners) == i by {
      assert forall j :: 0 <= j < |e.corners| ==> up.corners[j].active == e.corners[j].active;
      FirstActiveSameFlags(e.corners, up.corners);
    }
    var down := KeyDown(up, ArrowDown);
    assert down.corners == e.corners;
  }

  /** Corner lists with the same active flags have the same first active corner. */
  lemma {:induction false} FirstActiveSameFlags(a: seq<Corner>, b: seq<Corner>)
    requires |a| == |b| && forall j :: 0 <= j < |a| ==> a[j].active == b[j].active
    ensures FirstActive(a) == FirstActive(b)
  {
    if |a| > 0 {
      FirstActiveSameFlags(a[1..], b[1..]);
    }
  }

  /**
   * Two drag moves that stay clear of the borders put the corner where a
   * single move to the final cursor position would: only the total
   * cursor movement matters.
   */
  lemma DragTwice(e: Editor, p: Point, q: Point)
    requires e.Valid() && e.isDragging
    requires var c := e.corners[e.dragIndex].point;
      && Margin <= c.x + (p.x - e.mouseStart.x) <= e.width as real - Margin
      && Margin <= c.y + (p.y - e.mouseStart.y) <= e.height as real - Margin
      && Margin <= c.x + (q.x - e.mouseStart.x) <= e.width as real - Margin
      && Margin <= c.y + (q.y - e.mouseStart.y) <= e.height as real - Margin
    ensures MouseMove(MouseMove(e, p), q) == MouseMove(e, q)
  {
    var once := MouseMove(e, p);
    var twice := MouseMove(once, q);
    var direct := MouseMove(e, q);
    assert twice.corners == direct.corners;
  }

  /** The default corners are already in the order `orderPoints` produces. */
  lemma DefaultPointsOrdered()
    ensures OrderPoints(DefaultPoints()) == DefaultPoints()
  {
    OrderPointsKeepsLayout(DefaultPoints());
  }

  /** The corners of a freshly loaded image are already in the order `orderPoints` produces. */
  lemma LoadPointsOrdered(width: int, height: int)
    requires width > 0 && height >= 0
    ensures OrderPoints(LoadPoints(width, height)) == LoadPoints(width, height)
  {
    var ps := LoadPoints(width, height);
    assert CornerLayout(ps);
    OrderPointsKeepsLayout(ps);
  }
}
