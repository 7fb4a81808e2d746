/**
 * Path helpers of the matcher: path length, resampling at a fixed spacing,
 * and the symmetric coverage ("overlap") percentage of two paths.
 *
 * The great-circle distance is not computed here. Every member takes the
 * distance as a parameter `dist`; the lemmas that need its properties
 * require `IsDistance(dist)`: non-negative, symmetric, zero between a point
 * and itself, as the haversine formula is.
 */
module Geo {
  import JsNumber

  /** A (latitude, longitude) pair in decimal degrees. */
  datatype Point = Point(lat: real, lng: real)

  /** What the matcher relies on about the haversine distance. */
  ghost predicate IsDistance(dist: (Point, Point) -> real) {
    && (forall p, q :: dist(p, q) >= 0.0 && dist(p, q) == dist(q, p))
    && (forall p :: dist(p, p) == 0.0)
  }

  /** Spacing used by the overlap estimate when it resamples both paths. */
  const OverlapStepM: real := 250.0
  /** Default distance within which a point counts as covered. */
  const DefaultToleranceM: real := 150.0

  // ---------------------------------------------------------------------
  // Path length

  /** Sum of the distances between consecutive points. */
  function PathLength(dist: (Point, Point) -> real, points: seq<Point>): (r: real)
    ensures |points| < 2 ==> r == 0.0
    ensures IsDistance(dist) ==> r >= 0.0
    decreases |points|
  {
    if |points| < 2 then 0.0
    else PathLength(dist, points[..|points| - 1]) + dist(points[|points| - 2], points[|points| - 1])
  }

  /** The accumulator loop of the source: `s` grows by one segment per step. */
  method PathLengthM(dist: (Point, Point) -> real, points: seq<Point>) returns (s: real)
    ensures s == PathLength(dist, points)
    ensures |points| < 2 ==> s == 0.0
  {
    s := 0.0;
    var i := 1;
    while i < |points|
      invariant 1 <= i && (i <= |points| || |points| == 0)
      invariant s == PathLength(dist, points[..if i <= |points| then i else 0])
    {
      assert points[..i + 1][..i] == points[..i];
      s := s + dist(points[i - 1], points[i]);
      i := i + 1;
    }
    assert |points| > 0 ==> points[..i] == points;
  }

  /** Peeling the first segment instead of the last gives the same sum. */
  lemma {:induction false} PathLengthFirstSegment(dist: (Point, Point) -> real, points: seq<Point>)
    requires |points| >= 2
    ensures PathLength(dist, points) == dist(points[0], points[1]) + PathLength(dist, points[1..])
    decreases |points|
  {
    if |points| > 2 {
      var front := points[..|points| - 1];
      PathLengthFirstSegment(dist, front);
      assert front[1..] == points[1..][..|points[1..]| - 1];
    }
  }

  // ---------------------------------------------------------------------
  // Resampling

  /** The point a fraction `r` of the way from `a` to `b`. */
  function Lerp(a: Point, b: Point, r: real): (p: Point)
    ensures r == 0.0 ==> p == a
    ensures r == 1.0 ==> p == b
    ensures a == b ==> p == a
  {
    Point(a.lat + (b.lat - a.lat) * r, a.lng + (b.lng - a.lng) * r)
  }

  /** How many of the offsets `t, t + stepM, t + 2 stepM, ...` lie within `segLen`. */
  function EmitCount(segLen: real, stepM: real, t: real): (n: nat)
    requires stepM > 0.0
    ensures n == 0 <==> t > segLen
    ensures n > 0 ==> (n - 1) as real <= (segLen - t) / stepM < n as real
  {
    if t <= segLen then
      JsNumber.QuotientBounds(segLen - t, stepM);
      ((segLen - t) / stepM).Floor + 1
    else 0
  }

  /** Each step along a segment uses up exactly one emission. */
  lemma EmitCountStep(segLen: real, stepM: real, t: real)
    requires stepM > 0.0 && t <= segLen
    ensures EmitCount(segLen, stepM, t + stepM) == EmitCount(segLen, stepM, t) - 1
  {
    JsNumber.QuotientShift(segLen - t, stepM);
    assert segLen - (t + stepM) == (segLen - t) - stepM;
    if t + stepM > segLen {
      JsNumber.QuotientBounds(segLen - t, stepM);
    }
  }

  /**
   * The inner `while (t <= segLen)` loop of the resampler on the segment
   * from `a` to `b`: emit the point at offset `t`, advance `t` by `stepM`.
   */
  function EmitFrom(a: Point, b: Point, segLen: real, stepM: real, t: real, out: seq<Point>): (r: seq<Point>)
    requires stepM > 0.0 && t > 0.0
    ensures |r| == |out| + EmitCount(segLen, stepM, t)
    ensures r[..|out|] == out
    decreases EmitCount(segLen, stepM, t)
  {
    if t <= segLen then
      EmitCountStep(segLen, stepM, t);
      EmitFrom(a, b, segLen, stepM, t + stepM, out + [Lerp(a, b, t / segLen)])
    else out
  }

  /**
   * The leftover distance carried into the next segment, as the resampler
   * evidently intends it: the distance travelled since the last emitted point,
   * `(acc + segLen) % stepM`. The source's expression differs when a segment
   * ends before the next emission (see `CarryAsWritten`).
   */
  function Carry(segLen: real, stepM: real, acc: real): (r: real)
    requires stepM > 0.0
    ensures -stepM < r < stepM
    ensures acc + segLen >= 0.0 ==> 0.0 <= r
  {
    JsNumber.Rem(acc + segLen, stepM)
  }

  /** The source's `(segLen - ((stepM - acc) % stepM)) % stepM`, with JavaScript's `%`. */
  function CarryAsWritten(segLen: real, stepM: real, acc: real): (r: real)
    requires stepM > 0.0
    ensures -stepM < r < stepM
  {
    JsNumber.Rem(segLen - JsNumber.Rem(stepM - acc, stepM), stepM)
  }

  /**
   * The carry is the distance travelled past the last point emitted: the
   * leftover at the start plus the segment, less one step per point emitted
   * on the segment.
   */
  lemma CarryIsDistanceSinceLastPoint(segLen: real, stepM: real, acc: real)
    requires stepM > 0.0 && 0.0 <= acc < stepM && segLen >= 0.0
    ensures Carry(segLen, stepM, acc) == acc + segLen - stepM * EmitCount(segLen, stepM, stepM - acc) as real
  {
    var x := acc + segLen;
    JsNumber.RemOfNonNegative(x, stepM);
    JsNumber.QuotientBounds(x, stepM);
    if stepM - acc <= segLen {
      JsNumber.QuotientShift(x, stepM);
      assert segLen - (stepM - acc) == x - stepM;
      assert ((x - stepM) / stepM).Floor + 1 == (x / stepM).Floor;
    } else {
      assert (x / stepM).Floor == 0;
    }
    assert EmitCount(segLen, stepM, stepM - acc) == (x / stepM).Floor;
  }

  /** With the intended carry every leftover lies in `[0, stepM)`. */
  lemma {:induction false} CarryAtInRange(dist: (Point, Point) -> real, points: seq<Point>, stepM: real, i: nat)
    requires IsDistance(dist) && stepM > 0.0 && 1 <= i <= |points|
    ensures 0.0 <= CarryAt(dist, points, stepM, i) < stepM
    decreases i
  {
    if i > 1 {
      CarryAtInRange(dist, points, stepM, i - 1);
    }
  }

  /**
   * When the segment reaches the next emission, or nothing was left over,
   * the source's expression is the intended carry.
   */
  lemma CarryAsWrittenAgrees(segLen: real, stepM: real, acc: real)
    requires stepM > 0.0 && 0.0 <= acc < stepM && segLen >= 0.0
    requires acc == 0.0 || segLen >= stepM - acc
    ensures CarryAsWritten(segLen, stepM, acc) == Carry(segLen, stepM, acc)
  {
    if acc == 0.0 {
      JsNumber.RemOfModulus(stepM);
      assert stepM - acc == stepM;
    } else {
      assert JsNumber.Rem(stepM - acc, stepM) == stepM - acc;
      assert segLen - (stepM - acc) == (acc + segLen) - stepM;
      JsNumber.RemMinusModulus(acc + segLen, stepM);
    }
  }

  /**
   * When a segment ends before the next emission, the source's expression
   * carries exactly one step too little: no point was emitted, yet a full
   * step is taken off the distance travelled, so the next point comes a
   * step late.
   */
  lemma CarryAsWrittenFallsBehind(segLen: real, stepM: real, acc: real)
    requires stepM > 0.0 && 0.0 < acc < stepM && 0.0 <= segLen < stepM - acc
    ensures EmitCount(segLen, stepM, stepM - acc) == 0
    ensures CarryAsWritten(segLen, stepM, acc) == acc + segLen - stepM
    ensures Carry(segLen, stepM, acc) == acc + segLen
  {
    assert JsNumber.Rem(stepM - acc, stepM) == stepM - acc;
    var x := segLen - (stepM - acc);
    JsNumber.RemOfNegativeAbove(x, stepM);
  }

  /**
   * Segments of 300 m, 100 m and 400 m at a 250 m step: after the second
   * segment 150 m have been travelled since the point emitted at 250 m, but
   * the source carries -100, so the third segment's first point is placed
   * 350 m into it (750 m along the path) and the point due at 500 m is lost.
   */
  lemma CarryAsWrittenSkipsAPoint()
    ensures Carry(300.0, 250.0, 0.0) == 50.0 && CarryAsWritten(300.0, 250.0, 0.0) == 50.0
    ensures Carry(100.0, 250.0, 50.0) == 150.0
    ensures CarryAsWritten(100.0, 250.0, 50.0) == -100.0
    ensures EmitCount(400.0, 250.0, 250.0 - Carry(100.0, 250.0, 50.0)) == 2
    ensures EmitCount(400.0, 250.0, 250.0 - CarryAsWritten(100.0, 250.0, 50.0)) == 1
  {
    CarryAsWrittenAgrees(300.0, 250.0, 0.0);
    CarryAsWrittenFallsBehind(100.0, 250.0, 50.0);
  }

  /**
   * Once behind, the source's carry stays behind: with a negative leftover
   * the next emission lies more than a step into the segment, so a segment
   * that does not make up the deficit emits nothing and only adds its length
   * to the leftover.
   */
  lemma CarryAsWrittenBehind(segLen: real, stepM: real, acc: real)
    requires stepM > 0.0 && -stepM < acc < 0.0 && 0.0 <= segLen <= -acc
    ensures EmitCount(segLen, stepM, stepM - acc) == 0
    ensures CarryAsWritten(segLen, stepM, acc) == acc + segLen
  {
    JsNumber.RemMinusModulus(stepM - acc, stepM);
    assert (stepM - acc) - stepM == -acc;
    if acc + segLen < 0.0 {
      JsNumber.RemOfNegativeAbove(acc + segLen, stepM);
    }
  }

  /** The carry after the first `i - 1` segments, starting from 0. */
  function CarryAt(dist: (Point, Point) -> real, points: seq<Point>, stepM: real, i: nat): (r: real)
    requires stepM > 0.0 && 1 <= i <= |points|
    ensures -stepM < r < stepM
  {
    if i == 1 then 0.0
    else Carry(dist(points[i - 2], points[i - 1]), stepM, CarryAt(dist, points, stepM, i - 1))
  }

  /** The carry line 42 computes after the first `i - 1` segments, starting from 0. */
  function CarryAtAsWritten(dist: (Point, Point) -> real, points: seq<Point>, stepM: real, i: nat): (r: real)
    requires stepM > 0.0 && 1 <= i <= |points|
    ensures -stepM < r < stepM
  {
    if i == 1 then 0.0
    else CarryAsWritten(dist(points[i - 2], points[i - 1]), stepM, CarryAtAsWritten(dist, points, stepM, i - 1))
  }

  /**
   * The outer `for` loop of the resampler from segment `i` on, with the
   * points emitted so far in `out` and the leftover distance `acc`.
   */
  function Walk(dist: (Point, Point) -> real, points: seq<Point>, stepM: real, i: nat, out: seq<Point>, acc: real): (r: seq<Point>)
    requires stepM > 0.0 && 1 <= i <= |points| && acc < stepM
    ensures |r| >= |out| && r[..|out|] == out
    decreases |points| - i
  {
    if i == |points| then out
    else
      var a, b := points[i - 1], points[i];
      var segLen := dist(a, b);
      var next := EmitFrom(a, b, segLen, stepM, stepM - acc, out);
      var r := Walk(dist, points, stepM, i + 1, next, Carry(segLen, stepM, acc));
      assert r[..|out|] == r[..|next|][..|out|];
      r
  }

  /** The first point followed by every interpolated point, before the final append. */
  function Emitted(dist: (Point, Point) -> real, points: seq<Point>, stepM: real): (r: seq<Point>)
    requires stepM > 0.0 && |points| >= 1
    ensures |r| >= 1 && r[0] == points[0]
  {
    Walk(dist, points, stepM, 1, [points[0]], 0.0)
  }

  /** Appends `last` unless the sequence already ends with it. */
  function CloseWith(out: seq<Point>, last: Point): (r: seq<Point>)
    ensures |r| == |out| || (|r| == |out| + 1 && (|out| == 0 || out[|out| - 1] != last))
    ensures |r| >= 1 && r[|r| - 1] == last
    ensures r[..|out|] == out
  {
    if |out| > 0 && out[|out| - 1] == last then out else out + [last]
  }

  /**
   * The resampler as evidently intended: a path with a point every `stepM`
   * metres of travelled distance, keeping the first and the last point.
   * The source's `resample`, line 42 included, is `ResampledAsWritten`.
   */
  function Resampled(dist: (Point, Point) -> real, points: seq<Point>, stepM: real): (r: seq<Point>)
    requires stepM > 0.0
    ensures |points| < 2 ==> r == points
    ensures |points| >= 2 ==> |r| >= 1 && r[0] == points[0] && r[|r| - 1] == points[|points| - 1]
    ensures |r| == 0 <==> |points| == 0
  {
    if |points| < 2 then points
    else CloseWith(Emitted(dist, points, stepM), points[|points| - 1])
  }

  // ---------------------------------------------------------------------
  // The resampler as the source writes it

  /** `Walk` with the source's carry expression in place of the intended one. */
  function WalkAsWritten(dist: (Point, Point) -> real, points: seq<Point>, stepM: real, i: nat, out: seq<Point>, acc: real): (r: seq<Point>)
    requires stepM > 0.0 && 1 <= i <= |points| && acc < stepM
    ensures |r| >= |out| && r[..|out|] == out
    decreases |points| - i
  {
    if i == |points| then out
    else
      var a, b := points[i - 1], points[i];
      var segLen := dist(a, b);
      var next := EmitFrom(a, b, segLen, stepM, stepM - acc, out);
      var r := WalkAsWritten(dist, points, stepM, i + 1, next, CarryAsWritten(segLen, stepM, acc));
      assert r[..|out|] == r[..|next|][..|out|];
      r
  }

  /** The points the source's loops emit, before the final append. */
  function EmittedAsWritten(dist: (Point, Point) -> real, points: seq<Point>, stepM: real): (r: seq<Point>)
    requires stepM > 0.0 && |points| >= 1
    ensures |r| >= 1 && r[0] == points[0]
  {
    var e := WalkAsWritten(dist, points, stepM, 1, [points[0]], 0.0);
    assert e[..1] == [points[0]];
    e
  }

  /** `resample(points, stepM)` exactly as the source writes it, carry included. */
  function ResampledAsWritten(dist: (Point, Point) -> real, points: seq<Point>, stepM: real): (r: seq<Point>)
    requires stepM > 0.0
    ensures |points| < 2 ==> r == points
    ensures |points| >= 2 ==> |r| >= 1 && r[0] == points[0] && r[|r| - 1] == points[|points| - 1]
    ensures |r| == 0 <==> |points| == 0
  {
    if |points| < 2 then points
    else CloseWith(EmittedAsWritten(dist, points, stepM), points[|points| - 1])
  }

  /**
   * The inner `while (t <= segLen)` loop of the resampler: one interpolated
   * point at each offset `t`, `t + stepM`, ... that lies on the segment.
   */
  method EmitSegment(a: Point, b: Point, segLen: real, stepM: real, t: real, out: seq<Point>) returns (r: seq<Point>)
    requires stepM > 0.0 && t > 0.0
    ensures r == EmitFrom(a, b, segLen, stepM, t, out)
  {
    r := out;
    var t' := t;
    while t' <= segLen
      invariant t' > 0.0
      invariant EmitFrom(a, b, segLen, stepM, t', r) == EmitFrom(a, b, segLen, stepM, t, out)
      decreases EmitCount(segLen, stepM, t')
    {
      EmitCountStep(segLen, stepM, t');
      var ratio := t' / segLen;
      r := r + [Lerp(a, b, ratio)];
      t' := t' + stepM;
    }
  }

  /**
   * The resampler's outer loop, line 42 included: `out` only grows, and
   * `acc` is carried from one segment to the next.
   */
  method Resample(dist: (Point, Point) -> real, points: seq<Point>, stepM: real) returns (out: seq<Point>)
    requires stepM > 0.0
    ensures out == ResampledAsWritten(dist, points, stepM)
    ensures |points| >= 2 ==> out[0] == points[0] && out[|out| - 1] == points[|points| - 1]
  {
    if |points| < 2 {
      return points;
    }
    out := [points[0]];
    var acc := 0.0;
    for i := 1 to |points|
      invariant acc == CarryAtAsWritten(dist, points, stepM, i)
      invariant WalkAsWritten(dist, points, stepM, i, out, acc) == EmittedAsWritten(dist, points, stepM)
    {
      var a, b := points[i - 1], points[i];
      var segLen := dist(a, b);
      out := EmitSegment(a, b, segLen, stepM, stepM - acc, out);
      acc := CarryAsWritten(segLen, stepM, acc);
    }
    var last := points[|points| - 1];
    var lastOut := out[|out| - 1];
    if lastOut != last {
      out := out + [last];
    }
  }

  /** On a single segment the carry is never used, so both resamplers agree. */
  lemma OneSegmentCarryIrrelevant(dist: (Point, Point) -> real, a: Point, b: Point, stepM: real)
    requires stepM > 0.0
    ensures ResampledAsWritten(dist, [a, b], stepM) == Resampled(dist, [a, b], stepM)
  {
    var e := EmitFrom(a, b, dist(a, b), stepM, stepM, [a]);
    assert WalkAsWritten(dist, [a, b], stepM, 2, e, CarryAsWritten(dist(a, b), stepM, 0.0)) == e;
    assert Walk(dist, [a, b], stepM, 2, e, Carry(dist(a, b), stepM, 0.0)) == e;
  }

  /** Distance along a line of points `Point(x, 0)`, one metre per unit of `x`. */
  function LineDist(p: Point, q: Point): real {
    if p.lat >= q.lat then p.lat - q.lat else q.lat - p.lat
  }

  /**
   * The path 0, 300, 400, 800 m along a line, resampled at 250 m: the
   * intended resampler gives 0, 250, 500, 750, 800; the source gives
   * 0, 250, 750, 800, losing the point at 500 m.
   */
  lemma ResampledAsWrittenLosesAPoint()
    ensures var pts := [Point(0.0, 0.0), Point(300.0, 0.0), Point(400.0, 0.0), Point(800.0, 0.0)];
      && Resampled(LineDist, pts, 250.0)
         == [Point(0.0, 0.0), Point(250.0, 0.0), Point(500.0, 0.0), Point(750.0, 0.0), Point(800.0, 0.0)]
      && ResampledAsWritten(LineDist, pts, 250.0)
         == [Point(0.0, 0.0), Point(250.0, 0.0), Point(750.0, 0.0), Point(800.0, 0.0)]
  {
    var p0, p1, p2, p3 := Point(0.0, 0.0), Point(300.0, 0.0), Point(400.0, 0.0), Point(800.0, 0.0);
    var pts := [p0, p1, p2, p3];
    CarryAsWrittenSkipsAPoint();
    var e1 := EmitFrom(p0, p1, 300.0, 250.0, 250.0, [p0]);
    assert EmitFrom(p0, p1, 300.0, 250.0, 500.0, [p0, Point(250.0, 0.0)]) == [p0, Point(250.0, 0.0)];
    assert e1 == [p0, Point(250.0, 0.0)];
    assert EmitFrom(p1, p2, 100.0, 250.0, 200.0, e1) == e1;
    assert EmitFrom(p1, p2, 100.0, 250.0, 350.0, e1) == e1;
    var f := e1 + [Point(500.0, 0.0)];
    assert EmitFrom(p2, p3, 400.0, 250.0, 600.0, f + [Point(750.0, 0.0)]) == f + [Point(750.0, 0.0)];
    assert EmitFrom(p2, p3, 400.0, 250.0, 350.0, f) == f + [Point(750.0, 0.0)];
    assert EmitFrom(p2, p3, 400.0, 250.0, 100.0, e1) == f + [Point(750.0, 0.0)];
    var g := e1 + [Point(750.0, 0.0)];
    assert EmitFrom(p2, p3, 400.0, 250.0, 600.0, g) == g;
    assert EmitFrom(p2, p3, 400.0, 250.0, 350.0, e1) == g;
    assert Walk(LineDist, pts, 250.0, 4, f + [Point(750.0, 0.0)], Carry(400.0, 250.0, 150.0)) == f + [Point(750.0, 0.0)];
    assert Walk(LineDist, pts, 250.0, 3, e1, 150.0) == f + [Point(750.0, 0.0)];
    assert Walk(LineDist, pts, 250.0, 2, e1, 50.0) == f + [Point(750.0, 0.0)];
    assert WalkAsWritten(LineDist, pts, 250.0, 4, g, CarryAsWritten(400.0, 250.0, -100.0)) == g;
    assert WalkAsWritten(LineDist, pts, 250.0, 3, e1, -100.0) == g;
    assert WalkAsWritten(LineDist, pts, 250.0, 2, e1, 50.0) == g;
  }

  /** Every segment of `points` is `len` metres long. */
  ghost predicate EqualSegments(dist: (Point, Point) -> real, points: seq<Point>, len: real) {
    forall k :: 1 <= k < |points| ==> dist(points[k - 1], points[k]) == len
  }

  /**
   * Six segments of 50 m resampled at 250 m as the source writes it. The
   * carry runs 50, -150, -100, -50, 0, so the next emission always lies
   * beyond the segment: nothing is emitted, and only the two endpoints
   * remain, however the path runs.
   */
  lemma ResampledAsWrittenDropsDensePath(dist: (Point, Point) -> real, pts: seq<Point>)
    requires |pts| == 7 && EqualSegments(dist, pts, 50.0)
    ensures ResampledAsWritten(dist, pts, 250.0) == CloseWith([pts[0]], pts[6])
    ensures |ResampledAsWritten(dist, pts, 250.0)| <= 2
  {
    var start := [pts[0]];
    assert dist(pts[0], pts[1]) == 50.0 && dist(pts[1], pts[2]) == 50.0 && dist(pts[2], pts[3]) == 50.0;
    assert dist(pts[3], pts[4]) == 50.0 && dist(pts[4], pts[5]) == 50.0 && dist(pts[5], pts[6]) == 50.0;
    assert WalkAsWritten(dist, pts, 250.0, 1, start, 0.0) == WalkAsWritten(dist, pts, 250.0, 2, start, 50.0) by {
      WalkAsWrittenQuietFromZero(dist, pts, 250.0, 1, start);
    }
    assert WalkAsWritten(dist, pts, 250.0, 2, start, 50.0) == WalkAsWritten(dist, pts, 250.0, 3, start, -150.0) by {
      WalkAsWrittenFallsBehind(dist, pts, 250.0, 2, start, 50.0);
    }
    assert WalkAsWritten(dist, pts, 250.0, 3, start, -150.0) == WalkAsWritten(dist, pts, 250.0, 4, start, -100.0) by {
      WalkAsWrittenStaysBehind(dist, pts, 250.0, 3, start, -150.0);
    }
    assert WalkAsWritten(dist, pts, 250.0, 4, start, -100.0) == WalkAsWritten(dist, pts, 250.0, 5, start, -50.0) by {
      WalkAsWrittenStaysBehind(dist, pts, 250.0, 4, start, -100.0);
    }
    assert WalkAsWritten(dist, pts, 250.0, 5, start, -50.0) == WalkAsWritten(dist, pts, 250.0, 6, start, 0.0) by {
      WalkAsWrittenStaysBehind(dist, pts, 250.0, 5, start, -50.0);
    }
    assert WalkAsWritten(dist, pts, 250.0, 6, start, 0.0) == start by {
      WalkAsWrittenQuietFromZero(dist, pts, 250.0, 6, start);
    }
    assert EmittedAsWritten(dist, pts, 250.0) == start;
  }

  /** From a carry of 0, a segment shorter than a step emits nothing and leaves its length as the carry. */
  lemma WalkAsWrittenQuietFromZero(dist: (Point, Point) -> real, points: seq<Point>, stepM: real, i: nat, out: seq<Point>)
    requires stepM > 0.0 && 1 <= i < |points| && 0.0 <= dist(points[i - 1], points[i]) < stepM
    ensures WalkAsWritten(dist, points, stepM, i, out, 0.0)
         == WalkAsWritten(dist, points, stepM, i + 1, out, dist(points[i - 1], points[i]))
  {
    var segLen := dist(points[i - 1], points[i]);
    CarryAsWrittenAgrees(segLen, stepM, 0.0);
    WalkAsWrittenQuietSegment(dist, points, stepM, i, out, 0.0);
  }

  /** From a positive carry, a segment ending before the next emission leaves the carry one step behind. */
  lemma WalkAsWrittenFallsBehind(dist: (Point, Point) -> real, points: seq<Point>, stepM: real, i: nat, out: seq<Point>, acc: real)
    requires stepM > 0.0 && 1 <= i < |points| && 0.0 < acc < stepM
    requires 0.0 <= dist(points[i - 1], points[i]) < stepM - acc
    ensures WalkAsWritten(dist, points, stepM, i, out, acc)
         == WalkAsWritten(dist, points, stepM, i + 1, out, acc + dist(points[i - 1], points[i]) - stepM)
  {
    CarryAsWrittenFallsBehind(dist(points[i - 1], points[i]), stepM, acc);
    WalkAsWrittenQuietSegment(dist, points, stepM, i, out, acc);
  }

  /** From a negative carry, a segment that does not make up the deficit emits nothing and adds its length. */
  lemma WalkAsWrittenStaysBehind(dist: (Point, Point) -> real, points: seq<Point>, stepM: real, i: nat, out: seq<Point>, acc: real)
    requires stepM > 0.0 && 1 <= i < |points| && -stepM < acc < 0.0
    requires 0.0 <= dist(points[i - 1], points[i]) <= -acc
    ensures WalkAsWritten(dist, points, stepM, i, out, acc)
         == WalkAsWritten(dist, points, stepM, i + 1, out, acc + dist(points[i - 1], points[i]))
  {
    CarryAsWrittenBehind(dist(points[i - 1], points[i]), stepM, acc);
    WalkAsWrittenQuietSegment(dist, points, stepM, i, out, acc);
  }

  /** A segment that ends before its first emission adds no point; only the carry moves on. */
  lemma WalkAsWrittenQuietSegment(dist: (Point, Point) -> real, points: seq<Point>, stepM: real, i: nat, out: seq<Point>, acc: real)
    requires stepM > 0.0 && 1 <= i < |points| && acc < stepM
    requires stepM - acc > dist(points[i - 1], points[i])
    ensures WalkAsWritten(dist, points, stepM, i, out, acc)
         == WalkAsWritten(dist, points, stepM, i + 1, out, CarryAsWritten(dist(points[i - 1], points[i]), stepM, acc))
  {
    assert EmitFrom(points[i - 1], points[i], dist(points[i - 1], points[i]), stepM, stepM - acc, out) == out;
  }

  /** The same for the intended carry. */
  lemma WalkQuietSegment(dist: (Point, Point) -> real, points: seq<Point>, stepM: real, i: nat, out: seq<Point>, acc: real)
    requires stepM > 0.0 && 1 <= i < |points| && acc < stepM
    requires stepM - acc > dist(points[i - 1], points[i])
    ensures Walk(dist, points, stepM, i, out, acc)
         == Walk(dist, points, stepM, i + 1, out, Carry(dist(points[i - 1], points[i]), stepM, acc))
  {
    assert EmitFrom(points[i - 1], points[i], dist(points[i - 1], points[i]), stepM, stepM - acc, out) == out;
  }

  /** A segment whose first emission is at its far end gains exactly that end; the carry restarts at 0. */
  lemma WalkEndsOnEmission(dist: (Point, Point) -> real, points: seq<Point>, stepM: real, i: nat, out: seq<Point>, acc: real)
    requires stepM > 0.0 && 1 <= i < |points| && 0.0 <= acc < stepM
    requires stepM - acc == dist(points[i - 1], points[i])
    ensures Walk(dist, points, stepM, i, out, acc) == Walk(dist, points, stepM, i + 1, out + [points[i]], 0.0)
  {
    var a, b, segLen := points[i - 1], points[i], dist(points[i - 1], points[i]);
    assert segLen / segLen == 1.0;
    assert EmitFrom(a, b, segLen, stepM, segLen + stepM, out + [b]) == out + [b];
    assert EmitFrom(a, b, segLen, stepM, stepM - acc, out) == out + [b];
    assert acc + segLen == stepM;
    JsNumber.RemOfModulus(stepM);
  }

  /**
   * With the intended carry, six 50 m segments keep the point 250 m along
   * the path, which is the end of the fifth segment.
   */
  lemma ResampledKeepsDensePath(dist: (Point, Point) -> real, pts: seq<Point>)
    requires IsDistance(dist) && |pts| == 7 && EqualSegments(dist, pts, 50.0)
    ensures Resampled(dist, pts, 250.0) == [pts[0], pts[5], pts[6]]
  {
    var start := [pts[0]];
    var kept := start + [pts[5]];
    DenseCarries();
    assert dist(pts[0], pts[1]) == 50.0 && dist(pts[1], pts[2]) == 50.0 && dist(pts[2], pts[3]) == 50.0;
    assert dist(pts[3], pts[4]) == 50.0 && dist(pts[4], pts[5]) == 50.0 && dist(pts[5], pts[6]) == 50.0;
    WalkQuietSegment(dist, pts, 250.0, 1, start, 0.0);
    WalkQuietSegment(dist, pts, 250.0, 2, start, 50.0);
    WalkQuietSegment(dist, pts, 250.0, 3, start, 100.0);
    WalkQuietSegment(dist, pts, 250.0, 4, start, 150.0);
    WalkEndsOnEmission(dist, pts, 250.0, 5, start, 200.0);
    WalkQuietSegment(dist, pts, 250.0, 6, kept, 0.0);
    assert Emitted(dist, pts, 250.0) == kept;
    assert pts[5] != pts[6];
  }

  /** The intended carries along six 50 m segments at 250 m. */
  lemma DenseCarries()
    ensures Carry(50.0, 250.0, 0.0) == 50.0
    ensures Carry(50.0, 250.0, 50.0) == 100.0
    ensures Carry(50.0, 250.0, 100.0) == 150.0
    ensures Carry(50.0, 250.0, 150.0) == 200.0
  {
  }

  /** The final append adds the last point only when it is not already there. */
  lemma ResampleAppendsLastOnce(dist: (Point, Point) -> real, points: seq<Point>, stepM: real)
    requires stepM > 0.0 && |points| >= 2
    ensures var e, r := EmittedAsWritten(dist, points, stepM), ResampledAsWritten(dist, points, stepM);
      || (r == e && e[|e| - 1] == points[|points| - 1])
      || (r == e + [points[|points| - 1]] && e[|e| - 1] != points[|points| - 1])
  {
  }

  /**
   * A two-point path shorter than one step gains no interpolated point: it
   * comes back as its two endpoints, or as one point if they coincide.
   */
  lemma ShortSegmentKeepsEndpoints(dist: (Point, Point) -> real, a: Point, b: Point, stepM: real)
    requires stepM > 0.0 && dist(a, b) < stepM
    ensures ResampledAsWritten(dist, [a, b], stepM) == if a == b then [a] else [a, b]
  {
    var pts := [a, b];
    assert EmitFrom(a, b, dist(a, b), stepM, stepM, [a]) == [a];
    assert WalkAsWritten(dist, pts, stepM, 2, [a], CarryAsWritten(dist(a, b), stepM, 0.0)) == [a];
    assert EmittedAsWritten(dist, pts, stepM) == [a];
  }

  // ---------------------------------------------------------------------
  // Overlap

  /** `inTol(p, arr)`: some point of `arr` lies within `tolM` of `p`. */
  predicate Covered(dist: (Point, Point) -> real, p: Point, arr: seq<Point>, tolM: real): (r: bool)
    ensures arr == [] ==> !r
    ensures IsDistance(dist) && tolM >= 0.0 && p in arr ==> r
  {
    exists j :: 0 <= j < |arr| && dist(p, arr[j]) <= tolM
  }

  /** The scan of `inTol`, returning at the first point within tolerance. */
  method InTol(dist: (Point, Point) -> real, p: Point, arr: seq<Point>, tolM: real) returns (found: bool)
    ensures found == Covered(dist, p, arr, tolM)
    ensures found ==> exists j :: 0 <= j < |arr| && dist(p, arr[j]) <= tolM
    ensures !found ==> forall j :: 0 <= j < |arr| ==> dist(p, arr[j]) > tolM
  {
    for i := 0 to |arr|
      invariant forall j :: 0 <= j < i ==> dist(p, arr[j]) > tolM
    {
      if dist(p, arr[i]) <= tolM {
        return true;
      }
    }
    return false;
  }

  /** `A.filter(p => inTol(p, B)).length`. */
  function CoveredCount(dist: (Point, Point) -> real, a: seq<Point>, b: seq<Point>, tolM: real): (n: nat)
    ensures n <= |a|
  {
    if a == [] then 0
    else (if Covered(dist, a[0], b, tolM) then 1 else 0) + CoveredCount(dist, a[1..], b, tolM)
  }

  /** `k / n` for a count `k` out of `n`. */
  function Fraction(k: nat, n: nat): (r: real)
    requires 0 < n && k <= n
    ensures 0.0 <= r <= 1.0
    ensures r == 1.0 <==> k == n
    ensures r == 0.0 <==> k == 0
  {
    FractionBounds(k, n);
    k as real / n as real
  }

  lemma FractionBounds(k: nat, n: nat)
    requires 0 < n && k <= n
    ensures var r := k as real / n as real;
      0.0 <= r <= 1.0 && (r == 1.0 <==> k == n) && (r == 0.0 <==> k == 0)
  {
    var r := k as real / n as real;
    JsNumber.QuotientBounds(k as real, n as real);
    if k < n {
      assert r < 1.0;
    }
  }

  /**
   * `overlapPercent(aPoints, bPoints, tolM)`: both paths are resampled at
   * 250 m, and the result is the mean of the fraction of each path's points
   * covered by the other, as a percentage.
   */
  function OverlapPercent(dist: (Point, Point) -> real, aPoints: seq<Point>, bPoints: seq<Point>, tolM: real): (r: real)
    ensures 0.0 <= r <= 100.0
    ensures (aPoints == [] || bPoints == []) ==> r == 0.0
  {
    var a := ResampledAsWritten(dist, aPoints, OverlapStepM);
    var b := ResampledAsWritten(dist, bPoints, OverlapStepM);
    if |a| == 0 || |b| == 0 then 0.0
    else
      var aCount := Fraction(CoveredCount(dist, a, b, tolM), |a|);
      var bCount := Fraction(CoveredCount(dist, b, a, tolM), |b|);
      100.0 * (aCount + bCount) / 2.0
  }

  /** The two paths play the same role. */
  lemma OverlapSymmetric(dist: (Point, Point) -> real, aPoints: seq<Point>, bPoints: seq<Point>, tolM: real)
    ensures OverlapPercent(dist, aPoints, bPoints, tolM) == OverlapPercent(dist, bPoints, aPoints, tolM)
  {
  }

  lemma {:induction false} CoveredCountAll(dist: (Point, Point) -> real, a: seq<Point>, b: seq<Point>, tolM: real)
    requires forall i :: 0 <= i < |a| ==> Covered(dist, a[i], b, tolM)
    ensures CoveredCount(dist, a, b, tolM) == |a|
  {
    if a != [] {
      assert Covered(dist, a[0], b, tolM);
      CoveredCountAll(dist, a[1..], b, tolM);
    }
  }

  lemma {:induction false} CoveredCountNone(dist: (Point, Point) -> real, a: seq<Point>, b: seq<Point>, tolM: real)
    requires forall i, j :: 0 <= i < |a| && 0 <= j < |b| ==> dist(a[i], b[j]) > tolM
    ensures CoveredCount(dist, a, b, tolM) == 0
  {
    if a != [] {
      assert !Covered(dist, a[0], b, tolM);
      CoveredCountNone(dist, a[1..], b, tolM);
    }
  }

  /** A non-empty path overlaps itself completely for any tolerance >= 0. */
  lemma OverlapWithItself(dist: (Point, Point) -> real, points: seq<Point>, tolM: real)
    requires IsDistance(dist) && points != [] && tolM >= 0.0
    ensures OverlapPercent(dist, points, points, tolM) == 100.0
  {
    var a := ResampledAsWritten(dist, points, OverlapStepM);
    forall i | 0 <= i < |a|
      ensures Covered(dist, a[i], a, tolM)
    {
      assert dist(a[i], a[i]) == 0.0;
    }
    CoveredCountAll(dist, a, a, tolM);
  }

  /**
   * When every resampled point of one path is farther than `tolM` from every
   * resampled point of the other, the overlap is 0.
   */
  lemma OverlapOfSeparatedPaths(dist: (Point, Point) -> real, aPoints: seq<Point>, bPoints: seq<Point>, tolM: real)
    requires IsDistance(dist)
    requires var a, b := ResampledAsWritten(dist, aPoints, OverlapStepM), ResampledAsWritten(dist, bPoints, OverlapStepM);
      forall i, j :: 0 <= i < |a| && 0 <= j < |b| ==> dist(a[i], b[j]) > tolM
    ensures OverlapPercent(dist, aPoints, bPoints, tolM) == 0.0
  {
    var a, b := ResampledAsWritten(dist, aPoints, OverlapStepM), ResampledAsWritten(dist, bPoints, OverlapStepM);
    CoveredCountNone(dist, a, b, tolM);
    forall j, i | 0 <= j < |b| && 0 <= i < |a|
      ensures dist(b[j], a[i]) > tolM
    {
      assert dist(b[j], a[i]) == dist(a[i], b[j]);
    }
    CoveredCountNone(dist, b, a, tolM);
  }
}
