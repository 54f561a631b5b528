/** The polyline that each frame strokes: the first control point, then for
    every segment i and every j in 0 .. steps-1 the curve at s = j / steps. */
module Sampling {
  import opened Points
  import opened Hermite

  /** Samples per segment and initial smoothness of the program. */
  const DefaultSteps: nat := 25
  const DefaultSmoothness: real := 0.5

  /** The curve parameter of sample j out of steps. */
  function Param(j: nat, steps: nat): real
    requires steps >= 1
  {
    j as real / steps as real
  }

  /** Number of vertices of the polyline for n control points. */
  function VertexCount(n: nat, steps: nat): nat
    requires n >= 1
  {
    1 + (n - 1) * steps
  }

  lemma MulMono(a: nat, b: nat, c: nat)
    requires a <= b
    ensures a * c <= b * c
  {
  }

  /** Index m of the flattened segment samples lies in segment m / steps. */
  lemma DivBelow(m: nat, steps: nat, segs: nat)
    requires steps >= 1 && m < segs * steps
    ensures m / steps < segs
  {
  }

  /** The flattened index of sample j of segment i splits back into (i, j). */
  lemma {:induction false} SplitIndex(i: nat, j: nat, steps: nat)
    requires j < steps
    ensures (i * steps + j) / steps == i && (i * steps + j) % steps == j
  {
    var m := i * steps + j;
    var q, r := m / steps, m % steps;
    assert (q - i) * steps == j - r;
    if q > i {
      MulMono(1, q - i, steps);
    } else if q < i {
      MulMono(1, i - q, steps);
    }
  }

  /** Vertex n of the polyline as the program builds it. */
  function Vertex(pts: seq<Point>, k: real, steps: nat, n: nat): Point
    requires |pts| >= 1 && steps >= 1 && n < VertexCount(|pts|, steps)
  {
    if n == 0 then pts[0]
    else
      DivBelow(n - 1, steps, |pts| - 1);
      var i := (n - 1) / steps;
      Curve(pts, i, i + 1, k, Param((n - 1) % steps, steps))
  }

  /** The whole polyline as the program builds it. */
  function Polyline(pts: seq<Point>, k: real, steps: nat): seq<Point>
    requires |pts| >= 1 && steps >= 1
  {
    seq(VertexCount(|pts|, steps), n requires 0 <= n < VertexCount(|pts|, steps) => Vertex(pts, k, steps, n))
  }

  /** Sample j of segment i is the curve between control points i and i+1
      at s = j / steps, and it sits at index 1 + i * steps + j. */
  lemma {:induction false} VertexOfSegment(pts: seq<Point>, k: real, steps: nat, i: nat, j: nat)
    requires steps >= 1 && i < |pts| - 1 && j < steps
    ensures 1 + i * steps + j < VertexCount(|pts|, steps)
    ensures Vertex(pts, k, steps, 1 + i * steps + j) == Curve(pts, i, i + 1, k, Param(j, steps))
  {
    MulMono(i + 1, |pts| - 1, steps);
    SplitIndex(i, j, steps);
  }

  /** Every sampled parameter lies in [0, 1): s = 1 is never sampled. */
  lemma SampledParameterRange(j: nat, steps: nat)
    requires j < steps
    ensures 0.0 <= Param(j, steps) < 1.0
  {
  }

  /** The polyline has 1 + (N-1) * steps vertices, starts at the first control
      point, and with two or more points repeats it (segment 0 at s = 0). */
  lemma PolylineShape(pts: seq<Point>, k: real, steps: nat)
    requires |pts| >= 1 && steps >= 1
    ensures |Polyline(pts, k, steps)| == 1 + (|pts| - 1) * steps
    ensures Polyline(pts, k, steps)[0] == pts[0]
    ensures |pts| >= 2 ==> Polyline(pts, k, steps)[1] == pts[0]
  {
  }

  /** Each segment's first sample is exactly its first control point, so every
      control point but the last is a vertex of the polyline. */
  lemma {:induction false} SegmentStartsAtControlPoint(pts: seq<Point>, k: real, steps: nat, i: nat)
    requires steps >= 1 && i < |pts| - 1
    ensures 1 + i * steps < |Polyline(pts, k, steps)|
    ensures Polyline(pts, k, steps)[1 + i * steps] == pts[i]
  {
    VertexOfSegment(pts, k, steps, i, 0);
    CurveAtStart(pts, i, i + 1, k);
  }

  /** The last vertex is the last segment at s = (steps-1)/steps, not s = 1. */
  lemma LastVertex(pts: seq<Point>, k: real, steps: nat)
    requires |pts| >= 2 && steps >= 1
    ensures var poly := Polyline(pts, k, steps);
            poly[|poly| - 1] == Curve(pts, |pts| - 2, |pts| - 1, k, Param(steps - 1, steps))
  {
    VertexOfSegment(pts, k, steps, |pts| - 2, steps - 1);
    assert 1 + (|pts| - 2) * steps + (steps - 1) == (|pts| - 1) * steps;
  }

  /** Two points, one sample per segment: the polyline as written never leaves
      the first point and never reaches the second. */
  lemma LastControlPointMissed(k: real)
    ensures var pts := [Point(0.0, 0.0), Point(100.0, 0.0)];
            Polyline(pts, k, 1) == [pts[0], pts[0]] && pts[1] !in Polyline(pts, k, 1)
  {
  }

  /** The sampling loop of a frame: start at the first control point, then
      append the curve at j / steps for every segment and every j < steps. */
  method Sample(pts: seq<Point>, k: real, steps: nat) returns (poly: seq<Point>)
    requires |pts| >= 1 && steps >= 1
    ensures poly == Polyline(pts, k, steps)
  {
    poly := [pts[0]];
    var i := 0;
    while i < |pts| - 1
      invariant 0 <= i <= |pts| - 1
      invariant |poly| == 1 + i * steps
      invariant |poly| <= VertexCount(|pts|, steps)
      invariant forall n :: 0 <= n < |poly| ==> poly[n] == Vertex(pts, k, steps, n)
    {
      MulMono(i + 1, |pts| - 1, steps);
      var j := 0;
      while j < steps
        invariant 0 <= j <= steps
        invariant |poly| == 1 + i * steps + j
        invariant i * steps + steps <= (|pts| - 1) * steps
        invariant forall n :: 0 <= n < |poly| ==> poly[n] == Vertex(pts, k, steps, n)
      {
        var s := j as real / steps as real;
        VertexOfSegment(pts, k, steps, i, j);
        ghost var before := poly;
        poly := poly + [Curve(pts, i, i + 1, k, s)];
        assert poly[|before|] == Vertex(pts, k, steps, |before|);
        assert forall n :: 0 <= n < |before| ==> poly[n] == before[n];
        j := j + 1;
      }
      assert |poly| == 1 + (i + 1) * steps;
      i := i + 1;
    }
  }

  /** Corrected sampling: j runs over 1 .. steps, so every segment ends at
      s = 1 on its second control point and no sample is emitted twice by
      construction. */
  function ClosedVertex(pts: seq<Point>, k: real, steps: nat, n: nat): Point
    requires |pts| >= 1 && steps >= 1 && n < VertexCount(|pts|, steps)
  {
    if n == 0 then pts[0]
    else
      DivBelow(n - 1, steps, |pts| - 1);
      var i := (n - 1) / steps;
      Curve(pts, i, i + 1, k, Param((n - 1) % steps + 1, steps))
  }

  function ClosedPolyline(pts: seq<Point>, k: real, steps: nat): seq<Point>
    requires |pts| >= 1 && steps >= 1
  {
    seq(VertexCount(|pts|, steps), n requires 0 <= n < VertexCount(|pts|, steps) => ClosedVertex(pts, k, steps, n))
  }

  /** Sample j of segment i in the corrected polyline is the curve at
      s = (j+1) / steps, at the same index as in the polyline as written. */
  lemma {:induction false} ClosedVertexOfSegment(pts: seq<Point>, k: real, steps: nat, i: nat, j: nat)
    requires steps >= 1 && i < |pts| - 1 && j < steps
    ensures 1 + i * steps + j < VertexCount(|pts|, steps)
    ensures ClosedVertex(pts, k, steps, 1 + i * steps + j) == Curve(pts, i, i + 1, k, Param(j + 1, steps))
  {
    MulMono(i + 1, |pts| - 1, steps);
    SplitIndex(i, j, steps);
  }

  /** The corrected sampling loop: j runs from 1 to steps inclusive. */
  method SampleClosed(pts: seq<Point>, k: real, steps: nat) returns (poly: seq<Point>)
    requires |pts| >= 1 && steps >= 1
    ensures poly == ClosedPolyline(pts, k, steps)
  {
    poly := [pts[0]];
    var i := 0;
    while i < |pts| - 1
      invariant 0 <= i <= |pts| - 1
      invariant |poly| == 1 + i * steps
      invariant |poly| <= VertexCount(|pts|, steps)
      invariant forall n :: 0 <= n < |poly| ==> poly[n] == ClosedVertex(pts, k, steps, n)
    {
      MulMono(i + 1, |pts| - 1, steps);
      var j := 1;
      while j <= steps
        invariant 1 <= j <= steps + 1
        invariant |poly| == i * steps + j
        invariant i * steps + steps <= (|pts| - 1) * steps
        invariant forall n :: 0 <= n < |poly| ==> poly[n] == ClosedVertex(pts, k, steps, n)
      {
        var s := j as real / steps as real;
        ClosedVertexOfSegment(pts, k, steps, i, j - 1);
        ghost var before := poly;
        poly := poly + [Curve(pts, i, i + 1, k, s)];
        assert poly[|before|] == ClosedVertex(pts, k, steps, |before|);
        assert forall n :: 0 <= n < |before| ==> poly[n] == before[n];
        j := j + 1;
      }
      assert |poly| == 1 + (i + 1) * steps;
      i := i + 1;
    }
  }

  /** The corrected polyline passes through every control point, in order:
      control point m is vertex m * steps; in particular it ends on the last one. */
  lemma {:induction false} ClosedThroughEveryPoint(pts: seq<Point>, k: real, steps: nat, m: nat)
    requires steps >= 1 && m < |pts|
    ensures m * steps < |ClosedPolyline(pts, k, steps)|
    ensures ClosedPolyline(pts, k, steps)[m * steps] == pts[m]
  {
    MulMono(m, |pts| - 1, steps);
    var poly := ClosedPolyline(pts, k, steps);
    if m > 0 {
      var n := 1 + (m - 1) * steps + (steps - 1);
      LastOfSegment(m, steps);
      ClosedVertexOfSegment(pts, k, steps, m - 1, steps - 1);
      ParamAtSteps(steps);
      CurveAtEnd(pts, m - 1, m, k);
      assert poly[n] == pts[m];
    }
  }

  lemma LastOfSegment(m: nat, steps: nat)
    requires m >= 1
    ensures 1 + (m - 1) * steps + (steps - 1) == m * steps
  {
  }

  lemma ParamAtSteps(steps: nat)
    requires steps >= 1
    ensures Param(steps, steps) == 1.0
  {
  }
}
