/** Cubic Hermite blending with Catmull-Rom tangents: the basis polynomials,
    the tangent rule and the blend of one segment. The point sequence is an
    explicit parameter instead of the program's global array. */
module Hermite {
  import opened Points

  /** Weight of the segment's start position. */
  function H1(s: real): (r: real)
    ensures s == 0.0 ==> r == 1.0
    ensures s == 1.0 ==> r == 0.0
  {
    2.0 * s * s * s - 3.0 * s * s + 1.0
  }

  /** Weight of the segment's end position. */
  function H2(s: real): (r: real)
    ensures s == 0.0 ==> r == 0.0
    ensures s == 1.0 ==> r == 1.0
  {
    -2.0 * s * s * s + 3.0 * s * s
  }

  /** Weight of the segment's start tangent. */
  function H3(s: real): (r: real)
    ensures s == 0.0 ==> r == 0.0
    ensures s == 1.0 ==> r == 0.0
  {
    s * s * s - 2.0 * s * s + s
  }

  /** Weight of the segment's end tangent. */
  function H4(s: real): (r: real)
    ensures s == 0.0 ==> r == 0.0
    ensures s == 1.0 ==> r == 0.0
  {
    s * s * s - s * s
  }

  /** The two position weights always sum to one. */
  lemma PartitionOfUnity(s: real)
    ensures H1(s) + H2(s) == 1.0
  {
  }

  /** Catmull-Rom tangent at index i with smoothness k: zero at the first index
      and at every index from the last one on, otherwise the difference of the
      two neighbours scaled by k. */
  function Tangent(pts: seq<Point>, i: nat, k: real): Point
  {
    if i == 0 then Zero
    else if i >= |pts| - 1 then Zero
    else pts[i + 1].Sub(pts[i - 1]).Mul(k)
  }

  /** Interior (both neighbours exist). */
  predicate Interior(pts: seq<Point>, i: nat)
  {
    0 < i < |pts| - 1
  }

  lemma TangentVanishesAtEnds(pts: seq<Point>, i: nat, k: real)
    requires i == 0 || i >= |pts| - 1
    ensures Tangent(pts, i, k) == Zero
  {
  }

  lemma TangentInterior(pts: seq<Point>, i: nat, k: real)
    requires Interior(pts, i)
    ensures Tangent(pts, i, k) == Point((pts[i + 1].x - pts[i - 1].x) * k,
                                        (pts[i + 1].y - pts[i - 1].y) * k)
  {
  }

  /** The tangent is linear in the smoothness: scaling k by c scales every
      tangent by c (endpoint tangents stay zero), and k = 0 gives zero. */
  lemma TangentScales(pts: seq<Point>, i: nat, k: real, c: real)
    ensures Tangent(pts, i, c * k) == Tangent(pts, i, k).Mul(c)
    ensures Tangent(pts, i, 0.0) == Zero
  {
  }

  /** One point of the segment blending control points i and j at parameter t. */
  function Curve(pts: seq<Point>, i: nat, j: nat, k: real, t: real): Point
    requires i < |pts| && j < |pts|
  {
    pts[i].Mul(H1(t))
      .Add(pts[j].Mul(H2(t)))
      .Add(Tangent(pts, i, k).Mul(H3(t)))
      .Add(Tangent(pts, j, k).Mul(H4(t)))
  }

  /** The segment starts exactly at its first control point, for every k. */
  lemma CurveAtStart(pts: seq<Point>, i: nat, j: nat, k: real)
    requires i < |pts| && j < |pts|
    ensures Curve(pts, i, j, k, 0.0) == pts[i]
  {
  }

  /** The segment ends exactly at its second control point, for every k. */
  lemma CurveAtEnd(pts: seq<Point>, i: nat, j: nat, k: real)
    requires i < |pts| && j < |pts|
    ensures Curve(pts, i, j, k, 1.0) == pts[j]
  {
  }

  /** Every control point moved by d. */
  function Translate(pts: seq<Point>, d: Point): (r: seq<Point>)
    ensures |r| == |pts|
    ensures forall n :: 0 <= n < |pts| ==> r[n] == pts[n].Add(d)
  {
    seq(|pts|, n requires 0 <= n < |pts| => pts[n].Add(d))
  }

  /** Tangents depend only on differences, so moving every point leaves them alone. */
  lemma TangentTranslates(pts: seq<Point>, d: Point, i: nat, k: real)
    ensures Tangent(Translate(pts, d), i, k) == Tangent(pts, i, k)
  {
  }

  /** The curve follows a translation of its control points: since the position
      weights sum to one and the tangents are differences, moving every control
      point by d moves every curve point by d. */
  lemma {:induction false} CurveTranslates(pts: seq<Point>, d: Point, i: nat, j: nat, k: real, t: real)
    requires i < |pts| && j < |pts|
    ensures Curve(Translate(pts, d), i, j, k, t) == Curve(pts, i, j, k, t).Add(d)
  {
    var moved := Translate(pts, d);
    TangentTranslates(pts, d, i, k);
    TangentTranslates(pts, d, j, k);
    PartitionOfUnity(t);
    var u, v := Tangent(pts, i, k), Tangent(pts, j, k);
    ShiftedBlend(pts[i], pts[j], u, v, d, H1(t), H2(t), H3(t), H4(t));
    assert moved[i] == pts[i].Add(d) && moved[j] == pts[j].Add(d);
  }

  /** CurveTranslates with the weights abstracted: the blend of shifted
      positions is the shifted blend whenever the position weights sum to one. */
  lemma ShiftedBlend(p: Point, q: Point, u: Point, v: Point, e: Point,
                     a: real, b: real, c: real, f: real)
    requires a + b == 1.0
    ensures p.Add(e).Mul(a).Add(q.Add(e).Mul(b)).Add(u.Mul(c)).Add(v.Mul(f))
         == p.Mul(a).Add(q.Mul(b)).Add(u.Mul(c)).Add(v.Mul(f)).Add(e)
  {
    ShiftedBlendCoordinate(p.x, q.x, e.x, a, b);
    ShiftedBlendCoordinate(p.y, q.y, e.y, a, b);
  }

  lemma ShiftedBlendCoordinate(p: real, q: real, e: real, a: real, b: real)
    requires a + b == 1.0
    ensures (p + e) * a + (q + e) * b == p * a + q * b + e
  {
    assert (p + e) * a == p * a + e * a;
    assert (q + e) * b == q * b + e * b;
    assert e * a + e * b == e * (a + b);
  }

  /** Control points on one horizontal line give a curve on that line. */
  lemma HorizontalStaysHorizontal(pts: seq<Point>, c: real, i: nat, j: nat, k: real, t: real)
    requires forall n :: 0 <= n < |pts| ==> pts[n].y == c
    requires i < |pts| && j < |pts|
    ensures Curve(pts, i, j, k, t).y == c
  {
    assert Tangent(pts, i, k).y == 0.0;
    assert Tangent(pts, j, k).y == 0.0;
    PartitionOfUnity(t);
    assert c * H1(t) + c * H2(t) == c * (H1(t) + H2(t));
  }

  /** Three collinear points (0,0), (100,0), (200,0) with k = 0.5: the interior
      tangent is (100,0), the end tangents are zero, and the first segment at
      s = 0.75 lies strictly between its end points on the x-axis. */
  lemma CollinearExample()
    ensures var pts := [Point(0.0, 0.0), Point(100.0, 0.0), Point(200.0, 0.0)];
            Tangent(pts, 1, 0.5) == Point(100.0, 0.0) &&
            Tangent(pts, 0, 0.5) == Zero && Tangent(pts, 2, 0.5) == Zero &&
            Curve(pts, 0, 1, 0.5, 0.0) == Point(0.0, 0.0) &&
            Curve(pts, 0, 1, 0.5, 0.75) == Point(70.3125, 0.0)
  {
  }
}
