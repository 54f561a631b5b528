/** Points of the drawing plane and the vector algebra the curve is built from.
    Every operation returns a new value; coordinates are mathematical reals. */
module Points {

  /** Half-width of the square hit box around a control point. */
  const HitHalfWidth: real := 25.0

  function Abs(v: real): (r: real)
    ensures r >= 0.0 && (r == v || r == -v)
  {
    if v < 0.0 then -v else v
  }

  datatype Point = Point(x: real, y: real)
  {
    /** Scalar multiplication. */
    function Mul(s: real): Point
    {
      Point(x * s, y * s)
    }

    /** Point subtraction. */
    function Sub(p: Point): Point
    {
      Point(x - p.x, y - p.y)
    }

    /** Point addition. */
    function Add(p: Point): Point
    {
      Point(x + p.x, y + p.y)
    }

    /** Hit box: the cursor is strictly inside the axis-aligned open square of
        half-width 25 centred on this point (a square, not a disc). */
    function Intersects(cx: real, cy: real): (hit: bool)
      ensures hit <==> (x - HitHalfWidth < cx < x + HitHalfWidth &&
                        y - HitHalfWidth < cy < y + HitHalfWidth)
    {
      Abs(cx - x) < HitHalfWidth && Abs(cy - y) < HitHalfWidth
    }
  }

  const Zero: Point := Point(0.0, 0.0)

  lemma SubAddRoundTrip(p: Point, q: Point)
    ensures p.Sub(q).Add(q) == p && p.Add(q).Sub(q) == p
  {
  }

  lemma MulIdentities(p: Point, s: real)
    ensures p.Mul(1.0) == p && p.Mul(0.0) == Zero && Zero.Mul(s) == Zero
  {
  }

  lemma MulMul(p: Point, a: real, b: real)
    ensures p.Mul(a).Mul(b) == p.Mul(a * b)
  {
  }

  lemma MulDistributesOverSub(p: Point, q: Point, s: real)
    ensures p.Sub(q).Mul(s) == p.Mul(s).Sub(q.Mul(s))
  {
  }

  lemma AddZero(p: Point)
    ensures p.Add(Zero) == p && Zero.Add(p) == p
  {
  }

  /** A point's own position is always inside its hit box. */
  lemma HitAtOwnPosition(p: Point)
    ensures p.Intersects(p.x, p.y)
  {
  }

  /** An offset of 25 or more on either axis never hits. */
  lemma NoHitBeyondHalfWidth(p: Point, cx: real, cy: real)
    requires Abs(cx - p.x) >= HitHalfWidth || Abs(cy - p.y) >= HitHalfWidth
    ensures !p.Intersects(cx, cy)
  {
  }

  /** The hit box is a square: a diagonal offset of (24, 24) hits although its
      Euclidean distance exceeds 25. */
  lemma HitBoxIsSquare(p: Point)
    ensures p.Intersects(p.x + 24.0, p.y + 24.0)
    ensures 24.0 * 24.0 + 24.0 * 24.0 > HitHalfWidth * HitHalfWidth
  {
  }
}
