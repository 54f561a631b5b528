/** The mouse-driven editor: the control points, whether the button is held,
    and which point (if any) is selected. Hovering selects the first point whose
    hit box holds the cursor; pressing and moving then drags it; releasing
    clears both flags. */
module Editing {
  import opened Points
  import opened Sampling

  datatype Option<T> = None | Some(value: T)

  /** r is the first point in array order whose hit box holds the cursor,
      or None when no hit box holds it. */
  ghost predicate IsFirstHit(pts: seq<Point>, cx: real, cy: real, r: Option<nat>)
  {
    match r
    case Some(i) =>
      i < |pts| && pts[i].Intersects(cx, cy) &&
      forall j :: 0 <= j < i ==> !pts[j].Intersects(cx, cy)
    case None =>
      forall j :: 0 <= j < |pts| ==> !pts[j].Intersects(cx, cy)
  }

  /** The hit test of a mouse move: scan the points in order and stop at the
      first one that the cursor hits. */
  method HitTest(pts: seq<Point>, cx: real, cy: real) returns (r: Option<nat>)
    ensures IsFirstHit(pts, cx, cy, r)
  {
    r := None;
    var i := 0;
    while i < |pts|
      invariant 0 <= i <= |pts|
      invariant r == None
      invariant forall j :: 0 <= j < i ==> !pts[j].Intersects(cx, cy)
    {
      if pts[i].Intersects(cx, cy) {
        r := Some(i);
        break;
      }
      i := i + 1;
    }
  }

  /** The hit test has exactly one answer. */
  lemma FirstHitUnique(pts: seq<Point>, cx: real, cy: real, r1: Option<nat>, r2: Option<nat>)
    requires IsFirstHit(pts, cx, cy, r1) && IsFirstHit(pts, cx, cy, r2)
    ensures r1 == r2
  {
  }

  /** A cursor exactly on point i selects point i or an earlier point whose
      hit box overlaps it (earliest index wins). */
  lemma HitOnControlPoint(pts: seq<Point>, i: nat, r: Option<nat>)
    requires i < |pts|
    requires IsFirstHit(pts, pts[i].x, pts[i].y, r)
    ensures r.Some? && r.value <= i
    ensures (forall j :: 0 <= j < i ==> !pts[j].Intersects(pts[i].x, pts[i].y)) ==> r == Some(i)
  {
  }

  /** A cursor 25 or more away on some axis from every point selects nothing. */
  lemma FarFromEveryPoint(pts: seq<Point>, cx: real, cy: real, r: Option<nat>)
    requires forall j :: 0 <= j < |pts| ==> Abs(cx - pts[j].x) >= HitHalfWidth || Abs(cy - pts[j].y) >= HitHalfWidth
    requires IsFirstHit(pts, cx, cy, r)
    ensures r == None
  {
  }

  class Editor {
    /** The control points; the array itself is never replaced, its elements are
        overwritten by drags. */
    const points: array<Point>
    var mouseDown: bool
    var selected: Option<nat>

    ghost predicate Valid()
      reads this
    {
      selected.Some? ==> selected.value < points.Length
    }

    /** Starts with the given points, button up and nothing selected. */
    constructor (initial: seq<Point>)
      ensures Valid() && fresh(points)
      ensures points[..] == initial && !mouseDown && selected == None
    {
      points := new Point[|initial|](n requires 0 <= n < |initial| => initial[n]);
      mouseDown := false;
      selected := None;
    }

    /** Button released: not down, nothing selected. Repeating it changes nothing. */
    method MouseUp()
      modifies this
      ensures Valid() && unchanged(points)
      ensures !mouseDown && selected == None
    {
      mouseDown := false;
      selected := None;
    }

    /** Button pressed: only the flag changes. */
    method MouseDown()
      requires Valid()
      modifies this
      ensures Valid() && unchanged(points)
      ensures mouseDown && selected == old(selected)
    {
      mouseDown := true;
    }

    /** Mouse moved to (cx, cy). With the button down and a point selected,
        that point moves to the cursor and nothing else changes; otherwise the
        selection becomes the first point hit, and no point moves. */
    method MouseMove(cx: real, cy: real)
      requires Valid()
      modifies this, points
      ensures Valid() && mouseDown == old(mouseDown)
      ensures old(selected).Some? && old(mouseDown) ==>
                selected == old(selected) &&
                points[..] == old(points[..])[old(selected).value := Point(cx, cy)]
      ensures !(old(selected).Some? && old(mouseDown)) ==>
                IsFirstHit(old(points[..]), cx, cy, selected) &&
                points[..] == old(points[..])
    {
      if selected.Some? && mouseDown {
        points[selected.value] := Point(cx, cy);
        return;
      }
      selected := None;
      selected := HitTest(points[..], cx, cy);
    }

    /** The vertex list a frame strokes, from the current points. */
    method Render(k: real, steps: nat) returns (poly: seq<Point>)
      requires points.Length >= 1 && steps >= 1
      ensures poly == Polyline(points[..], k, steps)
    {
      poly := Sample(points[..], k, steps);
    }
  }

  /** Hover over point 2 (no earlier hit box covering it), press, move to
      (10, 20), release twice, move again: point 2 ends at (10, 20), every
      other point is where it was, the second release changes nothing, and the
      move after the release only hit-tests. */
  method HoverPressDragRelease(e: Editor, far: Point)
    requires e.Valid() && e.points.Length >= 3 && !e.mouseDown
    requires forall j :: 0 <= j < 2 ==> !e.points[j].Intersects(e.points[2].x, e.points[2].y)
    modifies e, e.points
    ensures e.Valid() && !e.mouseDown
    ensures e.points[..] == old(e.points[..])[2 := Point(10.0, 20.0)]
    ensures IsFirstHit(e.points[..], far.x, far.y, e.selected)
  {
    var p2 := e.points[2];
    e.MouseMove(p2.x, p2.y);
    HitOnControlPoint(old(e.points[..]), 2, e.selected);
    assert e.selected == Some(2);
    e.MouseDown();
    e.MouseMove(10.0, 20.0);
    e.MouseUp();
    ghost var released := (e.points[..], e.mouseDown, e.selected);
    e.MouseUp();
    assert (e.points[..], e.mouseDown, e.selected) == released;
    e.MouseMove(far.x, far.y);
  }
}
