/**
 Dragging the irregular boundary's control points with the mouse: pressing
 near a point grabs it, moving drags it and re-samples the curve, releasing or
 leaving the canvas lets go.
 */
module Editor {
  import opened Geometry
  import opened Spline

  /** How close, in pixels, the mouse must be to a control point to grab it. */
  const HitRadius: real := 15.0

  /**
   The editor's state: the control points, the curve sampled through them,
   the grabbed point (`-1` when none) and whether the button is held.
   */
  datatype EditorState = EditorState(controlPoints: seq<Point>, boundary: Sampled, dragged: int, mouseDown: bool)

  /** The state every event keeps: the boundary is the curve through the current control points. */
  predicate Consistent(e: EditorState) {
    1 <= |e.controlPoints| && e.boundary == InterpolateBoundary(e.controlPoints)
  }

  /** A drag in progress points at an existing control point. */
  predicate DragInRange(e: EditorState) {
    e.mouseDown && 0 <= e.dragged ==> e.dragged < |e.controlPoints|
  }

  /** The mouse is within grabbing distance of `p`. */
  predicate Near(mouse: Point, p: Point, h: Host) {
    Length(Sub(mouse, p), h) < HitRadius
  }

  /** Being near is being within `HitRadius` in squared distance, whatever the host's rounding of the root. */
  lemma NearIff(mouse: Point, p: Point, h: Host)
    requires h.Valid()
    ensures Near(mouse, p, h) <==> NormSq(Sub(mouse, p)) < HitRadius * HitRadius
  {
    var d := Sub(mouse, p);
    assert 0.0 <= NormSq(d);
    SqrtLessIff(h, NormSq(d), HitRadius);
  }

  /** The result of looking for a control point under the mouse. */
  datatype Grab = Nothing | Index(i: nat)

  /** The first control point near the mouse, if any. */
  function FirstNear(cps: seq<Point>, mouse: Point, h: Host): (g: Grab)
    ensures g.Index? ==> g.i < |cps| && Near(mouse, cps[g.i], h)
    ensures g.Index? ==> forall j :: 0 <= j < g.i ==> !Near(mouse, cps[j], h)
    ensures g == Nothing <==> forall j :: 0 <= j < |cps| ==> !Near(mouse, cps[j], h)
  {
    if |cps| == 0 then Nothing
    else if Near(mouse, cps[0], h) then Index(0)
    else match FirstNear(cps[1..], mouse, h)
      case Nothing => Nothing
      case Index(i) => Index(i + 1)
  }

  /**
   What a press does: on the irregular shape, grab the first control point
   within `HitRadius` of the mouse; anywhere else, or with no point near,
   change nothing.
   */
  function Press(e: EditorState, mouse: Point, irregular: bool, h: Host): (e': EditorState)
    ensures e'.controlPoints == e.controlPoints && e'.boundary == e.boundary
    ensures e' != e ==> irregular && e'.mouseDown && 0 <= e'.dragged < |e.controlPoints| && Near(mouse, e.controlPoints[e'.dragged], h)
    ensures irregular && (exists j :: 0 <= j < |e.controlPoints| && Near(mouse, e.controlPoints[j], h)) ==>
              && e'.mouseDown && 0 <= e'.dragged < |e.controlPoints| && Near(mouse, e.controlPoints[e'.dragged], h)
              && forall j :: 0 <= j < e'.dragged ==> !Near(mouse, e.controlPoints[j], h)
  {
    if !irregular then e
    else match FirstNear(e.controlPoints, mouse, h)
      case Nothing => e
      case Index(i) => e.(dragged := i, mouseDown := true)
  }

  /** The `mousedown` handler, scanning the control points in order as the program does. */
  method MouseDown(e: EditorState, mouse: Point, irregular: bool, h: Host) returns (e': EditorState)
    ensures e' == Press(e, mouse, irregular, h)
  {
    e' := e;
    if !irregular {
      return;
    }
    var i := 0;
    while i < |e.controlPoints|
      invariant 0 <= i <= |e.controlPoints|
      invariant forall j :: 0 <= j < i ==> !Near(mouse, e.controlPoints[j], h)
    {
      var p := e.controlPoints[i];
      if Length(Sub(mouse, p), h) < HitRadius {
        FirstNearIsFirst(e.controlPoints, mouse, h, i);
        e' := e.(dragged := i, mouseDown := true);
        return;
      }
      i := i + 1;
    }
  }

  /** The first near point is determined by being near with nothing near before it. */
  lemma FirstNearIsFirst(cps: seq<Point>, mouse: Point, h: Host, i: nat)
    requires i < |cps| && Near(mouse, cps[i], h)
    requires forall j :: 0 <= j < i ==> !Near(mouse, cps[j], h)
    ensures FirstNear(cps, mouse, h) == Index(i)
  {
  }

  /** A press keeps the editor consistent and any grabbed index in range. */
  lemma PressKeepsConsistent(e: EditorState, mouse: Point, irregular: bool, h: Host)
    requires Consistent(e) && DragInRange(e)
    ensures Consistent(Press(e, mouse, irregular, h)) && DragInRange(Press(e, mouse, irregular, h))
  {
  }

  /**
   The dragging part of the `mousemove` handler: while a point is held on the
   irregular shape it follows the mouse and the curve is re-sampled through
   the moved points; otherwise nothing changes.
   */
  function MouseMove(e: EditorState, mouse: Point, irregular: bool): (e': EditorState)
    requires irregular ==> DragInRange(e)
    ensures e'.dragged == e.dragged && e'.mouseDown == e.mouseDown
    ensures |e'.controlPoints| == |e.controlPoints|
    ensures !(irregular && e.mouseDown && 0 <= e.dragged) ==> e' == e
    ensures irregular && e.mouseDown && 0 <= e.dragged ==>
              && e'.controlPoints[e.dragged] == mouse
              && (forall j :: 0 <= j < |e.controlPoints| && j != e.dragged ==> e'.controlPoints[j] == e.controlPoints[j])
              && e'.boundary == InterpolateBoundary(e'.controlPoints)
  {
    if irregular && e.mouseDown && 0 <= e.dragged then
      var cps := e.controlPoints[e.dragged := mouse];
      e.(controlPoints := cps, boundary := InterpolateBoundary(cps))
    else e
  }

  /** `mouseup` and `mouseleave`: let go of any point. */
  function Release(e: EditorState): (e': EditorState)
    ensures e'.dragged == -1 && !e'.mouseDown
    ensures e'.controlPoints == e.controlPoints && e'.boundary == e.boundary
  {
    e.(dragged := -1, mouseDown := false)
  }

  /** Dragging keeps the boundary the curve through the control points. */
  lemma MouseMoveKeepsConsistent(e: EditorState, mouse: Point, irregular: bool)
    requires Consistent(e) && DragInRange(e)
    ensures Consistent(MouseMove(e, mouse, irregular)) && DragInRange(MouseMove(e, mouse, irregular))
  {
  }

  /** After a release, moving the mouse changes nothing until the next press. */
  lemma MoveAfterReleaseIsInert(e: EditorState, mouse: Point, irregular: bool)
    ensures MouseMove(Release(e), mouse, irregular) == Release(e)
  {
  }

  /**
   When the number of control points divides the sample count, the curve
   follows the mouse: the dragged point's sample is exactly where the mouse is.
   */
  lemma DraggedPointOnCurve(e: EditorState, mouse: Point)
    requires Consistent(e) && e.mouseDown && 0 <= e.dragged < |e.controlPoints|
    requires NumSamples % |e.controlPoints| == 0
    ensures var e' := MouseMove(e, mouse, true);
            var s := e.dragged * (NumSamples / |e.controlPoints|);
            s < NumSamples && e'.boundary.xs[s] == mouse.x && e'.boundary.ys[s] == mouse.y
  {
    var e' := MouseMove(e, mouse, true);
    EveryControlPointIsSampled(e'.controlPoints, e.dragged);
  }

  /** Dragging a point back to where it was restores the curve. */
  lemma DragBackRestores(e: EditorState, mouse: Point)
    requires Consistent(e) && e.mouseDown && 0 <= e.dragged < |e.controlPoints|
    ensures MouseMove(MouseMove(e, mouse, true), e.controlPoints[e.dragged], true) == e
  {
    var cps := e.controlPoints;
    assert cps[e.dragged := mouse][e.dragged := cps[e.dragged]] == cps;
  }
}
