/** The stroke-capture state machine of the drawing surface: the state it
    keeps between pointer events and the four operations that change it
    (pointer down, pointer move, pointer up and reset). Each handler is a
    pure transition from the state before the event to the state after it. */
module Draw {
  import opened Geometry
  import opened Faults

  /** A recorded stroke: canvas-local points in the order they were sampled. */
  type Stroke = seq<Point>

  /** The part of a DOM mouse event the handlers read. */
  datatype MouseEvent = MouseEvent(pageX: int, pageY: int)

  /** The state the component keeps: the sealed strokes, the stroke being
      captured, whether the incremental renderer must start a fresh path, and
      whether the button is held. */
  datatype DrawState = DrawState(
    lines: seq<Stroke>,
    lineInProgress: Stroke,
    drawingNewLine: bool,
    isMouseDown: bool)

  /** The state of a freshly constructed component. */
  const Initial := DrawState([], [], true, false)

  /** A move is recorded only when its squared distance from the last
      recorded point exceeds this (a spacing of more than 3 units). */
  const MinSpacingSq := 9

  /** The page position an event reports. */
  function PagePoint(ev: MouseEvent): Point {
    Point(ev.pageX, ev.pageY)
  }

  /** The canvas-local point an event denotes, given where the canvas is. */
  function EventPoint(ev: MouseEvent, canvas: Offset): Point {
    ScreenToCanvas(PagePoint(ev), canvas)
  }

  function Last(stroke: Stroke): Point
    requires |stroke| > 0
  {
    stroke[|stroke| - 1]
  }

  /** Every two consecutive points of the stroke are more than the minimum
      spacing apart. */
  predicate Spaced(stroke: Stroke) {
    forall i :: 0 < i < |stroke| ==> DistSq(stroke[i - 1], stroke[i]) > MinSpacingSq
  }

  /** Pointer down: a new in-progress stroke holding exactly the translated
      down position, replacing whatever was in progress; the sealed strokes
      and the new-path flag are left alone. */
  function MouseDown(s: DrawState, ev: MouseEvent, canvas: Offset): (r: DrawState)
    ensures r.isMouseDown
    ensures r.lineInProgress == [EventPoint(ev, canvas)]
    ensures r.lines == s.lines
    ensures r.drawingNewLine == s.drawingNewLine
  {
    s.(isMouseDown := true, lineInProgress := [EventPoint(ev, canvas)])
  }

  /** Pointer move. Ignored while the button is up. While it is down, the
      translated point is appended exactly when it lies more than the
      minimum spacing from the last recorded point; otherwise the state is
      unchanged. When the button is down but no point is in progress (which
      only a reset during a drag produces) the read of the last point's
      coordinates throws and the handler is aborted. */
  function MouseMove(s: DrawState, ev: MouseEvent, canvas: Offset): (r: Result<DrawState>)
    ensures !s.isMouseDown ==> r == Ok(s)
    ensures s.isMouseDown && s.lineInProgress == [] ==> r == Err(UndefinedPoint)
    ensures s.isMouseDown && s.lineInProgress != [] ==>
      && r.Ok?
      && r.value.lines == s.lines
      && r.value.isMouseDown
      && r.value.drawingNewLine == s.drawingNewLine
      && |s.lineInProgress| <= |r.value.lineInProgress| <= |s.lineInProgress| + 1
      && r.value.lineInProgress[..|s.lineInProgress|] == s.lineInProgress
      && (|r.value.lineInProgress| == |s.lineInProgress| + 1 <==>
            DistSq(Last(s.lineInProgress), EventPoint(ev, canvas)) > MinSpacingSq)
      && (|r.value.lineInProgress| == |s.lineInProgress| + 1 ==>
            Last(r.value.lineInProgress) == EventPoint(ev, canvas))
  {
    if !s.isMouseDown then Ok(s)
    else if |s.lineInProgress| == 0 then Err(UndefinedPoint)
    else
      var lastPoint := Last(s.lineInProgress);
      var thisPoint := EventPoint(ev, canvas);
      if DistSq(lastPoint, thisPoint) > MinSpacingSq then
        Ok(s.(lineInProgress := s.lineInProgress + [thisPoint]))
      else
        Ok(s)
  }

  /** Pointer up. While the button is down, the in-progress stroke becomes
      the newest sealed stroke, the in-progress stroke is emptied, the next
      incremental draw will start a fresh path, and the button is released.
      While it is up, nothing changes. */
  function MouseUp(s: DrawState): (r: DrawState)
    ensures s.isMouseDown ==>
      && r.lines == s.lines + [s.lineInProgress]
      && r.lineInProgress == []
      && r.drawingNewLine
      && !r.isMouseDown
    ensures !s.isMouseDown ==> r == s
  {
    var s' := if s.isMouseDown
      then s.(drawingNewLine := true, lines := s.lines + [s.lineInProgress], lineInProgress := [])
      else s;
    s'.(isMouseDown := false)
  }

  /** Reset: discards every sealed stroke and the in-progress stroke. The
      button state and the new-path flag are not touched. */
  function Reset(s: DrawState): (r: DrawState)
    ensures r.lines == [] && r.lineInProgress == []
    ensures r.isMouseDown == s.isMouseDown
    ensures r.drawingNewLine == s.drawingNewLine
  {
    s.(lines := [], lineInProgress := [])
  }

  /** Resetting twice is resetting once. */
  lemma ResetIdempotent(s: DrawState)
    ensures Reset(Reset(s)) == Reset(s)
  {
  }

  /** The reference for what a drag records: starting from the points kept so
      far, each sample in turn is kept exactly when it is more than the
      minimum spacing from the last kept point. */
  function Decimate(kept: Stroke, samples: seq<Point>): (r: Stroke)
    requires |kept| > 0
    ensures |kept| <= |r| <= |kept| + |samples|
    ensures r[..|kept|] == kept
    ensures Spaced(kept) ==> Spaced(r)
    ensures forall p :: p in r ==> p in kept || p in samples
    decreases |samples|
  {
    if |samples| == 0 then kept
    else
      var kept' := if DistSq(Last(kept), samples[0]) > MinSpacingSq then kept + [samples[0]] else kept;
      var r := Decimate(kept', samples[1..]);
      assert r[..|kept|] == r[..|kept'|][..|kept|];
      assert forall p :: p in samples[1..] ==> p in samples;
      r
  }
}
