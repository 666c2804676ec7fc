/** Sequences of pointer events and resets delivered to the component, and
    what they do to its state: the spacing invariant that every trace keeps,
    the "button down means a stroke is in progress" invariant that only
    traces without a reset during a drag keep, and what one complete drag
    records. */
module Traces {
  import opened Geometry
  import opened Faults
  import opened Draw

  /** Where the pointer was and where the canvas was when an event fired. */
  datatype Sample = Sample(ev: MouseEvent, canvas: Offset)

  /** One call into the component: a pointer event or a click on reset. */
  datatype Input =
    | Down(sample: Sample)
    | Move(sample: Sample)
    | Up
    | ResetClicked

  function SamplePoint(m: Sample): Point {
    EventPoint(m.ev, m.canvas)
  }

  /** The canvas-local points of a run of samples. */
  function SamplePoints(ms: seq<Sample>): (r: seq<Point>)
    ensures |r| == |ms|
    ensures forall i :: 0 <= i < |ms| ==> r[i] == SamplePoint(ms[i])
  {
    seq(|ms|, i requires 0 <= i < |ms| => SamplePoint(ms[i]))
  }

  /** The move events of a run of samples. */
  function Moves(ms: seq<Sample>): (r: seq<Input>)
    ensures |r| == |ms|
    ensures forall i :: 0 <= i < |ms| ==> r[i] == Move(ms[i])
  {
    seq(|ms|, i requires 0 <= i < |ms| => Move(ms[i]))
  }

  /** The handler the input reaches, applied to the state. */
  function Dispatch(s: DrawState, e: Input): Result<DrawState> {
    match e
    case Down(m) => Ok(MouseDown(s, m.ev, m.canvas))
    case Move(m) => MouseMove(s, m.ev, m.canvas)
    case Up => Ok(MouseUp(s))
    case ResetClicked => Ok(Reset(s))
  }

  /** The state after the input: a handler aborted by a fault had not
      changed anything before it threw. */
  function After(s: DrawState, e: Input): DrawState {
    match Dispatch(s, e)
    case Ok(t) => t
    case Err(_) => s
  }

  /** The state after every input of the trace, in order. */
  function Run(s: DrawState, evs: seq<Input>): DrawState
    decreases |evs|
  {
    if |evs| == 0 then s else Run(After(s, evs[0]), evs[1..])
  }

  /** How many handlers of the trace were aborted by a fault. */
  function FaultCount(s: DrawState, evs: seq<Input>): nat
    decreases |evs|
  {
    if |evs| == 0 then 0
    else (if Dispatch(s, evs[0]).Err? then 1 else 0) + FaultCount(After(s, evs[0]), evs[1..])
  }

  /** Whether the button is held after the trace, read off the events alone:
      a down presses it, an up releases it, nothing else touches it. */
  function DownAfter(down: bool, evs: seq<Input>): bool
    decreases |evs|
  {
    if |evs| == 0 then down
    else DownAfter(if evs[0].Down? then true else if evs[0].Up? then false else down, evs[1..])
  }

  /** No reset is clicked while the button is held. */
  predicate NoResetWhileDown(down: bool, evs: seq<Input>)
    decreases |evs|
  {
    if |evs| == 0 then true
    else
      && !(down && evs[0].ResetClicked?)
      && NoResetWhileDown(if evs[0].Down? then true else if evs[0].Up? then false else down, evs[1..])
  }

  /** What holds after every trace whatsoever: every stroke, sealed or in
      progress, keeps the minimum spacing, and nothing is in progress while
      the button is up. */
  predicate SpacingInvariant(s: DrawState) {
    && Spaced(s.lineInProgress)
    && (forall k :: 0 <= k < |s.lines| ==> Spaced(s.lines[k]))
    && (!s.isMouseDown ==> s.lineInProgress == [])
  }

  /** The intended shape of the state: the spacing invariant, a stroke in
      progress exactly while the button is held, and no empty sealed stroke. */
  predicate WellFormed(s: DrawState) {
    && SpacingInvariant(s)
    && (s.isMouseDown ==> s.lineInProgress != [])
    && (forall k :: 0 <= k < |s.lines| ==> s.lines[k] != [])
  }

  lemma InitialWellFormed()
    ensures WellFormed(Initial)
  {
  }

  /** Appending a point far enough from the last one keeps a stroke spaced. */
  lemma SpacedSnoc(stroke: Stroke, p: Point)
    requires Spaced(stroke) && |stroke| > 0
    requires DistSq(Last(stroke), p) > MinSpacingSq
    ensures Spaced(stroke + [p])
  {
  }

  /** Every input keeps the spacing invariant, a reset during a drag
      included. */
  lemma StepKeepsSpacing(s: DrawState, e: Input)
    requires SpacingInvariant(s)
    ensures SpacingInvariant(After(s, e))
  {
    match e
    case Move(m) =>
      if s.isMouseDown && s.lineInProgress != [] {
        var t := After(s, e);
        if |t.lineInProgress| == |s.lineInProgress| + 1 {
          assert t.lineInProgress == s.lineInProgress + [SamplePoint(m)];
          SpacedSnoc(s.lineInProgress, SamplePoint(m));
        } else {
          assert t.lineInProgress == s.lineInProgress;
        }
      }
    case _ =>
  }

  /** Every input except a reset during a drag keeps the state well formed,
      and none of them faults. */
  lemma StepKeepsWellFormed(s: DrawState, e: Input)
    requires WellFormed(s)
    requires !(s.isMouseDown && e.ResetClicked?)
    ensures Dispatch(s, e).Ok?
    ensures WellFormed(After(s, e))
  {
    StepKeepsSpacing(s, e);
  }

  /** The spacing invariant holds after any trace. */
  lemma {:induction false} RunKeepsSpacing(s: DrawState, evs: seq<Input>)
    requires SpacingInvariant(s)
    ensures SpacingInvariant(Run(s, evs))
    decreases |evs|
  {
    if |evs| > 0 {
      StepKeepsSpacing(s, evs[0]);
      RunKeepsSpacing(After(s, evs[0]), evs[1..]);
    }
  }

  /** The button state after a trace is determined by the events alone,
      faults and resets notwithstanding. */
  lemma {:induction false} RunTracksButton(s: DrawState, evs: seq<Input>)
    ensures Run(s, evs).isMouseDown == DownAfter(s.isMouseDown, evs)
    decreases |evs|
  {
    if |evs| > 0 {
      RunTracksButton(After(s, evs[0]), evs[1..]);
    }
  }

  /** No handler modelled here clears the new-path flag, so once it is set it
      stays set. */
  lemma {:induction false} FlagStaysSet(s: DrawState, evs: seq<Input>)
    requires s.drawingNewLine
    ensures Run(s, evs).drawingNewLine
    decreases |evs|
  {
    if |evs| > 0 {
      FlagStaysSet(After(s, evs[0]), evs[1..]);
    }
  }

  /** A trace with no reset during a drag keeps a well-formed state well
      formed and never faults. */
  lemma {:induction false} RunKeepsWellFormed(s: DrawState, evs: seq<Input>)
    requires WellFormed(s)
    requires NoResetWhileDown(s.isMouseDown, evs)
    ensures WellFormed(Run(s, evs))
    ensures FaultCount(s, evs) == 0
    decreases |evs|
  {
    if |evs| > 0 {
      StepKeepsWellFormed(s, evs[0]);
      RunKeepsWellFormed(After(s, evs[0]), evs[1..]);
    }
  }

  /** A reset while the button is held leaves it held with nothing in
      progress: the next move faults on the missing last point, and the next
      up seals an empty stroke. */
  lemma ResetDuringDrag(s: DrawState, m: Sample)
    requires s.isMouseDown
    ensures !WellFormed(Reset(s))
    ensures Dispatch(Reset(s), Move(m)) == Err(UndefinedPoint)
    ensures MouseUp(Reset(s)).lines == [[]]
    ensures !WellFormed(MouseUp(Reset(s)))
  {
    assert MouseUp(Reset(s)).lines[0] == [];
  }

  /** A concrete trace from a fresh component showing both consequences of a
      reset during a drag. */
  lemma ResetDuringDragExample(m: Sample)
    ensures FaultCount(Initial, [Down(m), ResetClicked, Move(m)]) == 1
    ensures Run(Initial, [Down(m), ResetClicked, Up]).lines == [[]]
  {
    var s1 := After(Initial, Down(m));
    ResetDuringDrag(s1, m);
    var s2 := After(s1, ResetClicked);
    assert FaultCount(s2, [Move(m)]) == 1 + FaultCount(s2, []);
    assert [Down(m), ResetClicked, Move(m)][1..] == [ResetClicked, Move(m)];
    assert [ResetClicked, Move(m)][1..] == [Move(m)];
    assert [Move(m)][1..] == [];
    assert [Down(m), ResetClicked, Up][1..] == [ResetClicked, Up];
    assert [ResetClicked, Up][1..] == [Up];
  }

  /** Running two traces one after the other is running their
      concatenation. */
  lemma {:induction false} RunAppend(s: DrawState, a: seq<Input>, b: seq<Input>)
    ensures Run(s, a + b) == Run(Run(s, a), b)
    ensures FaultCount(s, a + b) == FaultCount(s, a) + FaultCount(Run(s, a), b)
    decreases |a|
  {
    if |a| > 0 {
      assert (a + b)[0] == a[0];
      assert (a + b)[1..] == a[1..] + b;
      RunAppend(After(s, a[0]), a[1..], b);
    } else {
      assert a + b == b;
    }
  }

  /** Without a reset the sealed strokes only grow: the ones there before
      stay, in the same order, at the front. */
  lemma {:induction false} HistoryAppendOnly(s: DrawState, evs: seq<Input>)
    requires forall i :: 0 <= i < |evs| ==> !evs[i].ResetClicked?
    ensures |s.lines| <= |Run(s, evs).lines|
    ensures Run(s, evs).lines[..|s.lines|] == s.lines
    decreases |evs|
  {
    if |evs| > 0 {
      var t := After(s, evs[0]);
      assert t.lines[..|s.lines|] == s.lines;
      HistoryAppendOnly(t, evs[1..]);
      var u := Run(t, evs[1..]);
      assert u.lines[..|s.lines|] == u.lines[..|t.lines|][..|s.lines|];
    }
  }

  /** While a stroke is in progress, a run of moves records exactly what the
      decimation reference keeps of their points, and touches nothing else. */
  lemma {:induction false} MovesDecimate(s: DrawState, ms: seq<Sample>)
    requires s.isMouseDown && s.lineInProgress != []
    ensures Run(s, Moves(ms)) == s.(lineInProgress := Decimate(s.lineInProgress, SamplePoints(ms)))
    ensures FaultCount(s, Moves(ms)) == 0
    decreases |ms|
  {
    if |ms| > 0 {
      var t := After(s, Move(ms[0]));
      assert Moves(ms)[1..] == Moves(ms[1..]);
      assert SamplePoints(ms)[1..] == SamplePoints(ms[1..]);
      MovesDecimate(t, ms[1..]);
    } else {
      assert Moves(ms) == [];
    }
  }

  /** One complete drag (a down, any number of moves, an up) from any state
      seals exactly one new stroke behind the existing ones. The stroke is
      what the decimation reference keeps: it starts at the down point, has
      between one and one-more-than-the-number-of-moves points, keeps the
      minimum spacing, and holds only points the events denoted. Nothing is
      left in progress and no handler faults. */
  lemma Gesture(s: DrawState, d: Sample, ms: seq<Sample>)
    ensures var t := Run(s, [Down(d)] + Moves(ms) + [Up]);
      && var stroke := Decimate([SamplePoint(d)], SamplePoints(ms));
      && t.lines == s.lines + [stroke]
      && 1 <= |stroke| <= |ms| + 1
      && stroke[0] == SamplePoint(d)
      && (|ms| == 0 ==> stroke == [SamplePoint(d)])
      && Spaced(stroke)
      && (forall p :: p in stroke ==> p == SamplePoint(d) || p in SamplePoints(ms))
      && t.lineInProgress == []
      && !t.isMouseDown
      && t.drawingNewLine
    ensures FaultCount(s, [Down(d)] + Moves(ms) + [Up]) == 0
  {
    var s1 := After(s, Down(d));
    assert Run(s, [Down(d)]) == s1;
    assert FaultCount(s, [Down(d)]) == 0;
    MovesDecimate(s1, ms);
    var s2 := Run(s1, Moves(ms));
    assert Run(s2, [Up]) == MouseUp(s2);
    assert FaultCount(s2, [Up]) == 0;
    RunAppend(s, [Down(d)], Moves(ms));
    RunAppend(s, [Down(d)] + Moves(ms), [Up]);
    var stroke := Decimate([SamplePoint(d)], SamplePoints(ms));
    assert stroke[..1] == [SamplePoint(d)];
  }

  /** Two drags one after the other seal two strokes, in the order the drags
      ended, behind the strokes already there. */
  lemma TwoGestures(s: DrawState, d1: Sample, ms1: seq<Sample>, d2: Sample, ms2: seq<Sample>)
    ensures
      var g1 := [Down(d1)] + Moves(ms1) + [Up];
      var g2 := [Down(d2)] + Moves(ms2) + [Up];
      Run(s, g1 + g2).lines == s.lines + [
        Decimate([SamplePoint(d1)], SamplePoints(ms1)),
        Decimate([SamplePoint(d2)], SamplePoints(ms2))]
  {
    var g1 := [Down(d1)] + Moves(ms1) + [Up];
    var g2 := [Down(d2)] + Moves(ms2) + [Up];
    RunAppend(s, g1, g2);
    Gesture(s, d1, ms1);
    Gesture(Run(s, g1), d2, ms2);
  }

  /** A sample at canvas-local position (x, y), taken with the canvas at
      the given offset on the page. */
  function At(x: int, y: int, canvas: Offset): (m: Sample)
    ensures SamplePoint(m) == Point(x, y)
  {
    Sample(MouseEvent(x + canvas.offsetLeft, y + canvas.offsetTop), canvas)
  }

  /** Moving with the button held, to a point more than the minimum spacing
      from the last recorded one, records that point. */
  lemma MoveRecorded(s: DrawState, m: Sample, p: Point)
    requires s.isMouseDown && s.lineInProgress != []
    requires SamplePoint(m) == p
    requires DistSq(Last(s.lineInProgress), p) > MinSpacingSq
    ensures After(s, Move(m)) == s.(lineInProgress := s.lineInProgress + [p])
  {
    assert EventPoint(m.ev, m.canvas) == p;
  }

  /** Moving with the button held, to a point within the minimum spacing of
      the last recorded one, changes nothing. */
  lemma MoveDropped(s: DrawState, m: Sample, p: Point)
    requires s.isMouseDown && s.lineInProgress != []
    requires SamplePoint(m) == p
    requires DistSq(Last(s.lineInProgress), p) <= MinSpacingSq
    ensures After(s, Move(m)) == s
  {
    assert EventPoint(m.ev, m.canvas) == p;
  }

  /** Four inputs in a row take the state through the four intermediate
      states. */
  lemma RunFour(a: DrawState, b: DrawState, c: DrawState, d: DrawState, e: DrawState,
                i0: Input, i1: Input, i2: Input, i3: Input)
    requires After(a, i0) == b && After(b, i1) == c && After(c, i2) == d && After(d, i3) == e
    ensures Run(a, [i0, i1, i2, i3]) == e
  {
    var evs := [i0, i1, i2, i3];
    assert evs[1..] == [i1, i2, i3];
    assert evs[1..][1..] == [i2, i3];
    assert evs[1..][1..][1..] == [i3];
    assert [i3][1..] == [];
    assert Run(e, []) == e;
    assert Run(d, [i3]) == e;
    assert Run(c, [i2, i3]) == e;
    assert Run(b, [i1, i2, i3]) == e;
  }

  /** The drag of the worked example, started anywhere on a canvas placed
      anywhere on the page: a down at (x, y), a move 10 units to the right
      that is recorded, a move 1 unit further that is too close and is
      dropped, and an up seal the single two-point stroke. With x = y = 100
      this is the drag (100, 100), (110, 100), (111, 100). */
  lemma WorkedExample(x: int, y: int, c: Offset)
    ensures Run(Initial, [Down(At(x, y, c)), Move(At(x + 10, y, c)), Move(At(x + 11, y, c)), Up]).lines
      == [[Point(x, y), Point(x + 10, y)]]
  {
    var p0, p1, p2 := Point(x, y), Point(x + 10, y), Point(x + 11, y);
    var m0, m1, m2 := At(x, y, c), At(x + 10, y, c), At(x + 11, y, c);
    var s1 := Initial.(isMouseDown := true, lineInProgress := [p0]);
    var s2 := s1.(lineInProgress := [p0] + [p1]);
    var s4 := MouseUp(s2);
    assert After(Initial, Down(m0)) == s1;
    assert DistSq(p0, p1) > MinSpacingSq;
    MoveRecorded(s1, m1, p1);
    assert Last(s2.lineInProgress) == p1;
    assert DistSq(p1, p2) <= MinSpacingSq;
    MoveDropped(s2, m2, p2);
    assert After(s2, Up) == s4;
    RunFour(Initial, s1, s2, s2, s4, Down(m0), Move(m1), Move(m2), Up);
    assert [p0] + [p1] == [p0, p1];
    assert s4.lines == [] + [[p0, p1]];
  }
}
