/** The full-redraw routine for one sealed stroke (`drawLine`), modelled as
    the sequence of commands it issues to the 2D canvas context rather than
    as pixels. In the program it is reachable only through `drawLines` and
    `repaint`, which nothing calls: what appears on screen while drawing is
    issued by the incremental renderer, which is not part of this model. */
module Render {
  import opened Geometry
  import opened Faults

  /** The canvas-context calls the stroke renderer makes, in the order made. */
  datatype Command =
    | BeginPath
    | MoveTo(p: Point)
    | LineTo(p: Point)
    | SetStrokeStyle(style: string)
    | SetLineWidth(width: int)
    | StrokePath

  /** The commands a render issued, and whether it ran to its end or was
      aborted by a fault after issuing them. */
  datatype Rendering =
    | Drawn(commands: seq<Command>)
    | Aborted(commands: seq<Command>, fault: Fault)

  /** The colour and width every sealed stroke is drawn with. */
  const StrokeColour := "green"
  const StrokeWidth := 7

  /** The points the current path visits, in order: the targets of the
      move-to and line-to commands. */
  function PathOf(commands: seq<Command>): seq<Point>
    decreases |commands|
  {
    if |commands| == 0 then []
    else
      var c := commands[|commands| - 1];
      PathOf(commands[..|commands| - 1]) +
        (match c
         case MoveTo(p) => [p]
         case LineTo(p) => [p]
         case _ => [])
  }

  /** Issuing one more command extends the path by that command's target, if
      it has one. */
  lemma PathOfSnoc(commands: seq<Command>, c: Command)
    ensures PathOf(commands + [c]) ==
      PathOf(commands) + (match c case MoveTo(p) => [p] case LineTo(p) => [p] case _ => [])
  {
    assert (commands + [c])[..|commands|] == commands;
  }

  /** Number of straight segments the path draws. */
  function SegmentCount(commands: seq<Command>): nat
    decreases |commands|
  {
    if |commands| == 0 then 0
    else SegmentCount(commands[..|commands| - 1]) + (if commands[|commands| - 1].LineTo? then 1 else 0)
  }

  lemma SegmentCountSnoc(commands: seq<Command>, c: Command)
    ensures SegmentCount(commands + [c]) == SegmentCount(commands) + (if c.LineTo? then 1 else 0)
  {
    assert (commands + [c])[..|commands|] == commands;
  }

  /** The path part of drawing a non-empty stroke, as the loop of the
      renderer issues it: begin a path, move to the first point, then a line
      to each later point in order. */
  method TracePath(line: seq<Point>) returns (commands: seq<Command>)
    requires |line| > 0
    ensures |commands| == |line| + 1
    ensures commands[0] == BeginPath && commands[1] == MoveTo(line[0])
    ensures forall i :: 1 <= i < |line| ==> commands[i + 1] == LineTo(line[i])
    ensures PathOf(commands) == line
    ensures SegmentCount(commands) == |line| - 1
  {
    PathOfSnoc([], BeginPath);
    SegmentCountSnoc([], BeginPath);
    commands := [BeginPath];
    PathOfSnoc(commands, MoveTo(line[0]));
    SegmentCountSnoc(commands, MoveTo(line[0]));
    commands := commands + [MoveTo(line[0])];
    var i := 1;
    while i < |line|
      invariant 1 <= i <= |line|
      invariant |commands| == i + 1
      invariant commands[0] == BeginPath && commands[1] == MoveTo(line[0])
      invariant forall j :: 1 <= j < i ==> commands[j + 1] == LineTo(line[j])
      invariant PathOf(commands) == line[..i]
      invariant SegmentCount(commands) == i - 1
    {
      var thisPoint := line[i];
      PathOfSnoc(commands, LineTo(thisPoint));
      SegmentCountSnoc(commands, LineTo(thisPoint));
      assert line[..i + 1] == line[..i] + [thisPoint];
      commands := commands + [LineTo(thisPoint)];
      i := i + 1;
    }
    assert line[..i] == line;
  }

  /** Would draw one stroke as a single path: begin a path, move to the first
      point, a line to each later point in order, set the fixed colour and
      width, and stroke. The first point is read unconditionally, so an empty
      stroke aborts right after the path is begun. The path drawn is exactly
      the stroke, with one segment fewer than it has points. */
  method DrawLine(line: seq<Point>) returns (r: Rendering)
    ensures |line| == 0 <==> r.Aborted?
    ensures |line| == 0 ==> r == Aborted([BeginPath], UndefinedPoint)
    ensures |line| > 0 ==>
      && |r.commands| == |line| + 4
      && r.commands[0] == BeginPath
      && r.commands[1] == MoveTo(line[0])
      && (forall i :: 1 <= i < |line| ==> r.commands[i + 1] == LineTo(line[i]))
      && r.commands[|line| + 1] == SetStrokeStyle(StrokeColour)
      && r.commands[|line| + 2] == SetLineWidth(StrokeWidth)
      && r.commands[|line| + 3] == StrokePath
      && SegmentCount(r.commands) == |line| - 1
    ensures PathOf(r.commands) == line
  {
    if |line| == 0 {
      PathOfSnoc([], BeginPath);
      return Aborted([BeginPath], UndefinedPoint);
    }
    var commands := TracePath(line);
    var finish := [SetStrokeStyle(StrokeColour), SetLineWidth(StrokeWidth), StrokePath];
    PathOfSnoc(commands, finish[0]);
    SegmentCountSnoc(commands, finish[0]);
    PathOfSnoc(commands + [finish[0]], finish[1]);
    SegmentCountSnoc(commands + [finish[0]], finish[1]);
    PathOfSnoc(commands + [finish[0]] + [finish[1]], finish[2]);
    SegmentCountSnoc(commands + [finish[0]] + [finish[1]], finish[2]);
    assert commands + [finish[0]] + [finish[1]] + [finish[2]] == commands + finish;
    r := Drawn(commands + finish);
  }
}
