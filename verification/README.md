# Stroke capture for a freehand drawing canvas, in Dafny

This project models the core of a small freehand drawing surface: the `Draw`
component that turns mouse drags over a canvas into recorded strokes. The
component keeps four pieces of state:

- the sealed strokes (`lines`);
- the stroke being captured (`lineInProgress`);
- a flag telling the incremental renderer to start a fresh path (`drawingNewLine`);
- whether the button is held (`isMouseDown`).

Four handlers change that state: mouse down, mouse move, mouse up and reset.
A move is recorded only when it lies more than 3 units from the last recorded
point (squared distance strictly above 9). The routine `drawLine` would
draw a sealed stroke as one path of canvas commands, but in the program it is
reachable only through `drawLines` and `repaint`, which nothing calls; what
appears on screen while drawing comes from the incremental renderer, which is
left out.

The project has five modules:

- `Geometry` (geometry.dfy) holds points, the canvas offset, the squared
  distance, and page-to-canvas translation with its inverse.
- `Faults` (faults.dfy) holds the one run-time fault. Reading a coordinate of a
  missing array element throws a TypeError and aborts the handler; this is
  `Err(UndefinedPoint)`.
- `Draw` (draw.dfy) holds the state record and the four handlers as pure
  transitions. It also holds the spacing predicate and `Decimate`, a reference
  definition of which samples a drag keeps.
- `Render` (render.dfy) models `drawLine` as the sequence of
  canvas-context commands it issues.
- `Traces` (traces.dfy) replays sequences of inputs. It states the invariants
  over whole traces and what one complete drag records.

A DOM mouse event is modelled as its integer `(pageX, pageY)`. The canvas
position is an integer `(offsetLeft, offsetTop)` read at each event, so the
canvas may move between events.

The reset hazard is modelled as the code behaves. `reset` empties both stroke
collections but leaves `isMouseDown` alone. After a reset during a drag:

- the next move reads the last point of an empty array and faults
  (`Traces.ResetDuringDrag`);
- the next up seals an empty stroke.

So "button held implies a stroke is in progress" and "no sealed stroke is
empty" hold on every trace without a reset during a drag
(`Traces.RunKeepsWellFormed`). They fail on traces with one. The spacing
invariant holds on every trace (`Traces.RunKeepsSpacing`).

A pointer down does not set the "start a fresh path" flag, although the
gesture it begins is a new path. In the code only the
initial value and `mouseUpHandler` (src/draw.ts:51) set it; `mouseDownHandler`
does not. The model follows the code: `Draw.MouseDown` leaves `drawingNewLine`
unchanged. This difference cannot be observed in the model, though. The only
code that clears the flag is the incremental renderer, which is left out, so
the flag is true in every state reachable from a freshly constructed
component (`Traces.FlagStaysSet`).

## Model

| member | source | states |
|---|---|---|
| Geometry.DistSq | src/draw.ts:17-19 | The squared distance is never negative and is zero exactly when the two points coincide. |
| Geometry.Square | src/draw.ts:18 | The square of a coordinate difference is never negative and is zero only for a zero difference. |
| Geometry.DistSqSymmetric | src/draw.ts:17-19 | The squared distance is the same whichever point comes first. |
| Geometry.ScreenToCanvas | src/draw.ts:21-27 | Adding the canvas offsets back to the translated point gives the original page coordinates. |
| Geometry.TranslationRoundTrip | src/draw.ts:21-27 | Translating page to canvas and back recovers the point, and so does canvas to page and back. |
| Geometry.TranslationKeepsDistance | src/draw.ts:17-27 | For a fixed canvas position, translation keeps squared distances. The decimation decision is therefore the same in page and canvas coordinates. |
| Draw.MouseDown | src/draw.ts:29-33 | The button is held. The in-progress stroke is exactly the one translated down point, and earlier in-progress points are discarded. Sealed strokes and the new-path flag are unchanged. |
| Draw.MouseMove | src/draw.ts:35-46 | With the button up, the state is unchanged. With the button down and nothing in progress, the handler faults. Otherwise the in-progress stroke gains exactly the translated point if and only if its squared distance from the last point is strictly over 9, and stays the same if not. Sealed strokes, the button and the flag are untouched. |
| Draw.MouseUp | src/draw.ts:49-56 | With the button held, the in-progress stroke becomes the new last sealed stroke behind the unchanged earlier ones. The in-progress stroke is then emptied, the new-path flag is set and the button released. With the button up, nothing changes. |
| Draw.Reset | src/draw.ts:111-116 | Sealed and in-progress strokes are emptied. The button state and the new-path flag are not changed. |
| Draw.ResetIdempotent | src/draw.ts:111-116 | A second reset has no further effect. |
| Draw.Decimate | src/draw.ts:37-44 | The greedy reference for what a drag keeps. It keeps the points already kept as a prefix and adds at most one point per sample. It preserves spacing and only adds sample points. |
| Render.TracePath | src/draw.ts:69-77 | For a non-empty stroke: begin a path, move to the first point, then one line-to for each later point in order. The path traced is the stroke, with one segment fewer than it has points. |
| Render.DrawLine | src/draw.ts:69-83 | For a non-empty stroke: the path commands, then colour green, width 7 and one stroke; the traced path equals the stroke. For an empty stroke, the path is begun and rendering aborts on the unconditional read of the first point. |
| Traces.InitialWellFormed | src/draw.ts:8-13 | A freshly constructed component satisfies every state invariant. |
| Traces.SpacedSnoc | src/draw.ts:39-43 | Appending a point more than the threshold from the last point keeps a stroke spaced. |
| Traces.StepKeepsSpacing | src/draw.ts:29-56 | Every handler keeps all strokes spaced and nothing in progress while the button is up. |
| Traces.StepKeepsWellFormed | src/draw.ts:29-56 | Any input other than a reset during a drag does not fault. It also keeps "button held implies a stroke in progress" and "no empty sealed stroke". |
| Traces.RunKeepsSpacing | src/draw.ts:29-56 | After any trace, resets during drags included, every consecutive pair of points in every stroke has squared distance over 9. |
| Traces.FlagStaysSet | src/draw.ts:49-56 | Once the new-path flag is set, no trace of downs, moves, ups and resets clears it, since none of those handlers clears it. |
| Traces.RunTracksButton | src/draw.ts:29-56 | The button state after a trace is fixed by its down and up events alone; faults and resets do not affect it. |
| Traces.RunKeepsWellFormed | src/draw.ts:29-56 | A trace with no reset while the button is held keeps the well-formed invariants and never faults. |
| Traces.ResetDuringDrag | src/draw.ts:111-116 | A reset while the button is held breaks the invariants. The next move faults on the missing last point, and the next up seals an empty stroke. |
| Traces.ResetDuringDragExample | src/draw.ts:35-56 | From a fresh component, down–reset–move faults once, and down–reset–up leaves a single empty sealed stroke. |
| Traces.RunAppend | src/draw.ts:29-56 | Replaying two traces in turn is replaying their concatenation, and the faults add up. |
| Traces.HistoryAppendOnly | src/draw.ts:49-56 | Without a reset, sealed strokes are only appended: earlier ones stay, in order, at the front. |
| Traces.MovesDecimate | src/draw.ts:35-46 | While a stroke is in progress, any run of moves records exactly what the decimation reference keeps, changes nothing else and does not fault. |
| Traces.Gesture | src/draw.ts:29-56 | Down, N moves and up seal exactly one new stroke behind the existing ones. It starts at the down point and has between 1 and N+1 points; zero moves give one point. It is spaced and holds only points the events denoted. Nothing stays in progress, the button is up, the flag is set, and no handler faults. |
| Traces.MoveRecorded | src/draw.ts:35-44 | A held move more than the minimum spacing from the last point appends exactly that point and changes nothing else. |
| Traces.MoveDropped | src/draw.ts:35-46 | A held move within the minimum spacing of the last point leaves the state unchanged. |
| Traces.TwoGestures | src/draw.ts:49-56 | Two drags seal two separate strokes, in the order the drags ended. |
| Traces.WorkedExample | src/draw.ts:29-56 | From a fresh component, wherever the canvas sits: a down at (x,y), a move to (x+10,y) and a move to (x+11,y), then an up, seal exactly [(x,y),(x+10,y)]. The second move is dropped because its squared distance is 1. With x = y = 100 this is the drag (100,100), (110,100), (111,100). |

## Left out

- The incremental renderer `continuePaintFromLineInProgress` and its `requestAnimationFrame` scheduling (src/draw.ts:40-42, 90-99) are left out. They run asynchronously, so the segment they draw depends on frame timing. As a result the model never clears `drawingNewLine`, which that renderer alone does.
- The no-op `paint` hook called at the end of a move is left out.
- `clear` and `drawBackground` are left out. They are raster side effects and logging; reset's clearing and background fill are made of them.
- `drawLines` and `repaint` are left out. They would redraw every sealed stroke with `drawLine`, but nothing in the program calls `repaint`, so `drawLine` is modelled (`Render.DrawLine`) only as what it would issue if called.
- The `lineWidth` and `strokeStyle` accessors are left out. They pass values straight through to the canvas context, whose own validation is not part of this model.
- The constructor and event-listener registration are left out; they are browser wiring. The canvas context is assumed present, which the constructor's unconditional `lineJoin` write already demands.
- `src/main.ts` is left out. It is page glue: element lookup, canvas sizing and button wiring.
- Coordinates are integers, not floating-point numbers. Squared distances and the `> 9` test are therefore exact. Very large coordinates that would lose precision in the floating-point `Math.pow` are not modelled.
- A handler aborted by a fault is modelled as leaving the state as it was. The TypeError itself, reported on the console by the browser, is not modelled.
