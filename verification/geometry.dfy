/** Points, the canvas offset and the two geometric helpers of the drawing
    surface: the squared distance used for sampling decimation and the
    page-to-canvas coordinate translation. Coordinates are whole numbers so
    that the squared distance and its threshold comparison are exact. */
module Geometry {

  /** A point; in page space or, after translation, in canvas-local space. */
  datatype Point = Point(x: int, y: int)

  /** The on-screen position of the canvas, read from its layout at the time
      of each event. */
  datatype Offset = Offset(offsetLeft: int, offsetTop: int)

  /** Squared Euclidean distance between two points, as `distSq` computes it
      from the differences of the coordinates. */
  function DistSq(a: Point, b: Point): (r: int)
    ensures r >= 0
    ensures r == 0 <==> a == b
  {
    Square(b.x - a.x) + Square(b.y - a.y)
  }

  /** The square of a coordinate difference, as `Math.pow(d, 2)` computes it
      for whole numbers: never negative, and zero only for zero. */
  function Square(d: int): (r: int)
    ensures r >= 0
    ensures r == 0 <==> d == 0
  {
    if d < 0 then
      assert d * d == (-d) * (-d);
      d * d
    else
      d * d
  }

  /** The distance does not depend on the order of its arguments. */
  lemma DistSqSymmetric(a: Point, b: Point)
    ensures DistSq(a, b) == DistSq(b, a)
  {
    assert Square(b.x - a.x) == Square(a.x - b.x);
    assert Square(b.y - a.y) == Square(a.y - b.y);
  }

  /** Translates a page-space position into canvas-local coordinates by
      subtracting the canvas offset; the result, moved back by the offset,
      is the page position again. */
  function ScreenToCanvas(page: Point, canvas: Offset): (r: Point)
    ensures r.x + canvas.offsetLeft == page.x
    ensures r.y + canvas.offsetTop == page.y
  {
    Point(page.x - canvas.offsetLeft, page.y - canvas.offsetTop)
  }

  /** The inverse translation: a canvas-local point moved back into page
      space. */
  function CanvasToScreen(local: Point, canvas: Offset): Point
  {
    Point(local.x + canvas.offsetLeft, local.y + canvas.offsetTop)
  }

  /** Translating to the canvas and back recovers the page position, and the
      other way round. */
  lemma TranslationRoundTrip(page: Point, local: Point, canvas: Offset)
    ensures CanvasToScreen(ScreenToCanvas(page, canvas), canvas) == page
    ensures ScreenToCanvas(CanvasToScreen(local, canvas), canvas) == local
  {
  }

  /** With the canvas where it is, translation keeps distances, so the
      decimation decision is the same in page and in canvas coordinates. */
  lemma TranslationKeepsDistance(a: Point, b: Point, canvas: Offset)
    ensures DistSq(ScreenToCanvas(a, canvas), ScreenToCanvas(b, canvas)) == DistSq(a, b)
  {
  }
}
