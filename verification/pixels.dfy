/**
 The decoded image the extractor reads and the renderer paints: a rectangle of
 pixels addressed by (x, y) points, with x the column and y the row.
 */
module Pixels {

  /** A pixel coordinate, as java.awt.Point. Equality is by value. */
  datatype Point = Point(x: int, y: int)

  /** The colours the core tells apart. `Other` is any colour that is neither
      pure white nor pure black. `Overlay` is the fixed colour the renderer
      writes on the solution: red 50, green 150, blue 255, alpha 150. */
  datatype Pixel = White | Black | Other | Overlay

  /** An image stored row by row: `g[y][x]` is the pixel at column x of row y. */
  type Grid = seq<seq<Pixel>>

  /** A non-empty rectangle, as every decoded image is. */
  predicate WellFormed(g: Grid) {
    |g| > 0 && |g[0]| > 0 && forall y :: 0 <= y < |g| ==> |g[y]| == |g[0]|
  }

  function Width(g: Grid): nat
    requires WellFormed(g)
  {
    |g[0]|
  }

  function Height(g: Grid): nat
    requires WellFormed(g)
  {
    |g|
  }

  predicate InBounds(g: Grid, p: Point)
    requires WellFormed(g)
  {
    0 <= p.x < Width(g) && 0 <= p.y < Height(g)
  }

  /** getRGB: the colour at an in-bounds point. */
  function At(g: Grid, p: Point): Pixel
    requires WellFormed(g) && InBounds(g, p)
  {
    g[p.y][p.x]
  }

  /** The point lies inside the image and is a path pixel. */
  predicate IsWhite(g: Grid, p: Point)
    requires WellFormed(g)
  {
    InBounds(g, p) && At(g, p) == White
  }

  predicate SameShape(a: Grid, b: Grid) {
    WellFormed(a) && WellFormed(b) && Width(a) == Width(b) && Height(a) == Height(b)
  }

  /** setRGB: one pixel takes the new colour and every other pixel keeps its own. */
  function SetPixel(g: Grid, p: Point, c: Pixel): (r: Grid)
    requires WellFormed(g) && InBounds(g, p)
    ensures SameShape(g, r)
    ensures At(r, p) == c
    ensures forall q :: InBounds(g, q) && q != p ==> At(r, q) == At(g, q)
  {
    g[p.y := g[p.y][p.x := c]]
  }

  /** The elements of a list of points, as a set. */
  function Elems(s: seq<Point>): set<Point> {
    set q | q in s
  }

  /** Appending a point to a list adds it to the list's elements. */
  lemma ElemsSnoc(s: seq<Point>, p: Point)
    ensures Elems(s + [p]) == Elems(s) + {p}
  {
    assert forall q :: q in s + [p] <==> q in s || q == p;
  }

  /** Taking one more element of a list adds that element to the prefix's elements. */
  lemma ElemsPrefixStep(s: seq<Point>, k: int)
    requires 0 <= k < |s|
    ensures Elems(s[..k + 1]) == Elems(s[..k]) + {s[k]}
  {
    assert s[..k + 1] == s[..k] + [s[k]];
    ElemsSnoc(s[..k], s[k]);
  }

  /** The four cardinal directions; rows grow downwards, so Up decreases y. */
  datatype Direction = Up | Down | Left | Right

  function Opposite(d: Direction): Direction {
    match d
    case Up => Down
    case Down => Up
    case Left => Right
    case Right => Left
  }

  /** The point k pixels away from p in direction d. */
  function Step(p: Point, d: Direction, k: int): Point {
    match d
    case Up => Point(p.x, p.y - k)
    case Down => Point(p.x, p.y + k)
    case Left => Point(p.x - k, p.y)
    case Right => Point(p.x + k, p.y)
  }

  /** Walking k pixels one way and then i pixels back lands k - i pixels out. */
  lemma StepBack(p: Point, d: Direction, k: int, i: int)
    ensures Step(Step(p, d, k), Opposite(d), i) == Step(p, d, k - i)
  {
  }

  /** Distinct distances along one direction give distinct points. */
  lemma StepInjective(p: Point, d: Direction, i: int, j: int)
    ensures Step(p, d, i) == Step(p, d, j) <==> i == j
  {
  }

}
