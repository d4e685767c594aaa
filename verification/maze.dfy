/**
 A maze: its graph of vertices, the start point and, once set, the exit point;
 and the solver that draws the path the breadth-first search returns.
 */
module Mazes {
  import opened Wrappers
  import opened Pixels
  import opened Graphs

  datatype Maze = Maze(graph: Graph, start: Point, exit: Option<Point>)

  /** The start and the exit, once set, are registered, and the graph is undirected. */
  predicate Valid(m: Maze) {
    m.start in m.graph && (m.exit.Some? ==> m.exit.value in m.graph) && Undirected(m.graph)
  }

  /** The constructor: a graph holding only the start, and no exit yet. */
  function NewMaze(start: Point): (m: Maze)
    ensures Valid(m) && m.start == start && m.exit == None
    ensures m.graph.Keys == {start}
    ensures forall u, w :: !Adjacent(m.graph, u, w)
  {
    Maze(map[start := {}], start, None)
  }

  /** setExit records the exit and leaves the graph alone. */
  function SetExit(m: Maze, exit: Point): (r: Maze)
    ensures r.exit == Some(exit)
    ensures r.graph == m.graph && r.start == m.start
    ensures Valid(m) && exit in m.graph ==> Valid(r)
  {
    m.(exit := Some(exit))
  }

  /** addVertex registers a point; vertices and edges already present are kept. */
  function AddVertex(m: Maze, p: Point): (r: Maze)
    ensures r.graph.Keys == m.graph.Keys + {p}
    ensures forall u, w :: Adjacent(r.graph, u, w) <==> Adjacent(m.graph, u, w)
    ensures r.start == m.start && r.exit == m.exit
    ensures Valid(m) ==> Valid(r)
  {
    m.(graph := AddValue(m.graph, p))
  }

  /** connectVertices adds one undirected edge and nothing else. */
  function ConnectVertices(m: Maze, a: Point, b: Point): (r: Maze)
    requires a in m.graph && b in m.graph
    ensures Adjacent(r.graph, a, b) && Adjacent(r.graph, b, a)
    ensures r.graph.Keys == m.graph.Keys
    ensures forall u, w :: Adjacent(r.graph, u, w) <==> Adjacent(m.graph, u, w) || (u == a && w == b) || (u == b && w == a)
    ensures r.start == m.start && r.exit == m.exit
    ensures Valid(m) ==> Valid(r)
  {
    m.(graph := ConnectUndirected(m.graph, a, b))
  }

  /** v lies in the closed interval between a and b, whichever is smaller. */
  predicate Between(v: int, a: int, b: int) {
    (a <= v <= b) || (b <= v <= a)
  }

  /** q is on the horizontal run drawn for the pair: row p1.y, between the two x's. */
  predicate OnRow(p1: Point, p2: Point, q: Point) {
    p1.x != p2.x && q.y == p1.y && Between(q.x, p1.x, p2.x)
  }

  /** q is on the vertical run drawn for the pair: column p1.x, between the two y's. */
  predicate OnColumn(p1: Point, p2: Point, q: Point) {
    p1.y != p2.y && q.x == p1.x && Between(q.y, p1.y, p2.y)
  }

  /** The pixels drawPath paints for the pair (p1, p2). */
  predicate OnSegment(p1: Point, p2: Point, q: Point) {
    OnRow(p1, p2, q) || OnColumn(p1, p2, q)
  }

  /** q is one of the n pixels starting at `from` and going towards d. */
  predicate OnRun(from: Point, d: Direction, n: int, q: Point) {
    match d
    case Right => q.y == from.y && from.x <= q.x < from.x + n
    case Left => q.y == from.y && from.x - n < q.x <= from.x
    case Down => q.x == from.x && from.y <= q.y < from.y + n
    case Up => q.x == from.x && from.y - n < q.y <= from.y
  }

  /** One of drawPath's four loops: paint n pixels from `from` towards d. */
  method PaintRun(color: Pixel, sol: Grid, from: Point, d: Direction, n: nat) returns (r: Grid)
    requires WellFormed(sol) && InBounds(sol, from) && (n > 0 ==> InBounds(sol, Step(from, d, n - 1)))
    ensures SameShape(sol, r)
    ensures forall q :: InBounds(sol, q) ==> At(r, q) == if OnRun(from, d, n, q) then color else At(sol, q)
  {
    r := sol;
    var i := 0;
    while i < n
      invariant 0 <= i <= n
      invariant SameShape(sol, r)
      invariant forall q :: InBounds(sol, q) ==> At(r, q) == if OnRun(from, d, i, q) then color else At(sol, q)
    {
      r := SetPixel(r, Step(from, d, i), color);
      i := i + 1;
    }
  }

  /** The first two blocks of drawPath: paint row p1.y from p1.x to p2.x. */
  method PaintRow(color: Pixel, sol: Grid, p1: Point, p2: Point) returns (r: Grid)
    requires WellFormed(sol) && InBounds(sol, p1) && InBounds(sol, p2)
    ensures SameShape(sol, r)
    ensures forall q :: InBounds(sol, q) ==> At(r, q) == if OnRow(p1, p2, q) then color else At(sol, q)
    ensures p1.x == p2.x ==> r == sol
  {
    var dx := p1.x - p2.x;
    r := sol;
    if dx < 0 {
      r := PaintRun(color, r, p1, Right, p2.x - p1.x + 1);
    }
    if dx > 0 {
      r := PaintRun(color, r, p1, Left, p1.x - p2.x + 1);
    }
  }

  /** The last two blocks of drawPath: paint column p1.x from p1.y to p2.y. */
  method PaintColumn(color: Pixel, sol: Grid, p1: Point, p2: Point) returns (r: Grid)
    requires WellFormed(sol) && InBounds(sol, p1) && InBounds(sol, p2)
    ensures SameShape(sol, r)
    ensures forall q :: InBounds(sol, q) ==> At(r, q) == if OnColumn(p1, p2, q) then color else At(sol, q)
    ensures p1.y == p2.y ==> r == sol
  {
    var dy := p1.y - p2.y;
    r := sol;
    if dy < 0 {
      r := PaintRun(color, r, p1, Down, p2.y - p1.y + 1);
    }
    if dy > 0 {
      r := PaintRun(color, r, p1, Up, p1.y - p2.y + 1);
    }
  }

  /** drawPath: paint the row run and then the column run from p1 towards p2,
      endpoints included. For a pair on one row or one column that is the straight
      run between them; for a repeated point nothing is painted. */
  method DrawPath(color: Pixel, sol: Grid, p1: Point, p2: Point) returns (r: Grid)
    requires WellFormed(sol) && InBounds(sol, p1) && InBounds(sol, p2)
    ensures SameShape(sol, r)
    ensures forall q :: InBounds(sol, q) ==> At(r, q) == if OnSegment(p1, p2, q) then color else At(sol, q)
    ensures p1.y == p2.y ==>
      forall q :: InBounds(sol, q) ==>
        At(r, q) == if p1 != p2 && q.y == p1.y && Between(q.x, p1.x, p2.x) then color else At(sol, q)
    ensures p1.x == p2.x ==>
      forall q :: InBounds(sol, q) ==>
        At(r, q) == if p1 != p2 && q.x == p1.x && Between(q.y, p1.y, p2.y) then color else At(sol, q)
    ensures p1 == p2 ==> r == sol
  {
    var row := PaintRow(color, sol, p1, p2);
    r := PaintColumn(color, row, p1, p2);
  }

  /** q is painted for one of the consecutive pairs among the first n points of the path. */
  predicate OnPath(path: seq<Point>, n: int, q: Point) {
    exists k :: 1 <= k < n && k < |path| && OnSegment(path[k - 1], path[k], q)
  }

  lemma OnPathExtend(path: seq<Point>, n: int, q: Point)
    requires 1 <= n < |path|
    ensures OnPath(path, n + 1, q) <==> OnPath(path, n, q) || OnSegment(path[n - 1], path[n], q)
  {
  }

  lemma OnPathSaturates(path: seq<Point>, n: int, q: Point)
    requires n >= |path|
    ensures OnPath(path, n, q) <==> OnPath(path, |path|, q)
  {
  }

  /** Every point of a returned path lies inside the image. */
  predicate PathInBounds(image: Grid, path: Option<seq<Point>>)
    requires WellFormed(image)
  {
    path.Some? ==> forall k :: 0 <= k < |path.value| ==> InBounds(image, path.value[k])
  }

  /** The search the solver delegates to: Graph.breadthFirstPath(start, goal),
      null when the goal cannot be reached. Its body is not part of this model. */
  type PathQuery = (Graph, Point, Point) -> Option<seq<Point>>

  /** solveBFS: ask for a path from start to exit; without one the answer is null,
      otherwise a copy of the image with every consecutive pair's run painted. */
  method SolveBFS(m: Maze, image: Grid, bfs: PathQuery) returns (r: Option<Grid>)
    requires WellFormed(image) && m.exit.Some?
    requires PathInBounds(image, bfs(m.graph, m.start, m.exit.value))
    ensures r.None? <==> bfs(m.graph, m.start, m.exit.value).None?
    ensures r.Some? ==>
      var path := bfs(m.graph, m.start, m.exit.value).value;
      && SameShape(image, r.value)
      && forall q :: InBounds(image, q) ==>
           At(r.value, q) == if OnPath(path, |path|, q) then Overlay else At(image, q)
  {
    var solution := image;
    var path := bfs(m.graph, m.start, m.exit.value);
    if path.None? {
      return None;
    }
    var points := path.value;
    var i := 1;
    while i < |points|
      invariant 1 <= i
      invariant SameShape(image, solution)
      invariant forall q :: InBounds(image, q) ==>
        At(solution, q) == if OnPath(points, i, q) then Overlay else At(image, q)
    {
      var prev := points[i - 1];
      var curr := points[i];
      solution := DrawPath(Overlay, solution, prev, curr);
      forall q | InBounds(image, q)
        ensures At(solution, q) == if OnPath(points, i + 1, q) then Overlay else At(image, q)
      {
        OnPathExtend(points, i, q);
      }
      i := i + 1;
    }
    forall q | InBounds(image, q)
      ensures OnPath(points, i, q) <==> OnPath(points, |points|, q)
    {
      OnPathSaturates(points, i, q);
    }
    return Some(solution);
  }

}
