/**
 The extractor that turns a black-and-white maze image into a Maze: find the
 entrance and exit on the border, register every interior branch pixel as a
 vertex, then connect each vertex to the nearest vertex along each of its four
 straight white corridors.
 */
module MazePng {
  import opened Wrappers
  import opened Pixels
  import opened Graphs
  import opened Mazes
  import opened Rays

  /** What createMazeFromPNG produces: a maze, null (a pixel that is neither white
      nor black inside the border), or InvalidMazeException (no start or no exit). */
  datatype Extraction = Extracted(maze: Maze) | BadPixel | InvalidMaze

  // ---------------------------------------------------------------------------
  // Branch detection

  /** Not on the outer ring of the image, so all four neighbours exist. */
  predicate Interior(g: Grid, p: Point)
    requires WellFormed(g)
  {
    1 <= p.x < Width(g) - 1 && 1 <= p.y < Height(g) - 1
  }

  /** isBranch: a white neighbour above or below, and a white neighbour left or right. */
  predicate IsBranch(g: Grid, p: Point)
    requires WellFormed(g) && Interior(g, p)
  {
    var up := At(g, Point(p.x, p.y - 1));
    var down := At(g, Point(p.x, p.y + 1));
    var left := At(g, Point(p.x - 1, p.y));
    var right := At(g, Point(p.x + 1, p.y));
    (up == White || down == White) && (left == White || right == White)
  }

  /** p's neighbour in direction d is a path pixel. */
  predicate Open(g: Grid, p: Point, d: Direction)
    requires WellFormed(g)
  {
    IsWhite(g, Step(p, d, 1))
  }

  /** How many of p's four neighbours are path pixels. */
  function OpenCount(g: Grid, p: Point): nat
    requires WellFormed(g)
  {
    (if Open(g, p, Up) then 1 else 0) + (if Open(g, p, Down) then 1 else 0)
    + (if Open(g, p, Left) then 1 else 0) + (if Open(g, p, Right) then 1 else 0)
  }

  /** A branch is where the path can turn: dead ends and isolated pixels are not
      branches, junctions of three or four corridors are, and a pixel with two
      openings is a branch exactly when they are not opposite (a corner, not a
      straight corridor). */
  lemma BranchByOpenings(g: Grid, p: Point)
    requires WellFormed(g) && Interior(g, p)
    ensures OpenCount(g, p) <= 1 ==> !IsBranch(g, p)
    ensures OpenCount(g, p) >= 3 ==> IsBranch(g, p)
    ensures OpenCount(g, p) == 2 ==>
      (IsBranch(g, p) <==> !(Open(g, p, Up) && Open(g, p, Down)) && !(Open(g, p, Left) && Open(g, p, Right)))
    ensures IsBranch(g, p) <==>
      exists v, h :: v in {Up, Down} && h in {Left, Right} && Open(g, p, v) && Open(g, p, h)
  {
    if IsBranch(g, p) {
      var v := if Open(g, p, Up) then Up else Down;
      var h := if Open(g, p, Left) then Left else Right;
      assert Open(g, p, v) && Open(g, p, h);
    }
  }

  // ---------------------------------------------------------------------------
  // Ray casting

  /** checkAndAddNeigbor: if p is a listed vertex, connect it to `vertex` and report true. */
  function CheckAndAddNeighbor(p: Point, vertex: Point, vertices: seq<Point>, maze: Maze): (r: (bool, Maze))
    requires vertex in maze.graph && forall v :: v in vertices ==> v in maze.graph
    ensures r.0 <==> p in vertices
    ensures r.1.graph.Keys == maze.graph.Keys && r.1.start == maze.start && r.1.exit == maze.exit
    ensures forall u, w :: Adjacent(r.1.graph, u, w) <==>
      Adjacent(maze.graph, u, w) || (r.0 && ((u == vertex && w == p) || (u == p && w == vertex)))
  {
    if p in vertices then (true, ConnectVertices(maze, vertex, p)) else (false, maze)
  }

  /** The ray towards d has not stopped before step i. */
  predicate Pending(g: Grid, vs: set<Point>, p: Point, d: Direction, i: int)
    requires WellFormed(g) && InBounds(g, p)
  {
    i <= RayStop(g, vs, p, d, 1)
  }

  /** A ray still going at step i stops there at a pixel that is not white, with
      nothing reached; stops there at a white vertex, which it reaches; and goes on
      past any other white pixel. */
  lemma RayAdvance(g: Grid, vs: set<Point>, p: Point, d: Direction, i: int)
    requires WellFormed(g) && InBounds(g, p) && 1 <= i && Pending(g, vs, p, d, i)
    ensures var q := Step(p, d, i);
      && (!IsWhite(g, q) ==> RayHit(g, vs, p, d) == None && !Pending(g, vs, p, d, i + 1))
      && (IsWhite(g, q) && q in vs ==> RayHit(g, vs, p, d) == Some(q) && !Pending(g, vs, p, d, i + 1))
      && (IsWhite(g, q) && q !in vs ==> Pending(g, vs, p, d, i + 1))
  {
    var q := Step(p, d, i);
    var k := RayStop(g, vs, p, d, 1);
    if !IsWhite(g, q) || q in vs {
      assert k == i;
      if IsWhite(g, q) {
        assert Sees(g, vs, p, d, i);
      }
    }
  }

  /** The vertex the ray towards d reached, counted once the ray is no longer active. */
  function Reached(active: bool, g: Grid, vs: set<Point>, p: Point, d: Direction): (r: set<Point>)
    requires WellFormed(g) && InBounds(g, p)
    ensures r <= vs
  {
    if active || RayHit(g, vs, p, d).None? then {}
    else HitIsCorridorEnd(g, vs, p, d); {RayHit(g, vs, p, d).value}
  }

  function Counted(active: bool, g: Grid, vs: set<Point>, p: Point, d: Direction): nat
    requires WellFormed(g) && InBounds(g, p)
  {
    if !active && RayHit(g, vs, p, d).Some? then 1 else 0
  }

  /** The union of four sets, with any one of them added last. */
  lemma UnionParts(a: set<Point>, b: set<Point>, c: set<Point>, d: set<Point>)
    ensures (b + c + d) + a == a + b + c + d
    ensures (a + c + d) + b == a + b + c + d
    ensures (a + b + d) + c == a + b + c + d
    ensures (a + b + c) + d == a + b + c + d
  {
  }

  /** One of the four direction blocks in connectNeighbors' loop, at step i. The
      source tests the bounds on the side the ray moves towards and then the colour;
      with `vertex` inside the image that is exactly IsWhite of the i-th pixel. */
  method Probe(vertices: seq<Point>, vertex: Point, g: Grid, maze: Maze, d: Direction, i: int,
               active: bool, neighbors: int, m: Maze, ghost rest: set<Point>)
    returns (active': bool, neighbors': int, m': Maze)
    requires WellFormed(g) && InBounds(g, vertex) && 1 <= i
    requires vertex in maze.graph && forall v :: v in vertices ==> v in maze.graph
    requires rest <= Elems(vertices)
    requires active <==> Pending(g, Elems(vertices), vertex, d, i)
    requires m == maze.(graph := ConnectAll(maze.graph, vertex, rest + Reached(active, g, Elems(vertices), vertex, d)))
    ensures active' <==> Pending(g, Elems(vertices), vertex, d, i + 1)
    ensures !active ==> !active' && neighbors' == neighbors && m' == m
    ensures neighbors' - Counted(active', g, Elems(vertices), vertex, d) == neighbors - Counted(active, g, Elems(vertices), vertex, d)
    ensures m' == maze.(graph := ConnectAll(maze.graph, vertex, rest + Reached(active', g, Elems(vertices), vertex, d)))
  {
    ghost var vs := Elems(vertices);
    active', neighbors', m' := active, neighbors, m;
    var q := Step(vertex, d, i);
    if active {
      RayAdvance(g, vs, vertex, d, i);
    }
    if active && IsWhite(g, q) {
      var res := CheckAndAddNeighbor(q, vertex, vertices, m);
      m' := res.1;
      if res.0 {
        assert rest + Reached(true, g, vs, vertex, d) == rest;
        ConnectAllStep(maze.graph, vertex, rest, q);
        neighbors' := neighbors + 1;
        active' := false;
      }
    } else {
      active' := false;
      if active {
        assert rest + Reached(true, g, vs, vertex, d) == rest + Reached(false, g, vs, vertex, d);
      }
    }
  }

  /** The state of connectNeighbors' loop before step i: each flag says whether its
      ray is still going, the count and the graph hold what the stopped rays reached. */
  ghost predicate Swept(vertices: seq<Point>, vertex: Point, g: Grid, maze: Maze, i: int,
                        up: bool, down: bool, left: bool, right: bool, neighbors: int, m: Maze)
    requires WellFormed(g) && InBounds(g, vertex)
    requires vertex in maze.graph && forall v :: v in vertices ==> v in maze.graph
  {
    var vs := Elems(vertices);
    && 1 <= i
    && (up <==> Pending(g, vs, vertex, Up, i))
    && (down <==> Pending(g, vs, vertex, Down, i))
    && (left <==> Pending(g, vs, vertex, Left, i))
    && (right <==> Pending(g, vs, vertex, Right, i))
    && neighbors == Counted(up, g, vs, vertex, Up) + Counted(down, g, vs, vertex, Down)
                  + Counted(left, g, vs, vertex, Left) + Counted(right, g, vs, vertex, Right)
    && m == maze.(graph := ConnectAll(maze.graph, vertex,
              Reached(up, g, vs, vertex, Up) + Reached(down, g, vs, vertex, Down)
              + Reached(left, g, vs, vertex, Left) + Reached(right, g, vs, vertex, Right)))
  }

  /** One pass of connectNeighbors' loop body: the four direction blocks at step i. */
  method Round(vertices: seq<Point>, vertex: Point, g: Grid, maze: Maze, i: int,
               up: bool, down: bool, left: bool, right: bool, neighbors: int, m: Maze)
    returns (up': bool, down': bool, left': bool, right': bool, neighbors': int, m': Maze)
    requires WellFormed(g) && InBounds(g, vertex)
    requires vertex in maze.graph && forall v :: v in vertices ==> v in maze.graph
    requires Swept(vertices, vertex, g, maze, i, up, down, left, right, neighbors, m)
    ensures Swept(vertices, vertex, g, maze, i + 1, up', down', left', right', neighbors', m')
  {
    ghost var vs := Elems(vertices);
    ghost var ru, rd, rl, rr := Reached(up, g, vs, vertex, Up), Reached(down, g, vs, vertex, Down),
                                Reached(left, g, vs, vertex, Left), Reached(right, g, vs, vertex, Right);
    UnionParts(ru, rd, rl, rr);
    up', neighbors', m' := Probe(vertices, vertex, g, maze, Up, i, up, neighbors, m, rd + rl + rr);
    ghost var ru' := Reached(up', g, vs, vertex, Up);
    UnionParts(ru', rd, rl, rr);
    down', neighbors', m' := Probe(vertices, vertex, g, maze, Down, i, down, neighbors', m', ru' + rl + rr);
    ghost var rd' := Reached(down', g, vs, vertex, Down);
    UnionParts(ru', rd', rl, rr);
    left', neighbors', m' := Probe(vertices, vertex, g, maze, Left, i, left, neighbors', m', ru' + rd' + rr);
    ghost var rl' := Reached(left', g, vs, vertex, Left);
    UnionParts(ru', rd', rl', rr);
    right', neighbors', m' := Probe(vertices, vertex, g, maze, Right, i, right, neighbors', m', ru' + rd' + rl');
    ghost var rr' := Reached(right', g, vs, vertex, Right);
    UnionParts(ru', rd', rl', rr');
  }

  /** connectNeighbors: cast the four rays from `vertex` in lock step and connect it
      to each vertex they reach; the result counts the edges added. */
  method ConnectNeighbors(vertices: seq<Point>, vertex: Point, g: Grid, maze: Maze) returns (neighbors: int, m: Maze)
    requires WellFormed(g) && InBounds(g, vertex)
    requires vertex in maze.graph && forall v :: v in vertices ==> v in maze.graph
    ensures 0 <= neighbors <= 4
    ensures neighbors == HitCount(g, Elems(vertices), vertex)
    ensures m == maze.(graph := ConnectAll(maze.graph, vertex, RayHits(g, Elems(vertices), vertex)))
  {
    neighbors := 0;
    m := maze;

    var up := true;
    var down := true;
    var right := true;
    var left := true;

    ConnectAllNone(maze.graph, vertex);
    var i := 1;
    while up || left || down || right
      invariant Swept(vertices, vertex, g, maze, i, up, down, left, right, neighbors, m)
      decreases Width(g) + Height(g) + 1 - i
    {
      up, down, left, right, neighbors, m := Round(vertices, vertex, g, maze, i, up, down, left, right, neighbors, m);
      i := i + 1;
    }
  }

  // ---------------------------------------------------------------------------
  // Entrance and exit

  /** initMaze: a maze starting at p, and p appended to the vertex list. */
  function InitMaze(p: Point, vertices: seq<Point>): (r: (Maze, seq<Point>))
    ensures r.0.start == p && r.0.exit == None && r.0.graph.Keys == {p} && Valid(r.0)
    ensures forall u, w :: !Adjacent(r.0.graph, u, w)
    ensures r.1 == vertices + [p]
  {
    (NewMaze(p), vertices + [p])
  }

  /** The first loop's visiting order over columns 0 to n - 1: the top then the
      bottom pixel of each column, left to right. */
  function RowScan(g: Grid, n: int): (r: seq<Point>)
    requires WellFormed(g)
    ensures |r| == if n > 0 then 2 * n else 0
    decreases n
  {
    if n <= 0 then [] else RowScan(g, n - 1) + [Point(n - 1, 0), Point(n - 1, Height(g) - 1)]
  }

  /** The second loop's visiting order over rows 1 to n: the left then the right
      pixel of each row, top to bottom. */
  function ColumnScan(g: Grid, n: int): (r: seq<Point>)
    requires WellFormed(g)
    ensures |r| == if n > 0 then 2 * n else 0
    decreases n
  {
    if n <= 0 then [] else ColumnScan(g, n - 1) + [Point(0, n), Point(Width(g) - 1, n)]
  }

  /** The order in which the two loops examine the border pixels. */
  function BorderScan(g: Grid): seq<Point>
    requires WellFormed(g)
  {
    RowScan(g, Width(g)) + ColumnScan(g, Height(g) - 2)
  }

  /** Column x's two pixels sit at positions 2x and 2x + 1 of the first order. */
  lemma {:induction false} RowScanAt(g: Grid, n: int, x: int)
    requires WellFormed(g) && 0 <= x < n
    ensures RowScan(g, n)[2 * x] == Point(x, 0) && RowScan(g, n)[2 * x + 1] == Point(x, Height(g) - 1)
    decreases n
  {
    if x < n - 1 {
      RowScanAt(g, n - 1, x);
    }
  }

  /** Row y's two pixels sit at positions 2(y - 1) and 2(y - 1) + 1 of the second order. */
  lemma {:induction false} ColumnScanAt(g: Grid, n: int, y: int)
    requires WellFormed(g) && 1 <= y <= n
    ensures ColumnScan(g, n)[2 * (y - 1)] == Point(0, y) && ColumnScan(g, n)[2 * (y - 1) + 1] == Point(Width(g) - 1, y)
    decreases n
  {
    if y < n {
      ColumnScanAt(g, n - 1, y);
    }
  }

  /** The first order visits the top and bottom pixels of columns 0 to n - 1 only. */
  lemma {:induction false} RowScanMembers(g: Grid, n: int, p: Point)
    requires WellFormed(g)
    ensures p in RowScan(g, n) ==> 0 <= p.x < n && (p.y == 0 || p.y == Height(g) - 1)
    decreases n
  {
    if n > 0 {
      RowScanMembers(g, n - 1, p);
    }
  }

  /** The second order visits the left and right pixels of rows 1 to n only. */
  lemma {:induction false} ColumnScanMembers(g: Grid, n: int, p: Point)
    requires WellFormed(g)
    ensures p in ColumnScan(g, n) ==> 1 <= p.y <= n && (p.x == 0 || p.x == Width(g) - 1)
    decreases n
  {
    if n > 0 {
      ColumnScanMembers(g, n - 1, p);
    }
  }

  /** p lies on the outer ring of the image. */
  predicate OnBorder(g: Grid, p: Point)
    requires WellFormed(g)
  {
    InBounds(g, p) && (p.y == 0 || p.y == Height(g) - 1 || p.x == 0 || p.x == Width(g) - 1)
  }

  /** The two loops visit exactly the border pixels. */
  lemma BorderScanCoversBorder(g: Grid, p: Point)
    requires WellFormed(g)
    ensures p in BorderScan(g) <==> OnBorder(g, p)
  {
    var rows, cols := RowScan(g, Width(g)), ColumnScan(g, Height(g) - 2);
    var b := rows + cols;
    if OnBorder(g, p) {
      if p.y == 0 || p.y == Height(g) - 1 {
        RowScanAt(g, Width(g), p.x);
        assert rows[2 * p.x] == p || rows[2 * p.x + 1] == p;
        assert p in rows;
      } else {
        ColumnScanAt(g, Height(g) - 2, p.y);
        assert cols[2 * (p.y - 1)] == p || cols[2 * (p.y - 1) + 1] == p;
        assert p in cols;
      }
    }
    RowScanMembers(g, Width(g), p);
    ColumnScanMembers(g, Height(g) - 2, p);
  }

  /** The white points of s, in order. */
  function Whites(g: Grid, s: seq<Point>): (r: seq<Point>)
    requires WellFormed(g)
    ensures |r| <= |s|
    decreases |s|
  {
    if s == [] then [] else Whites(g, s[..|s| - 1]) + if IsWhite(g, s[|s| - 1]) then [s[|s| - 1]] else []
  }

  /** Filtering a concatenation filters each part. */
  lemma {:induction false} WhitesAppend(g: Grid, a: seq<Point>, b: seq<Point>)
    requires WellFormed(g)
    ensures Whites(g, a + b) == Whites(g, a) + Whites(g, b)
    decreases |b|
  {
    if b == [] {
      assert a + b == a;
    } else {
      var init := b[..|b| - 1];
      WhitesAppend(g, a, init);
      assert (a + b)[..|a + b| - 1] == a + init;
      assert (a + b)[|a + b| - 1] == b[|b| - 1];
    }
  }

  /** The filter keeps exactly the white points. */
  lemma {:induction false} WhitesMembers(g: Grid, s: seq<Point>)
    requires WellFormed(g)
    ensures forall q :: q in Whites(g, s) <==> q in s && IsWhite(g, q)
    decreases |s|
  {
    if s != [] {
      WhitesMembers(g, s[..|s| - 1]);
      assert s == s[..|s| - 1] + [s[|s| - 1]];
    }
  }

  /** The white border pixels in the order the two loops meet them. */
  function BorderWhites(g: Grid): (r: seq<Point>)
    requires WellFormed(g)
    ensures forall q :: q in r <==> OnBorder(g, q) && IsWhite(g, q)
  {
    var b := BorderScan(g);
    var r := Whites(g, b);
    assert forall q :: q in r <==> OnBorder(g, q) && IsWhite(g, q) by {
      WhitesMembers(g, b);
      forall q
        ensures q in r <==> OnBorder(g, q) && IsWhite(g, q)
      {
        BorderScanCoversBorder(g, q);
      }
    }
    r
  }

  /** The i-th white point of s sits at a position with exactly i white points before it. */
  lemma {:induction false} WhitesRank(g: Grid, s: seq<Point>, i: int)
    requires WellFormed(g) && 0 <= i < |Whites(g, s)|
    ensures exists k :: 0 <= k < |s| && s[k] == Whites(g, s)[i] && IsWhite(g, s[k]) && |Whites(g, s[..k])| == i
    decreases |s|
  {
    var init, last := s[..|s| - 1], s[|s| - 1];
    if i < |Whites(g, init)| {
      WhitesRank(g, init, i);
      var k :| 0 <= k < |init| && init[k] == Whites(g, init)[i] && IsWhite(g, init[k]) && |Whites(g, init[..k])| == i;
      assert s[..k] == init[..k];
    } else {
      assert s[..|s| - 1] == init;
    }
  }

  /** The first white point of s has no white point before it. */
  lemma WhitesFirst(g: Grid, s: seq<Point>)
    requires WellFormed(g) && |Whites(g, s)| >= 1
    ensures exists k :: 0 <= k < |s| && s[k] == Whites(g, s)[0] &&
              forall j :: 0 <= j < k ==> !IsWhite(g, s[j])
  {
    WhitesRank(g, s, 0);
    var k :| 0 <= k < |s| && s[k] == Whites(g, s)[0] && IsWhite(g, s[k]) && |Whites(g, s[..k])| == 0;
    WhitesMembers(g, s[..k]);
    forall j | 0 <= j < k
      ensures !IsWhite(g, s[j])
    {
      assert s[j] in s[..k];
    }
  }

  /** The second white point of s has only the first before it. */
  lemma WhitesSecond(g: Grid, s: seq<Point>)
    requires WellFormed(g) && |Whites(g, s)| >= 2
    ensures exists k :: 0 <= k < |s| && s[k] == Whites(g, s)[1] &&
              Whites(g, s[..k]) == [Whites(g, s)[0]]
  {
    WhitesRank(g, s, 1);
    var k :| 0 <= k < |s| && s[k] == Whites(g, s)[1] && IsWhite(g, s[k]) && |Whites(g, s[..k])| == 1;
    WhitesAppend(g, s[..k], s[k..]);
    assert s[..k] + s[k..] == s;
  }

  /** The start is the first white pixel in border scan order, and exactly one white
      pixel, the start, comes before the exit. */
  lemma EndsInScanOrder(g: Grid)
    requires WellFormed(g) && |BorderWhites(g)| >= 2
    ensures exists k :: 0 <= k < |BorderScan(g)| && BorderScan(g)[k] == BorderWhites(g)[0] &&
              forall j :: 0 <= j < k ==> !IsWhite(g, BorderScan(g)[j])
    ensures exists k :: 0 <= k < |BorderScan(g)| && BorderScan(g)[k] == BorderWhites(g)[1] &&
              Whites(g, BorderScan(g)[..k]) == [BorderWhites(g)[0]]
  {
    WhitesFirst(g, BorderScan(g));
    WhitesSecond(g, BorderScan(g));
  }

  /** The four corners are visited by the first loop, never by the second. */
  lemma CornersOnlyInRowScan(g: Grid, p: Point)
    requires WellFormed(g) && InBounds(g, p)
    requires (p.x == 0 || p.x == Width(g) - 1) && (p.y == 0 || p.y == Height(g) - 1)
    ensures p in RowScan(g, Width(g))
    ensures p !in ColumnScan(g, Height(g) - 2)
  {
    RowScanAt(g, Width(g), p.x);
    assert RowScan(g, Width(g))[2 * p.x] == p || RowScan(g, Width(g))[2 * p.x + 1] == p;
    ColumnScanMembers(g, Height(g) - 2, p);
  }

  /** In an image one row high the top and bottom pixel of a column are the same
      pixel, visited twice: a white first pixel is both the start and the exit. */
  lemma SingleRowStartIsExit(g: Grid)
    requires WellFormed(g) && Height(g) == 1 && IsWhite(g, Point(0, 0))
    ensures |BorderWhites(g)| >= 2
    ensures BorderWhites(g)[0] == Point(0, 0) && BorderWhites(g)[1] == Point(0, 0)
  {
    var s := BorderScan(g);
    var head := RowScan(g, 1);
    RowScanPrefix(g, 1, Width(g));
    assert head == [Point(0, 0), Point(0, 0)];
    assert s == head + s[2..];
    WhitesAppend(g, head, s[2..]);
    assert Whites(g, head) == [Point(0, 0), Point(0, 0)] by {
      assert head[..1] == [Point(0, 0)];
      assert head[..1][..0] == [];
    }
  }

  /** The first order over fewer columns is a prefix of the order over more. */
  lemma {:induction false} RowScanPrefix(g: Grid, n: int, m: int)
    requires WellFormed(g) && n <= m
    ensures RowScan(g, n) <= RowScan(g, m)
    decreases m - n
  {
    if n < m {
      RowScanPrefix(g, n, m - 1);
    }
  }

  /** The second order over fewer rows is a prefix of the order over more. */
  lemma {:induction false} ColumnScanPrefix(g: Grid, n: int, m: int)
    requires WellFormed(g) && n <= m
    ensures ColumnScan(g, n) <= ColumnScan(g, m)
    decreases m - n
  {
    if n < m {
      ColumnScanPrefix(g, n, m - 1);
    }
  }

  /** After examining some of column x's pixels, the first loop is still on its order. */
  lemma RowScanStep(g: Grid, x: int, met: seq<Point>)
    requires WellFormed(g) && 0 <= x < Width(g)
    requires met == [Point(x, 0)] || met == [Point(x, 0), Point(x, Height(g) - 1)]
    ensures RowScan(g, x) + met <= RowScan(g, Width(g))
  {
    RowScanPrefix(g, x + 1, Width(g));
  }

  /** After examining some of row y's pixels, the second loop is still on its order. */
  lemma ColumnScanStep(g: Grid, y: int, met: seq<Point>)
    requires WellFormed(g) && 1 <= y <= Height(g) - 2
    requires met == [Point(0, y)] || met == [Point(0, y), Point(Width(g) - 1, y)]
    ensures ColumnScan(g, y - 1) + met <= ColumnScan(g, Height(g) - 2)
  {
    ColumnScanPrefix(g, y, Height(g) - 2);
  }

  /** What the border loops have built once the white points in `found` were met:
      the first starts the maze, the second is the end, and nothing else counts. */
  predicate Scanned(found: seq<Point>, maze: Option<Maze>, vertices: seq<Point>, end: Option<Point>) {
    && (|found| == 0 ==> maze == None && vertices == [])
    && (|found| >= 1 ==> maze.Some? && maze.value == NewMaze(found[0]) && vertices == [found[0]])
    && (end.Some? <==> |found| >= 2)
    && (|found| >= 2 ==> end == Some(found[1]))
  }

  /** Meeting more points after the second white one changes nothing. */
  lemma ScannedSettled(g: Grid, seen: seq<Point>, rest: seq<Point>, maze: Option<Maze>, vertices: seq<Point>, end: Option<Point>)
    requires WellFormed(g) && end.Some?
    requires Scanned(Whites(g, seen), maze, vertices, end)
    ensures Scanned(Whites(g, seen + rest), maze, vertices, end)
  {
    WhitesAppend(g, seen, rest);
  }

  /** One border pixel, as each of the four blocks in the two loops handles it,
      after the points in `seen` were examined. */
  method Visit(g: Grid, p: Point, maze: Option<Maze>, vertices: seq<Point>, ghost seen: seq<Point>)
    returns (maze': Option<Maze>, vertices': seq<Point>, end: Option<Point>)
    requires WellFormed(g) && InBounds(g, p)
    requires Scanned(Whites(g, seen), maze, vertices, None)
    ensures Scanned(Whites(g, seen + [p]), maze', vertices', end)
  {
    WhitesAppend(g, seen, [p]);
    assert Whites(g, [p]) == if IsWhite(g, p) then [p] else [] by {
      assert [p][..0] == [];
    }
    maze', vertices', end := maze, vertices, None;
    if At(g, p) == White {
      if maze.None? {
        var init := InitMaze(p, vertices);
        maze', vertices' := Some(init.0), init.1;
      } else {
        end := Some(p);
      }
    }
  }

  /** One iteration of either border loop: examine a, then b unless a was the end.
      `met` is what it examined. */
  method VisitPair(g: Grid, a: Point, b: Point, maze: Option<Maze>, vertices: seq<Point>, seen: seq<Point>)
    returns (maze': Option<Maze>, vertices': seq<Point>, end: Option<Point>, met: seq<Point>)
    requires WellFormed(g) && InBounds(g, a) && InBounds(g, b)
    requires Scanned(Whites(g, seen), maze, vertices, None)
    ensures met == [a] || met == [a, b]
    ensures end.None? ==> met == [a, b]
    ensures Scanned(Whites(g, seen + met), maze', vertices', end)
  {
    maze', vertices', end := Visit(g, a, maze, vertices, seen);
    met := [a];
    if end.None? {
      maze', vertices', end := Visit(g, b, maze', vertices', seen + [a]);
      assert seen + [a] + [b] == seen + [a, b];
      met := [a, b];
    }
  }

  /** The first border loop of createMazeFromPNG: top and bottom pixel of each
      column, left to right. `seen` is what it examined. */
  method ScanRows(g: Grid) returns (maze: Option<Maze>, vertices: seq<Point>, end: Option<Point>, seen: seq<Point>)
    requires WellFormed(g)
    ensures seen <= RowScan(g, Width(g)) && (end.None? ==> seen == RowScan(g, Width(g)))
    ensures Scanned(Whites(g, seen), maze, vertices, end)
  {
    var height := Height(g);
    var width := Width(g);
    seen := [];
    maze, vertices, end := None, [], None;

    var x := 0;
    while x < width
      invariant 0 <= x <= width && seen == RowScan(g, x)
      invariant end.None? && Scanned(Whites(g, seen), maze, vertices, end)
    {
      var met;
      maze, vertices, end, met := VisitPair(g, Point(x, 0), Point(x, height - 1), maze, vertices, seen);
      RowScanStep(g, x, met);
      seen := seen + met;
      if end.Some? {
        break;
      }
      x := x + 1;
    }
  }

  /** The second border loop: left and right pixel of each inner row, top to
      bottom, after the first loop examined `prior`. `seen` is what it examined,
      `all` what both loops examined. */
  method ScanColumns(g: Grid, maze: Option<Maze>, vertices: seq<Point>, end: Option<Point>, prior: seq<Point>)
    returns (maze': Option<Maze>, vertices': seq<Point>, end': Option<Point>, seen: seq<Point>, all: seq<Point>)
    requires WellFormed(g)
    requires Scanned(Whites(g, prior), maze, vertices, end)
    ensures seen <= ColumnScan(g, Height(g) - 2) && (end'.None? ==> seen == ColumnScan(g, Height(g) - 2))
    ensures end.Some? ==> seen == []
    ensures all == prior + seen && Scanned(Whites(g, all), maze', vertices', end')
  {
    var height: int := Height(g);
    var width := Width(g);
    maze', vertices', end', seen, all := maze, vertices, end, [], prior;
    assert all == prior + seen;

    var y := 1;
    while y < height - 1
      invariant 1 <= y && (y == 1 || y <= height - 1)
      invariant seen == ColumnScan(g, y - 1)
      invariant end.Some? ==> y == 1 && end' == end
      invariant end'.Some? ==> y == 1 && maze'.Some?
      invariant all == prior + seen && Scanned(Whites(g, all), maze', vertices', end')
    {
      if maze'.Some? && end'.Some? {
        break;
      }
      var met;
      maze', vertices', end', met := VisitPair(g, Point(0, y), Point(width - 1, y), maze', vertices', all);
      AppendAssociative(prior, seen, met);
      if end'.Some? {
        ColumnScanStep(g, y, met);
        all, seen := all + met, seen + met;
        break;
      }
      all, seen := all + met, seen + met;
      y := y + 1;
    }
  }

  /** Sequence concatenation is associative. */
  lemma AppendAssociative(a: seq<Point>, b: seq<Point>, c: seq<Point>)
    ensures a + b + c == a + (b + c)
  {
  }

  /** Once the end is found, the rest of the border order changes nothing. */
  lemma ScannedPrefix(g: Grid, seen: seq<Point>, whole: seq<Point>, maze: Option<Maze>, vertices: seq<Point>, end: Option<Point>)
    requires WellFormed(g) && end.Some? && seen <= whole
    requires Scanned(Whites(g, seen), maze, vertices, end)
    ensures Scanned(Whites(g, whole), maze, vertices, end)
  {
    assert whole == seen + whole[|seen|..];
    ScannedSettled(g, seen, whole[|seen|..], maze, vertices, end);
  }

  /** The two border loops of createMazeFromPNG: the first white border pixel
      becomes the start and the second the end. */
  method ScanBorder(g: Grid) returns (maze: Option<Maze>, vertices: seq<Point>, end: Option<Point>)
    requires WellFormed(g)
    ensures Scanned(BorderWhites(g), maze, vertices, end)
  {
    ghost var rows, cols := RowScan(g, Width(g)), ColumnScan(g, Height(g) - 2);
    var seenRows, seenCols, seen;
    maze, vertices, end, seenRows := ScanRows(g);
    ghost var rowsEnd := end;
    maze, vertices, end, seenCols, seen := ScanColumns(g, maze, vertices, end, seenRows);
    if rowsEnd.Some? {
      assert seen == seenRows && seen <= rows + cols;
      ScannedPrefix(g, seen, rows + cols, maze, vertices, end);
    } else if end.Some? {
      assert seen <= rows + cols;
      ScannedPrefix(g, seen, rows + cols, maze, vertices, end);
    } else {
      assert seen == rows + cols;
    }
  }

  // ---------------------------------------------------------------------------
  // Interior pixels

  /** A pixel the interior loops register as a vertex: a white branch inside the border. */
  predicate BranchPixel(g: Grid, p: Point)
    requires WellFormed(g)
  {
    Interior(g, p) && At(g, p) == White && IsBranch(g, p)
  }

  /** A pixel that makes createMazeFromPNG give up: neither white nor black. */
  predicate Malformed(g: Grid, p: Point)
    requires WellFormed(g) && InBounds(g, p)
  {
    At(g, p) != White && At(g, p) != Black
  }

  /** Some interior pixel is neither white nor black. The border is never checked. */
  ghost predicate HasMalformedPixel(g: Grid)
    requires WellFormed(g)
  {
    exists p :: Interior(g, p) && Malformed(g, p)
  }

  /** p comes before q in the interior loops' order: column by column, top to bottom. */
  predicate ScanBefore(p: Point, q: Point) {
    p.x < q.x || (p.x == q.x && p.y < q.y)
  }

  /** Listed in the interior loops' order, hence without repetition. */
  predicate ScanOrdered(s: seq<Point>) {
    forall i, j :: 0 <= i < j < |s| ==> ScanBefore(s[i], s[j])
  }

  /** The branch pixels of column x above row y, top to bottom. */
  function ColumnBranches(g: Grid, x: int, y: int): seq<Point>
    requires WellFormed(g)
    decreases y
  {
    if y <= 1 then []
    else
      var p := Point(x, y - 1);
      ColumnBranches(g, x, y - 1) + if BranchPixel(g, p) then [p] else []
  }

  /** The branch pixels of the columns left of x, in the interior loops' order. */
  function BranchesBefore(g: Grid, x: int): seq<Point>
    requires WellFormed(g)
    decreases x
  {
    if x <= 1 then [] else BranchesBefore(g, x - 1) + ColumnBranches(g, x - 1, Height(g) - 1)
  }

  /** Every branch pixel of the image, in the order the interior loops meet them. */
  function Branches(g: Grid): seq<Point>
    requires WellFormed(g)
  {
    BranchesBefore(g, Width(g) - 1)
  }

  /** A column's list holds exactly its branch pixels above row y. */
  lemma {:induction false} ColumnBranchesMembers(g: Grid, x: int, y: int)
    requires WellFormed(g)
    ensures forall q :: q in ColumnBranches(g, x, y) <==> q.x == x && q.y < y && BranchPixel(g, q)
    decreases y
  {
    if y > 1 {
      ColumnBranchesMembers(g, x, y - 1);
    }
  }

  /** A column's list runs top to bottom. */
  lemma {:induction false} ColumnBranchesOrdered(g: Grid, x: int, y: int)
    requires WellFormed(g)
    ensures ScanOrdered(ColumnBranches(g, x, y))
    decreases y
  {
    if y > 1 {
      var before := ColumnBranches(g, x, y - 1);
      ColumnBranchesOrdered(g, x, y - 1);
      ColumnBranchesMembers(g, x, y - 1);
      forall i | 0 <= i < |before|
        ensures ScanBefore(before[i], Point(x, y - 1))
      {
        assert before[i] in before;
      }
    }
  }

  /** The list holds exactly the branch pixels left of column x, column by column,
      each column top to bottom, so none is listed twice. */
  lemma {:induction false} BranchesBeforeSpec(g: Grid, x: int)
    requires WellFormed(g)
    ensures forall q :: q in BranchesBefore(g, x) <==> q.x < x && BranchPixel(g, q)
    ensures ScanOrdered(BranchesBefore(g, x))
    decreases x
  {
    if x > 1 {
      var before := BranchesBefore(g, x - 1);
      var column := ColumnBranches(g, x - 1, Height(g) - 1);
      BranchesBeforeSpec(g, x - 1);
      ColumnBranchesMembers(g, x - 1, Height(g) - 1);
      ColumnBranchesOrdered(g, x - 1, Height(g) - 1);
      forall i, j | 0 <= i < |before| && 0 <= j < |column|
        ensures ScanBefore(before[i], column[j])
      {
        assert before[i] in before && column[j] in column;
      }
    }
  }

  /** The vertices found inside the border are exactly the white branch pixels, each once. */
  lemma BranchesSpec(g: Grid)
    requires WellFormed(g)
    ensures forall q :: q in Branches(g) <==> BranchPixel(g, q)
    ensures ScanOrdered(Branches(g))
  {
    BranchesBeforeSpec(g, Width(g) - 1);
  }

  /** The interior loops keep the graph edge-free and the start and exit alone. */
  predicate Registering(m: Maze, vertices: seq<Point>, before: Maze) {
    m.graph == Isolated(Elems(vertices)) && m.start == before.start && m.exit == before.exit
  }

  /** The body of the interior loops for one pixel: a white branch is registered,
      another white pixel or a black one is passed over, any other colour is an error. */
  method ScanPixel(g: Grid, p: Point, maze: Maze, vertices: seq<Point>) returns (ok: bool, maze': Maze, vertices': seq<Point>)
    requires WellFormed(g) && Interior(g, p)
    requires maze.graph == Isolated(Elems(vertices))
    ensures ok <==> !Malformed(g, p)
    ensures ok ==> vertices' == vertices + if BranchPixel(g, p) then [p] else []
    ensures ok ==> Registering(maze', vertices', maze)
  {
    maze', vertices' := maze, vertices;
    var color := At(g, p);
    if color == White {
      if IsBranch(g, p) {
        AddValueIsolated(Elems(vertices), p);
        ElemsSnoc(vertices, p);
        maze' := AddVertex(maze, p);
        vertices' := vertices + [p];
      }
    } else {
      if color != Black {
        return false, maze', vertices';
      }
    }
    ok := true;
  }

  /** No pixel of inner column x is neither white nor black. */
  ghost predicate ColumnClean(g: Grid, x: int)
    requires WellFormed(g)
  {
    forall q :: Interior(g, q) && q.x == x ==> !Malformed(g, q)
  }

  /** Scanning pixel (x, y) appends it, when it is a branch, to the column's earlier branches. */
  lemma ColumnBranchesStep(g: Grid, vertices: seq<Point>, x: int, y: int)
    requires WellFormed(g) && 1 <= y
    ensures vertices + ColumnBranches(g, x, y) + (if BranchPixel(g, Point(x, y)) then [Point(x, y)] else [])
         == vertices + ColumnBranches(g, x, y + 1)
  {
  }

  /** No inner pixel of column x above row y is neither white nor black, checked
      one row at a time as the interior loop does. */
  ghost predicate CleanAbove(g: Grid, x: int, y: int)
    requires WellFormed(g) && 1 <= x < Width(g) - 1 && 1 <= y && (y == 1 || y <= Height(g) - 1)
    decreases y
  {
    y == 1 || (CleanAbove(g, x, y - 1) && !Malformed(g, Point(x, y - 1)))
  }

  /** CleanAbove holds exactly when every inner pixel of the column above row y is
      white or black. */
  lemma {:induction false} CleanAboveMeans(g: Grid, x: int, y: int)
    requires WellFormed(g) && 1 <= x < Width(g) - 1 && 1 <= y && (y == 1 || y <= Height(g) - 1)
    ensures CleanAbove(g, x, y) <==> forall q :: Interior(g, q) && q.x == x && q.y < y ==> !Malformed(g, q)
    decreases y
  {
    if y > 1 {
      CleanAboveMeans(g, x, y - 1);
      assert Interior(g, Point(x, y - 1));
    }
  }

  /** After the last inner row, the column is clean exactly when the loop found it so. */
  lemma CleanAboveColumn(g: Grid, x: int, y: int)
    requires WellFormed(g) && 1 <= x < Width(g) - 1 && 1 <= y && (y == 1 || y <= Height(g) - 1)
    requires y >= Height(g) - 1
    ensures CleanAbove(g, x, y) <==> ColumnClean(g, x)
  {
    CleanAboveMeans(g, x, y);
  }

  /** A malformed inner pixel makes its column unclean. */
  lemma DirtyColumn(g: Grid, p: Point)
    requires WellFormed(g) && Interior(g, p) && Malformed(g, p)
    ensures !ColumnClean(g, p.x)
  {
  }

  /** One column of the interior loops, from row 1 down to the last inner row. */
  method ScanColumn(g: Grid, x: int, maze: Maze, vertices: seq<Point>) returns (ok: bool, maze': Maze, vertices': seq<Point>)
    requires WellFormed(g) && 1 <= x < Width(g) - 1
    requires maze.graph == Isolated(Elems(vertices))
    ensures ok <==> ColumnClean(g, x)
    ensures ok ==> vertices' == vertices + ColumnBranches(g, x, Height(g) - 1)
    ensures ok ==> Registering(maze', vertices', maze)
  {
    maze', vertices' := maze, vertices;
    var y := 1;
    while y < Height(g) - 1
      invariant 1 <= y && (y == 1 || y <= Height(g) - 1)
      invariant vertices' == vertices + ColumnBranches(g, x, y)
      invariant Registering(maze', vertices', maze)
      invariant CleanAbove(g, x, y)
    {
      var p := Point(x, y);
      var pixelOk, m, vs := ScanPixel(g, p, maze', vertices');
      if !pixelOk {
        DirtyColumn(g, p);
        return false, m, vs;
      }
      ColumnBranchesStep(g, vertices, x, y);
      maze', vertices' := m, vs;
      y := y + 1;
    }
    CleanAboveColumn(g, x, y);
    ok := true;
  }

  /** Scanning column x appends its branches to those of the columns before it. */
  lemma BranchesBeforeStep(g: Grid, vertices: seq<Point>, x: int)
    requires WellFormed(g) && 1 <= x
    ensures vertices + BranchesBefore(g, x) + ColumnBranches(g, x, Height(g) - 1) == vertices + BranchesBefore(g, x + 1)
  {
  }

  /** The interior loops of createMazeFromPNG: register every white branch pixel as
      a vertex, or give up on the first pixel that is neither white nor black. */
  method ScanInterior(g: Grid, maze: Maze, vertices: seq<Point>) returns (ok: bool, maze': Maze, vertices': seq<Point>)
    requires WellFormed(g)
    requires maze.graph == Isolated(Elems(vertices))
    ensures ok <==> !HasMalformedPixel(g)
    ensures ok ==> vertices' == vertices + Branches(g)
    ensures ok ==> Registering(maze', vertices', maze)
  {
    maze', vertices' := maze, vertices;
    var x := 1;
    while x < Width(g) - 1
      invariant 1 <= x && (x == 1 || x <= Width(g) - 1)
      invariant vertices' == vertices + BranchesBefore(g, x)
      invariant Registering(maze', vertices', maze)
      invariant forall c :: 1 <= c < x ==> ColumnClean(g, c)
    {
      var columnOk, m, vs := ScanColumn(g, x, maze', vertices');
      if !columnOk {
        CleanColumns(g);
        return false, m, vs;
      }
      BranchesBeforeStep(g, vertices, x);
      maze', vertices' := m, vs;
      x := x + 1;
    }
    CleanColumns(g);
    ok := true;
  }

  /** The image has a malformed inner pixel exactly when one of its inner columns does. */
  lemma CleanColumns(g: Grid)
    requires WellFormed(g)
    ensures !HasMalformedPixel(g) <==> forall c :: 1 <= c < Width(g) - 1 ==> ColumnClean(g, c)
  {
    if HasMalformedPixel(g) {
      var p :| Interior(g, p) && Malformed(g, p);
      assert !ColumnClean(g, p.x);
    }
  }

  // ---------------------------------------------------------------------------
  // Wiring and the whole extraction

  /** The last loop of createMazeFromPNG: connectNeighbors for every listed vertex,
      in list order. Afterwards each vertex is connected to exactly what its own
      rays reach, whatever the order. */
  method WireAll(vertices: seq<Point>, g: Grid, maze: Maze) returns (m: Maze)
    requires WellFormed(g)
    requires forall v :: v in vertices ==> InBounds(g, v) && At(g, v) == White
    requires maze.graph == Isolated(Elems(vertices))
    ensures m.start == maze.start && m.exit == maze.exit
    ensures AllInBounds(g, Elems(vertices)) && RayGraph(g, Elems(vertices), m.graph)
    ensures forall v :: v in vertices ==> v in m.graph
    ensures Undirected(m.graph)
  {
    ghost var vs := Elems(vertices);
    WiredNone(g, vs);
    m := maze;
    var k := 0;
    assert Elems(vertices[..k]) == {};
    while k < |vertices|
      invariant 0 <= k <= |vertices|
      invariant m.start == maze.start && m.exit == maze.exit
      invariant m.graph == Wired(g, vs, Elems(vertices[..k]))
      invariant Undirected(m.graph)
    {
      var p := vertices[k];
      WireStep(g, vs, Elems(vertices[..k]), p);
      ElemsPrefixStep(vertices, k);
      var _, m' := ConnectNeighbors(vertices, p, g, m);
      m := m';
      k := k + 1;
    }
    assert vertices[..k] == vertices;
    forall u | u in vs
      ensures m.graph[u] == RayHits(g, vs, u)
    {
      WiredComplete(g, vs, u);
    }
  }

  /** The vertices of the maze built from an image with at least two white border
      pixels: the first two of them, and every branch pixel. */
  function MazeVertices(g: Grid): (r: set<Point>)
    requires WellFormed(g) && |BorderWhites(g)| >= 2
    ensures forall u :: u in r ==> IsWhite(g, u)
    ensures forall u :: u in r <==> u == BorderWhites(g)[0] || u == BorderWhites(g)[1] || BranchPixel(g, u)
  {
    var ws := BorderWhites(g);
    BranchesSpec(g);
    assert ws[0] in ws && ws[1] in ws;
    {ws[0], ws[1]} + Elems(Branches(g))
  }

  /** m is the maze the extractor is meant to build, described without its loops:
      the first white border pixel in scan order is the start, the second the exit,
      the vertices are those two and the branch pixels, and each vertex is connected
      to the vertices its four rays reach. At most one maze fits. */
  ghost predicate ReferenceMaze(g: Grid, m: Maze)
    requires WellFormed(g) && |BorderWhites(g)| >= 2
  {
    && m.start == BorderWhites(g)[0]
    && m.exit == Some(BorderWhites(g)[1])
    && RayGraph(g, MazeVertices(g), m.graph)
  }

  /** The reference description pins the maze down completely. */
  lemma ReferenceMazeUnique(g: Grid, a: Maze, b: Maze)
    requires WellFormed(g) && |BorderWhites(g)| >= 2
    requires ReferenceMaze(g, a) && ReferenceMaze(g, b)
    ensures a == b
  {
    RayGraphUnique(g, MazeVertices(g), a.graph, b.graph);
  }

  /** The list the extractor builds, the start, the exit and then the branches,
      holds the expected vertices, all of them white. */
  lemma ListedVertices(g: Grid, vertices: seq<Point>)
    requires WellFormed(g) && |BorderWhites(g)| >= 2
    requires vertices == [BorderWhites(g)[0], BorderWhites(g)[1]] + Branches(g)
    ensures Elems(vertices) == MazeVertices(g)
    ensures forall v :: v in vertices ==> InBounds(g, v) && At(g, v) == White
  {
    BranchesSpec(g);
    assert forall v :: v in vertices <==> v == vertices[0] || v == vertices[1] || v in Branches(g);
  }

  /** createMazeFromPNG: InvalidMazeException when the border has fewer than two
      white pixels, null when an interior pixel is neither white nor black, and
      otherwise the reference maze. */
  method CreateMazeFromPNG(g: Grid) returns (r: Extraction)
    requires WellFormed(g)
    ensures r == InvalidMaze <==> |BorderWhites(g)| < 2
    ensures r == BadPixel <==> |BorderWhites(g)| >= 2 && HasMalformedPixel(g)
    ensures r.Extracted? ==> |BorderWhites(g)| >= 2 && ReferenceMaze(g, r.maze) && Valid(r.maze)
  {
    var maze, vertices, end := ScanBorder(g);
    if maze.None? || end.None? {
      return InvalidMaze;
    }
    ghost var ws := BorderWhites(g);
    var exit := end.value;
    var m := maze.value;
    assert m.graph == Isolated(Elems(vertices)) by {
      assert Elems(vertices) == {ws[0]};
    }
    AddValueIsolated(Elems(vertices), exit);
    ElemsSnoc(vertices, exit);
    vertices := vertices + [exit];
    m := AddVertex(m, exit);
    m := SetExit(m, exit);

    var ok, m', vs := ScanInterior(g, m, vertices);
    if !ok {
      return BadPixel;
    }
    ListedVertices(g, vs);
    m' := WireAll(vs, g, m');
    return Extracted(m');
  }

}
