# Maze solver: a Dafny model

The maze solver reads a black-and-white image of a maze and turns it into a graph.
It finds the entrance and the exit on the border and registers every interior
pixel where the path turns or forks as a vertex. Then it connects each vertex to
the nearest vertex along each of its four straight white corridors. To solve the
maze it asks the graph for a breadth-first path from the entrance to the exit and
paints that path onto a copy of the image.

This project models that core and proves what it computes:

- `wrappers.dfy`: `Option`, for the places where the program uses `null`.
- `pixels.dfy` (module `Pixels`): points, the four pixel colours the core tells apart, and the image as a row-major grid. `setRGB` is `SetPixel`; a step of k pixels in a direction is `Step`.
- `graph.dfy` (module `Graphs`): the graph as a map from each registered point to its neighbour points. Graph.java is not part of this model. `addValue` is given the meaning of an idempotent insert and `connectUndirected` that of a symmetric edge insert, as Maze.java relies on.
- `vertex.dfy` (module `Vertices`): `Vertex`, whose neighbour set is a hash set of vertex objects. Object identity is kept apart from the wrapped value.
- `maze.dfy` (module `Mazes`): `Maze`, with its constructor, `setExit`, `addVertex`, `connectVertices`, `drawPath` and `solveBFS`.
- `rays.dfy` (module `Rays`): a loop-free reference for the wiring. A ray from a vertex walks a straight line and stops at the image edge, at a pixel that is not white, or at the first registered vertex. The reference graph connects each vertex to what its four rays reach.
- `mazepng.dfy` (module `MazePng`): the extractor, `createMazeFromPNG` and its helpers.
  - The border loops are modelled as walks over an explicit scan order.
  - The interior loops are modelled column by column.
  - The wiring loop is `connectNeighbors`, with its four rays cast in lock step.
  - The headline result is about `CreateMazeFromPNG`. It throws `InvalidMazeException` exactly when fewer than two white pixels are met in border scan order, where a pixel met twice counts twice. It returns `null` exactly when, otherwise, some interior pixel is neither white nor black. Otherwise it returns the maze that `ReferenceMaze` describes without loops, and at most one maze fits that description.

The image is the decoded `BufferedImage`, a non-empty rectangle. `Color.WHITE`
and `Color.BLACK` are `White` and `Black`. Any other colour read from an image is
`Other`. The solution colour written by `solveBFS` is `Overlay`. The breadth-first
search belongs to Graph.java and is a function parameter of `SolveBFS`.

## Behaviour worth knowing

- Only the interior pixels are checked for colour. A border pixel of any colour is accepted and is simply not white.
- In a one-row image the top and bottom pixel of each column are the same pixel. In a 5×1 white corridor the first pixel is met twice and becomes both the start and the exit (`MazePng.SingleRowStartIsExit`).
- For a path pair that differs in both x and y, `drawPath` paints the row run at p1.y and then the column run at p1.x, and `Mazes.DrawPath` states exactly that.

## Model

| member | source | states |
|---|---|---|
| Graphs.AddValue | src/backend/maze/Maze.java:50-52 | the point becomes registered; registered points keep their neighbour sets and no edge appears or disappears |
| Graphs.AddValueIdempotent | src/backend/maze/Maze.java:50-52 | registering the same point twice gives the graph of registering it once |
| Graphs.ConnectUndirected | src/backend/maze/Maze.java:60-62 | the edge set grows by exactly a–b and b–a, the vertex set is unchanged, and an undirected graph stays undirected |
| Graphs.ConnectUndirectedIdempotent | src/backend/maze/Maze.java:60-62 | connecting the same pair twice gives the graph of connecting it once |
| Graphs.ConnectAll | src/backend/mazefiles/MazePNG.java:88-136 | connecting one vertex to a set of points adds exactly the edges between it and those points, in both directions |
| Graphs.AddValueIsolated | src/backend/mazefiles/MazePNG.java:242 | registering a point in an edge-free graph gives the edge-free graph over one more vertex |
| Pixels.SetPixel | src/backend/maze/Maze.java:110 | the written pixel takes the new colour, every other pixel keeps its own, and the image keeps its size |
| Vertices.AddNeighbor | src/backend/util/graph/Vertex.java:48-54 | the neighbour set grows by exactly the given object, the value is untouched, and adding a neighbour already present changes nothing |
| Vertices.EqualsIsValueEquivalence | src/backend/util/graph/Vertex.java:56-65 | equals holds exactly when the wrapped values are equal, so it is reflexive, symmetric and transitive; it is never true for an object of another class |
| Vertices.ValueNeverChanges | src/backend/util/graph/Vertex.java:28-41 | getValue returns the constructor's value after any sequence of addNeighbor calls |
| Vertices.NeighborsAreTheAdded | src/backend/util/graph/Vertex.java:28-32 | a new vertex that is then given some neighbours has exactly those neighbours, starting from none |
| Vertices.AddNeighborKeepsEqualDuplicates | src/backend/util/graph/Vertex.java:48-54 | two different objects with the same value are both kept as neighbours although equals calls them equal |
| Vertices.AddNeighborByValue | src/backend/util/graph/Vertex.java:48-54 | deduplicating by equals: when a neighbour equal by value is already present the vertex is unchanged, otherwise exactly the new object is added; the value is untouched, the values grow by exactly the new one, and value-distinct sets stay value-distinct |
| Mazes.NewMaze | src/backend/maze/Maze.java:30-34 | a new maze has a graph holding only the start, with no edges and no exit |
| Mazes.SetExit | src/backend/maze/Maze.java:41-43 | the exit is recorded and the graph and start are unchanged |
| Mazes.AddVertex | src/backend/maze/Maze.java:50-52 | the point becomes a vertex; edges, start and exit are unchanged |
| Mazes.ConnectVertices | src/backend/maze/Maze.java:60-62 | the two points become each other's neighbours and no other edge changes |
| Mazes.PaintRun | src/backend/maze/Maze.java:109-111 | exactly the n pixels from the starting point towards the direction are painted; the rest keep their colour |
| Mazes.PaintRow | src/backend/maze/Maze.java:108-118 | exactly the pixels of row p1.y between the two x's, both ends included, are painted, whichever end is further left; nothing when the x's agree |
| Mazes.PaintColumn | src/backend/maze/Maze.java:120-130 | exactly the pixels of column p1.x between the two y's, both ends included, are painted; nothing when the y's agree |
| Mazes.DrawPath | src/backend/maze/Maze.java:102-131 | the painted pixels are the row run and the column run; for two points on one row or one column that is the inclusive straight run between them, every other pixel is unchanged, and a repeated point paints nothing |
| Mazes.OnPathExtend | src/backend/maze/Maze.java:85-89 | the pixels painted for the first n + 1 points are those for the first n plus the run of the last pair |
| Mazes.SolveBFS | src/backend/maze/Maze.java:69-92 | no image exactly when the search finds no path; otherwise an image of the input's size where exactly the runs between consecutive path points are painted and every other pixel is copied |
| Rays.RayStop | src/backend/mazefiles/MazePNG.java:88-136 | the stopping step lies within the image's reach, every pixel before it is white and not a vertex, and the pixel at it is not white or is a vertex |
| Rays.RayHit | src/backend/mazefiles/MazePNG.java:90-131 | a ray reaches a vertex exactly when that vertex is the first one seen along an unbroken white run from the origin |
| Rays.RayHitsMembers | src/backend/mazefiles/MazePNG.java:88-136 | a vertex is reached from p exactly when one of the four rays from p reaches it |
| Rays.HitIsCorridorEnd | src/backend/mazefiles/MazePNG.java:90-131 | a reached vertex is a registered white pixel, not the origin, on the origin's row or column, with only white pixels between the two: no edge crosses a wall or leaves the image |
| Rays.RayHitSymmetric | src/backend/mazefiles/MazePNG.java:88-136 | the ray cast back from the reached vertex reaches the origin |
| Rays.RayHitsSymmetric | src/backend/mazefiles/MazePNG.java:256-258 | among white vertices, q is reached from p exactly as p is reached from q, so the wired graph is undirected |
| Rays.RayHitsRegistered | src/backend/mazefiles/MazePNG.java:57-64 | the rays reach only registered vertices, never their own origin |
| Rays.ReachersStep | src/backend/mazefiles/MazePNG.java:256-258 | after one more vertex's rays are cast, that vertex is added to the reachers of exactly the vertices its rays reach |
| Rays.WireStepAt | src/backend/mazefiles/MazePNG.java:256-258 | one vertex's neighbour set after one more connectNeighbors call is what the reference predicts |
| Rays.WiredNone | src/backend/mazefiles/MazePNG.java:226-254 | before any ray is cast, every vertex is registered with no neighbours |
| Rays.WireStep | src/backend/mazefiles/MazePNG.java:256-258 | one more connectNeighbors call gives the graph of one more vertex with its rays cast |
| Rays.WiredComplete | src/backend/mazefiles/MazePNG.java:256-258 | once every vertex's rays are cast, in any order, each vertex is connected to exactly the vertices its own rays reach |
| Rays.RayGraphAt | src/backend/mazefiles/MazePNG.java:256-258 | every vertex is in the wired graph, mapped to exactly the vertices its four rays reach |
| Rays.RayGraphUnique | src/backend/mazefiles/MazePNG.java:256-258 | the wired graph is determined by the image and the vertex set alone, whatever order the vertices are wired in |
| Rays.RayGraphAdjacent | src/backend/mazefiles/MazePNG.java:75-139 | in the wired graph u is connected to w exactly when w is the first vertex seen from u along an unbroken straight white run |
| Rays.RayGraphCorridor | src/backend/mazefiles/MazePNG.java:90-131 | every edge joins two different white vertices on a common row or column |
| Rays.RayGraphDegree | src/backend/mazefiles/MazePNG.java:73 | every vertex has at most four neighbours, as many as its rays reach |
| Rays.RayHitsCount | src/backend/mazefiles/MazePNG.java:93-131 | the four rays reach as many distinct vertices as there are rays that reach one |
| Rays.DistinctHits | src/backend/mazefiles/MazePNG.java:93-131 | rays in different directions never reach the same vertex |
| MazePng.BranchByOpenings | src/backend/mazefiles/MazePNG.java:32-46 | isBranch holds exactly when a vertical and a horizontal neighbour are white: dead ends, isolated pixels and straight corridors are not branches, corners and junctions are |
| MazePng.CheckAndAddNeighbor | src/backend/mazefiles/MazePNG.java:57-64 | the result is true exactly when the point is listed, and then exactly the edge between it and the vertex is added |
| MazePng.RayAdvance | src/backend/mazefiles/MazePNG.java:90-99 | a running ray stops at a non-white pixel with nothing reached, stops at a white vertex and reaches it, and goes on past any other white pixel |
| MazePng.Reached | src/backend/mazefiles/MazePNG.java:93-96 | a stopped ray contributes only a registered vertex |
| MazePng.Probe | src/backend/mazefiles/MazePNG.java:90-132 | one direction block keeps its flag equal to "the ray has not stopped", counts one and connects the vertex when its ray reaches a vertex, and does nothing once the ray stopped |
| MazePng.Round | src/backend/mazefiles/MazePNG.java:88-136 | one pass of the loop keeps the flags, the count and the graph equal to what the rays stopped so far have reached |
| MazePng.ConnectNeighbors | src/backend/mazefiles/MazePNG.java:75-139 | the count is between 0 and 4 and equals the number of rays that reach a vertex; the vertex is connected to exactly the vertices its rays reach, and nothing else changes |
| MazePng.InitMaze | src/backend/mazefiles/MazePNG.java:149-153 | a maze holding only the given start, with no edges and no exit, and the start appended to the list |
| MazePng.RowScanAt | src/backend/mazefiles/MazePNG.java:170-172 | the first loop meets column x's top and bottom pixels at positions 2x and 2x + 1 |
| MazePng.ColumnScanAt | src/backend/mazefiles/MazePNG.java:193-195 | the second loop meets row y's left and right pixels at positions 2(y - 1) and 2(y - 1) + 1 |
| MazePng.RowScanMembers | src/backend/mazefiles/MazePNG.java:170-172 | the first loop visits only top and bottom pixels |
| MazePng.ColumnScanMembers | src/backend/mazefiles/MazePNG.java:193-195 | the second loop visits only left and right pixels of the inner rows |
| MazePng.BorderScanCoversBorder | src/backend/mazefiles/MazePNG.java:170-218 | the two loops together visit exactly the border pixels |
| MazePng.CornersOnlyInRowScan | src/backend/mazefiles/MazePNG.java:170-218 | the four corners are visited by the first loop and never by the second |
| MazePng.WhitesAppend | src/backend/mazefiles/MazePNG.java:174-217 | the white pixels of two stretches of the scan are those of the first followed by those of the second |
| MazePng.WhitesMembers | src/backend/mazefiles/MazePNG.java:174-217 | the filter keeps exactly the white pixels of the scan |
| MazePng.BorderWhites | src/backend/mazefiles/MazePNG.java:170-218 | the list holds exactly the white border pixels |
| MazePng.WhitesRank | src/backend/mazefiles/MazePNG.java:170-218 | the i-th white pixel met has exactly i white pixels before it in the scan |
| MazePng.WhitesFirst | src/backend/mazefiles/MazePNG.java:174-176 | no white pixel comes before the first one in the scan |
| MazePng.WhitesSecond | src/backend/mazefiles/MazePNG.java:177-179 | only the first white pixel comes before the second in the scan |
| MazePng.EndsInScanOrder | src/backend/mazefiles/MazePNG.java:170-218 | the start is the first white pixel in border scan order, and the exit is the next one, with only the start before it |
| MazePng.SingleRowStartIsExit | src/backend/mazefiles/MazePNG.java:171-176 | in a one-row image with a white first pixel, that pixel is both the start and the exit |
| MazePng.RowScanPrefix | src/backend/mazefiles/MazePNG.java:170 | the first loop's order over fewer columns is a prefix of its order over more |
| MazePng.ColumnScanPrefix | src/backend/mazefiles/MazePNG.java:193 | the second loop's order over fewer rows is a prefix of its order over more |
| MazePng.RowScanStep | src/backend/mazefiles/MazePNG.java:170-191 | what the first loop met so far is a prefix of its order |
| MazePng.ColumnScanStep | src/backend/mazefiles/MazePNG.java:193-218 | what the second loop met so far is a prefix of its order |
| MazePng.ScannedSettled | src/backend/mazefiles/MazePNG.java:178-179 | once the exit is found, later pixels change nothing |
| MazePng.ScannedPrefix | src/backend/mazefiles/MazePNG.java:197-199 | a state reached on a prefix of the scan after the exit was found is the state for the whole scan |
| MazePng.Visit | src/backend/mazefiles/MazePNG.java:174-190 | one border pixel: the first white one starts the maze and the list, the second becomes the exit, other pixels change nothing |
| MazePng.VisitPair | src/backend/mazefiles/MazePNG.java:170-191 | one loop iteration meets both of its pixels unless the first is the exit |
| MazePng.ScanRows | src/backend/mazefiles/MazePNG.java:170-191 | the first loop stops at the exit or covers its whole order, and its state is the one its scan determines |
| MazePng.ScanColumns | src/backend/mazefiles/MazePNG.java:193-218 | the second loop does nothing once the exit is known, otherwise stops at the exit or covers its order, and its state is the one the combined scan determines |
| MazePng.ScanBorder | src/backend/mazefiles/MazePNG.java:170-218 | after both loops the maze starts at the first white border pixel in scan order, the list holds only it, and the exit is the second white border pixel; each is null when there is no such pixel |
| MazePng.ScanPixel | src/backend/mazefiles/MazePNG.java:233-251 | one interior pixel fails exactly when it is neither white nor black; a white branch is registered as an isolated vertex and listed, anything else changes nothing |
| MazePng.ColumnBranchesStep | src/backend/mazefiles/MazePNG.java:238-245 | scanning one more pixel of a column lists it exactly when it is a branch |
| MazePng.CleanAboveMeans | src/backend/mazefiles/MazePNG.java:247-250 | the row-by-row check of a column passes exactly when every inner pixel above the row is white or black |
| MazePng.CleanAboveColumn | src/backend/mazefiles/MazePNG.java:231 | after the last inner row that check covers the whole column |
| MazePng.DirtyColumn | src/backend/mazefiles/MazePNG.java:247-250 | one pixel that is neither white nor black makes its column fail |
| MazePng.ScanColumn | src/backend/mazefiles/MazePNG.java:231-253 | one column fails exactly when one of its inner pixels is neither white nor black; otherwise its branches are listed top to bottom and registered without edges |
| MazePng.BranchesBeforeStep | src/backend/mazefiles/MazePNG.java:230-254 | scanning one more column appends that column's branches |
| MazePng.ScanInterior | src/backend/mazefiles/MazePNG.java:230-254 | the interior loops fail exactly when some interior pixel is neither white nor black; otherwise every branch pixel is listed in x-major order and registered without edges, and start and exit are untouched |
| MazePng.CleanColumns | src/backend/mazefiles/MazePNG.java:230-251 | an interior pixel is neither white nor black exactly when some inner column has one |
| MazePng.ColumnBranchesMembers | src/backend/mazefiles/MazePNG.java:231-245 | a column's list holds exactly its branch pixels above the row reached |
| MazePng.ColumnBranchesOrdered | src/backend/mazefiles/MazePNG.java:231-245 | a column's list runs top to bottom |
| MazePng.BranchesBeforeSpec | src/backend/mazefiles/MazePNG.java:230-245 | the list holds exactly the branch pixels of the columns scanned so far, in x-major order, none twice |
| MazePng.BranchesSpec | src/backend/mazefiles/MazePNG.java:230-245 | the interior vertices are exactly the white branch pixels, in x-major order, none twice |
| MazePng.WireAll | src/backend/mazefiles/MazePNG.java:256-258 | after connectNeighbors on every listed vertex, each vertex is connected to exactly what its rays reach, the graph is undirected, and start and exit are untouched |
| MazePng.MazeVertices | src/backend/mazefiles/MazePNG.java:226-245 | the vertices are the start, the exit and the branch pixels, all white |
| MazePng.ReferenceMazeUnique | src/backend/mazefiles/MazePNG.java:161-261 | the reference description determines the maze completely |
| MazePng.ListedVertices | src/backend/mazefiles/MazePNG.java:226-245 | the list of start, exit and branches holds exactly the maze's vertices, all white pixels of the image |
| MazePng.CreateMazeFromPNG | src/backend/mazefiles/MazePNG.java:161-261 | InvalidMazeException exactly when fewer than two white pixels are met in border scan order (a pixel met twice counts twice); null exactly when there are two and an interior pixel is neither white nor black; otherwise the reference maze, with start and exit registered and an undirected graph |

## Left out

- Image I/O, `main`, file paths, timing and console output are not modelled. They are I/O.
- AWT colours and drawing are abstracted. Pixels are the four colours above. The `Graphics.drawImage` copy is the identity, and `setRGB` stores the overlay colour without alpha compositing.
- Graph.java is not part of this model. `addValue` and `connectUndirected` are given the meaning Maze.java relies on. `breadthFirstPath` is a function parameter of `SolveBFS`, and nothing is claimed about its body, shortest paths or tie-breaking.
- `solveDFS`, `Vertex.printNeighbors` and `Vertex.toString` are left out: a stub returning 0, and output formatting.
- Exception messages are left out. `InvalidMazeException` is the `InvalidMaze` result, and the `null` result is `BadPixel`.
- `NoSolutionException` is thrown only by `main` and is left out. `SolveBFS` returns `None` in its place.
- Mazes.SolveBFS: requires that the exit is set and that every point of the returned path lies inside the image. Otherwise the source would throw, dereferencing the unset exit or writing outside the image, and those exceptions are not modelled.
- MazePng.CreateMazeFromPNG: the image is a non-empty rectangle (`WellFormed`), as every decoded image is; a zero-sized image is not modelled.
- Graphs.ConnectUndirected: requires both points to be registered. What Graph.java does for an unregistered point is not part of this model.
- Mazes.ConnectVertices and MazePng.CheckAndAddNeighbor: require the points to be registered in the graph, for the same reason.
- `Vertex` objects are not what `Maze` stores in the model. The maze keeps the point graph that Graph.java is described as holding, and `Vertex` is modelled on its own.
- `hashCode` is not modelled beyond object identity: a collision of identity hash codes, which would let the `contains` guard fall back to `equals`, is ignored. Hash-set iteration order is not modelled.
- The border pixels are never checked for bad colours, as written.
- In a one-row or one-column image the top and bottom, or left and right, pixels coincide. A white pixel there is met twice and becomes both the start and the exit. This is modelled as written; `MazePng.SingleRowStartIsExit` exhibits it.
- For a pair that differs in both x and y, `drawPath` paints both runs, as written.
- `Mazes.DrawPath` paints the row run on row p1.y and then the column run on column p1.x. It does not draw an L through p2.
- The 32-bit integer arithmetic of the loops does not wrap for any real image size, and is modelled with unbounded integers.

## Findings

| source | as written | input that shows it | evidently intended | confidence | as-written member | corrected member |
|---|---|---|---|---|---|---|
| src/backend/util/graph/Vertex.java:48-54 | `Vertex` overrides `equals` but not `hashCode`, so the `HashSet` of neighbours finds a vertex only when it is the same object, barring an identity-hash collision, so the `contains` guard almost never rejects a different object with an equal value | two distinct vertex objects both wrapping the value 7 are added to a new vertex: both are kept although `equals` calls them equal | a neighbour equal by value to one already present is not added again | not executed | Vertices.AddNeighborKeepsEqualDuplicates | Vertices.AddNeighborByValue |
