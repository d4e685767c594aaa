/**
 Ray casting, the reference for how the extractor wires its graph: from a vertex,
 walk one pixel at a time in a cardinal direction; stop at the image edge, at a
 pixel that is not white, or at the first registered vertex, which becomes a
 neighbour.
 */
module Rays {
  import opened Wrappers
  import opened Pixels
  import opened Graphs

  /** Every pixel strictly before step j is a white pixel that is not a vertex. */
  predicate Clear(g: Grid, vs: set<Point>, p: Point, d: Direction, j: int)
    requires WellFormed(g)
  {
    forall i :: 1 <= i < j ==> IsWhite(g, Step(p, d, i)) && Step(p, d, i) !in vs
  }

  /** From p, looking towards d, the vertex j pixels away is the first one seen
      along an unbroken white run. */
  predicate Sees(g: Grid, vs: set<Point>, p: Point, d: Direction, j: int)
    requires WellFormed(g)
  {
    1 <= j && IsWhite(g, Step(p, d, j)) && Step(p, d, j) in vs && Clear(g, vs, p, d, j)
  }

  /** The first step, from k on, at which the ray stops. */
  function RayStop(g: Grid, vs: set<Point>, p: Point, d: Direction, k: nat): (r: nat)
    requires WellFormed(g) && InBounds(g, p) && 1 <= k <= Width(g) + Height(g)
    requires Clear(g, vs, p, d, k)
    ensures k <= r <= Width(g) + Height(g)
    ensures Clear(g, vs, p, d, r)
    ensures !IsWhite(g, Step(p, d, r)) || Step(p, d, r) in vs
    decreases Width(g) + Height(g) - k
  {
    var q := Step(p, d, k);
    if !IsWhite(g, q) || q in vs then k
    else
      assert Clear(g, vs, p, d, k + 1) by {
        forall i | 1 <= i < k + 1
          ensures IsWhite(g, Step(p, d, i)) && Step(p, d, i) !in vs
        {
        }
      }
      RayStop(g, vs, p, d, k + 1)
  }

  /** The vertex the ray from p towards d reaches, if any. */
  function RayHit(g: Grid, vs: set<Point>, p: Point, d: Direction): (r: Option<Point>)
    requires WellFormed(g) && InBounds(g, p)
    ensures forall j :: Sees(g, vs, p, d, j) <==> r == Some(Step(p, d, j))
    ensures r.Some? ==> exists j :: Sees(g, vs, p, d, j)
  {
    var k := RayStop(g, vs, p, d, 1);
    var q := Step(p, d, k);
    assert forall j :: Sees(g, vs, p, d, j) ==> j == k by {
      forall j | Sees(g, vs, p, d, j)
        ensures j == k
      {
      }
    }
    assert forall j :: Step(p, d, j) == q ==> j == k by {
      forall j | Step(p, d, j) == q
        ensures j == k
      {
        StepInjective(p, d, j, k);
      }
    }
    if IsWhite(g, q) then Some(q) else None
  }

  /** Nothing for a ray that stopped at a wall or the edge, the vertex it reached otherwise. */
  function Hit(o: Option<Point>): set<Point> {
    if o.Some? then {o.value} else {}
  }

  /** The vertices the four rays from p reach. */
  function RayHits(g: Grid, vs: set<Point>, p: Point): set<Point>
    requires WellFormed(g) && InBounds(g, p)
  {
    Hit(RayHit(g, vs, p, Up)) + Hit(RayHit(g, vs, p, Down))
    + Hit(RayHit(g, vs, p, Left)) + Hit(RayHit(g, vs, p, Right))
  }

  /** The reached set holds exactly what one of the four rays reached. */
  lemma RayHitsMembers(g: Grid, vs: set<Point>, p: Point, q: Point)
    requires WellFormed(g) && InBounds(g, p)
    ensures q in RayHits(g, vs, p) <==> exists d :: RayHit(g, vs, p, d) == Some(q)
  {
    if exists d :: RayHit(g, vs, p, d) == Some(q) {
      var d :| RayHit(g, vs, p, d) == Some(q);
      match d
      case Up =>
      case Down =>
      case Left =>
      case Right =>
    }
  }

  /** How many of the four rays from p reach a vertex. */
  function HitCount(g: Grid, vs: set<Point>, p: Point): (r: nat)
    requires WellFormed(g) && InBounds(g, p)
  {
    (if RayHit(g, vs, p, Up).Some? then 1 else 0)
    + (if RayHit(g, vs, p, Down).Some? then 1 else 0)
    + (if RayHit(g, vs, p, Left).Some? then 1 else 0)
    + (if RayHit(g, vs, p, Right).Some? then 1 else 0)
  }

  /** A reached vertex is a registered white pixel on p's row or column, other than
      p, and every pixel between the two is white: no edge crosses a wall or
      leaves the image. */
  lemma HitIsCorridorEnd(g: Grid, vs: set<Point>, p: Point, d: Direction)
    requires WellFormed(g) && InBounds(g, p)
    requires RayHit(g, vs, p, d).Some?
    ensures var q := RayHit(g, vs, p, d).value;
      && q in vs && IsWhite(g, q) && q != p
      && (q.x == p.x || q.y == p.y)
      && exists j :: 1 <= j && q == Step(p, d, j) && forall i :: 1 <= i <= j ==> IsWhite(g, Step(p, d, i))
  {
    var j :| Sees(g, vs, p, d, j);
    StepInjective(p, d, j, 0);
  }

  /** Looking back from the vertex it reached, the ray sees its origin: edges are symmetric. */
  lemma {:induction false} RayHitSymmetric(g: Grid, vs: set<Point>, p: Point, d: Direction)
    requires WellFormed(g) && InBounds(g, p) && IsWhite(g, p) && p in vs
    requires RayHit(g, vs, p, d).Some?
    ensures var q := RayHit(g, vs, p, d).value;
      InBounds(g, q) && RayHit(g, vs, q, Opposite(d)) == Some(p)
  {
    var j :| Sees(g, vs, p, d, j);
    var q := Step(p, d, j);
    assert RayHit(g, vs, p, d) == Some(q);
    StepBack(p, d, j, j);
    assert Step(q, Opposite(d), j) == p;
    forall i | 1 <= i < j
      ensures IsWhite(g, Step(q, Opposite(d), i)) && Step(q, Opposite(d), i) !in vs
    {
      StepBack(p, d, j, i);
      assert IsWhite(g, Step(p, d, j - i)) && Step(p, d, j - i) !in vs;
    }
    assert Sees(g, vs, q, Opposite(d), j);
  }

  /** The reached sets are symmetric between white registered vertices. */
  lemma RayHitsSymmetric(g: Grid, vs: set<Point>, p: Point, q: Point)
    requires WellFormed(g) && InBounds(g, p) && IsWhite(g, p) && p in vs
    requires q in RayHits(g, vs, p)
    ensures InBounds(g, q) && p in RayHits(g, vs, q)
  {
    RayHitsMembers(g, vs, p, q);
    var d :| RayHit(g, vs, p, d) == Some(q);
    RayHitSymmetric(g, vs, p, d);
    RayHitsMembers(g, vs, q, p);
  }

  /** Every point of vs is inside the image. */
  predicate AllInBounds(g: Grid, vs: set<Point>)
    requires WellFormed(g)
  {
    forall u :: u in vs ==> InBounds(g, u)
  }

  /** The vertices in `done` whose rays reach u. */
  function Reachers(g: Grid, vs: set<Point>, done: set<Point>, u: Point): (r: set<Point>)
    requires WellFormed(g) && AllInBounds(g, vs) && done <= vs
  {
    set v | v in done && u in RayHits(g, vs, v)
  }

  /** What u is connected to once the rays of every vertex in `done` were cast. */
  function WiredAt(g: Grid, vs: set<Point>, done: set<Point>, u: Point): set<Point>
    requires WellFormed(g) && AllInBounds(g, vs) && done <= vs && u in vs
  {
    (if u in done then RayHits(g, vs, u) else {}) + Reachers(g, vs, done, u)
  }

  /** The graph over vs after the rays of every vertex in `done` were cast: each
      vertex is connected to what its own rays reached (once cast) and to every
      cast vertex whose rays reached it. */
  function Wired(g: Grid, vs: set<Point>, done: set<Point>): (r: Graph)
    requires WellFormed(g) && AllInBounds(g, vs) && done <= vs
    ensures r.Keys <= vs
    ensures forall u {:trigger r[u]} :: u in vs ==> u in r && r[u] == WiredAt(g, vs, done, u)
  {
    map u | u in vs :: WiredAt(g, vs, done, u)
  }

  /** Before any ray is cast the vertices are registered without edges. */
  lemma WiredNone(g: Grid, vs: set<Point>)
    requires WellFormed(g) && AllInBounds(g, vs)
    ensures Wired(g, vs, {}) == map u | u in vs :: {}
  {
    forall u | u in vs
      ensures WiredAt(g, vs, {}, u) == {}
    {
      assert Reachers(g, vs, {}, u) == {};
    }
  }

  /** No ray from p reaches p itself, and every reached point is registered. */
  lemma RayHitsRegistered(g: Grid, vs: set<Point>, p: Point)
    requires WellFormed(g) && InBounds(g, p)
    ensures RayHits(g, vs, p) <= vs
    ensures p !in RayHits(g, vs, p)
  {
    forall q | q in RayHits(g, vs, p)
      ensures q in vs && q != p
    {
      RayHitsMembers(g, vs, p, q);
      var d :| RayHit(g, vs, p, d) == Some(q);
      HitIsCorridorEnd(g, vs, p, d);
    }
  }

  /** Casting p's rays adds p to the reachers of exactly the vertices they reach. */
  lemma ReachersStep(g: Grid, vs: set<Point>, done: set<Point>, p: Point, u: Point)
    requires WellFormed(g) && AllInBounds(g, vs) && done <= vs && p in vs
    ensures Reachers(g, vs, done + {p}, u)
         == Reachers(g, vs, done, u) + (if u in RayHits(g, vs, p) then {p} else {})
  {
  }

  /** One vertex of the graph, before and after p's rays are cast. */
  lemma WireStepAt(g: Grid, vs: set<Point>, done: set<Point>, p: Point, u: Point)
    requires WellFormed(g) && AllInBounds(g, vs) && done <= vs && p in vs && u in vs
    requires RayHits(g, vs, p) <= vs && p !in RayHits(g, vs, p)
    ensures ConnectAll(Wired(g, vs, done), p, RayHits(g, vs, p))[u] == WiredAt(g, vs, done + {p}, u)
  {
    ReachersStep(g, vs, done, p, u);
  }

  /** Two graphs with the same vertices and the same neighbour sets are equal. */
  lemma SameValues(a: Graph, b: Graph)
    requires a.Keys == b.Keys
    requires forall u :: u in a ==> a[u] == b[u]
    ensures a == b
  {
  }

  /** Two graphs whose keys lie in vs and that agree on every point of vs are equal. */
  lemma SameOver(vs: set<Point>, a: Graph, b: Graph)
    requires a.Keys <= vs && b.Keys <= vs
    requires forall u :: u in vs ==> u in a && u in b && a[u] == b[u]
    ensures a == b
  {
    assert a.Keys == b.Keys;
  }

  /** Casting the rays of one more vertex p connects p to what they reach. */
  lemma WireStep(g: Grid, vs: set<Point>, done: set<Point>, p: Point)
    requires WellFormed(g) && AllInBounds(g, vs) && done <= vs && p in vs
    ensures RayHits(g, vs, p) <= vs
    ensures ConnectAll(Wired(g, vs, done), p, RayHits(g, vs, p)) == Wired(g, vs, done + {p})
  {
    RayHitsRegistered(g, vs, p);
    var lhs := ConnectAll(Wired(g, vs, done), p, RayHits(g, vs, p));
    var rhs := Wired(g, vs, done + {p});
    forall u | u in vs
      ensures lhs[u] == rhs[u]
    {
      WireStepAt(g, vs, done, p, u);
    }
    SameValues(lhs, rhs);
  }

  /** Once the rays of every white vertex are cast, each vertex is connected to
      exactly the vertices its own rays reach. */
  lemma WiredComplete(g: Grid, vs: set<Point>, u: Point)
    requires WellFormed(g) && AllInBounds(g, vs) && u in vs
    requires forall v :: v in vs ==> IsWhite(g, v)
    ensures Wired(g, vs, vs)[u] == RayHits(g, vs, u)
  {
    forall v | v in Reachers(g, vs, vs, u)
      ensures v in RayHits(g, vs, u)
    {
      RayHitsSymmetric(g, vs, v, u);
    }
  }

  /** h is the graph over vs in which every vertex is connected to what its own rays
      reach: its keys are vs, and w is a neighbour of u exactly when a ray from u reaches w. */
  ghost predicate RayGraph(g: Grid, vs: set<Point>, h: Graph)
    requires WellFormed(g) && AllInBounds(g, vs)
  {
    && h.Keys <= vs
    && (forall u {:trigger h[u]} {:trigger RayHits(g, vs, u)} :: u in vs ==> u in h)
    && forall u, w {:trigger w in h[u]} {:trigger w in RayHits(g, vs, u)} ::
         u in h ==> (w in h[u] <==> w in RayHits(g, vs, u))
  }

  /** Every vertex of vs is a key of the ray graph, mapped to what its rays reach. */
  lemma RayGraphAt(g: Grid, vs: set<Point>, h: Graph, u: Point)
    requires WellFormed(g) && AllInBounds(g, vs) && RayGraph(g, vs, h) && u in vs
    ensures u in h && h[u] == RayHits(g, vs, u)
  {
    ghost var hits := RayHits(g, vs, u);
    assert forall w :: w in h[u] <==> w in hits;
  }

  /** At most one graph is the ray graph over vs. */
  lemma RayGraphUnique(g: Grid, vs: set<Point>, a: Graph, b: Graph)
    requires WellFormed(g) && AllInBounds(g, vs) && RayGraph(g, vs, a) && RayGraph(g, vs, b)
    ensures a == b
  {
    forall u | u in vs
      ensures u in a && u in b && a[u] == b[u]
    {
      RayGraphAt(g, vs, a, u);
      RayGraphAt(g, vs, b, u);
    }
    SameOver(vs, a, b);
  }

  /** In the ray graph u is connected to w exactly when w is the first vertex seen
      from u along an unbroken straight white run. */
  lemma RayGraphAdjacent(g: Grid, vs: set<Point>, h: Graph, u: Point, w: Point)
    requires WellFormed(g) && AllInBounds(g, vs) && RayGraph(g, vs, h)
    ensures Adjacent(h, u, w) <==> u in vs && exists d, j :: Sees(g, vs, u, d, j) && w == Step(u, d, j)
  {
    if u in vs {
      RayGraphAt(g, vs, h, u);
      RayHitsMembers(g, vs, u, w);
    }
    if Adjacent(h, u, w) {
      var d :| RayHit(g, vs, u, d) == Some(w);
      var j :| Sees(g, vs, u, d, j);
    }
    if u in vs && exists d, j :: Sees(g, vs, u, d, j) && w == Step(u, d, j) {
      var d, j :| Sees(g, vs, u, d, j) && w == Step(u, d, j);
      assert RayHit(g, vs, u, d) == Some(w);
    }
  }

  /** An edge of the ray graph joins two different white vertices on the same row or column. */
  lemma RayGraphCorridor(g: Grid, vs: set<Point>, h: Graph, u: Point, w: Point)
    requires WellFormed(g) && AllInBounds(g, vs) && RayGraph(g, vs, h)
    requires Adjacent(h, u, w)
    ensures w in vs && IsWhite(g, w) && u != w && (u.x == w.x || u.y == w.y)
  {
    RayHitsMembers(g, vs, u, w);
    var d :| RayHit(g, vs, u, d) == Some(w);
    HitIsCorridorEnd(g, vs, u, d);
  }

  /** A vertex has at most one neighbour per direction, so at most four, and as many
      as connectNeighbors counts. */
  lemma RayGraphDegree(g: Grid, vs: set<Point>, h: Graph, u: Point)
    requires WellFormed(g) && AllInBounds(g, vs) && RayGraph(g, vs, h) && u in h
    ensures |h[u]| <= 4
    ensures |h[u]| == HitCount(g, vs, u)
  {
    RayGraphAt(g, vs, h, u);
    RayHitsCount(g, vs, u);
  }

  /** The four rays reach as many vertices as there are rays that reach one. */
  lemma RayHitsCount(g: Grid, vs: set<Point>, u: Point)
    requires WellFormed(g) && InBounds(g, u)
    ensures |RayHits(g, vs, u)| == HitCount(g, vs, u)
  {
    var up, down := Hit(RayHit(g, vs, u, Up)), Hit(RayHit(g, vs, u, Down));
    var left, right := Hit(RayHit(g, vs, u, Left)), Hit(RayHit(g, vs, u, Right));
    DistinctHits(g, vs, u);
    assert |up + down| == |up| + |down|;
    assert |up + down + left| == |up| + |down| + |left|;
    assert |up + down + left + right| == |up| + |down| + |left| + |right|;
  }

  /** The four rays from u reach four different vertices, when they reach any. */
  lemma DistinctHits(g: Grid, vs: set<Point>, u: Point)
    requires WellFormed(g) && InBounds(g, u)
    ensures forall d, e :: d != e && RayHit(g, vs, u, d).Some? && RayHit(g, vs, u, e).Some? ==>
      RayHit(g, vs, u, d) != RayHit(g, vs, u, e)
  {
    forall d, e | d != e && RayHit(g, vs, u, d).Some? && RayHit(g, vs, u, e).Some?
      ensures RayHit(g, vs, u, d) != RayHit(g, vs, u, e)
    {
      var i :| Sees(g, vs, u, d, i);
      var j :| Sees(g, vs, u, e, j);
      assert Step(u, d, i) != Step(u, e, j);
    }
  }

}
