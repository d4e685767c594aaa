/**
 The undirected graph of maze vertices. Each registered point maps to the set of
 points it is connected to. Graph.java is not part of this model: its two
 mutators are given the meaning Maze.java relies on, an idempotent insert and a
 symmetric edge insert.
 */
module Graphs {
  import opened Pixels

  type Graph = map<Point, set<Point>>

  /** There is an edge from u to w. */
  predicate Adjacent(g: Graph, u: Point, w: Point) {
    u in g && w in g[u]
  }

  /** Every neighbour is registered and every edge is recorded at both of its ends. */
  predicate Undirected(g: Graph) {
    forall u, w | u in g && w in g[u] :: w in g && u in g[w]
  }

  /** addValue: register v with no neighbours, or do nothing if it is registered. */
  function AddValue(g: Graph, v: Point): (r: Graph)
    ensures r.Keys == g.Keys + {v}
    ensures forall u :: u in g ==> r[u] == g[u]
    ensures v !in g ==> r[v] == {}
    ensures forall u, w :: Adjacent(r, u, w) <==> Adjacent(g, u, w)
    ensures Undirected(g) ==> Undirected(r)
  {
    if v in g then g else g[v := {}]
  }

  /** Registering a value a second time changes nothing. */
  lemma AddValueIdempotent(g: Graph, v: Point)
    ensures AddValue(AddValue(g, v), v) == AddValue(g, v)
  {
  }

  /** connectUndirected: add b to a's neighbours and a to b's; both must be registered. */
  function ConnectUndirected(g: Graph, a: Point, b: Point): (r: Graph)
    requires a in g && b in g
    ensures r.Keys == g.Keys
    ensures Adjacent(r, a, b) && Adjacent(r, b, a)
    ensures forall u, w :: Adjacent(r, u, w) <==> Adjacent(g, u, w) || (u == a && w == b) || (u == b && w == a)
    ensures forall u :: u in g && u != a && u != b ==> r[u] == g[u]
    ensures Undirected(g) ==> Undirected(r)
  {
    g[a := g[a] + {b}][b := g[b] + {a}]
  }

  /** Two graphs with the same vertices and the same edges are the same graph. */
  lemma SameEdges(g: Graph, h: Graph)
    requires g.Keys == h.Keys
    requires forall u, w :: Adjacent(g, u, w) <==> Adjacent(h, u, w)
    ensures g == h
  {
    forall u | u in g
      ensures g[u] == h[u]
    {
      forall w
        ensures w in g[u] <==> w in h[u]
      {
        assert Adjacent(g, u, w) <==> Adjacent(h, u, w);
      }
    }
  }

  /** Connecting the same pair twice yields the graph of connecting it once. */
  lemma ConnectUndirectedIdempotent(g: Graph, a: Point, b: Point)
    requires a in g && b in g
    ensures ConnectUndirected(ConnectUndirected(g, a, b), a, b) == ConnectUndirected(g, a, b)
  {
    var once := ConnectUndirected(g, a, b);
    SameEdges(ConnectUndirected(once, a, b), once);
  }

  /** The graph after connecting p to every point of s, in any order. */
  function ConnectAll(g: Graph, p: Point, s: set<Point>): (r: Graph)
    requires p in g && s <= g.Keys
    ensures r.Keys == g.Keys
    ensures forall u, w :: Adjacent(r, u, w) <==> Adjacent(g, u, w) || (u == p && w in s) || (u in s && w == p)
    ensures Undirected(g) ==> Undirected(r)
  {
    map u | u in g :: if u == p then g[u] + s else if u in s then g[u] + {p} else g[u]
  }

  /** Connecting p to nothing leaves the graph unchanged. */
  lemma ConnectAllNone(g: Graph, p: Point)
    requires p in g
    ensures ConnectAll(g, p, {}) == g
  {
    SameEdges(ConnectAll(g, p, {}), g);
  }

  /** Connecting p to one more point is one more connectUndirected call. */
  lemma ConnectAllStep(g: Graph, p: Point, s: set<Point>, q: Point)
    requires p in g && q in g && s <= g.Keys
    ensures ConnectUndirected(ConnectAll(g, p, s), p, q) == ConnectAll(g, p, s + {q})
  {
    SameEdges(ConnectUndirected(ConnectAll(g, p, s), p, q), ConnectAll(g, p, s + {q}));
  }

  /** The graph over vs with no edges at all. */
  function Isolated(vs: set<Point>): (r: Graph)
    ensures r.Keys == vs
    ensures forall u, w :: !Adjacent(r, u, w)
  {
    map u | u in vs :: {}
  }

  /** Registering a value in an edge-free graph gives the edge-free graph over one more vertex. */
  lemma AddValueIsolated(vs: set<Point>, v: Point)
    ensures AddValue(Isolated(vs), v) == Isolated(vs + {v})
  {
    SameEdges(AddValue(Isolated(vs), v), Isolated(vs + {v}));
  }

}
