/** Partial topological sort from a start vertex: a depth-first search that
    detects cycles with an "on the stack" path, collects vertices in
    post-order and returns that order reversed. */
module TopologySort {
  import opened Wrappers
  import opened Seqs

  type Vertex = string

  /** An edge `(from, to)`: `from` depends on `to`. */
  type Edge = (Vertex, Vertex)

  /** Adjacency lists, one per listed vertex. */
  type Adjacency = map<Vertex, seq<Vertex>>

  datatype SortError =
    | NotFound(vertex: Vertex)
      /** The stack of vertices being processed, followed by the vertex met again. */
    | CycleDetected(cycle: seq<Vertex>)

  /** The DFS state: vertices fully processed, and the same vertices in the order they finished. */
  datatype Walk = Walk(visited: set<Vertex>, order: seq<Vertex>)

  /** The targets of the edges leaving `u`, in edge order. */
  function TargetsOf(edges: seq<Edge>, u: Vertex): (ts: seq<Vertex>)
    ensures forall w :: w in ts <==> (u, w) in edges
  {
    if |edges| == 0 then []
    else (if edges[0].0 == u then [edges[0].1] else []) + TargetsOf(edges[1..], u)
  }

  lemma {:induction false} TargetsOfAppend(edges: seq<Edge>, e: Edge, u: Vertex)
    ensures TargetsOf(edges + [e], u) == TargetsOf(edges, u) + (if e.0 == u then [e.1] else [])
  {
    if |edges| > 0 {
      assert (edges + [e])[1..] == edges[1..] + [e];
      TargetsOfAppend(edges[1..], e, u);
    }
  }

  /** Every listed vertex gets a list, and an edge is appended to the list of its
      source when that source is listed and dropped otherwise; so a listed vertex's
      list holds the targets of its edges, in edge order. */
  function BuildAdjacency(vertices: seq<Vertex>, edges: seq<Edge>): (g: Adjacency)
    ensures g.Keys == Elems(vertices)
    ensures forall u :: u in g ==> g[u] == TargetsOf(edges, u)
    ensures forall u, w :: u in g ==> (w in g[u] <==> (u, w) in edges)
  {
    if |edges| == 0 then map v | v in vertices :: []
    else
      var init := edges[..|edges| - 1];
      var e := edges[|edges| - 1];
      assert edges == init + [e];
      var g := BuildAdjacency(vertices, init);
      assert forall u :: TargetsOf(edges, u) == TargetsOf(init, u) + (if e.0 == u then [e.1] else []) by {
        forall u {
          TargetsOfAppend(init, e, u);
        }
      }
      if e.0 in g then g[e.0 := g[e.0] + [e.1]] else g
  }

  /** `graph.get(vertex, [])`: a vertex that is not listed has no successors. */
  function Successors(g: Adjacency, v: Vertex): seq<Vertex> {
    if v in g then g[v] else []
  }

  /** All vertices a traversal of `g` can ever touch: listed ones and edge targets. */
  ghost function Universe(g: Adjacency): (u: set<Vertex>)
    ensures g.Keys <= u
    ensures forall v, w :: w in Successors(g, v) ==> w in u
  {
    g.Keys + set v, w | v in g && w in g[v] :: w
  }

  /** `dfs(v)` with `path` the vertices currently being processed. */
  function Visit(g: Adjacency, v: Vertex, path: seq<Vertex>, st: Walk): Result<Walk, SortError>
    requires v in Universe(g)
    decreases Universe(g) - Elems(path), 0
  {
    if v in path then Failure(CycleDetected(path + [v]))
    else if v in st.visited then Success(st)
    else
      ElemsOfAppend(path, v);
      var done :- VisitAll(g, Successors(g, v), path + [v], st);
      Success(Walk(done.visited + {v}, done.order + [v]))
  }

  /** The loop `for neighbor in ...: dfs(neighbor)`, stopping at the first error. */
  function VisitAll(g: Adjacency, ns: seq<Vertex>, path: seq<Vertex>, st: Walk): Result<Walk, SortError>
    requires forall w :: w in ns ==> w in Universe(g)
    decreases Universe(g) - Elems(path), |ns| + 1
  {
    if |ns| == 0 then Success(st)
    else
      var next :- Visit(g, ns[0], path, st);
      VisitAll(g, ns[1..], path, next)
  }

  /** `topology_sort_partial(vertices, edges, start)`. */
  function TopologySortPartial(vertices: seq<Vertex>, edges: seq<Edge>, start: Vertex): (r: Result<seq<Vertex>, SortError>)
    ensures start !in vertices ==> r == Failure(NotFound(start))
    ensures r.Success? ==> |r.value| > 0 && r.value[0] == start
  {
    if start !in vertices then Failure(NotFound(start))
    else
      var g := BuildAdjacency(vertices, edges);
      var st :- Visit(g, start, [], Walk({}, []));
      Success(Reverse(st.order))
  }

  // ---------------------------------------------------------------------
  // Paths, reachability and cycles in the adjacency

  /** A non-empty walk along adjacency edges. */
  predicate IsPath(g: Adjacency, p: seq<Vertex>) {
    |p| > 0 && forall i :: 0 <= i < |p| - 1 ==> p[i + 1] in Successors(g, p[i])
  }

  ghost predicate Reachable(g: Adjacency, u: Vertex, w: Vertex) {
    exists p :: IsPath(g, p) && p[0] == u && p[|p| - 1] == w
  }

  /** Some vertex of `ns` reaches `w`. */
  ghost predicate ReachableFromAny(g: Adjacency, ns: seq<Vertex>, w: Vertex) {
    exists k :: 0 <= k < |ns| && Reachable(g, ns[k], w)
  }

  /** A path from `s` whose last vertex occurs earlier on it: a cycle reachable from `s`. */
  predicate IsCycleWitness(g: Adjacency, s: Vertex, c: seq<Vertex>) {
    IsPath(g, c) && c[0] == s && c[|c| - 1] in c[..|c| - 1]
  }

  /** Some path from `s` repeats a vertex. */
  ghost predicate CycleReachable(g: Adjacency, s: Vertex) {
    exists p :: IsPath(g, p) && p[0] == s && !Distinct(p)
  }
}
