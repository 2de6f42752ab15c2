/** What `TopologySortPartial` guarantees: errors, contents, ordering and
    cycle detection, proved from invariants of the depth-first search. */
module SortProperties {
  import opened Wrappers
  import opened Seqs
  import opened TopologySort

  // ---------------------------------------------------------------------
  // Invariants of the search

  /** A well-formed DFS state: `order` lists `visited` once each, every
      successor of a finished vertex is finished, and finished before it. */
  ghost predicate WalkOk(g: Adjacency, st: Walk) {
    && Distinct(st.order)
    && Elems(st.order) == st.visited
    && (forall i, w :: 0 <= i < |st.order| && w in Successors(g, st.order[i]) ==> w in st.visited)
    && (forall i, j ::
          0 <= i < |st.order| && 0 <= j < |st.order| && st.order[j] in Successors(g, st.order[i]) ==> j < i)
  }

  /** A step from `st` to `st2` under the stack `path` only adds vertices, none of them on the stack. */
  ghost predicate Grows(st: Walk, st2: Walk, path: seq<Vertex>) {
    && st.visited <= st2.visited
    && (forall x :: x in path && x in st2.visited ==> x in st.visited)
  }

  lemma PrependEdge(g: Adjacency, v: Vertex, w: Vertex, x: Vertex)
    requires w in Successors(g, v) && Reachable(g, w, x)
    ensures Reachable(g, v, x)
  {
    var p :| IsPath(g, p) && p[0] == w && p[|p| - 1] == x;
    var q := [v] + p;
    forall i | 0 <= i < |q| - 1
      ensures q[i + 1] in Successors(g, q[i])
    {
      if i > 0 {
        assert q[i] == p[i - 1] && q[i + 1] == p[i];
      }
    }
    assert IsPath(g, q) && q[0] == v && q[|q| - 1] == x;
  }

  lemma {:induction false} VisitSuccess(g: Adjacency, v: Vertex, path: seq<Vertex>, st: Walk)
    requires v in Universe(g)
    requires WalkOk(g, st)
    ensures Visit(g, v, path, st).Success? ==>
              var st2 := Visit(g, v, path, st).value;
              && WalkOk(g, st2)
              && v in st2.visited
              && Grows(st, st2, path)
              && (forall x :: x in st2.visited && x !in st.visited ==> Reachable(g, v, x))
    decreases Universe(g) - Elems(path), 0
  {
    if v !in path && v !in st.visited {
      ElemsOfAppend(path, v);
      var stack := path + [v];
      var ns := Successors(g, v);
      VisitAllSuccess(g, ns, stack, st);
      var r := VisitAll(g, ns, stack, st);
      if r.Success? {
        var done := r.value;
        var o := done.order + [v];
        var st2 := Walk(done.visited + {v}, o);
        assert Visit(g, v, path, st) == Success(st2);
        assert v !in done.visited by {
          assert v in stack;
        }
        assert Distinct(o);
        ElemsOfAppend(done.order, v);
        forall i, w | 0 <= i < |o| && w in Successors(g, o[i])
          ensures w in st2.visited
        {
          if i < |done.order| {
            assert o[i] == done.order[i];
          }
        }
        forall i, j | 0 <= i < |o| && 0 <= j < |o| && o[j] in Successors(g, o[i])
          ensures j < i
        {
          if i < |done.order| {
            assert o[i] == done.order[i];
            if j == |done.order| {
              assert false;
            }
            assert o[j] == done.order[j];
          } else if j == i {
            assert false;
          }
        }
        forall x | x in st2.visited && x !in st.visited
          ensures Reachable(g, v, x)
        {
          if x == v {
            assert IsPath(g, [v]);
          } else {
            var k :| 0 <= k < |ns| && Reachable(g, ns[k], x);
            PrependEdge(g, v, ns[k], x);
          }
        }
      }
    }
  }

  lemma {:induction false} VisitAllSuccess(g: Adjacency, ns: seq<Vertex>, path: seq<Vertex>, st: Walk)
    requires forall w :: w in ns ==> w in Universe(g)
    requires WalkOk(g, st)
    ensures VisitAll(g, ns, path, st).Success? ==>
              var st2 := VisitAll(g, ns, path, st).value;
              && WalkOk(g, st2)
              && (forall w :: w in ns ==> w in st2.visited)
              && Grows(st, st2, path)
              && (forall x :: x in st2.visited && x !in st.visited ==> ReachableFromAny(g, ns, x))
    decreases Universe(g) - Elems(path), |ns| + 1
  {
    if |ns| > 0 {
      VisitSuccess(g, ns[0], path, st);
      var r1 := Visit(g, ns[0], path, st);
      if r1.Success? {
        var mid := r1.value;
        VisitAllSuccess(g, ns[1..], path, mid);
        var r := VisitAll(g, ns[1..], path, mid);
        assert VisitAll(g, ns, path, st) == r;
        if r.Success? {
          var st2 := r.value;
          forall w | w in ns
            ensures w in st2.visited
          {
            if w != ns[0] {
              assert w in ns[1..];
            }
          }
          forall x | x in st2.visited && x !in st.visited
            ensures ReachableFromAny(g, ns, x)
          {
            if x in mid.visited {
              assert Reachable(g, ns[0], x);
            } else {
              var k :| 0 <= k < |ns[1..]| && Reachable(g, ns[1..][k], x);
              assert ns[1..][k] == ns[k + 1];
            }
          }
        }
      }
    }
  }

  lemma {:induction false} VisitFailure(g: Adjacency, s: Vertex, v: Vertex, path: seq<Vertex>, st: Walk)
    requires v in Universe(g)
    requires IsPath(g, path + [v]) && (path + [v])[0] == s
    ensures Visit(g, v, path, st).Failure? ==>
              var e := Visit(g, v, path, st).error;
              e.CycleDetected? && IsCycleWitness(g, s, e.cycle)
    decreases Universe(g) - Elems(path), 0
  {
    if v in path {
      var c := path + [v];
      assert c[..|c| - 1] == path;
    } else if v !in st.visited {
      ElemsOfAppend(path, v);
      VisitAllFailure(g, s, Successors(g, v), path + [v], st);
    }
  }

  lemma {:induction false} VisitAllFailure(g: Adjacency, s: Vertex, ns: seq<Vertex>, path: seq<Vertex>, st: Walk)
    requires forall w :: w in ns ==> w in Universe(g)
    requires IsPath(g, path) && path[0] == s
    requires forall w :: w in ns ==> w in Successors(g, path[|path| - 1])
    ensures VisitAll(g, ns, path, st).Failure? ==>
              var e := VisitAll(g, ns, path, st).error;
              e.CycleDetected? && IsCycleWitness(g, s, e.cycle)
    decreases Universe(g) - Elems(path), |ns| + 1
  {
    if |ns| > 0 {
      var p := path + [ns[0]];
      forall i | 0 <= i < |p| - 1
        ensures p[i + 1] in Successors(g, p[i])
      {
        if i < |path| - 1 {
          assert p[i] == path[i] && p[i + 1] == path[i + 1];
        } else {
          assert ns[0] in ns;
          assert p[i] == path[|path| - 1] && p[i + 1] == ns[0];
        }
      }
      VisitFailure(g, s, ns[0], path, st);
      var r1 := Visit(g, ns[0], path, st);
      if r1.Success? {
        forall w | w in ns[1..]
          ensures w in Successors(g, path[|path| - 1])
        {
          assert w in ns;
        }
        VisitAllFailure(g, s, ns[1..], path, r1.value);
      }
    }
  }

  // ---------------------------------------------------------------------
  // Consequences of WalkOk for paths

  lemma {:induction false} PathStaysVisited(g: Adjacency, st: Walk, p: seq<Vertex>, i: nat)
    requires WalkOk(g, st)
    requires IsPath(g, p) && p[0] in st.visited
    requires i < |p|
    ensures p[i] in st.visited
  {
    if i > 0 {
      PathStaysVisited(g, st, p, i - 1);
      var a := IndexOf(st.order, p[i - 1]);
      assert p[i] in Successors(g, st.order[a]);
    }
  }

  lemma {:induction false} RankDecreases(g: Adjacency, st: Walk, p: seq<Vertex>, i: nat, k: nat)
    requires WalkOk(g, st)
    requires IsPath(g, p) && p[0] in st.visited
    requires i < k < |p|
    ensures p[i] in st.order && p[k] in st.order
    ensures IndexOf(st.order, p[k]) < IndexOf(st.order, p[i])
    decreases k - i
  {
    PathStaysVisited(g, st, p, k);
    PathStaysVisited(g, st, p, k - 1);
    var a := IndexOf(st.order, p[k - 1]);
    var b := IndexOf(st.order, p[k]);
    assert st.order[b] in Successors(g, st.order[a]);
    if i < k - 1 {
      RankDecreases(g, st, p, i, k - 1);
    }
  }

  lemma PathIsDistinct(g: Adjacency, st: Walk, p: seq<Vertex>)
    requires WalkOk(g, st)
    requires IsPath(g, p) && p[0] in st.visited
    ensures Distinct(p)
  {
    forall i, k | 0 <= i < k < |p|
      ensures p[i] != p[k]
    {
      RankDecreases(g, st, p, i, k);
    }
  }

  /** The state the search finishes in when the sort succeeds. */
  lemma FinalWalk(vertices: seq<Vertex>, edges: seq<Edge>, start: Vertex) returns (st: Walk)
    requires TopologySortPartial(vertices, edges, start).Success?
    ensures start in vertices
    ensures var g := BuildAdjacency(vertices, edges);
            && WalkOk(g, st)
            && start in st.visited
            && (forall x :: x in st.visited ==> Reachable(g, start, x))
            && TopologySortPartial(vertices, edges, start).value == Reverse(st.order)
  {
    var g := BuildAdjacency(vertices, edges);
    var st0 := Walk({}, []);
    VisitSuccess(g, start, [], st0);
    st := Visit(g, start, [], st0).value;
  }

  // ---------------------------------------------------------------------
  // The properties of topology_sort_partial

  /** The start vertex is missing exactly when the sort reports NotFound; any
      other failure is a cycle, reported as a path from the start that
      returns to a vertex already on it. */
  lemma SortErrors(vertices: seq<Vertex>, edges: seq<Edge>, start: Vertex)
    ensures TopologySortPartial(vertices, edges, start) == Failure(NotFound(start)) <==> start !in vertices
    ensures var r := TopologySortPartial(vertices, edges, start);
            r.Failure? && start in vertices ==>
              r.error.CycleDetected? && IsCycleWitness(BuildAdjacency(vertices, edges), start, r.error.cycle)
  {
    if start in vertices {
      var g := BuildAdjacency(vertices, edges);
      assert IsPath(g, [] + [start]);
      VisitFailure(g, start, start, [], Walk({}, []));
    }
  }

  /** The result lists every vertex reachable from the start exactly once, and nothing else. */
  lemma SortListsReachableOnce(vertices: seq<Vertex>, edges: seq<Edge>, start: Vertex)
    ensures var r := TopologySortPartial(vertices, edges, start);
            r.Success? ==>
              && Distinct(r.value)
              && forall x :: x in r.value <==> Reachable(BuildAdjacency(vertices, edges), start, x)
  {
    var r := TopologySortPartial(vertices, edges, start);
    if r.Success? {
      var g := BuildAdjacency(vertices, edges);
      var st := FinalWalk(vertices, edges, start);
      ReversePreservesDistinct(st.order);
      ReverseElems(st.order);
      forall x | Reachable(g, start, x)
        ensures x in st.visited
      {
        var p :| IsPath(g, p) && p[0] == start && p[|p| - 1] == x;
        PathStaysVisited(g, st, p, |p| - 1);
      }
    }
  }

  lemma ListedEdgeIsSuccessor(vertices: seq<Vertex>, edges: seq<Edge>, u: Vertex, w: Vertex)
    requires u in vertices && (u, w) in edges
    ensures w in Successors(BuildAdjacency(vertices, edges), u)
  {
  }

  /** Reading a well-formed walk back to front puts every vertex before its successors. */
  lemma ReversedWalk(g: Adjacency, st: Walk)
    requires WalkOk(g, st)
    ensures var r := Reverse(st.order);
            && (forall i, w :: 0 <= i < |r| && w in Successors(g, r[i]) ==> w in r)
            && (forall i, j :: 0 <= i < |r| && 0 <= j < |r| && r[j] in Successors(g, r[i]) ==> i < j)
  {
    var r := Reverse(st.order);
    var n := |r|;
    forall i, w | 0 <= i < n && w in Successors(g, r[i])
      ensures w in r
    {
      assert r[i] == st.order[n - 1 - i];
      assert w in Elems(st.order);
      var k := IndexOf(st.order, w);
      assert r[n - 1 - k] == w;
    }
    forall i, j | 0 <= i < n && 0 <= j < n && r[j] in Successors(g, r[i])
      ensures i < j
    {
      assert r[i] == st.order[n - 1 - i] && r[j] == st.order[n - 1 - j];
    }
  }

  /** For every edge whose source is a listed vertex in the result, the target
      is in the result too. */
  lemma SortClosedUnderEdges(vertices: seq<Vertex>, edges: seq<Edge>, start: Vertex)
    ensures var r := TopologySortPartial(vertices, edges, start);
            r.Success? ==>
              forall i, w :: 0 <= i < |r.value| && r.value[i] in vertices && (r.value[i], w) in edges ==>
                               w in r.value
  {
    var r := TopologySortPartial(vertices, edges, start);
    if r.Success? {
      var st := FinalWalk(vertices, edges, start);
      ReversedWalk(BuildAdjacency(vertices, edges), st);
      forall i, w | 0 <= i < |r.value| && r.value[i] in vertices && (r.value[i], w) in edges
        ensures w in r.value
      {
        ListedEdgeIsSuccessor(vertices, edges, r.value[i], w);
      }
    }
  }

  /** For every edge between two vertices of the result whose source is listed,
      the source comes strictly before the target. */
  lemma SortOrdersEdges(vertices: seq<Vertex>, edges: seq<Edge>, start: Vertex)
    ensures var r := TopologySortPartial(vertices, edges, start);
            r.Success? ==>
              forall i, j :: (0 <= i < |r.value| && 0 <= j < |r.value| && r.value[i] in vertices
                              && (r.value[i], r.value[j]) in edges) ==> i < j
  {
    var r := TopologySortPartial(vertices, edges, start);
    if r.Success? {
      var st := FinalWalk(vertices, edges, start);
      ReversedWalk(BuildAdjacency(vertices, edges), st);
      forall i, j | 0 <= i < |r.value| && 0 <= j < |r.value| && r.value[i] in vertices
                    && (r.value[i], r.value[j]) in edges
        ensures i < j
      {
        ListedEdgeIsSuccessor(vertices, edges, r.value[i], r.value[j]);
      }
    }
  }

  /** With the start listed, the sort fails exactly when a cycle (a self-loop
      included) is reachable from the start. */
  lemma SortFailsIffCycle(vertices: seq<Vertex>, edges: seq<Edge>, start: Vertex)
    requires start in vertices
    ensures TopologySortPartial(vertices, edges, start).Failure?
            <==> CycleReachable(BuildAdjacency(vertices, edges), start)
  {
    var g := BuildAdjacency(vertices, edges);
    var r := TopologySortPartial(vertices, edges, start);
    if r.Failure? {
      SortErrors(vertices, edges, start);
      var c := r.error.cycle;
      var k :| 0 <= k < |c| - 1 && c[k] == c[|c| - 1];
      assert !Distinct(c);
    } else {
      var st := FinalWalk(vertices, edges, start);
      forall p | IsPath(g, p) && p[0] == start
        ensures Distinct(p)
      {
        PathIsDistinct(g, st, p);
      }
    }
  }

  lemma ExtendPath(g: Adjacency, p: seq<Vertex>, w: Vertex)
    requires IsPath(g, p) && w in Successors(g, p[|p| - 1])
    ensures IsPath(g, p + [w]) && (p + [w])[0] == p[0]
  {
    var q := p + [w];
    forall i | 0 <= i < |q| - 1 ensures q[i + 1] in Successors(g, q[i]) {
      if i < |p| - 1 {
        assert q[i] == p[i] && q[i + 1] == p[i + 1];
      }
    }
  }

  /** A listed vertex with an edge to itself, reachable from the start, makes the sort fail with a cycle. */
  lemma SelfLoopFails(vertices: seq<Vertex>, edges: seq<Edge>, start: Vertex, v: Vertex)
    requires start in vertices && v in vertices && (v, v) in edges
    requires Reachable(BuildAdjacency(vertices, edges), start, v)
    ensures var r := TopologySortPartial(vertices, edges, start);
            r.Failure? && r.error.CycleDetected?
  {
    var g := BuildAdjacency(vertices, edges);
    ListedEdgeIsSuccessor(vertices, edges, v, v);
    SelfLoopIsCycle(g, start, v);
    SortFailsIffCycle(vertices, edges, start);
    SortErrors(vertices, edges, start);
  }

  /** A reachable vertex that is its own successor closes a cycle. */
  lemma SelfLoopIsCycle(g: Adjacency, start: Vertex, v: Vertex)
    requires Reachable(g, start, v) && v in Successors(g, v)
    ensures CycleReachable(g, start)
  {
    var p :| IsPath(g, p) && p[0] == start && p[|p| - 1] == v;
    ExtendPath(g, p, v);
    var q := p + [v];
    assert q[|q| - 2] == q[|q| - 1];
  }
}
