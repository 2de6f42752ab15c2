/** How the two graph utilities relate: the partial sort's output passes the
    order check whenever every edge source is a listed vertex, and can fail it
    otherwise. */
module GraphLaws {
  import opened Wrappers
  import opened Seqs
  import opened TopologySort
  import opened TopologyOrder
  import opened SortProperties

  /** When every edge source is listed, a successful sort is accepted by the order check on the same edges. */
  lemma SortOutputIsOrdered(vertices: seq<Vertex>, edges: seq<Edge>, start: Vertex)
    requires forall e :: e in edges ==> e.0 in vertices
    ensures var r := TopologySortPartial(vertices, edges, start);
            r.Success? ==> IsTopologyOrdered(edges, r.value)
  {
    var r := TopologySortPartial(vertices, edges, start);
    if r.Success? {
      SortListsReachableOnce(vertices, edges, start);
      SortOrdersEdges(vertices, edges, start);
      OrderedWhenDistinct(edges, r.value);
      forall i, j | 0 <= i < |r.value| && 0 <= j < |r.value| && (r.value[i], r.value[j]) in edges
        ensures i < j
      {
        assert r.value[i] in vertices;
      }
    }
  }

  lemma ExampleTargets()
    ensures TargetsOf([("A", "X"), ("A", "B"), ("X", "B")], "A") == ["X", "B"]
    ensures TargetsOf([("A", "X"), ("A", "B"), ("X", "B")], "B") == []
  {
  }

  lemma ExampleAdjacency(vertices: seq<Vertex>, edges: seq<Edge>)
    requires vertices == ["A", "B"] && edges == [("A", "X"), ("A", "B"), ("X", "B")]
    ensures var g := BuildAdjacency(vertices, edges);
            g.Keys == {"A", "B"} && g["A"] == ["X", "B"] && g["B"] == []
  {
    var g := BuildAdjacency(vertices, edges);
    assert g.Keys == {"A", "B"};
    ExampleTargets();
  }

  lemma ExampleStep(g: Adjacency, v: Vertex, path: seq<Vertex>, st: Walk)
    requires v in Universe(g) && Successors(g, v) == [] && v !in path && v !in st.visited
    ensures Visit(g, v, path, st) == Success(Walk(st.visited + {v}, st.order + [v]))
  {
    assert VisitAll(g, [], path + [v], st) == Success(st);
    var r := Visit(g, v, path, st);
    assert r.Success? && r.value.order == st.order + [v] && r.value.visited == st.visited + {v};
  }

  lemma ExampleWalk(g: Adjacency)
    requires g.Keys == {"A", "B"} && g["A"] == ["X", "B"] && g["B"] == []
    ensures "A" in Universe(g)
    ensures Visit(g, "A", [], Walk({}, [])) == Success(Walk({"X", "B", "A"}, ["X", "B", "A"]))
  {
    var w0 := Walk({}, []);
    assert "X" in Successors(g, "A") && "B" in Successors(g, "A");
    assert "X" !in g;
    ExampleStep(g, "X", ["A"], w0);
    var w1 := Walk({"X"}, ["X"]);
    assert w0.visited + {"X"} == {"X"} && w0.order + ["X"] == ["X"];
    assert Visit(g, "X", ["A"], w0) == Success(w1);
    var w2 := Walk({"X", "B"}, ["X", "B"]);
    ExampleStep(g, "B", ["A"], w1);
    assert w1.visited + {"B"} == {"X", "B"} && w1.order + ["B"] == ["X", "B"];
    assert Visit(g, "B", ["A"], w1) == Success(w2);
    assert VisitAll(g, ["X", "B"], ["A"], w0) == Success(w2) by {
      assert ["X", "B"][1..] == ["B"] && ["B"][1..] == [];
      assert VisitAll(g, ["B"], ["A"], w1) == Success(w2);
    }
    assert [] + ["A"] == ["A"] && Successors(g, "A") == ["X", "B"];
    var r := Visit(g, "A", [], w0);
    assert r.Success? && r.value.order == ["X", "B", "A"] && r.value.visited == {"X", "B", "A"};
  }

  lemma ExampleNotOrdered(edges: seq<Edge>, r: seq<Vertex>)
    requires edges == [("A", "X"), ("A", "B"), ("X", "B")] && r == ["A", "B", "X"]
    ensures !IsTopologyOrdered(edges, r)
  {
    assert !Respects(r, "X", "B") by {
      assert r[2] == "X" && r[1] == "B";
      assert forall k :: 0 <= k < |r| && r[k] == "B" ==> k == 1;
    }
    assert edges[2] in edges;
  }

  lemma ExampleReverse()
    ensures Reverse(["X", "B", "A"]) == ["A", "B", "X"]
  {
  }

  /** An unlisted edge target is emitted as a leaf; when that target is itself an edge
      source the output breaks the order check: vertices [A, B] and edges
      (A, X), (A, B), (X, B) sort to [A, B, X], yet X must precede B. */
  lemma UnlistedSourceBreaksOrder(vertices: seq<Vertex>, edges: seq<Edge>)
    requires vertices == ["A", "B"] && edges == [("A", "X"), ("A", "B"), ("X", "B")]
    ensures TopologySortPartial(vertices, edges, "A") == Success(["A", "B", "X"])
    ensures !IsTopologyOrdered(edges, TopologySortPartial(vertices, edges, "A").value)
  {
    ExampleAdjacency(vertices, edges);
    var g := BuildAdjacency(vertices, edges);
    ExampleWalk(g);
    ExampleReverse();
    assert "A" in vertices;
    var st := Walk({"X", "B", "A"}, ["X", "B", "A"]);
    assert Visit(g, "A", [], Walk({}, [])) == Success(st);
    assert TopologySortPartial(vertices, edges, "A") == Success(Reverse(st.order));
    ExampleNotOrdered(edges, ["A", "B", "X"]);
  }
}
