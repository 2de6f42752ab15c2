/** Checking that a sequence of vertices respects a list of `(from, to)` edges. */
module TopologyOrder {
  import opened Seqs
  import opened TopologySort

  /** `{vertex: index for index, vertex in enumerate(sequence)}`: a later occurrence
      overwrites an earlier one, so each vertex maps to its last position. */
  function Positions(sequence: seq<Vertex>): (pos: map<Vertex, nat>)
    ensures pos.Keys == Elems(sequence)
    ensures forall x :: x in pos ==> pos[x] < |sequence| && sequence[pos[x]] == x
    ensures forall x, k :: x in pos && pos[x] < k < |sequence| ==> sequence[k] != x
  {
    if |sequence| == 0 then map[]
    else Positions(sequence[..|sequence| - 1])[sequence[|sequence| - 1] := |sequence| - 1]
  }

  /** The edge loop: edges with an endpoint missing are skipped, and the first
      edge whose source is not strictly before its target gives `false`. */
  function CheckEdges(edges: seq<Edge>, pos: map<Vertex, nat>): bool {
    if |edges| == 0 then true
    else
      var e := edges[0];
      if e.0 !in pos || e.1 !in pos then CheckEdges(edges[1..], pos)
      else if pos[e.0] >= pos[e.1] then false
      else CheckEdges(edges[1..], pos)
  }

  /** Edge `(f, t)` is respected by `a` when one of its endpoints is absent or some
      occurrence of `t` comes after every occurrence of `f`. */
  ghost predicate Respects(a: seq<Vertex>, f: Vertex, t: Vertex) {
    f in a && t in a ==>
      exists k :: 0 <= k < |a| && a[k] == t && forall i :: 0 <= i < |a| && a[i] == f ==> i < k
  }

  /** Every edge is respected. */
  ghost predicate Ordered(edges: seq<Edge>, a: seq<Vertex>) {
    forall e :: e in edges ==> Respects(a, e.0, e.1)
  }

  /** `is_topology_ordered(edges, sequence)`. */
  function IsTopologyOrdered(edges: seq<Edge>, sequence: seq<Vertex>): (ok: bool)
    ensures ok <==> Ordered(edges, sequence)
    ensures |sequence| == 0 || |edges| == 0 ==> ok
  {
    if |sequence| == 0 then true
    else
      CheckEdgesMeaning(edges, sequence);
      CheckEdges(edges, Positions(sequence))
  }

  /** Comparing last positions is the same as asking for an occurrence of `t`
      after every occurrence of `f`. */
  lemma LastPositionsMeaning(a: seq<Vertex>, f: Vertex, t: Vertex)
    requires f in a && t in a
    ensures f in Positions(a) && t in Positions(a)
    ensures Respects(a, f, t) <==> Positions(a)[f] < Positions(a)[t]
  {
    var pos := Positions(a);
    assert f in Elems(a) && t in Elems(a);
    if pos[f] < pos[t] {
      var k := pos[t];
      assert forall i :: 0 <= i < |a| && a[i] == f ==> i <= pos[f];
    }
    if Respects(a, f, t) {
      var k :| 0 <= k < |a| && a[k] == t && forall i :: 0 <= i < |a| && a[i] == f ==> i < k;
      assert a[pos[f]] == f;
    }
  }

  lemma {:induction false} CheckEdgesMeaning(edges: seq<Edge>, a: seq<Vertex>)
    requires |a| > 0
    ensures CheckEdges(edges, Positions(a)) <==> Ordered(edges, a)
  {
    var pos := Positions(a);
    if |edges| > 0 {
      var e := edges[0];
      CheckEdgesMeaning(edges[1..], a);
      assert forall d :: d in edges <==> d == e || d in edges[1..];
      if e.0 in pos && e.1 in pos {
        assert e.0 in Elems(a) && e.1 in Elems(a);
        LastPositionsMeaning(a, e.0, e.1);
      } else {
        assert e.0 !in a || e.1 !in a;
      }
    }
  }

  /** For a sequence without repetitions the check reads simply: for every edge
      with both endpoints present, the source sits at a smaller index. */
  lemma OrderedWhenDistinct(edges: seq<Edge>, a: seq<Vertex>)
    requires Distinct(a)
    ensures IsTopologyOrdered(edges, a) <==>
            forall i, j :: 0 <= i < |a| && 0 <= j < |a| && (a[i], a[j]) in edges ==> i < j
  {
    if forall i, j :: 0 <= i < |a| && 0 <= j < |a| && (a[i], a[j]) in edges ==> i < j {
      forall e | e in edges
        ensures Respects(a, e.0, e.1)
      {
        if e.0 in a && e.1 in a {
          var i := IndexOf(a, e.0);
          var k := IndexOf(a, e.1);
          assert (a[i], a[k]) in edges;
        }
      }
    }
    if Ordered(edges, a) {
      forall i, j | 0 <= i < |a| && 0 <= j < |a| && (a[i], a[j]) in edges
        ensures i < j
      {
        assert Respects(a, a[i], a[j]);
      }
    }
  }
}
