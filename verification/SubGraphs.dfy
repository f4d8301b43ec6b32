/** Edges sorted into lists of their own, as algorithms/Wiring/Wiring.java does: what a list says about the whole graph, and back. */
module SubGraphs {
  import opened DisjointSets
  import opened Forests
  import opened IntSets
  import opened Kruskal

  /** sub lists the edges numbered idx, each once. */
  ghost predicate Lists(edges: seq<Edge>, idx: seq<int>, sub: seq<Edge>) {
    && |sub| == |idx|
    && (forall k :: 0 <= k < |idx| ==> 0 <= idx[k] < |edges| && sub[k] == edges[idx[k]])
    && (forall j, k :: 0 <= j < k < |idx| ==> idx[j] != idx[k])
  }

  /** The numbers in the whole graph of the edges f of a list. */
  function Image(idx: seq<int>, f: set<int>): (r: set<int>)
  {
    set k | k in f && 0 <= k < |idx| :: idx[k]
  }

  /** The edges of the list that are in g. */
  ghost function Preimage(idx: seq<int>, g: set<int>): (r: set<int>)
    ensures forall k :: k in r <==> 0 <= k < |idx| && idx[k] in g
  {
    set k | 0 <= k < |idx| && idx[k] in g
  }

  lemma PreimageOfImage(edges: seq<Edge>, idx: seq<int>, sub: seq<Edge>, f: set<int>)
    requires Lists(edges, idx, sub) && EdgeSet(sub, f)
    ensures Preimage(idx, Image(idx, f)) == f
  {
  }

  lemma PreimageWithout(edges: seq<Edge>, idx: seq<int>, sub: seq<Edge>, g: set<int>, k: int)
    requires Lists(edges, idx, sub) && 0 <= k < |idx|
    ensures Preimage(idx, g - {idx[k]}) == Preimage(idx, g) - {k}
  {
  }

  /** What is connected in the list is connected in the graph. */
  lemma ConnectedInWhole(edges: seq<Edge>, idx: seq<int>, sub: seq<Edge>, f: set<int>, g: set<int>, a: Vertex, b: Vertex)
    requires Lists(edges, idx, sub) && EdgeSet(sub, f) && EdgeSet(edges, g) && Connected(sub, f, a, b)
    requires forall k :: k in f ==> idx[k] in g
    ensures Connected(edges, g, a, b)
  {
    var w :| Walk(sub, f, w) && w[0] == a && w[|w| - 1] == b;
    forall k | 0 < k < |w|
      ensures Adjacent(edges, g, w[k - 1], w[k])
    {
      assert Adjacent(sub, f, w[k - 1], w[k]);
      var i :| i in f && Joins(sub, i, w[k - 1], w[k]);
      assert Joins(edges, idx[i], w[k - 1], w[k]);
    }
    assert Walk(edges, g, w);
  }

  /** A walk in one graph, its vertices mapped so that every edge's ends stay connected in another. */
  lemma {:induction false} WalkMapped(edges: seq<Edge>, g: set<int>, sub: seq<Edge>, f: set<int>, m: Vertex -> Vertex, w: seq<Vertex>)
    requires EdgeSet(edges, g) && EdgeSet(sub, f) && Walk(edges, g, w)
    requires forall i :: i in g ==> Connected(sub, f, m(edges[i].v1), m(edges[i].v2))
    ensures Connected(sub, f, m(w[0]), m(w[|w| - 1]))
  {
    var last := |w| - 1;
    if last == 0 {
      ConnectedReflexive(sub, f, m(w[0]));
    } else {
      assert Adjacent(edges, g, w[last - 1], w[last]);
      assert Walk(edges, g, w[..last]) by {
        forall k | 0 < k < last
          ensures Adjacent(edges, g, w[..last][k - 1], w[..last][k])
        {
          assert Adjacent(edges, g, w[k - 1], w[k]);
        }
      }
      WalkMapped(edges, g, sub, f, m, w[..last]);
      var i :| i in g && Joins(edges, i, w[last - 1], w[last]);
      if edges[i].v1 != w[last - 1] {
        ConnectedSymmetric(sub, f, m(edges[i].v1), m(edges[i].v2));
      }
      ConnectedTransitive(sub, f, m(w[0]), m(w[last - 1]), m(w[last]));
    }
  }

  lemma ConnectedMapped(edges: seq<Edge>, g: set<int>, sub: seq<Edge>, f: set<int>, m: Vertex -> Vertex, a: Vertex, b: Vertex)
    requires EdgeSet(edges, g) && EdgeSet(sub, f) && Connected(edges, g, a, b)
    requires forall i :: i in g ==> Connected(sub, f, m(edges[i].v1), m(edges[i].v2))
    ensures Connected(sub, f, m(a), m(b))
  {
    var w :| Walk(edges, g, w) && w[0] == a && w[|w| - 1] == b;
    WalkMapped(edges, g, sub, f, m, w);
  }

  /** What is connected by edges of the list is connected in the list. */
  lemma ConnectedInList(edges: seq<Edge>, idx: seq<int>, sub: seq<Edge>, f: set<int>, a: Vertex, b: Vertex)
    requires Lists(edges, idx, sub) && EdgeSet(sub, f) && EdgeSet(edges, Image(idx, f)) && Connected(edges, Image(idx, f), a, b)
    ensures Connected(sub, f, a, b)
  {
    var m := v => v;
    forall i | i in Image(idx, f)
      ensures Connected(sub, f, m(edges[i].v1), m(edges[i].v2))
    {
      var k :| k in f && 0 <= k < |idx| && idx[k] == i;
      ConnectedByEdge(sub, f, k);
    }
    ConnectedMapped(edges, Image(idx, f), sub, f, m, a, b);
  }

  lemma ListsNext(edges: seq<Edge>, idx: seq<int>, sub: seq<Edge>, i: nat)
    requires Lists(edges, idx, sub) && i < |edges| && forall k :: 0 <= k < |idx| ==> idx[k] < i
    ensures Lists(edges, idx + [i], sub + [edges[i]])
  {
  }

  /** Without edges a vertex is connected to itself alone. */
  lemma NoEdges(w: seq<Vertex>)
    requires Walk([], {}, w)
    ensures w[0] == w[|w| - 1]
  {
    assert |w| > 1 ==> Adjacent([], {}, w[0], w[1]);
  }

  /** A forest's edges in a list are a forest. */
  lemma ForestInList(edges: seq<Edge>, idx: seq<int>, sub: seq<Edge>, g: set<int>)
    requires Lists(edges, idx, sub) && IsForest(edges, g)
    ensures IsForest(sub, Preimage(idx, g))
  {
    var f := Preimage(idx, g);
    forall k | k in f
      ensures !Connected(sub, f - {k}, sub[k].v1, sub[k].v2)
    {
      if Connected(sub, f - {k}, sub[k].v1, sub[k].v2) {
        ConnectedInWhole(edges, idx, sub, f - {k}, g - {idx[k]}, sub[k].v1, sub[k].v2);
      }
    }
  }

  // ----- Costs

  lemma {:induction false} CostOfUnion(edges: seq<Edge>, f: set<int>, g: set<int>)
    requires EdgeSet(edges, f) && EdgeSet(edges, g) && f !! g
    ensures Cost(edges, f + g) == Cost(edges, f) + Cost(edges, g)
    decreases |f|
  {
    if |f| == 0 {
      assert f + g == g;
      ExcessOfNone(edges, f, 0, |edges|);
    } else {
      var i := Pick(f);
      CostOfUnion(edges, f - {i}, g);
      ExcessWithout(edges, f, 0, i);
      ExcessWithout(edges, f + g, 0, i);
      assert f + g - {i} == (f - {i}) + g;
    }
  }

  lemma {:induction false} CostOfImage(edges: seq<Edge>, idx: seq<int>, sub: seq<Edge>, f: set<int>)
    requires Lists(edges, idx, sub) && EdgeSet(sub, f)
    ensures EdgeSet(edges, Image(idx, f)) && Cost(edges, Image(idx, f)) == Cost(sub, f)
    decreases |f|
  {
    if |f| == 0 {
      assert Image(idx, f) == {};
      ExcessOfNone(edges, {}, 0, |edges|);
      ExcessOfNone(sub, f, 0, |sub|);
    } else {
      var k := Pick(f);
      CostOfImage(edges, idx, sub, f - {k});
      assert Image(idx, f) - {idx[k]} == Image(idx, f - {k});
      assert idx[k] in Image(idx, f);
      ExcessWithout(edges, Image(idx, f), 0, idx[k]);
      ExcessWithout(sub, f, 0, k);
    }
  }

  /** Adding up. */
  method TotalCost(edges: seq<Edge>, f: set<int>) returns (sum: int)
    ensures sum == Cost(edges, f)
  {
    sum := 0;
    for n := 0 to |edges|
      invariant sum == ExcessUpTo(edges, f, 0, n)
    {
      if n in f {
        sum := sum + edges[n].cost;
      }
    }
  }
}
