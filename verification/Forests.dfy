/**
  Connectivity, forests and partitions of an undirected multigraph given by a
  sequence of edges; sub-graphs are sets of edge numbers.
 */
module Forests {
  import opened DisjointSets
  import opened IntSets

  ghost predicate EdgeSet(edges: seq<Edge>, f: set<int>) {
    forall i :: i in f ==> 0 <= i < |edges|
  }

  ghost predicate Over(edges: seq<Edge>, verts: set<Vertex>) {
    forall i :: 0 <= i < |edges| ==> edges[i].v1 in verts && edges[i].v2 in verts
  }

  /** Edge number i joins a and b. */
  ghost predicate Joins(edges: seq<Edge>, i: int, a: Vertex, b: Vertex)
    requires 0 <= i < |edges|
  {
    (edges[i].v1 == a && edges[i].v2 == b) || (edges[i].v1 == b && edges[i].v2 == a)
  }

  ghost predicate Adjacent(edges: seq<Edge>, f: set<int>, a: Vertex, b: Vertex)
    requires EdgeSet(edges, f)
  {
    exists i :: i in f && Joins(edges, i, a, b)
  }

  ghost predicate Walk(edges: seq<Edge>, f: set<int>, w: seq<Vertex>)
    requires EdgeSet(edges, f)
  {
    w != [] && forall k :: 0 < k < |w| ==> Adjacent(edges, f, w[k - 1], w[k])
  }

  ghost predicate Connected(edges: seq<Edge>, f: set<int>, a: Vertex, b: Vertex)
    requires EdgeSet(edges, f)
  {
    exists w :: Walk(edges, f, w) && w[0] == a && w[|w| - 1] == b
  }

  /** No edge's ends stay connected when that edge is taken away. */
  ghost predicate IsForest(edges: seq<Edge>, f: set<int>) {
    && EdgeSet(edges, f)
    && forall i :: i in f ==> !Connected(edges, f - {i}, edges[i].v1, edges[i].v2)
  }

  /** f connects exactly the vertices that g connects. */
  ghost predicate SameReach(verts: set<Vertex>, edges: seq<Edge>, f: set<int>, g: set<int>)
    requires EdgeSet(edges, f) && EdgeSet(edges, g)
  {
    forall a, b :: a in verts && b in verts ==> (Connected(edges, f, a, b) <==> Connected(edges, g, a, b))
  }

  // ----- Connectivity is an equivalence, and grows with the edges

  lemma ConnectedReflexive(edges: seq<Edge>, f: set<int>, a: Vertex)
    requires EdgeSet(edges, f)
    ensures Connected(edges, f, a, a)
  {
    assert Walk(edges, f, [a]);
  }

  lemma ConnectedByEdge(edges: seq<Edge>, f: set<int>, i: int)
    requires EdgeSet(edges, f) && i in f
    ensures Connected(edges, f, edges[i].v1, edges[i].v2)
  {
    assert Joins(edges, i, edges[i].v1, edges[i].v2);
    assert Walk(edges, f, [edges[i].v1, edges[i].v2]);
  }

  lemma ConnectedTransitive(edges: seq<Edge>, f: set<int>, a: Vertex, b: Vertex, c: Vertex)
    requires EdgeSet(edges, f) && Connected(edges, f, a, b) && Connected(edges, f, b, c)
    ensures Connected(edges, f, a, c)
  {
    var w :| Walk(edges, f, w) && w[0] == a && w[|w| - 1] == b;
    var x :| Walk(edges, f, x) && x[0] == b && x[|x| - 1] == c;
    var y := w + x[1..];
    forall k | 0 < k < |y|
      ensures Adjacent(edges, f, y[k - 1], y[k])
    {
      if k >= |w| {
        assert y[k - 1] == x[k - |w|] && y[k] == x[k - |w| + 1];
      }
    }
    assert Walk(edges, f, y);
  }

  lemma ConnectedSymmetric(edges: seq<Edge>, f: set<int>, a: Vertex, b: Vertex)
    requires EdgeSet(edges, f) && Connected(edges, f, a, b)
    ensures Connected(edges, f, b, a)
  {
    var w :| Walk(edges, f, w) && w[0] == a && w[|w| - 1] == b;
    var y := seq(|w|, k requires 0 <= k < |w| => w[|w| - 1 - k]);
    forall k | 0 < k < |y|
      ensures Adjacent(edges, f, y[k - 1], y[k])
    {
      assert Adjacent(edges, f, w[|w| - 1 - k], w[|w| - k]);
    }
    assert Walk(edges, f, y);
  }

  lemma ConnectedGrows(edges: seq<Edge>, f: set<int>, g: set<int>, a: Vertex, b: Vertex)
    requires EdgeSet(edges, g) && f <= g && Connected(edges, f, a, b)
    ensures Connected(edges, g, a, b)
  {
    var w :| Walk(edges, f, w) && w[0] == a && w[|w| - 1] == b;
    assert Walk(edges, g, w);
  }

  lemma ConnectedMonotone(edges: seq<Edge>, f: set<int>, g: set<int>, a: Vertex, b: Vertex)
    requires EdgeSet(edges, g) && f <= g
    ensures Connected(edges, f, a, b) ==> Connected(edges, g, a, b)
  {
    if Connected(edges, f, a, b) {
      ConnectedGrows(edges, f, g, a, b);
    }
  }

  // ----- Partitions that describe connectivity

  ghost predicate Same(p: Partition, a: Vertex, b: Vertex) {
    a in p && b in p && p[a] == p[b]
  }

  /** Two vertices are in the same class of p exactly when f connects them. */
  ghost predicate Describes(p: Partition, verts: set<Vertex>, edges: seq<Edge>, f: set<int>) {
    && EdgeSet(edges, f) && Over(edges, verts)
    && p.Keys == verts && IsPartition(p)
    && forall a, b {:trigger Same(p, a, b)} {:trigger Connected(edges, f, a, b)} ::
         a in verts && b in verts ==> (Same(p, a, b) <==> Connected(edges, f, a, b))
  }

  lemma {:induction false} ClassesTrapWalk(p: Partition, verts: set<Vertex>, edges: seq<Edge>, f: set<int>, w: seq<Vertex>)
    requires EdgeSet(edges, f) && Over(edges, verts) && p.Keys == verts
    requires forall i :: i in f ==> p[edges[i].v1] == p[edges[i].v2]
    requires Walk(edges, f, w) && w[0] in verts
    ensures w[|w| - 1] in verts && p[w[|w| - 1]] == p[w[0]]
  {
    if |w| > 1 {
      ClassesTrapWalk(p, verts, edges, f, w[..|w| - 1]);
      assert Adjacent(edges, f, w[|w| - 2], w[|w| - 1]);
    }
  }

  /** With no edges every vertex is its own class. */
  lemma DiscreteDescribes(verts: set<Vertex>, edges: seq<Edge>)
    requires Over(edges, verts)
    ensures Describes(map v | v in verts :: v, verts, edges, {})
  {
    var p := map v | v in verts :: v;
    forall a, b | a in verts && b in verts
      ensures Same(p, a, b) <==> Connected(edges, {}, a, b)
    {
      if a == b {
        ConnectedReflexive(edges, {}, a);
      }
      forall w | Walk(edges, {}, w) && w[0] == a && w[|w| - 1] == b
        ensures a == b
      {
        ClassesTrapWalk(p, verts, edges, {}, w);
      }
    }
  }

  /** Merging the classes of an edge's ends, under either representative, describes the graph with the edge. */
  lemma MergedSeparates(p: Partition, verts: set<Vertex>, edges: seq<Edge>, f: set<int>, i: int, x: Vertex, y: Vertex, a: Vertex, b: Vertex)
    requires Describes(p, verts, edges, f) && 0 <= i < |edges| && Joins(edges, i, x, y)
    requires a in verts && b in verts && Connected(edges, f + {i}, a, b)
    ensures Same(Merged(p, x, p[y]), a, b)
  {
    var q := Merged(p, x, p[y]);
    forall j | j in f + {i}
      ensures q[edges[j].v1] == q[edges[j].v2]
    {
      if j in f {
        ConnectedByEdge(edges, f, j);
        assert Same(p, edges[j].v1, edges[j].v2);
      }
    }
    var w :| Walk(edges, f + {i}, w) && w[0] == a && w[|w| - 1] == b;
    ClassesTrapWalk(q, verts, edges, f + {i}, w);
  }

  lemma MergedConnects(p: Partition, verts: set<Vertex>, edges: seq<Edge>, f: set<int>, i: int, x: Vertex, y: Vertex, a: Vertex, b: Vertex)
    requires Describes(p, verts, edges, f) && 0 <= i < |edges| && Joins(edges, i, x, y)
    requires a in verts && b in verts && Same(Merged(p, x, p[y]), a, b)
    ensures Connected(edges, f + {i}, a, b)
  {
    var g := f + {i};
    ConnectedByEdge(edges, g, i);
    ConnectedSymmetric(edges, g, edges[i].v1, edges[i].v2);
    if Same(p, a, b) {
      ConnectedGrows(edges, f, g, a, b);
    } else if Same(p, a, x) {
      assert Same(p, y, b);
      ConnectedGrows(edges, f, g, a, x);
      ConnectedGrows(edges, f, g, y, b);
      ConnectedTransitive(edges, g, a, x, y);
      ConnectedTransitive(edges, g, a, y, b);
    } else {
      assert Same(p, a, y) && Same(p, x, b);
      ConnectedGrows(edges, f, g, a, y);
      ConnectedGrows(edges, f, g, x, b);
      ConnectedTransitive(edges, g, a, y, x);
      ConnectedTransitive(edges, g, a, x, b);
    }
  }

  lemma MergedIsPartition(p: Partition, x: Vertex, y: Vertex)
    requires IsPartition(p) && x in p && y in p
    ensures IsPartition(Merged(p, x, p[y]))
  {
    var q := Merged(p, x, p[y]);
    forall v | v in q
      ensures q[v] in q && q[q[v]] == q[v]
    {
      assert p[v] in p && p[p[v]] == p[v] && p[y] in p && p[p[y]] == p[y] && p[x] in p && p[p[x]] == p[x];
    }
  }

  lemma MergedReaches(p: Partition, verts: set<Vertex>, edges: seq<Edge>, f: set<int>, i: int, x: Vertex, y: Vertex)
    requires Describes(p, verts, edges, f) && 0 <= i < |edges| && Joins(edges, i, x, y)
    ensures forall a, b {:trigger Same(Merged(p, x, p[y]), a, b)} {:trigger Connected(edges, f + {i}, a, b)} ::
      a in verts && b in verts ==> (Same(Merged(p, x, p[y]), a, b) <==> Connected(edges, f + {i}, a, b))
  {
    forall a, b {:trigger Same(Merged(p, x, p[y]), a, b)} {:trigger Connected(edges, f + {i}, a, b)} | a in verts && b in verts
      ensures Same(Merged(p, x, p[y]), a, b) <==> Connected(edges, f + {i}, a, b)
    {
      if Connected(edges, f + {i}, a, b) {
        MergedSeparates(p, verts, edges, f, i, x, y, a, b);
      }
      if Same(Merged(p, x, p[y]), a, b) {
        MergedConnects(p, verts, edges, f, i, x, y, a, b);
      }
    }
  }

  lemma MergedDescribes(p: Partition, verts: set<Vertex>, edges: seq<Edge>, f: set<int>, i: int, x: Vertex, y: Vertex)
    requires Describes(p, verts, edges, f) && 0 <= i < |edges| && Joins(edges, i, x, y)
    ensures Describes(Merged(p, x, p[y]), verts, edges, f + {i})
  {
    MergedIsPartition(p, x, y);
    MergedReaches(p, verts, edges, f, i, x, y);
  }

  // ----- Counting classes

  ghost function Representatives(p: Partition): set<Vertex> {
    set v | v in p && p[v] == v
  }

  lemma {:induction false} InjectiveImage(s: set<Vertex>, t: set<Vertex>, m: Partition)
    requires s <= m.Keys
    requires forall v :: v in s ==> m[v] in t
    requires forall u, v :: u in s && v in s && m[u] == m[v] ==> u == v
    ensures |s| <= |t|
  {
    if |s| != 0 {
      var v :| v in s;
      InjectiveImage(s - {v}, t - {m[v]}, m);
    }
  }

  lemma RepresentativesApart(p: Partition, q: Partition, u: Vertex, v: Vertex)
    requires p.Keys == q.Keys && u in Representatives(q) && v in Representatives(q)
    requires forall a, b {:trigger Same(p, a, b)} :: Same(p, a, b) ==> Same(q, a, b)
    ensures p[u] == p[v] ==> u == v
  {
    assert Same(p, u, v) ==> Same(q, u, v);
  }

  lemma RepresentativesMapped(p: Partition, v: Vertex)
    requires IsPartition(p) && v in p
    ensures p[v] in Representatives(p)
  {
    assert p[p[v]] == p[v];
  }

  /** A coarser partition has no more classes. */
  lemma CoarserIsSmaller(p: Partition, q: Partition)
    requires IsPartition(p) && p.Keys == q.Keys
    requires forall a, b {:trigger Same(p, a, b)} :: Same(p, a, b) ==> Same(q, a, b)
    ensures |Representatives(q)| <= |Representatives(p)|
  {
    var s, t := Representatives(q), Representatives(p);
    assert s <= p.Keys;
    hide IsPartition, Representatives, Same;
    forall v | v in s
      ensures p[v] in t
    {
      RepresentativesMapped(p, v);
    }
    forall u, v | u in s && v in s
      ensures p[u] == p[v] ==> u == v
    {
      RepresentativesApart(p, q, u, v);
    }
    InjectiveImage(s, t, p);
  }

  lemma MergedCount(p: Partition, x: Vertex, y: Vertex)
    requires IsPartition(p) && x in p && y in p
    ensures |Representatives(Merged(p, x, p[y]))| == |Representatives(p)| - if p[x] == p[y] then 0 else 1
  {
    var q := Merged(p, x, p[y]);
    if p[x] == p[y] {
      assert q == p;
    } else {
      assert Representatives(q) == Representatives(p) - {p[x]};
    }
  }

  lemma SubForest(edges: seq<Edge>, f: set<int>, g: set<int>)
    requires IsForest(edges, f) && g <= f
    ensures IsForest(edges, g)
  {
    forall i | i in g
      ensures !Connected(edges, g - {i}, edges[i].v1, edges[i].v2)
    {
      ConnectedMonotone(edges, g - {i}, f - {i}, edges[i].v1, edges[i].v2);
    }
  }

  /** Adding edge i to the graph of q costs one class, unless its ends were connected. */
  lemma AddEdge(q: Partition, verts: set<Vertex>, edges: seq<Edge>, f: set<int>, i: int) returns (p: Partition)
    requires EdgeSet(edges, f) && i in f && Describes(q, verts, edges, f - {i})
    ensures Describes(p, verts, edges, f)
    ensures |Representatives(p)| == |Representatives(q)| - if Connected(edges, f - {i}, edges[i].v1, edges[i].v2) then 0 else 1
  {
    var x, y := edges[i].v1, edges[i].v2;
    p := Merged(q, x, q[y]);
    MergedDescribes(q, verts, edges, f - {i}, i, x, y);
    MergedCount(q, x, y);
    assert (f - {i}) + {i} == f;
    assert Same(q, x, y) <==> Connected(edges, f - {i}, x, y);
  }

  /** Every edge removes at most one class; in a forest each removes exactly one. */
  lemma {:induction false} RankOf(verts: set<Vertex>, edges: seq<Edge>, f: set<int>) returns (p: Partition)
    requires Over(edges, verts) && EdgeSet(edges, f)
    ensures Describes(p, verts, edges, f)
    ensures |f| + |Representatives(p)| >= |verts|
    ensures IsForest(edges, f) ==> |f| + |Representatives(p)| == |verts|
  {
    if |f| == 0 {
      assert f == {};
      p := map v | v in verts :: v;
      DiscreteDescribes(verts, edges);
      assert Representatives(p) == verts;
    } else {
      var i := Pick(f);
      var g := f - {i};
      assert |f| == |g| + 1;
      if IsForest(edges, f) {
        SubForest(edges, f, g);
      }
      var q := RankOf(verts, edges, g);
      p := AddEdge(q, verts, edges, f, i);
    }
  }

  lemma SameCount(p: Partition, q: Partition, verts: set<Vertex>, edges: seq<Edge>, f: set<int>)
    requires Describes(p, verts, edges, f) && Describes(q, verts, edges, f)
    ensures |Representatives(p)| == |Representatives(q)|
  {
    assert forall a, b {:trigger Same(p, a, b)} {:trigger Same(q, a, b)} :: Same(p, a, b) <==> Same(q, a, b);
    CoarserIsSmaller(p, q);
    CoarserIsSmaller(q, p);
  }

  lemma RedundantEdge(verts: set<Vertex>, edges: seq<Edge>, f: set<int>, p: Partition, i: int)
    requires Describes(p, verts, edges, f) && i in f && Connected(edges, f - {i}, edges[i].v1, edges[i].v2)
    ensures |f| + |Representatives(p)| > |verts|
  {
    var g := f - {i};
    assert |f| == |g| + 1;
    var q := RankOf(verts, edges, g);
    var r := AddEdge(q, verts, edges, f, i);
    SameCount(p, r, verts, edges, f);
  }

  /** A graph is a forest exactly when its edges and classes add up to its vertices. */
  lemma ForestByCount(verts: set<Vertex>, edges: seq<Edge>, f: set<int>, p: Partition)
    requires Describes(p, verts, edges, f)
    ensures IsForest(edges, f) <==> |f| + |Representatives(p)| == |verts|
  {
    var q := RankOf(verts, edges, f);
    SameCount(p, q, verts, edges, f);
    forall i | i in f && Connected(edges, f - {i}, edges[i].v1, edges[i].v2)
      ensures |f| + |Representatives(p)| > |verts|
    {
      RedundantEdge(verts, edges, f, p, i);
    }
  }

  /** A forest inside what p connects has at most |verts| minus p's classes many edges. */
  lemma ForestBound(verts: set<Vertex>, edges: seq<Edge>, f: set<int>, p: Partition, g: set<int>)
    requires Describes(p, verts, edges, g) && IsForest(edges, f)
    requires forall a, b :: Connected(edges, f, a, b) ==> Connected(edges, g, a, b)
    ensures |f| <= |verts| - |Representatives(p)|
  {
    var q := RankOf(verts, edges, f);
    CoarserIsSmaller(q, p);
  }
}
