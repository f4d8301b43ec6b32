/** Minimum-cost wiring: kruskalMST and the switch hook-up loop of algorithms/Wiring/Wiring.java. */
module Kruskal {
  import opened DisjointSets
  import opened Forests
  import opened IntSets

  /** What the edges of f among the first n cost beyond c apiece. */
  ghost function ExcessUpTo(edges: seq<Edge>, f: set<int>, c: int, n: nat): int
    requires n <= |edges|
  {
    if n == 0 then 0 else ExcessUpTo(edges, f, c, n - 1) + if n - 1 in f then edges[n - 1].cost - c else 0
  }

  ghost function Excess(edges: seq<Edge>, f: set<int>, c: int): int {
    ExcessUpTo(edges, f, c, |edges|)
  }

  ghost function Cost(edges: seq<Edge>, f: set<int>): int {
    Excess(edges, f, 0)
  }

  lemma {:induction false} ExcessUpToWithout(edges: seq<Edge>, f: set<int>, c: int, n: nat, i: int)
    requires n <= |edges| && 0 <= i < |edges| && i in f
    ensures ExcessUpTo(edges, f, c, n) == ExcessUpTo(edges, f - {i}, c, n) + if i < n then edges[i].cost - c else 0
  {
    if n != 0 {
      ExcessUpToWithout(edges, f, c, n - 1, i);
    }
  }

  lemma ExcessWithout(edges: seq<Edge>, f: set<int>, c: int, i: int)
    requires EdgeSet(edges, f) && i in f
    ensures Excess(edges, f, c) == edges[i].cost - c + Excess(edges, f - {i}, c)
  {
    ExcessUpToWithout(edges, f, c, |edges|, i);
  }

  lemma {:induction false} ExcessOfNone(edges: seq<Edge>, f: set<int>, c: int, n: nat)
    requires n <= |edges| && f == {}
    ensures ExcessUpTo(edges, f, c, n) == 0
  {
    if n != 0 {
      ExcessOfNone(edges, f, c, n - 1);
    }
  }

  lemma {:induction false} ExcessAtRate(edges: seq<Edge>, f: set<int>, c: int, c': int)
    requires EdgeSet(edges, f)
    ensures Excess(edges, f, c) == Excess(edges, f, c') + (c' - c) * |f|
  {
    if |f| != 0 {
      var i := Pick(f);
      var g := f - {i};
      assert |f| == |g| + 1;
      hide Excess;
      ExcessAtRate(edges, g, c, c');
      ExcessWithout(edges, f, c, i);
      ExcessWithout(edges, f, c', i);
    } else {
      ExcessOfNone(edges, f, c, |edges|);
      ExcessOfNone(edges, f, c', |edges|);
    }
  }

  /** Raising the rate favours the smaller set. */
  lemma ExcessComparison(edges: seq<Edge>, f: set<int>, g: set<int>, c: int, c': int)
    requires EdgeSet(edges, f) && EdgeSet(edges, g) && |f| <= |g|
    requires c <= c' || |f| == |g|
    requires Excess(edges, f, c) >= Excess(edges, g, c)
    ensures Excess(edges, f, c') >= Excess(edges, g, c')
  {
    ExcessAtRate(edges, f, c, c');
    ExcessAtRate(edges, g, c, c');
    if c <= c' {
      Scaled(c' - c, |f|, |g|);
    }
  }

  lemma Scaled(d: nat, m: int, n: int)
    requires m <= n
    ensures d * m <= d * n
  {
  }

  /** Edges that cost at least c only add to the excess over c. */
  lemma {:induction false} ExcessGrows(edges: seq<Edge>, f: set<int>, g: set<int>, c: int)
    requires EdgeSet(edges, f) && g <= f && forall i :: i in f - g ==> c <= edges[i].cost
    ensures Excess(edges, g, c) <= Excess(edges, f, c)
  {
    if |f - g| != 0 {
      var i := Pick(f - g);
      ExcessWithout(edges, f, c, i);
      ExcessGrows(edges, f - {i}, g, c);
    } else {
      assert forall i :: i in f ==> i in f - g || i in g;
      assert f == g;
    }
  }

  // ----- The priority queue: polling gives an edge of least cost

  ghost predicate Cheapest(edges: seq<Edge>, queue: set<int>, i: int)
    requires EdgeSet(edges, queue)
  {
    i in queue && forall j :: j in queue ==> edges[i].cost <= edges[j].cost
  }

  method Poll(edges: seq<Edge>, queue: set<int>) returns (i: int, rest: set<int>)
    requires EdgeSet(edges, queue) && queue != {}
    ensures 0 <= i < |edges| && Cheapest(edges, queue, i) && rest == queue - {i} && |rest| < |queue|
  {
    assert exists i :: i in queue by { var i := Pick(queue); }
    i :| i in queue;
    var left := queue - {i};
    while left != {}
      invariant i in queue && left <= queue
      invariant forall j :: j in queue && j !in left ==> edges[i].cost <= edges[j].cost
      decreases left
    {
      assert exists j :: j in left by { var j := Pick(left); }
      var j :| j in left;
      left := left - {j};
      if edges[j].cost < edges[i].cost {
        i := j;
      }
    }
    rest := queue - {i};
  }

  // ----- What the loop keeps

  /** The accepted edges are a forest that connects what the polled edges connect. */
  ghost predicate Grown(p: Partition, verts: set<Vertex>, edges: seq<Edge>, polled: set<int>, accepted: set<int>) {
    && accepted <= polled
    && Describes(p, verts, edges, polled) && Describes(p, verts, edges, accepted)
    && IsForest(edges, accepted)
  }

  /** Against every forest within the polled edges, the accepted ones are as many and exceed c by less. */
  ghost predicate Frugal(edges: seq<Edge>, polled: set<int>, accepted: set<int>, c: int)
    requires EdgeSet(edges, polled) && EdgeSet(edges, accepted)
  {
    forall f {:trigger IsForest(edges, f)} :: f <= polled && IsForest(edges, f) ==>
      |f| <= |accepted| && Excess(edges, f, c) >= Excess(edges, accepted, c)
  }

  /** Rejecting an edge whose ends are connected already. */
  lemma RejectGrown(p: Partition, verts: set<Vertex>, edges: seq<Edge>, polled: set<int>, accepted: set<int>, i: int)
    requires Grown(p, verts, edges, polled, accepted) && 0 <= i < |edges|
    requires p[edges[i].v1] == p[edges[i].v2]
    ensures Grown(p, verts, edges, polled + {i}, accepted)
  {
    var x, y := edges[i].v1, edges[i].v2;
    MergedDescribes(p, verts, edges, polled, i, x, y);
    assert Merged(p, x, p[y]) == p;
  }

  lemma EdgeInPartition(p: Partition, verts: set<Vertex>, edges: seq<Edge>, f: set<int>, i: int)
    requires Describes(p, verts, edges, f) && 0 <= i < |edges|
    ensures IsPartition(p) && edges[i].v1 in p && edges[i].v2 in p
  {
  }

  /** An edge between two classes closes no cycle. */
  lemma StillForest(p: Partition, q: Partition, verts: set<Vertex>, edges: seq<Edge>, f: set<int>, i: int)
    requires Describes(p, verts, edges, f) && IsForest(edges, f) && i !in f
    requires Describes(q, verts, edges, f + {i}) && |Representatives(q)| == |Representatives(p)| - 1
    ensures IsForest(edges, f + {i})
  {
    hide Describes, IsForest, Representatives;
    ForestByCount(verts, edges, f, p);
    ForestByCount(verts, edges, f + {i}, q);
  }

  /** Accepting an edge between two classes: q merges them. */
  lemma AcceptGrown(p: Partition, q: Partition, verts: set<Vertex>, edges: seq<Edge>, polled: set<int>, accepted: set<int>, i: int, x: Vertex, y: Vertex)
    requires Grown(p, verts, edges, polled, accepted) && 0 <= i < |edges| && i !in polled
    requires Joins(edges, i, x, y) && p[x] != p[y] && q == Merged(p, x, p[y])
    ensures Grown(q, verts, edges, polled + {i}, accepted + {i})
  {
    EdgeInPartition(p, verts, edges, polled, i);
    hide Describes, IsForest, IsPartition, Merged, Representatives, Joins;
    MergedDescribes(p, verts, edges, polled, i, x, y);
    MergedDescribes(p, verts, edges, accepted, i, x, y);
    MergedCount(p, x, y);
    StillForest(p, q, verts, edges, accepted, i);
  }

  /** An edge that costs exactly c does not count. */
  lemma ExcessIgnores(edges: seq<Edge>, f: set<int>, i: int)
    requires EdgeSet(edges, f) && 0 <= i < |edges|
    ensures Excess(edges, f, edges[i].cost) == Excess(edges, f - {i}, edges[i].cost)
  {
    if i in f {
      ExcessWithout(edges, f, edges[i].cost, i);
    } else {
      assert f - {i} == f;
    }
  }

  lemma FrugalStep(edges: seq<Edge>, polled: set<int>, accepted: set<int>, c: int, i: int, accepted': set<int>, f: set<int>)
    requires EdgeSet(edges, polled) && accepted <= polled && 0 <= i < |edges| && i !in polled
    requires Frugal(edges, polled, accepted, c) && (polled == {} || c <= edges[i].cost)
    requires accepted' == accepted || accepted' == accepted + {i}
    requires f <= polled + {i} && IsForest(edges, f)
    ensures Excess(edges, f, edges[i].cost) >= Excess(edges, accepted', edges[i].cost)
  {
    var g := f - {i};
    SubForest(edges, f, g);
    assert g <= polled;
    assert |g| <= |accepted| && Excess(edges, g, c) >= Excess(edges, accepted, c);
    assert polled == {} ==> g == accepted;
    hide IsForest, Frugal, Excess;
    ExcessComparison(edges, g, accepted, c, edges[i].cost);
    ExcessIgnores(edges, f, i);
    ExcessIgnores(edges, accepted', i);
    assert accepted' - {i} == accepted;
  }

  /** Polling in order of cost keeps the accepted edges frugal. */
  lemma StaysFrugal(p: Partition, verts: set<Vertex>, edges: seq<Edge>, polled: set<int>, accepted: set<int>, c: int, i: int, accepted': set<int>)
    requires EdgeSet(edges, polled) && accepted <= polled && 0 <= i < |edges| && i !in polled
    requires Frugal(edges, polled, accepted, c) && (polled == {} || c <= edges[i].cost)
    requires accepted' == accepted || accepted' == accepted + {i}
    requires Grown(p, verts, edges, polled + {i}, accepted')
    ensures Frugal(edges, polled + {i}, accepted', edges[i].cost)
  {
    ForestByCount(verts, edges, accepted', p);
    forall f {:trigger IsForest(edges, f)} | f <= polled + {i} && IsForest(edges, f)
      ensures |f| <= |accepted'| && Excess(edges, f, edges[i].cost) >= Excess(edges, accepted', edges[i].cost)
    {
      ForestWithin(p, verts, edges, polled + {i}, f);
      FrugalStep(edges, polled, accepted, c, i, accepted', f);
    }
  }

  /** A forest drawn from the polled edges is no larger than a forest spanning them. */
  lemma ForestWithin(p: Partition, verts: set<Vertex>, edges: seq<Edge>, polled: set<int>, f: set<int>)
    requires Describes(p, verts, edges, polled) && f <= polled && IsForest(edges, f)
    ensures |f| + |Representatives(p)| <= |verts|
  {
    forall a, b | Connected(edges, f, a, b)
      ensures Connected(edges, polled, a, b)
    {
      ConnectedGrows(edges, f, polled, a, b);
    }
    ForestBound(verts, edges, f, p, polled);
  }

  // ----- The result

  ghost function All(edges: seq<Edge>): (f: set<int>)
    ensures EdgeSet(edges, f)
  {
    Numbers(|edges|)
  }

  /** f is a forest that connects whatever the whole graph connects. */
  ghost predicate SpanningForest(verts: set<Vertex>, edges: seq<Edge>, f: set<int>) {
    IsForest(edges, f) && SameReach(verts, edges, f, All(edges))
  }

  ghost predicate MinimumSpanningForest(verts: set<Vertex>, edges: seq<Edge>, f: set<int>) {
    SpanningForest(verts, edges, f) && forall g :: SpanningForest(verts, edges, g) ==> Cost(edges, f) <= Cost(edges, g)
  }

  lemma GrownIsCheapest(p: Partition, verts: set<Vertex>, edges: seq<Edge>, polled: set<int>, accepted: set<int>, c: int, g: set<int>)
    requires Grown(p, verts, edges, polled, accepted) && Frugal(edges, polled, accepted, c)
    requires Describes(p, verts, edges, All(edges))
    requires forall i :: i in All(edges) - polled ==> polled == {} || c <= edges[i].cost
    requires SpanningForest(verts, edges, g)
    ensures Cost(edges, accepted) <= Cost(edges, g)
  {
    assert Describes(p, verts, edges, g);
    ForestByCount(verts, edges, g, p);
    ForestByCount(verts, edges, accepted, p);
    assert |g| == |accepted|;
    if polled == {} {
      assert accepted == {} && g == {};
    } else {
      var h := g * polled;
      SubForest(edges, g, h);
      ExcessGrows(edges, g, h, c);
      ExcessComparison(edges, g, accepted, c, 0);
    }
  }

  /** One edge fewer than vertices, without a cycle, connects everything. */
  lemma AllConnected(p: Partition, verts: set<Vertex>, edges: seq<Edge>, f: set<int>)
    requires Describes(p, verts, edges, f) && IsForest(edges, f) && |f| >= |verts| - 1
    ensures Describes(p, verts, edges, All(edges))
  {
    ForestByCount(verts, edges, f, p);
    forall a, b {:trigger Same(p, a, b)} {:trigger Connected(edges, All(edges), a, b)} | a in verts && b in verts
      ensures Same(p, a, b) && Connected(edges, All(edges), a, b)
    {
      var reps := Representatives(p);
      assert p[a] in reps && p[b] in reps;
      assert |reps - {p[a]}| == 0;
      assert p[b] !in reps - {p[a]};
      ConnectedGrows(edges, f, All(edges), a, b);
    }
  }

  /** Either reason to stop leaves a minimum spanning forest. */
  lemma StoppedIsMinimum(p: Partition, verts: set<Vertex>, edges: seq<Edge>, polled: set<int>, accepted: set<int>, c: int)
    requires Grown(p, verts, edges, polled, accepted) && Frugal(edges, polled, accepted, c)
    requires polled <= All(edges)
    requires forall i :: i in All(edges) - polled ==> polled == {} || c <= edges[i].cost
    requires |accepted| >= |verts| - 1 || polled == All(edges)
    ensures MinimumSpanningForest(verts, edges, accepted)
  {
    if polled != All(edges) {
      AllConnected(p, verts, edges, accepted);
    }
    forall g | SpanningForest(verts, edges, g)
      ensures Cost(edges, accepted) <= Cost(edges, g)
    {
      GrownIsCheapest(p, verts, edges, polled, accepted, c, g);
    }
  }

  /** The classes after looking at an edge between x and y: merged if they were apart. */
  ghost predicate Joined(p: Partition, q: Partition, x: Vertex, y: Vertex, accept: bool)
  {
    && x in p && y in p && p[x] in p && p[y] in p
    && (accept <==> p[x] != p[y])
    && (if accept then q == Merged(p, p[x], p[p[y]]) || q == Merged(p, p[y], p[p[x]]) else q == p)
  }

  /** Polls an edge, looks up both its ends, and unites their sets when they differ. */
  method TryCheapest(disjointSet: DisjointSet, edges: seq<Edge>, queue: set<int>) returns (e: int, rest: set<int>, accept: bool)
    requires EdgeSet(edges, queue) && queue != {}
    requires disjointSet.Valid() && Over(edges, disjointSet.classes.Keys)
    modifies disjointSet`root, disjointSet`maxRank, disjointSet`classes, disjointSet.parents, disjointSet.rank
    ensures disjointSet.Valid()
    ensures 0 <= e < |edges| && Cheapest(edges, queue, e) && rest == queue - {e} && |rest| < |queue|
    ensures Joined(old(disjointSet.classes), disjointSet.classes, edges[e].v1, edges[e].v2, accept)
  {
    e, rest := Poll(edges, queue);
    disjointSet.ClassesArePartition();
    var uSet := disjointSet.FindSet(edges[e].v1);
    var vSet := disjointSet.FindSet(edges[e].v2);
    var same := disjointSet.EquivalentSets(uSet, vSet);
    if !same {
      disjointSet.UnionSets(uSet, vSet);
    }
    accept := !same;
  }

  /** The state of the loop: p the classes, c the cost of the last polled edge. */
  ghost predicate Running(p: Partition, verts: set<Vertex>, edges: seq<Edge>, queue: set<int>, mst: set<int>, polled: set<int>, c: int) {
    && polled <= All(edges) && queue == All(edges) - polled
    && Grown(p, verts, edges, polled, mst)
    && Frugal(edges, polled, mst, c)
    && forall i :: i in queue ==> polled == {} || c <= edges[i].cost
  }

  lemma RunningClasses(p: Partition, verts: set<Vertex>, edges: seq<Edge>, queue: set<int>, mst: set<int>, polled: set<int>, c: int)
    requires Running(p, verts, edges, queue, mst, polled, c)
    ensures EdgeSet(edges, queue) && p.Keys == verts && Over(edges, verts)
  {
  }

  lemma Turn(p: Partition, q: Partition, verts: set<Vertex>, edges: seq<Edge>, queue: set<int>, mst: set<int>, polled: set<int>, c: int,
             e: int, accept: bool, mst': set<int>)
    requires Running(p, verts, edges, queue, mst, polled, c) && Cheapest(edges, queue, e)
    requires Joined(p, q, edges[e].v1, edges[e].v2, accept) && mst' == if accept then mst + {e} else mst
    ensures Running(q, verts, edges, queue - {e}, mst', polled + {e}, edges[e].cost)
    ensures |mst'| == |mst| + if accept then 1 else 0
  {
    PollGrown(p, q, verts, edges, polled, mst, e, accept, mst');
    StaysFrugal(q, verts, edges, polled, mst, c, e, mst');
  }

  /** One turn of the loop: accepts the polled edge unless it closes a cycle. */
  method PollAndTry(disjointSet: DisjointSet, edges: seq<Edge>, queue: set<int>, mst: set<int>, edgesAccepted: int,
                    ghost verts: set<Vertex>, ghost polled: set<int>, ghost c: int)
    returns (rest: set<int>, mst': set<int>, edgesAccepted': int, ghost polled': set<int>, ghost c': int)
    requires disjointSet.Valid() && queue != {} && edgesAccepted == |mst|
    requires Running(disjointSet.classes, verts, edges, queue, mst, polled, c)
    modifies disjointSet`root, disjointSet`maxRank, disjointSet`classes, disjointSet.parents, disjointSet.rank
    ensures disjointSet.Valid() && |rest| < |queue|
    ensures edgesAccepted' == |mst'|
    ensures Running(disjointSet.classes, verts, edges, rest, mst', polled', c')
  {
    hide *;
    RunningClasses(disjointSet.classes, verts, edges, queue, mst, polled, c);
    ghost var p := disjointSet.classes;
    var e, accept;
    e, rest, accept := TryCheapest(disjointSet, edges, queue);
    edgesAccepted', mst' := edgesAccepted, mst;
    if accept {
      edgesAccepted', mst' := edgesAccepted + 1, mst + {e};
    }
    Turn(p, disjointSet.classes, verts, edges, queue, mst, polled, c, e, accept, mst');
    polled', c' := polled + {e}, edges[e].cost;
  }

  method KruskalMST(edges: seq<Edge>, vertices: set<Vertex>) returns (mst: set<int>)
    requires Over(edges, vertices)
    ensures MinimumSpanningForest(vertices, edges, mst)
  {
    var edgesAccepted := 0;
    var disjointSet := new DisjointSet(vertices);
    var queue := Numbers(|edges|);
    mst := {};
    ghost var c, polled := 0, {};
    StartsRunning(vertices, edges);
    hide Running, DisjointSet.Valid;
    while edgesAccepted < |vertices| - 1 && queue != {}
      invariant fresh(disjointSet) && fresh(disjointSet.parents) && fresh(disjointSet.rank) && disjointSet.Valid()
      invariant edgesAccepted == |mst|
      invariant Running(disjointSet.classes, vertices, edges, queue, mst, polled, c)
      decreases |queue|
    {
      queue, mst, edgesAccepted, polled, c := PollAndTry(disjointSet, edges, queue, mst, edgesAccepted, vertices, polled, c);
    }
    RunningStopped(disjointSet.classes, vertices, edges, queue, mst, polled, c);
  }

  lemma StartsRunning(verts: set<Vertex>, edges: seq<Edge>)
    requires Over(edges, verts)
    ensures Running(map v | v in verts :: v, verts, edges, All(edges), {}, {}, 0)
  {
    DiscreteDescribes(verts, edges);
  }

  lemma RunningStopped(p: Partition, verts: set<Vertex>, edges: seq<Edge>, queue: set<int>, mst: set<int>, polled: set<int>, c: int)
    requires Running(p, verts, edges, queue, mst, polled, c)
    requires |mst| >= |verts| - 1 || queue == {}
    ensures MinimumSpanningForest(verts, edges, mst)
  {
    if queue == {} {
      assert forall i :: i in All(edges) ==> i in queue || i in polled;
      assert polled == All(edges);
    }
    StoppedIsMinimum(p, verts, edges, polled, mst, c);
  }

  lemma MergedAtRepresentatives(p: Partition, x: Vertex, y: Vertex)
    requires IsPartition(p) && x in p && y in p
    ensures Merged(p, p[x], p[p[y]]) == Merged(p, x, p[y])
  {
  }

  /** One turn of the loop: the classes p become q, and e is accepted or not. */
  lemma PollGrown(p: Partition, q: Partition, verts: set<Vertex>, edges: seq<Edge>, polled: set<int>, accepted: set<int>, e: int, accept: bool, accepted': set<int>)
    requires Grown(p, verts, edges, polled, accepted) && 0 <= e < |edges| && e !in polled
    requires Joined(p, q, edges[e].v1, edges[e].v2, accept)
    requires accepted' == if accept then accepted + {e} else accepted
    ensures Grown(q, verts, edges, polled + {e}, accepted')
  {
    var x, y := edges[e].v1, edges[e].v2;
    if p[x] == p[y] {
      RejectGrown(p, verts, edges, polled, accepted, e);
    } else {
      MergedAtRepresentatives(p, x, y);
      MergedAtRepresentatives(p, y, x);
      if q == Merged(p, x, p[y]) {
        AcceptGrown(p, q, verts, edges, polled, accepted, e, x, y);
      } else {
        AcceptGrown(p, q, verts, edges, polled, accepted, e, y, x);
      }
    }
  }
}
