/** buildHuffmanTree of data-structures/lab_10/huffmanenc.cpp, and its optimality. */
module Huffman {
  import opened Sums
  import opened HuffmanTrees
  import opened Heaps
  import opened Wrappers
  import opened Profiles

  // ----- Totals over a forest

  ghost function Frequencies(ts: seq<Tree>): (w: seq<int>)
    ensures |w| == |ts| && forall i :: 0 <= i < |ts| ==> w[i] == ts[i].frequency
  {
    seq(|ts|, i requires 0 <= i < |ts| => ts[i].frequency)
  }

  ghost function TotalCost(ts: seq<Tree>): nat {
    if ts == [] then 0 else TotalCost(ts[1..]) + Cost(ts[0])
  }

  ghost function TotalWeight(ts: seq<Tree>): nat {
    if ts == [] then 0 else TotalWeight(ts[1..]) + Weight(ts[0])
  }

  ghost function AllLeaves(ts: seq<Tree>): multiset<Tree> {
    if ts == [] then multiset{} else AllLeaves(ts[1..]) + Leaves(ts[0])
  }

  ghost function Without(ts: seq<Tree>, p: nat): seq<Tree>
    requires p < |ts|
  {
    ts[..p] + ts[p + 1..]
  }

  lemma {:induction false} ConcatTotals(a: seq<Tree>, b: seq<Tree>)
    ensures TotalCost(a + b) == TotalCost(a) + TotalCost(b)
    ensures TotalWeight(a + b) == TotalWeight(a) + TotalWeight(b)
    ensures AllLeaves(a + b) == AllLeaves(a) + AllLeaves(b)
  {
    hide Cost, Weight, Leaves;
    if a == [] {
      assert a + b == b;
    } else {
      ConcatTotals(a[1..], b);
      assert (a + b)[1..] == a[1..] + b && (a + b)[0] == a[0];
    }
  }

  lemma SingleTotals(t: Tree)
    ensures TotalCost([t]) == Cost(t) && TotalWeight([t]) == Weight(t) && AllLeaves([t]) == Leaves(t)
  {
    assert [t][1..] == [];
  }

  lemma WithoutTotals(ts: seq<Tree>, p: nat)
    requires p < |ts|
    ensures TotalCost(ts) == TotalCost(Without(ts, p)) + Cost(ts[p])
    ensures TotalWeight(ts) == TotalWeight(Without(ts, p)) + Weight(ts[p])
    ensures AllLeaves(ts) == AllLeaves(Without(ts, p)) + Leaves(ts[p])
  {
    var a, x, b := ts[..p], [ts[p]], ts[p + 1..];
    assert ts == a + (x + b);
    hide TotalCost, TotalWeight, AllLeaves;
    ConcatTotals(a, x + b);
    ConcatTotals(x, b);
    ConcatTotals(a, b);
    SingleTotals(ts[p]);
  }

  lemma WithoutMultisets(ts: seq<Tree>, p: nat)
    requires p < |ts|
    ensures multiset(ts) == multiset(Without(ts, p)) + multiset{ts[p]}
    ensures multiset(Frequencies(ts)) == multiset(Frequencies(Without(ts, p))) + multiset{ts[p].frequency}
  {
    assert ts == ts[..p] + [ts[p]] + ts[p + 1..];
    var w := Frequencies(ts);
    assert w == w[..p] + [w[p]] + w[p + 1..];
    assert Frequencies(Without(ts, p)) == w[..p] + w[p + 1..];
  }

  lemma FrequenciesConcat(a: seq<Tree>, b: seq<Tree>)
    ensures Frequencies(a + b) == Frequencies(a) + Frequencies(b)
  {
  }

  lemma TreeIndex(ts: seq<Tree>, t: Tree) returns (p: nat)
    requires t in multiset(ts)
    ensures p < |ts| && ts[p] == t
  {
    p :| 0 <= p < |ts| && ts[p] == t;
  }

  /** Frequencies depend only on which trees there are. */
  lemma {:induction false} SameFrequencies(a: seq<Tree>, b: seq<Tree>)
    requires multiset(a) == multiset(b)
    ensures multiset(Frequencies(a)) == multiset(Frequencies(b))
  {
    if a == [] {
      assert |multiset(b)| == 0;
    } else {
      assert a[0] in multiset(b);
      var p := TreeIndex(b, a[0]);
      WithoutMultisets(a, 0);
      WithoutMultisets(b, p);
      assert multiset(Without(a, 0)) == multiset(a) - multiset{a[0]};
      assert multiset(Without(b, p)) == multiset(b) - multiset{a[0]};
      SameFrequencies(Without(a, 0), Without(b, p));
    }
  }

  // ----- What the loop keeps

  /** The trees of ts can still be joined at a total cost of at most goal. */
  ghost predicate CanReach(ts: seq<Tree>, s: Shape, w: seq<int>, goal: int) {
    && Fits(s, w) && multiset(w) == multiset(Frequencies(ts))
    && ProfileCost(s, w) + TotalCost(ts) <= goal
  }

  ghost predicate NoWorse(ts: seq<Tree>, goal: int) {
    exists s, w :: CanReach(ts, s, w, goal)
  }

  /** A forest with the given leaves that can still be joined as cheaply as any tree on them. */
  ghost predicate Growing(ts: seq<Tree>, leaves: multiset<Tree>) {
    && AllLeaves(ts) == leaves
    && (forall t :: t in ts ==> Weighed(t))
    && TotalWeight(ts) < UINT_LIMIT
    && forall t {:trigger Leaves(t)} :: Leaves(t) == leaves ==> NoWorse(ts, Cost(t))
  }

  ghost function LeafSeq(t: Tree): seq<Tree> {
    match t
    case Leaf(_, _) => [t]
    case Node(l, r, _) => LeafSeq(l) + LeafSeq(r)
  }

  lemma {:induction false} LeafSeqIs(t: Tree)
    ensures multiset(LeafSeq(t)) == Leaves(t) && Frequencies(LeafSeq(t)) == LeafWeights(t)
  {
    match t
    case Leaf(_, _) =>
    case Node(l, r, _) =>
      LeafSeqIs(l);
      LeafSeqIs(r);
      FrequenciesConcat(LeafSeq(l), LeafSeq(r));
  }

  lemma {:induction false} LeavesOfLeaves(ts: seq<Tree>)
    requires forall t :: t in ts ==> t.Leaf?
    ensures AllLeaves(ts) == multiset(ts) && TotalCost(ts) == 0
  {
    if ts != [] {
      LeavesOfLeaves(ts[1..]);
      assert ts == [ts[0]] + ts[1..];
    }
  }

  /** At the start every tree on these leaves is itself a way to join them. */
  lemma LeavesCanReach(ts: seq<Tree>, t: Tree)
    requires (forall u :: u in ts ==> u.Leaf?) && Leaves(t) == multiset(ts)
    ensures NoWorse(ts, Cost(t))
  {
    LeavesOfLeaves(ts);
    LeafSeqIs(t);
    SameFrequencies(LeafSeq(t), ts);
    TreeIsProfile(t, 0);
    assert CanReach(ts, ShapeOf(t), LeafWeights(t), Cost(t));
  }

  lemma StartsGrowing(ts: seq<Tree>)
    requires (forall u :: u in ts ==> u.Leaf?) && TotalWeight(ts) < UINT_LIMIT
    ensures Growing(ts, multiset(ts))
  {
    LeavesOfLeaves(ts);
    forall t {:trigger Leaves(t)} | Leaves(t) == multiset(ts)
      ensures NoWorse(ts, Cost(t))
    {
      LeavesCanReach(ts, t);
    }
  }

  /** What depends only on which trees there are. */
  lemma {:induction false} SameTotals(ts: seq<Tree>, us: seq<Tree>)
    requires multiset(ts) == multiset(us)
    ensures TotalCost(ts) == TotalCost(us) && TotalWeight(ts) == TotalWeight(us) && AllLeaves(ts) == AllLeaves(us)
  {
    if ts == [] {
      assert |multiset(us)| == 0;
    } else {
      assert ts[0] in multiset(us);
      var p := TreeIndex(us, ts[0]);
      WithoutMultisets(ts, 0);
      WithoutMultisets(us, p);
      assert multiset(Without(ts, 0)) == multiset(ts) - multiset{ts[0]};
      assert multiset(Without(us, p)) == multiset(us) - multiset{ts[0]};
      hide TotalCost, TotalWeight, AllLeaves;
      SameTotals(Without(ts, 0), Without(us, p));
      WithoutTotals(ts, 0);
      WithoutTotals(us, p);
    }
  }

  /** Joining a and b, the lightest: the first to come out of the heap, a, goes to the right. */
  ghost function Join(a: Tree, b: Tree): Tree {
    Node(b, a, a.frequency + b.frequency)
  }

  lemma JoinedTotals(a: Tree, b: Tree, rest: seq<Tree>)
    ensures TotalCost([Join(a, b)] + rest) == TotalCost([a, b] + rest) + Weight(a) + Weight(b)
    ensures TotalWeight([Join(a, b)] + rest) == TotalWeight([a, b] + rest) >= Weight(a) + Weight(b)
    ensures AllLeaves([Join(a, b)] + rest) == AllLeaves([a, b] + rest)
  {
    var n := Join(a, b);
    JoinCost(b, a, a.frequency + b.frequency);
    assert Weight(n) == Weight(b) + Weight(a) && Leaves(n) == Leaves(b) + Leaves(a);
    assert [a, b] + rest == [a] + ([b] + rest);
    SingleTotals(a);
    SingleTotals(b);
    SingleTotals(n);
    hide TotalCost, TotalWeight, AllLeaves, Weight, Leaves, Cost;
    ConcatTotals([n], rest);
    ConcatTotals([a], [b] + rest);
    ConcatTotals([b], rest);
  }

  /** a is a lightest tree, and b a lightest of the others. */
  ghost predicate LightestPair(a: Tree, b: Tree, rest: seq<Tree>) {
    a.frequency <= b.frequency && forall k :: 0 <= k < |rest| ==> b.frequency <= rest[k].frequency
  }

  lemma JoinReach(a: Tree, b: Tree, rest: seq<Tree>, s: Shape, w: seq<int>, goal: int) returns (t: Shape, v: seq<int>)
    requires LightestPair(a, b, rest) && CanReach([a, b] + rest, s, w, goal)
    requires Weighed(a) && Weighed(b)
    ensures CanReach([Join(a, b)] + rest, t, v, goal)
  {
    var x, y, r := a.frequency, b.frequency, Frequencies(rest);
    assert Frequencies([a, b] + rest) == [x, y] + r;
    assert Frequencies([Join(a, b)] + rest) == [x + y] + r;
    JoinedTotals(a, b, rest);
    hide Frequencies, TotalCost, ProfileCost, Fits;
    t, v := JoinLightest(s, w, x, y, r);
  }

  lemma JoinKeepsReach(a: Tree, b: Tree, rest: seq<Tree>, goal: int)
    requires LightestPair(a, b, rest) && NoWorse([a, b] + rest, goal)
    requires Weighed(a) && Weighed(b)
    ensures NoWorse([Join(a, b)] + rest, goal)
  {
    var s, w :| CanReach([a, b] + rest, s, w, goal);
    var t, v := JoinReach(a, b, rest, s, w, goal);
  }

  lemma JoinKeepsWeighed(a: Tree, b: Tree, rest: seq<Tree>)
    requires forall t :: t in [a, b] + rest ==> Weighed(t)
    ensures Weighed(a) && Weighed(b) && forall t :: t in [Join(a, b)] + rest ==> Weighed(t)
  {
    var ts := [a, b] + rest;
    assert ts[0] == a && ts[1] == b && forall k :: 0 <= k < |rest| ==> ts[k + 2] == rest[k];
    assert forall t :: t in rest ==> t in ts;
  }

  lemma JoinKeepsGrowing(a: Tree, b: Tree, rest: seq<Tree>, leaves: multiset<Tree>)
    requires Growing([a, b] + rest, leaves) && LightestPair(a, b, rest)
    ensures Growing([Join(a, b)] + rest, leaves) && a.frequency + b.frequency < UINT_LIMIT
  {
    JoinKeepsWeighed(a, b, rest);
    assert a.frequency + b.frequency == Weight(a) + Weight(b);
    hide LightestPair, TotalWeight, AllLeaves, NoWorse, Weighed, Join;
    JoinedTotals(a, b, rest);
    forall t {:trigger Leaves(t)} | Leaves(t) == leaves
      ensures NoWorse([Join(a, b)] + rest, Cost(t))
    {
      JoinKeepsReach(a, b, rest, Cost(t));
    }
  }

  /** Growing depends only on which trees there are. */
  lemma SameGrowing(ts: seq<Tree>, us: seq<Tree>, leaves: multiset<Tree>)
    requires Growing(ts, leaves) && multiset(ts) == multiset(us)
    ensures Growing(us, leaves)
  {
    SameTotals(ts, us);
    SameFrequencies(ts, us);
    forall t | t in us
      ensures Weighed(t)
    {
      assert t in multiset(us);
    }
    forall t {:trigger Leaves(t)} | Leaves(t) == leaves
      ensures NoWorse(us, Cost(t))
    {
      var s, w :| CanReach(ts, s, w, Cost(t));
      assert CanReach(us, s, w, Cost(t));
    }
  }

  /** When one tree is left, no tree on the same leaves is cheaper. */
  lemma LastIsCheapest(root: Tree, leaves: multiset<Tree>, t: Tree)
    requires Growing([root], leaves) && Leaves(t) == leaves
    ensures Cost(root) <= Cost(t)
  {
    SingleTotals(root);
    var s, w :| CanReach([root], s, w, Cost(t));
    assert Frequencies([root]) == [root.frequency];
    assert |multiset(w)| == |w| == 1;
    assert w[0] in multiset(w);
    SumNonNegative(Products(w, Depths(s, 0)));
  }

  // ----- The loop

  /** No binary tree on the same leaves has a smaller frequency-weighted depth. */
  ghost predicate Optimal(t: Tree) {
    forall u {:trigger Leaves(u)} :: Leaves(u) == Leaves(t) ==> Cost(t) <= Cost(u)
  }

  /**
    Joins the trees of the heap, the two lightest first. The sum of two
    unsigned frequencies is kept modulo 2^32, as in the program; it does not
    wrap, and the tree is optimal, when all the frequencies together fit.
   */
  method BuildHuffmanTree(heap: Heap, ghost ts: seq<Tree>) returns (r: Option<Tree>)
    requires heap.Valid() && heap.Contents() == multiset(ts) && forall u :: u in ts ==> u.Leaf?
    modifies heap
    ensures r.None? <==> ts == []
    ensures r.Some? ==> Leaves(r.value) == multiset(ts)
    ensures r.Some? && TotalWeight(ts) < UINT_LIMIT ==> Weighed(r.value) && Optimal(r.value)
  {
    ghost var fits := TotalWeight(ts) < UINT_LIMIT;
    LeavesOfLeaves(ts);
    if fits {
      StartsGrowing(ts);
    }
    ghost var forest, leaves := ts, multiset(ts);
    SizeIsCount(heap);
    assert |multiset(ts)| == |ts|;
    while heap.size > 1
      invariant heap.Valid() && heap.Contents() == multiset(forest) && heap.size == |forest|
      invariant AllLeaves(forest) == leaves && (fits ==> Growing(forest, leaves))
      invariant forest == [] <==> ts == []
      decreases heap.size
    {
      forest := JoinTwo(heap, forest, leaves, fits);
    }
    if |forest| == 1 {
      assert forest == [forest[0]] && forest[0] in forest;
      SingleTotals(forest[0]);
      if fits {
        FinalTree(forest[0], leaves);
      }
    }
    r := heap.DeleteMin();
    assert r.Some? ==> r.value in multiset(forest);
  }

  lemma FinalTree(root: Tree, leaves: multiset<Tree>)
    requires Growing([root], leaves)
    ensures Leaves(root) == leaves && Weighed(root) && Optimal(root)
  {
    assert root in [root];
    SingleTotals(root);
    hide NoWorse, AllLeaves, Weighed;
    forall u {:trigger Leaves(u)} | Leaves(u) == Leaves(root)
      ensures Cost(root) <= Cost(u)
    {
      LastIsCheapest(root, leaves, u);
    }
  }

  lemma SizeIsCount(heap: Heap)
    requires heap.Valid()
    ensures |heap.Contents()| == heap.size
  {
  }

  lemma {:induction false} Enumerate(m: multiset<Tree>) returns (ts: seq<Tree>)
    ensures multiset(ts) == m
    decreases |m|
  {
    if |m| == 0 {
      ts := [];
    } else {
      var t :| t in m;
      ts := Enumerate(m - multiset{t});
      ts := [t] + ts;
    }
  }

  /** One join, seen from outside the heap: c is left when a and then b have been taken out. */
  lemma JoinStep(ts: seq<Tree>, leaves: multiset<Tree>, a: Tree, b: Tree, c: multiset<Tree>) returns (us: seq<Tree>)
    requires Growing(ts, leaves) && multiset(ts) == c + multiset{b} + multiset{a}
    requires a.frequency <= b.frequency && forall t :: t in c ==> b.frequency <= t.frequency
    ensures multiset(us) == c + multiset{Join(a, b)} && |us| == |ts| - 1
    ensures Growing(us, leaves) && a.frequency + b.frequency < UINT_LIMIT
  {
    var rest := Enumerate(c);
    assert forall k :: 0 <= k < |rest| ==> rest[k] in c;
    assert multiset(ts) == multiset([a, b] + rest);
    assert |multiset(ts)| == |ts| && |multiset([a, b] + rest)| == |rest| + 2;
    hide Growing, LightestPair;
    us := [Join(a, b)] + rest;
    SameGrowing(ts, [a, b] + rest, leaves);
    JoinKeepsGrowing(a, b, rest, leaves);
  }

  lemma TheOthers(ts: seq<Tree>, a: Tree, b: Tree, c: multiset<Tree>) returns (rest: seq<Tree>)
    requires multiset(ts) == c + multiset{b} + multiset{a}
    ensures multiset(rest) == c && multiset([a, b] + rest) == multiset(ts) && |rest| + 2 == |ts|
  {
    rest := Enumerate(c);
    assert multiset([a, b] + rest) == multiset{a, b} + multiset(rest);
    assert |multiset(ts)| == |ts| && |multiset([a, b] + rest)| == |rest| + 2;
  }

  /** Whatever the sum wraps to, no leaf is lost. */
  lemma JoinKeepsLeaves(a: Tree, b: Tree, rest: seq<Tree>, f: nat)
    ensures AllLeaves([Node(b, a, f)] + rest) == AllLeaves([a, b] + rest)
  {
    var n := Node(b, a, f);
    assert Leaves(n) == Leaves(b) + Leaves(a);
    assert [a, b] + rest == [a] + ([b] + rest);
    SingleTotals(a);
    SingleTotals(b);
    SingleTotals(n);
    hide TotalCost, TotalWeight, AllLeaves, Weight, Leaves, Cost;
    ConcatTotals([n], rest);
    ConcatTotals([a], [b] + rest);
    ConcatTotals([b], rest);
  }

  lemma OneMore(n: Tree, rest: seq<Tree>, c: multiset<Tree>)
    requires multiset(rest) == c
    ensures multiset([n] + rest) == c + multiset{n} && |[n] + rest| == |rest| + 1
  {
  }

  /** Which of the trees there are does not matter for what has grown. */
  lemma JoinOne(ts: seq<Tree>, leaves: multiset<Tree>, a: Tree, b: Tree, c: multiset<Tree>, fits: bool) returns (us: seq<Tree>)
    requires multiset(ts) == c + multiset{b} + multiset{a} && AllLeaves(ts) == leaves
    requires a.frequency <= b.frequency && forall t :: t in c ==> b.frequency <= t.frequency
    requires fits ==> Growing(ts, leaves)
    ensures multiset(us) == c + multiset{Node(b, a, (a.frequency + b.frequency) % UINT_LIMIT)} && |us| == |ts| - 1
    ensures AllLeaves(us) == leaves && (fits ==> Growing(us, leaves))
  {
    hide Growing, AllLeaves, TotalCost, TotalWeight;
    var n := Node(b, a, (a.frequency + b.frequency) % UINT_LIMIT);
    var rest := TheOthers(ts, a, b, c);
    us := [n] + rest;
    OneMore(n, rest, c);
    SameTotals(ts, [a, b] + rest);
    JoinKeepsLeaves(a, b, rest, n.frequency);
    if fits {
      var vs := JoinStep(ts, leaves, a, b, c);
      SameGrowing(vs, us, leaves);
    }
  }

  method JoinTwo(heap: Heap, ghost ts: seq<Tree>, ghost leaves: multiset<Tree>, ghost fits: bool) returns (ghost us: seq<Tree>)
    requires heap.Valid() && heap.Contents() == multiset(ts) && heap.size == |ts| > 1
    requires AllLeaves(ts) == leaves && (fits ==> Growing(ts, leaves))
    modifies heap
    ensures heap.Valid() && heap.Contents() == multiset(us) && heap.size == |us| == |ts| - 1
    ensures AllLeaves(us) == leaves && (fits ==> Growing(us, leaves))
  {
    hide Growing, AllLeaves, Heap.Valid, Heap.Contents;
    var a := heap.DeleteMin();
    var b := heap.DeleteMin();
    us := JoinOne(ts, leaves, a.value, b.value, heap.Contents(), fits);
    var dummy := Node(b.value, a.value, (a.value.frequency + b.value.frequency) % UINT_LIMIT);
    heap.Insert(dummy);
  }
}
