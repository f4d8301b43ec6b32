/** The wiring program's vertices and edges, and its union-find (algorithms/Wiring/DisjointSet.java). */
module DisjointSets {

  datatype Vertex =
    | BreakerBox(name: string)
    | JunctionBox(name: string)
    | ElectricalOutlet(name: string)
    | Switch(name: string)
    | Light(name: string, behindSwitch: string)

  datatype Edge = Edge(v1: Vertex, v2: Vertex, cost: int)

  // ----- Parent and rank arrays as values

  /**
    root[i] is where the parent links from i lead: it is fixed exactly at the
    roots, shared along every link, and ranks strictly increase towards it.
   */
  ghost predicate Rooted(parents: seq<int>, rank: seq<int>, root: seq<int>, maxRank: int) {
    && |parents| == |rank| == |root|
    && (forall i {:trigger parents[i]} {:trigger RootedAt(parents, rank, root, maxRank, i)} :: 0 <= i < |parents| ==> RootedAt(parents, rank, root, maxRank, i))
    && (forall i {:trigger root[i]} :: 0 <= i < |parents| ==> 0 <= root[i] < |parents| && root[root[i]] == root[i])
  }

  ghost predicate RootedAt(parents: seq<int>, rank: seq<int>, root: seq<int>, maxRank: int, i: int)
    requires |parents| == |rank| == |root| && 0 <= i < |parents|
  {
    && 0 <= parents[i] < |parents| && 0 <= root[i] < |parents|
    && rank[i] <= maxRank
    && (parents[i] != i ==> rank[i] < rank[parents[i]])
    && (parents[i] == i <==> root[i] == i)
    && root[parents[i]] == root[i]
  }

  lemma {:induction false} RankBelowRoot(parents: seq<int>, rank: seq<int>, root: seq<int>, maxRank: int, i: int)
    requires Rooted(parents, rank, root, maxRank) && 0 <= i < |parents|
    ensures rank[i] <= rank[root[i]]
    ensures parents[i] != i ==> rank[i] < rank[root[i]]
    decreases maxRank - rank[i]
  {
    if parents[i] != i {
      RankBelowRoot(parents, rank, root, maxRank, parents[i]);
    }
  }

  /** Path compression redirects i to its root without moving any root. */
  lemma Compressed(parents: seq<int>, rank: seq<int>, root: seq<int>, maxRank: int, i: int)
    requires Rooted(parents, rank, root, maxRank) && 0 <= i < |parents| && parents[i] != i
    ensures Rooted(parents[i := root[i]], rank, root, maxRank)
  {
    RankBelowRoot(parents, rank, root, maxRank, i);
    var p := parents[i := root[i]];
    forall k {:trigger RootedAt(p, rank, root, maxRank, k)} | 0 <= k < |p|
      ensures RootedAt(p, rank, root, maxRank, k)
    {
      assert RootedAt(parents, rank, root, maxRank, k) && RootedAt(parents, rank, root, maxRank, i);
      assert root[root[i]] == root[i];
    }
  }

  ghost function Relabelled(root: seq<int>, a: int, b: int): (r: seq<int>)
    ensures |r| == |root|
    ensures forall i :: 0 <= i < |root| ==> r[i] == if root[i] == a then b else root[i]
  {
    seq(|root|, i requires 0 <= i < |root| => if root[i] == a then b else root[i])
  }

  /** Hanging root a under root b merges their trees, provided b's rank ends above a's. */
  lemma Linked(parents: seq<int>, rank: seq<int>, root: seq<int>, maxRank: int, a: int, b: int, newRank: int)
    requires Rooted(parents, rank, root, maxRank) && 0 <= a < |parents| && 0 <= b < |parents| && a != b
    requires root[a] == a && root[b] == b
    requires rank[b] <= newRank && rank[a] < newRank <= maxRank + 1
    ensures Rooted(parents[a := b], rank[b := newRank], Relabelled(root, a, b), maxRank + 1)
  {
    var p, r, t := parents[a := b], rank[b := newRank], Relabelled(root, a, b);
    forall k {:trigger RootedAt(p, r, t, maxRank + 1, k)} | 0 <= k < |p|
      ensures RootedAt(p, r, t, maxRank + 1, k)
    {
      assert RootedAt(parents, rank, root, maxRank, k) && RootedAt(parents, rank, root, maxRank, b);
    }
  }

  // ----- The partition as a map from vertices to representatives

  type Partition = map<Vertex, Vertex>

  ghost predicate IsPartition(p: Partition) {
    forall v {:trigger p[v]} :: v in p ==> p[v] in p && p[p[v]] == p[v]
  }

  /** The class of a gets the representative r. */
  ghost function Merged(p: Partition, a: Vertex, r: Vertex): (q: Partition)
    requires a in p
    ensures q.Keys == p.Keys
  {
    map v | v in p :: if p[v] == p[a] then r else p[v]
  }

  /** forward and backward are inverse to each other, between 0..n-1 and the vertices. */
  ghost predicate Translates(forward: map<int, Vertex>, backward: map<Vertex, int>, n: nat) {
    && (forall i :: i in forward <==> 0 <= i < n)
    && (forall i {:trigger forward[i]} :: 0 <= i < n ==> forward[i] in backward && backward[forward[i]] == i)
    && (forall v {:trigger backward[v]} :: v in backward ==> 0 <= backward[v] < n && forward[backward[v]] == v)
  }

  ghost predicate InRange(root: seq<int>) {
    forall i :: 0 <= i < |root| ==> 0 <= root[i] < |root|
  }

  /** p is the partition the roots stand for. */
  ghost predicate Represents(p: Partition, forward: map<int, Vertex>, backward: map<Vertex, int>, root: seq<int>) {
    && Translates(forward, backward, |root|) && InRange(root)
    && p.Keys == backward.Keys
    && (forall v {:trigger p[v]} :: v in backward ==> p[v] == forward[root[backward[v]]])
  }

  lemma ForwardInjective(forward: map<int, Vertex>, backward: map<Vertex, int>, n: nat, i: int, j: int)
    requires Translates(forward, backward, n) && 0 <= i < n && 0 <= j < n
    ensures forward[i] == forward[j] ==> i == j
  {
    assert backward[forward[i]] == i && backward[forward[j]] == j;
  }

  lemma RelabelledClass(p: Partition, forward: map<int, Vertex>, backward: map<Vertex, int>, root: seq<int>, v1: Vertex, v2: Vertex, v: Vertex)
    requires Represents(p, forward, backward, root) && v1 in backward && v2 in backward && v in backward
    ensures Merged(p, v1, p[v2])[v] == forward[Relabelled(root, root[backward[v1]], root[backward[v2]])[backward[v]]]
  {
    assert p[v] == forward[root[backward[v]]] && p[v1] == forward[root[backward[v1]]] && p[v2] == forward[root[backward[v2]]];
    ForwardInjective(forward, backward, |root|, root[backward[v]], root[backward[v1]]);
  }

  lemma RelabelledInRange(root: seq<int>, a: int, b: int)
    requires InRange(root) && 0 <= b < |root|
    ensures InRange(Relabelled(root, a, b))
  {
  }

  lemma RelabelledPointwise(p: Partition, forward: map<int, Vertex>, backward: map<Vertex, int>, root: seq<int>, v1: Vertex, v2: Vertex)
    requires Represents(p, forward, backward, root) && v1 in backward && v2 in backward
    ensures forall v {:trigger Merged(p, v1, p[v2])[v]} :: v in backward ==>
      Merged(p, v1, p[v2])[v] == forward[Relabelled(root, root[backward[v1]], root[backward[v2]])[backward[v]]]
  {
    hide Merged, Relabelled;
    forall v {:trigger Merged(p, v1, p[v2])[v]} | v in backward
      ensures Merged(p, v1, p[v2])[v] == forward[Relabelled(root, root[backward[v1]], root[backward[v2]])[backward[v]]]
    {
      RelabelledClass(p, forward, backward, root, v1, v2, v);
    }
  }

  /** Relabelling one root to another is merging the classes they represent. */
  lemma RelabelledClasses(p: Partition, forward: map<int, Vertex>, backward: map<Vertex, int>, root: seq<int>, v1: Vertex, v2: Vertex)
    requires Represents(p, forward, backward, root) && v1 in backward && v2 in backward
    ensures Represents(Merged(p, v1, p[v2]), forward, backward, Relabelled(root, root[backward[v1]], root[backward[v2]]))
  {
    RelabelledInRange(root, root[backward[v1]], root[backward[v2]]);
    RelabelledPointwise(p, forward, backward, root, v1, v2);
  }

  lemma MergedAlready(p: Partition, a: Vertex, b: Vertex)
    requires a in p && b in p && p[a] == p[b]
    ensures Merged(p, a, p[b]) == p
  {
  }

  class DisjointSet {
    const parents: array<int>
    const rank: array<int>
    const forward: map<int, Vertex>
    const backward: map<Vertex, int>
    ghost var root: seq<int>
    ghost var maxRank: int
    ghost var classes: Partition

    ghost predicate Valid()
      reads this, parents, rank
    {
      && parents != rank
      && Rooted(parents[..], rank[..], root, maxRank)
      && Represents(classes, forward, backward, root)
    }

    lemma ClassesArePartition()
      requires Valid()
      ensures IsPartition(classes)
    {
      forall v {:trigger classes[v]} | v in classes
        ensures classes[v] in classes && classes[classes[v]] == classes[v]
      {
        var r := root[backward[v]];
        assert parents[r] == parents[..][r];
        assert backward[forward[r]] == r && root[r] == r;
      }
    }

    /** MakeSet for every vertex. */
    constructor (vertices: set<Vertex>)
      ensures Valid() && fresh(parents) && fresh(rank)
      ensures classes == map v | v in vertices :: v
    {
      parents := new int[|vertices|](i => i);
      rank := new int[|vertices|](i => 0);
      root := seq(|vertices|, i => i);
      maxRank := 0;
      var to, from := Numbered(vertices);
      forward, backward := to, from;
      classes := map v | v in vertices :: v;
      new;
      assert parents[..] == root;
    }

    /** The constructor's loop over the vertices. */
    static method Numbered(vertices: set<Vertex>) returns (to: map<int, Vertex>, from: map<Vertex, int>)
      ensures Translates(to, from, |vertices|) && from.Keys == vertices
    {
      var rest := vertices;
      to, from := map[], map[];
      var i := 0;
      while rest != {}
        invariant rest <= vertices && i + |rest| == |vertices|
        invariant from.Keys == vertices - rest
        invariant Translates(to, from, i)
        decreases rest
      {
        var v :| v in rest;
        to := to[i := v];
        from := from[v := i];
        rest := rest - {v};
        i := i + 1;
      }
    }

    method FindSet(v: Vertex) returns (r: Vertex)
      requires Valid() && v in backward
      modifies parents
      ensures Valid() && r == classes[v]
      ensures r in backward && backward[r] == root[backward[v]] && root[backward[r]] == backward[r]
      decreases maxRank - rank[backward[v]]
    {
      var i := backward[v];
      if i == parents[i] {
        r := forward[i];
      } else {
        var above := FindSet(forward[parents[i]]);
        var belongsTo := backward[above];
        ghost var before := parents[..];
        parents[i] := belongsTo;
        assert parents[..] == before[i := belongsTo];
        Compressed(before, rank[..], root, maxRank, i);
        r := forward[belongsTo];
      }
    }

    /** Hangs root a under root b, whose rank becomes newRank. */
    method Hang(a: int, b: int, newRank: int, ghost merged: Partition)
      requires parents != rank && Rooted(parents[..], rank[..], root, maxRank)
      requires 0 <= a < |root| && 0 <= b < |root| && a != b && root[a] == a && root[b] == b
      requires rank[b] <= newRank <= rank[b] + 1 && rank[a] < newRank
      requires Represents(merged, forward, backward, Relabelled(root, a, b))
      modifies this`root, this`maxRank, this`classes, parents, rank
      ensures Valid() && classes == merged
      ensures parents[..] == old(parents[..])[a := b] && rank[..] == old(rank[..])[b := newRank]
    {
      ghost var before, ranks := parents[..], rank[..];
      assert before[b] == parents[b];
      Linked(before, ranks, root, maxRank, a, b, newRank);
      parents[a] := b;
      rank[b] := newRank;
      root, maxRank, classes := Relabelled(root, a, b), maxRank + 1, merged;
      assert parents[..] == before[a := b] && rank[..] == ranks[b := newRank];
    }

    /** Links two different roots by rank. */
    method Link(iSet: int, jSet: int, ghost v1: Vertex, ghost v2: Vertex)
      requires Valid() && v1 in backward && v2 in backward
      requires iSet == root[backward[v1]] && jSet == root[backward[v2]] && iSet != jSet
      requires root[iSet] == iSet && root[jSet] == jSet
      modifies this`root, this`maxRank, this`classes, parents, rank
      ensures Valid()
      ensures classes == Merged(old(classes), v1, old(classes)[v2]) || classes == Merged(old(classes), v2, old(classes)[v1])
    {
      var iRank, jRank := rank[iSet], rank[jSet];
      if iRank > jRank {
        RelabelledClasses(classes, forward, backward, root, v2, v1);
        Hang(jSet, iSet, iRank, Merged(classes, v2, classes[v1]));
      } else {
        RelabelledClasses(classes, forward, backward, root, v1, v2);
        Hang(iSet, jSet, if iRank < jRank then jRank else jRank + 1, Merged(classes, v1, classes[v2]));
      }
    }

    /** Merges the two classes, under the representative of one of them. */
    method UnionSets(v1: Vertex, v2: Vertex)
      requires Valid() && v1 in backward && v2 in backward
      modifies this`root, this`maxRank, this`classes, parents, rank
      ensures Valid()
      ensures classes == Merged(old(classes), v1, old(classes)[v2]) || classes == Merged(old(classes), v2, old(classes)[v1])
    {
      var r1 := FindSet(v1);
      var r2 := FindSet(v2);
      var iSet, jSet := backward[r1], backward[r2];
      if iSet == jSet {
        assert classes[v1] == classes[v2];
        MergedAlready(classes, v1, v2);
      } else {
        Link(iSet, jSet, v1, v2);
      }
    }

    method EquivalentSets(v1: Vertex, v2: Vertex) returns (same: bool)
      requires Valid() && v1 in backward && v2 in backward
      modifies parents
      ensures Valid()
      ensures same <==> classes[v1] == classes[v2]
    {
      var r1 := FindSet(v1);
      var r2 := FindSet(v2);
      same := backward[r1] == backward[r2];
    }
  }
}
