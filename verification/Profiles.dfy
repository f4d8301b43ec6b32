/**
  Tree shapes with weights at their tips: the combinatorial core of Huffman
  optimality, that the two lightest weights can be joined first.
 */
module Profiles {
  import opened Sums
  import opened HuffmanTrees

  datatype Shape = Tip | Fork(l: Shape, r: Shape)

  /** The depths of the tips from left to right, with the root at depth d. */
  ghost function Depths(s: Shape, d: nat): (ds: seq<nat>)
    ensures |ds| >= 1
    ensures s.Fork? ==> |ds| >= 2
  {
    match s
    case Tip => [d]
    case Fork(l, r) => Depths(l, d + 1) + Depths(r, d + 1)
  }

  ghost function Height(s: Shape): nat {
    match s
    case Tip => 0
    case Fork(l, r) => 1 + if Height(l) >= Height(r) then Height(l) else Height(r)
  }

  ghost function Products(w: seq<int>, ds: seq<nat>): (p: seq<int>)
    requires |w| == |ds|
    ensures |p| == |w| && forall i :: 0 <= i < |w| ==> p[i] == w[i] * ds[i]
  {
    seq(|w|, i requires 0 <= i < |w| => w[i] * ds[i])
  }

  ghost function Total(w: seq<int>, ds: seq<nat>): int
    requires |w| == |ds|
  {
    Sum(Products(w, ds))
  }

  /** A weight for each tip of the shape, and what they cost. */
  ghost predicate Fits(s: Shape, w: seq<int>) { |w| == |Depths(s, 0)| }

  ghost function ProfileCost(s: Shape, w: seq<int>): int
    requires Fits(s, w)
  {
    Total(w, Depths(s, 0))
  }

  // ----- The deepest pair of siblings

  lemma {:induction false} DepthsBelowHeight(s: Shape, d: nat)
    ensures forall k :: 0 <= k < |Depths(s, d)| ==> Depths(s, d)[k] <= d + Height(s)
  {
    if s.Fork? {
      DepthsBelowHeight(s.l, d + 1);
      DepthsBelowHeight(s.r, d + 1);
    }
  }

  /** ds has two neighbours m between a and b; dt has m-1 in their place. */
  ghost predicate PairIn(ds: seq<nat>, dt: seq<nat>, a: seq<nat>, b: seq<nat>, m: nat) {
    m > 0 && ds == a + [m, m] + b && dt == a + [m - 1] + b
  }

  lemma PairInLeft(ds: seq<nat>, dt: seq<nat>, a: seq<nat>, b: seq<nat>, m: nat, e: seq<nat>)
    requires PairIn(ds, dt, a, b, m)
    ensures PairIn(ds + e, dt + e, a, b + e, m)
  {
    assert a + [m, m] + b + e == a + [m, m] + (b + e);
    assert a + [m - 1] + b + e == a + [m - 1] + (b + e);
  }

  lemma PairInRight(ds: seq<nat>, dt: seq<nat>, a: seq<nat>, b: seq<nat>, m: nat, e: seq<nat>)
    requires PairIn(ds, dt, a, b, m)
    ensures PairIn(e + ds, e + dt, e + a, b, m)
  {
    assert e + (a + [m, m] + b) == (e + a) + [m, m] + b;
    assert e + (a + [m - 1] + b) == (e + a) + [m - 1] + b;
  }

  /** Two sibling tips of the greatest depth between a and b, and the shape t with their fork made a tip. */
  ghost predicate DeepestPair(s: Shape, d: nat, a: seq<nat>, b: seq<nat>, t: Shape) {
    PairIn(Depths(s, d), Depths(t, d), a, b, d + Height(s))
  }

  lemma PairOnLeft(l: Shape, r: Shape, d: nat, a: seq<nat>, b: seq<nat>, t: Shape)
    requires DeepestPair(l, d + 1, a, b, t) && Height(l) >= Height(r)
    ensures DeepestPair(Fork(l, r), d, a, b + Depths(r, d + 1), Fork(t, r))
  {
    var dl, dr, dt := Depths(l, d + 1), Depths(r, d + 1), Depths(t, d + 1);
    assert Depths(Fork(l, r), d) == dl + dr && Depths(Fork(t, r), d) == dt + dr && Height(Fork(l, r)) == 1 + Height(l);
    hide PairIn, Depths, Height;
    PairInLeft(dl, dt, a, b, d + 1 + Height(l), dr);
  }

  lemma PairOnRight(l: Shape, r: Shape, d: nat, a: seq<nat>, b: seq<nat>, t: Shape)
    requires DeepestPair(r, d + 1, a, b, t) && Height(l) < Height(r)
    ensures DeepestPair(Fork(l, r), d, Depths(l, d + 1) + a, b, Fork(l, t))
  {
    var dl, dr, dt := Depths(l, d + 1), Depths(r, d + 1), Depths(t, d + 1);
    assert Depths(Fork(l, r), d) == dl + dr && Depths(Fork(l, t), d) == dl + dt && Height(Fork(l, r)) == 1 + Height(r);
    hide PairIn, Depths, Height;
    PairInRight(dr, dt, a, b, d + 1 + Height(r), dl);
  }

  lemma TwoTips(d: nat)
    ensures DeepestPair(Fork(Tip, Tip), d, [], [], Tip)
  {
    assert Depths(Fork(Tip, Tip), d) == [d + 1, d + 1];
  }

  lemma {:induction false} FindDeepestPair(s: Shape, d: nat) returns (a: seq<nat>, b: seq<nat>, t: Shape)
    requires s.Fork?
    ensures DeepestPair(s, d, a, b, t)
  {
    hide DeepestPair, PairIn, Depths;
    if s.l.Tip? && s.r.Tip? {
      TwoTips(d);
      a, b, t := [], [], Tip;
    } else if Height(s.l) >= Height(s.r) {
      a, b, t := FindDeepestPair(s.l, d + 1);
      PairOnLeft(s.l, s.r, d, a, b, t);
      b, t := b + Depths(s.r, d + 1), Fork(t, s.r);
    } else {
      a, b, t := FindDeepestPair(s.r, d + 1);
      PairOnRight(s.l, s.r, d, a, b, t);
      a, t := Depths(s.l, d + 1) + a, Fork(s.l, t);
    }
  }

  // ----- Swapping weights

  ghost function Swapped(w: seq<int>, i: nat, j: nat): (v: seq<int>)
    requires i < |w| && j < |w|
    ensures |v| == |w| && multiset(v) == multiset(w)
  {
    w[i := w[j]][j := w[i]]
  }

  /** Moving the lighter weight to the deeper tip costs nothing. */
  lemma SwapTotal(w: seq<int>, ds: seq<nat>, i: nat, j: nat)
    requires |w| == |ds| && i < |w| && j < |w| && ds[j] <= ds[i] && w[j] <= w[i]
    ensures Total(Swapped(w, i, j), ds) <= Total(w, ds)
  {
    var p := Products(w, ds);
    var v := Swapped(w, i, j);
    if i == j {
      assert v == w;
    } else {
      SumUpdate(p, i, w[j] * ds[i]);
      SumUpdate(p[i := w[j] * ds[i]], j, w[i] * ds[j]);
      assert Products(v, ds) == p[i := w[j] * ds[i]][j := w[i] * ds[j]];
      SwapProducts(w[i], w[j], ds[i], ds[j]);
    }
  }

  lemma SwapProducts(a: int, b: int, x: int, y: int)
    requires b <= a && y <= x
    ensures b * x + a * y <= a * x + b * y
  {
    assert (a - b) * (x - y) >= 0;
    assert (a - b) * (x - y) == a * x + b * y - (b * x + a * y);
  }

  lemma ProductsConcat(w: seq<int>, ds: seq<nat>, v: seq<int>, es: seq<nat>)
    requires |w| == |ds| && |v| == |es|
    ensures Total(w + v, ds + es) == Total(w, ds) + Total(v, es)
  {
    assert Products(w + v, ds + es) == Products(w, ds) + Products(v, es);
    SumConcat(Products(w, ds), Products(v, es));
  }

  lemma PairTotal(x: int, y: int, m: nat)
    requires m > 0
    ensures Total([x, y], [m, m]) == Total([x + y], [m - 1]) + x + y
  {
    assert Products([x, y], [m, m]) == [x * m, y * m] && Products([x + y], [m - 1]) == [(x + y) * (m - 1)];
    SumPair(x * m, y * m);
    SumSingle((x + y) * (m - 1));
    assert (x + y) * (m - 1) == x * m + y * m - x - y;
  }

  /** Two adjacent tips of one depth become one a level up with their weights added. */
  lemma MergeTotal(wa: seq<int>, x: int, y: int, wb: seq<int>, a: seq<nat>, m: nat, b: seq<nat>)
    requires |wa| == |a| && |wb| == |b| && m > 0
    ensures Total(wa + [x, y] + wb, a + [m, m] + b) == Total(wa + [x + y] + wb, a + [m - 1] + b) + x + y
  {
    ProductsConcat(wa + [x, y], a + [m, m], wb, b);
    ProductsConcat(wa, a, [x, y], [m, m]);
    ProductsConcat(wa + [x + y], a + [m - 1], wb, b);
    ProductsConcat(wa, a, [x + y], [m - 1]);
    PairTotal(x, y, m);
  }

  // ----- Joining the two lightest weights first

  ghost predicate TwoLightest(m: multiset<int>, x: int, y: int) {
    && x in m && y in m - multiset{x}
    && (forall z :: z in m ==> x <= z)
    && (forall z :: z in m - multiset{x} ==> y <= z)
  }

  lemma IndexOf(w: seq<int>, x: int) returns (p: nat)
    requires x in multiset(w)
    ensures p < |w| && w[p] == x
  {
    p :| 0 <= p < |w| && w[p] == x;
  }

  lemma IndexOfOther(w: seq<int>, i: nat, y: int) returns (q: nat)
    requires i < |w| && y in multiset(w) - multiset{w[i]}
    ensures q < |w| && q != i && w[q] == y
  {
    var rest := w[..i] + w[i + 1..];
    assert w == w[..i] + [w[i]] + w[i + 1..];
    assert multiset(rest) == multiset(w) - multiset{w[i]};
    var p := IndexOf(rest, y);
    q := if p < i then p else p + 1;
  }

  /** The lightest weights can be brought to any two tips of greatest depth. */
  lemma BringDown(w: seq<int>, ds: seq<nat>, i: nat, x: int, y: int) returns (v: seq<int>)
    requires |w| == |ds| && i + 1 < |w| && TwoLightest(multiset(w), x, y)
    requires forall k :: 0 <= k < |ds| ==> ds[k] <= ds[i] && ds[k] <= ds[i + 1]
    ensures |v| == |w| && multiset(v) == multiset(w) && v[i] == x && v[i + 1] == y
    ensures Total(v, ds) <= Total(w, ds)
  {
    hide Total;
    var u := BringOne(w, ds, i, x);
    OtherIsInRest(u, i, i + 1);
    var q := IndexOfOther(u, i, y);
    SwapTotal(u, ds, i + 1, q);
    v := Swapped(u, i + 1, q);
  }

  lemma BringOne(w: seq<int>, ds: seq<nat>, i: nat, x: int) returns (v: seq<int>)
    requires |w| == |ds| && i < |w| && x in multiset(w) && forall z :: z in multiset(w) ==> x <= z
    requires forall k :: 0 <= k < |ds| ==> ds[k] <= ds[i]
    ensures |v| == |w| && multiset(v) == multiset(w) && v[i] == x
    ensures Total(v, ds) <= Total(w, ds)
  {
    hide Total;
    var p := IndexOf(w, x);
    assert w[i] in multiset(w);
    SwapTotal(w, ds, i, p);
    v := Swapped(w, i, p);
  }

  lemma OtherIsInRest(w: seq<int>, i: nat, j: nat)
    requires i < |w| && j < |w| && i != j
    ensures w[j] in multiset(w) - multiset{w[i]}
  {
    var rest := w[..i] + w[i + 1..];
    assert w == w[..i] + [w[i]] + w[i + 1..];
    assert multiset(rest) == multiset(w) - multiset{w[i]};
    assert rest[if j < i then j else j - 1] == w[j];
  }

  lemma TakenOut(m: multiset<int>, x: int, rest: multiset<int>)
    requires m == multiset{x} + rest
    ensures m - multiset{x} == rest
  {
  }

  lemma JoinedMultiset(wa: seq<int>, x: int, y: int, wb: seq<int>)
    ensures multiset(wa + [x + y] + wb) == multiset(wa + [x, y] + wb) - multiset{x} - multiset{y} + multiset{x + y}
  {
    var rest := multiset(wa) + multiset(wb);
    assert multiset(wa + [x, y] + wb) == multiset{x} + (multiset{y} + rest) by {
      assert multiset(wa + [x, y] + wb) == multiset(wa) + multiset{x, y} + multiset(wb);
    }
    TakenOut(multiset(wa + [x, y] + wb), x, multiset{y} + rest);
    TakenOut(multiset{y} + rest, y, rest);
    assert multiset(wa + [x + y] + wb) == multiset(wa) + multiset{x + y} + multiset(wb);
  }

  lemma JoinAtPair(w: seq<int>, ds: seq<nat>, dt: seq<nat>, a: seq<nat>, b: seq<nat>, m: nat, x: int, y: int) returns (v: seq<int>)
    requires |w| == |ds| && PairIn(ds, dt, a, b, m) && TwoLightest(multiset(w), x, y)
    requires forall k :: 0 <= k < |ds| ==> ds[k] <= m
    ensures |v| == |dt|
    ensures multiset(v) == multiset(w) - multiset{x} - multiset{y} + multiset{x + y}
    ensures Total(v, dt) + x + y <= Total(w, ds)
  {
    hide Total, TwoLightest;
    var u := BringDown(w, ds, |a|, x, y);
    var wa, wb := u[..|a|], u[|a| + 2..];
    assert u == wa + [x, y] + wb;
    v := wa + [x + y] + wb;
    JoinedMultiset(wa, x, y, wb);
    MergeTotal(wa, x, y, wb, a, m, b);
  }

  lemma PairFirst(x: int, y: int, r: seq<int>)
    ensures multiset([x, y] + r) == multiset{x} + (multiset{y} + multiset(r))
  {
    assert [x, y] + r == [x] + ([y] + r);
  }

  lemma LightestLeft(m: multiset<int>, x: int, y: int, r: seq<int>)
    requires m == multiset{x} + (multiset{y} + multiset(r)) && x <= y && forall k :: 0 <= k < |r| ==> y <= r[k]
    ensures TwoLightest(m, x, y) && m - multiset{x} - multiset{y} == multiset(r)
  {
    var rest := multiset(r);
    TakenOut(m, x, multiset{y} + rest);
    TakenOut(multiset{y} + rest, y, rest);
    forall z | z in rest
      ensures y <= z
    {
      assert z in r;
    }
  }

  lemma LightestOfAll(w: seq<int>, x: int, y: int, r: seq<int>)
    requires multiset(w) == multiset([x, y] + r) && x <= y && forall k :: 0 <= k < |r| ==> y <= r[k]
    ensures TwoLightest(multiset(w), x, y)
    ensures multiset(w) - multiset{x} - multiset{y} == multiset(r)
  {
    PairFirst(x, y, r);
    LightestLeft(multiset(w), x, y, r);
  }

  lemma JoinedWeights(w: seq<int>, v: seq<int>, x: int, y: int, r: seq<int>)
    requires multiset(v) == multiset(w) - multiset{x} - multiset{y} + multiset{x + y}
    requires multiset(w) - multiset{x} - multiset{y} == multiset(r)
    ensures multiset(v) == multiset([x + y] + r)
  {
  }

  /** Any weighted shape can give up its two lightest weights x and y for their sum, saving that sum. */
  lemma JoinLightest(s: Shape, w: seq<int>, x: int, y: int, r: seq<int>) returns (t: Shape, v: seq<int>)
    requires Fits(s, w) && multiset(w) == multiset([x, y] + r)
    requires x <= y && forall k :: 0 <= k < |r| ==> y <= r[k]
    ensures Fits(t, v) && multiset(v) == multiset([x + y] + r)
    ensures ProfileCost(t, v) + x + y <= ProfileCost(s, w)
  {
    assert |multiset(w)| == |w| && |multiset([x, y] + r)| == |r| + 2;
    LightestOfAll(w, x, y, r);
    assert s.Fork?;
    var a, b;
    a, b, t := FindDeepestPair(s, 0);
    DepthsBelowHeight(s, 0);
    hide Depths, Total, Height, PairIn;
    v := JoinAtPair(w, Depths(s, 0), Depths(t, 0), a, b, Height(s), x, y);
    JoinedWeights(w, v, x, y, r);
  }

  // ----- Trees as weighted shapes

  ghost function ShapeOf(t: Tree): Shape {
    match t
    case Leaf(_, _) => Tip
    case Node(l, r, _) => Fork(ShapeOf(l), ShapeOf(r))
  }

  ghost function LeafWeights(t: Tree): seq<int> {
    match t
    case Leaf(_, f) => [f]
    case Node(l, r, _) => LeafWeights(l) + LeafWeights(r)
  }

  lemma {:induction false} TreeIsProfile(t: Tree, d: nat)
    ensures |LeafWeights(t)| == |Depths(ShapeOf(t), d)|
    ensures Total(LeafWeights(t), Depths(ShapeOf(t), d)) == WeightedDepth(t, d)
  {
    match t
    case Leaf(_, f) =>
      assert Products([f], [d]) == [f * d];
      SumSingle(f * d);
    case Node(l, r, _) =>
      TreeIsProfile(l, d + 1);
      TreeIsProfile(r, d + 1);
      var wl, wr, dl, dr := LeafWeights(l), LeafWeights(r), Depths(ShapeOf(l), d + 1), Depths(ShapeOf(r), d + 1);
      assert Products(wl + wr, dl + dr) == Products(wl, dl) + Products(wr, dr);
      SumConcat(Products(wl, dl), Products(wr, dr));
  }
}
