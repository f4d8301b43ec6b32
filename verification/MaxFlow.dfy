/**
  The breadth-first Ford-Fulkerson search of the course-scheduling program
  (algorithms/Scheduling/Main.java), over the residual matrix it updates in
  place, and the max-flow/min-cut theorem for the value it returns.
 */
module MaxFlow {
  import opened IntSets
  import opened Sums

  const MAX_INT := 0x7fff_ffff

  // ----- Flows and cuts, independent of the algorithm

  /** A net flow: antisymmetric, below the capacities, conserved away from s and t. */
  ghost predicate Feasible(cap: Matrix, n: nat, s: nat, t: nat, g: Matrix)
    requires Square(cap, n)
  {
    && Square(g, n)
    && (forall i, j :: 0 <= i < n && 0 <= j < n ==> g[i][j] == -g[j][i])
    && (forall i, j :: 0 <= i < n && 0 <= j < n ==> g[i][j] <= cap[i][j])
    && (forall i :: 0 <= i < n && i != s && i != t ==> Sum(g[i]) == 0)
  }

  ghost predicate IsCut(c: set<int>, n: nat, s: nat, t: nat) {
    s in c && t !in c && forall i :: i in c ==> 0 <= i < n
  }

  /** The part of a row that leaves the set c, over the first m columns. */
  ghost function RowOut(row: seq<int>, c: set<int>, m: nat): int
    requires m <= |row|
  {
    if m == 0 then 0 else RowOut(row, c, m - 1) + if m - 1 in c then 0 else row[m - 1]
  }

  /** The part of a row that stays in the set c, over the first m columns. */
  ghost function RowIn(row: seq<int>, c: set<int>, m: nat): int
    requires m <= |row|
  {
    if m == 0 then 0 else RowIn(row, c, m - 1) + if m - 1 in c then row[m - 1] else 0
  }

  /** The total that crosses from c to its complement, over the first k rows. */
  ghost function Crossing(g: Matrix, n: nat, c: set<int>, k: nat): int
    requires Square(g, n) && k <= n
  {
    if k == 0 then 0
    else Crossing(g, n, c, k - 1) + if k - 1 in c then RowOut(g[k - 1], c, n) else 0
  }

  ghost function CutCapacity(cap: Matrix, n: nat, c: set<int>): int
    requires Square(cap, n)
  {
    Crossing(cap, n, c, n)
  }

  /** The flow inside c, from the first k rows to the first m columns. */
  ghost function Inside(g: Matrix, n: nat, c: set<int>, k: nat, m: nat): int
    requires Square(g, n) && k <= n && m <= n
  {
    if k == 0 then 0
    else Inside(g, n, c, k - 1, m) + if k - 1 in c then RowIn(g[k - 1], c, m) else 0
  }

  lemma {:induction false} RowSplits(row: seq<int>, c: set<int>, m: nat)
    requires m <= |row|
    ensures Sum(row[..m]) == RowIn(row, c, m) + RowOut(row, c, m)
  {
    if m != 0 {
      RowSplits(row, c, m - 1);
      assert row[..m][..m - 1] == row[..m - 1];
    }
  }

  /** By antisymmetry, growing the square block inside c by one row and one column adds nothing. */
  lemma {:induction false} InsideColumn(g: Matrix, n: nat, c: set<int>, k: nat, m: nat)
    requires Square(g, n) && k <= m < n
    requires forall i, j :: 0 <= i < n && 0 <= j < n ==> g[i][j] == -g[j][i]
    ensures Inside(g, n, c, k, m + 1) == Inside(g, n, c, k, m) - if m in c then RowIn(g[m], c, k) else 0
  {
    if k != 0 {
      InsideColumn(g, n, c, k - 1, m);
    }
  }

  lemma {:induction false} InsideZero(g: Matrix, n: nat, c: set<int>, k: nat)
    requires Square(g, n) && k <= n
    requires forall i, j :: 0 <= i < n && 0 <= j < n ==> g[i][j] == -g[j][i]
    ensures Inside(g, n, c, k, k) == 0
  {
    if k != 0 {
      InsideZero(g, n, c, k - 1);
      InsideColumn(g, n, c, k - 1, k - 1);
      assert g[k - 1][k - 1] == -g[k - 1][k - 1];
    }
  }

  lemma {:induction false} CrossingPlusInside(cap: Matrix, n: nat, s: nat, t: nat, g: Matrix, c: set<int>, k: nat)
    requires Square(cap, n) && s < n && t < n && k <= n
    requires Feasible(cap, n, s, t, g) && IsCut(c, n, s, t)
    ensures Crossing(g, n, c, k) + Inside(g, n, c, k, n) == if s < k then Sum(g[s]) else 0
  {
    if k != 0 {
      CrossingPlusInside(cap, n, s, t, g, c, k - 1);
      RowSplits(g[k - 1], c, n);
      assert g[k - 1][..n] == g[k - 1];
    }
  }

  /** Whatever cut is drawn, the flow across it is the flow out of the source. */
  lemma FlowAcrossCut(cap: Matrix, n: nat, s: nat, t: nat, g: Matrix, c: set<int>)
    requires Square(cap, n) && s < n && t < n
    requires Feasible(cap, n, s, t, g) && IsCut(c, n, s, t)
    ensures Crossing(g, n, c, n) == Sum(g[s])
  {
    CrossingPlusInside(cap, n, s, t, g, c, n);
    InsideZero(g, n, c, n);
  }

  lemma {:induction false} RowOutMonotone(a: seq<int>, b: seq<int>, c: set<int>, m: nat)
    requires m <= |a| && |a| == |b|
    requires forall j :: 0 <= j < m && j !in c ==> a[j] <= b[j]
    ensures RowOut(a, c, m) <= RowOut(b, c, m)
  {
    if m != 0 {
      RowOutMonotone(a, b, c, m - 1);
    }
  }

  lemma {:induction false} CrossingMonotone(a: Matrix, b: Matrix, n: nat, c: set<int>, k: nat)
    requires Square(a, n) && Square(b, n) && k <= n
    requires forall i, j :: 0 <= i < n && 0 <= j < n && i in c && j !in c ==> a[i][j] <= b[i][j]
    ensures Crossing(a, n, c, k) <= Crossing(b, n, c, k)
  {
    if k != 0 {
      CrossingMonotone(a, b, n, c, k - 1);
      if k - 1 in c {
        RowOutMonotone(a[k - 1], b[k - 1], c, n);
      }
    }
  }

  /** Weak duality: no feasible flow carries more than any cut allows. */
  lemma WeakDuality(cap: Matrix, n: nat, s: nat, t: nat, g: Matrix, c: set<int>)
    requires Square(cap, n) && s < n && t < n
    requires Feasible(cap, n, s, t, g) && IsCut(c, n, s, t)
    ensures Sum(g[s]) <= CutCapacity(cap, n, c)
  {
    FlowAcrossCut(cap, n, s, t, g, c);
    CrossingMonotone(g, cap, n, c, n);
  }

  /** A flow that fills every edge leaving a cut carries exactly the cut's capacity. */
  lemma SaturatedCut(cap: Matrix, n: nat, s: nat, t: nat, g: Matrix, c: set<int>)
    requires Square(cap, n) && s < n && t < n
    requires Feasible(cap, n, s, t, g) && IsCut(c, n, s, t)
    requires forall i, j :: 0 <= i < n && 0 <= j < n && i in c && j !in c ==> g[i][j] == cap[i][j]
    ensures Sum(g[s]) == CutCapacity(cap, n, c)
  {
    FlowAcrossCut(cap, n, s, t, g, c);
    CrossingMonotone(g, cap, n, c, n);
    CrossingMonotone(cap, g, n, c, n);
  }

  // ----- Reachability in the residual graph

  ghost predicate Walk(res: Matrix, n: nat, w: seq<int>)
    requires Square(res, n)
  {
    && w != []
    && (forall k :: 0 <= k < |w| ==> 0 <= w[k] < n)
    && (forall k :: 0 < k < |w| ==> res[w[k - 1]][w[k]] > 0)
  }

  ghost predicate Reachable(res: Matrix, n: nat, s: int, t: int)
    requires Square(res, n)
  {
    exists w :: Walk(res, n, w) && w[0] == s && w[|w| - 1] == t
  }

  lemma {:induction false} ClosedSetTrapsWalk(res: Matrix, n: nat, c: set<int>, w: seq<int>)
    requires Square(res, n) && Walk(res, n, w) && w[0] in c
    requires forall i, j :: 0 <= i < n && 0 <= j < n && i in c && j !in c ==> res[i][j] <= 0
    ensures w[|w| - 1] in c
  {
    if |w| > 1 {
      ClosedSetTrapsWalk(res, n, c, w[..|w| - 1]);
      assert res[w[|w| - 2]][w[|w| - 1]] > 0;
    }
  }

  lemma ClosedSetTrapsWalks(res: Matrix, n: nat, c: set<int>, s: int)
    requires Square(res, n) && s in c
    requires forall i, j :: 0 <= i < n && 0 <= j < n && i in c && j !in c ==> res[i][j] <= 0
    ensures forall t :: t !in c ==> !Reachable(res, n, s, t)
  {
    forall w | Walk(res, n, w) && w[0] == s
      ensures w[|w| - 1] in c
    {
      ClosedSetTrapsWalk(res, n, c, w);
    }
  }

  /** A search tree: every vertex of v but s has its parent in v, one level closer to s. */
  ghost predicate SearchTree(res: Matrix, n: nat, path: seq<int>, level: seq<nat>, s: int, v: set<int>)
    requires Square(res, n)
  {
    && |path| == n && |level| == n
    && s in v
    && (forall j :: j in v ==> 0 <= j < n)
    && (forall j :: j in v && j != s ==>
          path[j] in v && level[path[j]] < level[j] && res[path[j]][j] > 0)
  }

  lemma {:induction false} TreeGivesWalk(res: Matrix, n: nat, path: seq<int>, level: seq<nat>, s: int, v: set<int>, j: int)
    requires Square(res, n) && SearchTree(res, n, path, level, s, v) && j in v
    ensures Reachable(res, n, s, j)
    decreases level[j]
  {
    if j == s {
      assert Walk(res, n, [s]);
    } else {
      TreeGivesWalk(res, n, path, level, s, v, path[j]);
      var w :| Walk(res, n, w) && w[0] == s && w[|w| - 1] == path[j];
      assert Walk(res, n, w + [j]);
    }
  }

  // ----- The algorithm

  /** res is the content of the array. */
  ghost predicate Holds(a: array2<int>, n: nat, res: Matrix)
    reads a
  {
    && a.Length0 == a.Length1 == n && Square(res, n)
    && forall i, j :: 0 <= i < n && 0 <= j < n ==> a[i, j] == res[i][j]
  }

  /** The search so far: v is what has been seen, all of it in the tree, and t is not there yet. */
  ghost predicate Searching(res: Matrix, n: nat, s: int, t: int, seen: seq<bool>, path: seq<int>, level: seq<nat>, queue: seq<int>, v: set<int>)
    requires Square(res, n)
  {
    && SearchTree(res, n, path, level, s, v)
    && t !in v
    && |seen| == n
    && (forall k :: 0 <= k < n ==> (seen[k] <==> k in v))
    && (forall k :: k in queue ==> k in v)
  }

  /** Only queued vertices, and i from column j on, can still have an edge out of v. */
  ghost predicate Explored(res: Matrix, n: nat, queue: seq<int>, v: set<int>, i: int, j: int)
    requires Square(res, n)
  {
    forall k, m :: 0 <= k < n && 0 <= m < n && k in v && m !in v && k !in queue && (k != i || m < j) ==> res[k][m] <= 0
  }

  lemma Discover(res: Matrix, n: nat, s: int, t: int, seen: seq<bool>, path: seq<int>, level: seq<nat>, queue: seq<int>, v: set<int>, i: int, j: int)
    requires Square(res, n) && 0 <= i < n && 0 <= j < n && j != t
    requires Searching(res, n, s, t, seen, path, level, queue, v) && Explored(res, n, queue, v, i, j)
    requires i in v && !seen[j] && res[i][j] > 0
    ensures Searching(res, n, s, t, seen[j := true], path[j := i], level[j := level[i] + 1], queue + [j], v + {j})
    ensures Explored(res, n, queue + [j], v + {j}, i, j + 1)
  {
  }

  /** The sink is at the end of a tree edge. */
  lemma FoundSink(res: Matrix, n: nat, s: int, t: int, seen: seq<bool>, path: seq<int>, level: seq<nat>, queue: seq<int>, v: set<int>, i: int)
    requires Square(res, n) && 0 <= i < n && 0 <= t < n && i in v && res[i][t] > 0
    requires Searching(res, n, s, t, seen, path, level, queue, v)
    ensures SearchTree(res, n, path[t := i], level[t := level[i] + 1], s, v + {t})
  {
  }

  lemma NothingNew(res: Matrix, n: nat, s: int, t: int, seen: seq<bool>, path: seq<int>, level: seq<nat>, queue: seq<int>, v: set<int>, i: int, j: int)
    requires Square(res, n) && 0 <= i < n && 0 <= j < n
    requires Searching(res, n, s, t, seen, path, level, queue, v) && Explored(res, n, queue, v, i, j)
    requires seen[j] || res[i][j] <= 0
    ensures Explored(res, n, queue, v, i, j + 1)
  {
  }

  lemma SearchingShape(res: Matrix, n: nat, s: int, t: int, seen: seq<bool>, path: seq<int>, level: seq<nat>, queue: seq<int>, v: set<int>)
    requires Square(res, n) && Searching(res, n, s, t, seen, path, level, queue, v)
    ensures |seen| == |path| == |level| == n && forall j :: 0 <= j < n && !seen[j] ==> j !in v
  {
  }

  /** Takes i from the queue: the inner loop of bfs over the columns of row i. */
  method ScanRow(n: nat, residuals: array2<int>, path: array<int>, visited: array<bool>, s: nat, t: nat, i: nat,
                 queue0: seq<int>, ghost res: Matrix, ghost v0: set<int>, ghost level0: seq<nat>)
    returns (found: bool, queue: seq<int>, ghost v: set<int>, ghost level: seq<nat>)
    requires Holds(residuals, n, res) && path.Length == n && visited.Length == n
    requires i < n && t < n && i in v0
    requires Searching(res, n, s, t, visited[..], path[..], level0, queue0, v0)
    requires Explored(res, n, queue0, v0, i, 0)
    modifies path, visited
    ensures found ==> SearchTree(res, n, path[..], level, s, v) && t in v
    ensures !found ==> Searching(res, n, s, t, visited[..], path[..], level, queue, v)
    ensures !found ==> Explored(res, n, queue, v, i, n)
    ensures !found ==> (|v| == |v0| && queue == queue0) || |v| > |v0|
  {
    queue, v, level := queue0, v0, level0;
    hide Searching, Explored, SearchTree;
    for j := 0 to n
      invariant i in v
      invariant Searching(res, n, s, t, visited[..], path[..], level, queue, v)
      invariant Explored(res, n, queue, v, i, j)
      invariant (|v| == |v0| && queue == queue0) || |v| > |v0|
    {
      ghost var path0, seen0 := path[..], visited[..];
      SearchingShape(res, n, s, t, seen0, path0, level, queue, v);
      if !visited[j] && residuals[i, j] > 0 {
        path[j] := i;
        assert path[..] == path0[j := i];
        if j == t {
          FoundSink(res, n, s, t, seen0, path0, level, queue, v, i);
          v, level := v + {j}, level[j := level[i] + 1];
          return true, queue, v, level;
        }
        Discover(res, n, s, t, seen0, path0, level, queue, v, i, j);
        queue := queue + [j];
        visited[j] := true;
        assert visited[..] == seen0[j := true];
        v, level := v + {j}, level[j := level[i] + 1];
      } else {
        NothingNew(res, n, s, t, seen0, path0, level, queue, v, i, j);
      }
    }
    found := false;
  }

  method Bfs(n: nat, residuals: array2<int>, path: array<int>, s: nat, t: nat, ghost res: Matrix)
    returns (found: bool, ghost v: set<int>, ghost level: seq<nat>)
    requires Holds(residuals, n, res) && path.Length == n
    requires s < n && t < n && s != t
    modifies path
    ensures found <==> Reachable(res, n, s, t)
    ensures found ==> SearchTree(res, n, path[..], level, s, v) && t in v
    ensures !found ==> IsCut(v, n, s, t) && Explored(res, n, [], v, -1, n)
  {
    var visited := new bool[n](_ => false);
    var queue := [s];
    visited[s] := true;
    path[s] := -1;
    level := seq(n, _ => 0);
    v := {s};
    AtMostRange(v, 0, n);
    while queue != []
      invariant Searching(res, n, s, t, visited[..], path[..], level, queue, v)
      invariant Explored(res, n, queue, v, -1, n)
      invariant |v| <= n
      decreases n - |v|, |queue|
    {
      var i := queue[0];
      assert i in queue;
      assert forall k :: k in queue && k != i ==> k in queue[1..];
      queue := queue[1..];
      found, queue, v, level := ScanRow(n, residuals, path, visited, s, t, i, queue, res, v, level);
      AtMostRange(v, 0, n);
      if found {
        TreeGivesWalk(res, n, path[..], level, s, v, t);
        return;
      }
    }
    ClosedSetTrapsWalks(res, n, v, s);
    found := false;
  }

  /** What every augmentation keeps, for capacities cap and flow value so far. */
  ghost predicate ResidualOf(res: Matrix, cap: Matrix, n: nat, s: nat, t: nat, value: int)
    requires Square(cap, n) && s < n && t < n
  {
    && Square(res, n)
    && (forall i, j :: 0 <= i < n && 0 <= j < n ==> 0 <= res[i][j])
    && (forall i, j :: 0 <= i < n && 0 <= j < n ==> res[i][j] + res[j][i] == cap[i][j] + cap[j][i])
    && (forall i :: 0 <= i < n && i != s && i != t ==> Sum(res[i]) == Sum(cap[i]))
    && Sum(res[s]) == Sum(cap[s]) - value
  }

  ghost function FlowOf(res: Matrix, cap: Matrix, n: nat): (g: Matrix)
    requires Square(cap, n) && Square(res, n)
    ensures Square(g, n)
  {
    seq(n, i requires 0 <= i < n => seq(n, j requires 0 <= j < n => cap[i][j] - res[i][j]))
  }

  lemma ResidualGivesFlow(res: Matrix, cap: Matrix, n: nat, s: nat, t: nat, value: int)
    requires Square(cap, n) && s < n && t < n
    requires ResidualOf(res, cap, n, s, t, value)
    ensures Feasible(cap, n, s, t, FlowOf(res, cap, n))
    ensures Sum(FlowOf(res, cap, n)[s]) == value
  {
    var g := FlowOf(res, cap, n);
    forall i | 0 <= i < n
      ensures Sum(g[i]) == Sum(cap[i]) - Sum(res[i])
    {
      SumDifference(cap[i], res[i], g[i]);
    }
  }

  /** Pushing `flow` back along one edge, as the second loop does. */
  ghost function Pushed(res: Matrix, n: nat, i: nat, j: nat, flow: int): (r: Matrix)
    requires Square(res, n) && i < n && j < n && i != j
    ensures Square(r, n)
  {
    res[i := res[i][j := res[i][j] - flow]][j := res[j][i := res[j][i] + flow]]
  }

  lemma PushedSums(res: Matrix, n: nat, i: nat, j: nat, flow: int)
    requires Square(res, n) && i < n && j < n && i != j
    ensures forall k :: 0 <= k < n ==>
      Sum(Pushed(res, n, i, j, flow)[k]) == Sum(res[k]) - (if k == i then flow else 0) + if k == j then flow else 0
  {
    SumUpdate(res[i], j, res[i][j] - flow);
    SumUpdate(res[j], i, res[j][i] + flow);
  }

  /** The least residual on the way from j back to s, and never above Integer.MAX_VALUE. */
  ghost function PathMin(res: Matrix, n: nat, path: seq<int>, level: seq<nat>, s: int, v: set<int>, j: int): (m: int)
    requires Square(res, n) && SearchTree(res, n, path, level, s, v) && j in v
    ensures 0 < m <= MAX_INT
    decreases level[j]
  {
    if j == s then MAX_INT
    else
      var rest := PathMin(res, n, path, level, s, v, path[j]);
      if res[path[j]][j] < rest then res[path[j]][j] else rest
  }

  method Bottleneck(n: nat, residuals: array2<int>, path: array<int>, s: nat, t: nat,
                    ghost res: Matrix, ghost v: set<int>, ghost level: seq<nat>)
    returns (flow: int)
    requires Holds(residuals, n, res) && path.Length == n
    requires s < n && t < n && t in v
    requires SearchTree(res, n, path[..], level, s, v)
    ensures flow == PathMin(res, n, path[..], level, s, v, t)
  {
    ghost var p := path[..];
    flow := MAX_INT;
    var j := t;
    while j != s
      invariant j in v && 0 < flow <= MAX_INT
      invariant Min(flow, PathMin(res, n, p, level, s, v, j)) == PathMin(res, n, p, level, s, v, t)
      decreases level[j]
    {
      var i := path[j];
      flow := Min(flow, residuals[i, j]);
      j := path[j];
    }
  }

  function Min(a: int, b: int): int { if a < b then a else b }

  /** What the augmenting loop has done when it stands at j: flow has moved from t's end to j. */
  ghost predicate PushedBackTo(old0: Matrix, res: Matrix, cap: Matrix, n: nat, level: seq<nat>, t: int, j: int, flow: int)
    requires Square(old0, n) && Square(cap, n) && |level| == n && 0 <= j < n && 0 <= t < n
  {
    && Square(res, n)
    && (forall k, m :: 0 <= k < n && 0 <= m < n ==> 0 <= res[k][m])
    && (forall k, m :: 0 <= k < n && 0 <= m < n ==> res[k][m] + res[m][k] == cap[k][m] + cap[m][k])
    && (forall k, m :: 0 <= k < n && 0 <= m < n && level[k] <= level[j] && level[m] <= level[j] ==> res[k][m] == old0[k][m])
    && (forall k :: 0 <= k < n ==> Sum(res[k]) == Sum(old0[k]) + (if k == t then flow else 0) - if k == j then flow else 0)
  }

  lemma PushStep(old0: Matrix, res: Matrix, cap: Matrix, n: nat, level: seq<nat>, t: int, i: int, j: int, flow: int)
    requires Square(old0, n) && Square(cap, n) && |level| == n && 0 <= i < n && 0 <= j < n && 0 <= t < n
    requires PushedBackTo(old0, res, cap, n, level, t, j, flow)
    requires level[i] < level[j] && 0 < flow <= old0[i][j] && NoOverflow(cap, n)
    ensures 0 <= res[i][j] - flow && res[j][i] + flow <= MAX_INT
    ensures PushedBackTo(old0, Pushed(res, n, i, j, flow), cap, n, level, t, i, flow)
  {
    PushedSums(res, n, i, j, flow);
  }

  method PushEdge(n: nat, residuals: array2<int>, i: nat, j: nat, flow: int, ghost res: Matrix)
    requires Holds(residuals, n, res) && i < n && j < n && i != j
    requires 0 <= res[i][j] - flow && res[j][i] + flow <= MAX_INT
    modifies residuals
    ensures Holds(residuals, n, Pushed(res, n, i, j, flow))
  {
    residuals[i, j] := residuals[i, j] - flow;
    residuals[j, i] := residuals[j, i] + flow;
  }

  /** The second inner loop: moves `flow` along the tree path from s to t. */
  method Augment(n: nat, residuals: array2<int>, path: array<int>, s: nat, t: nat, flow: int,
                 ghost cap: Matrix, ghost old0: Matrix, ghost v: set<int>, ghost level: seq<nat>)
    returns (ghost res: Matrix)
    requires Holds(residuals, n, old0) && path.Length == n
    requires s < n && t < n && s != t && t in v
    requires Square(cap, n) && NoOverflow(cap, n)
    requires SearchTree(old0, n, path[..], level, s, v)
    requires PushedBackTo(old0, old0, cap, n, level, t, t, flow)
    requires flow == PathMin(old0, n, path[..], level, s, v, t)
    modifies residuals
    ensures Holds(residuals, n, res)
    ensures PushedBackTo(old0, res, cap, n, level, t, s, flow)
  {
    ghost var p := path[..];
    res := old0;
    var j := t;
    while j != s
      invariant j in v
      invariant Holds(residuals, n, res)
      invariant PushedBackTo(old0, res, cap, n, level, t, j, flow)
      invariant flow <= PathMin(old0, n, p, level, s, v, j)
      decreases level[j]
    {
      var i := path[j];
      PushStep(old0, res, cap, n, level, t, i, j, flow);
      PushEdge(n, residuals, i, j, flow, res);
      res := Pushed(res, n, i, j, flow);
      j := path[j];
    }
  }

  /** The sums the int arithmetic of the program forms all fit in 32 bits. */
  ghost predicate NoOverflow(cap: Matrix, n: nat)
    requires Square(cap, n)
  {
    forall i, j :: 0 <= i < n && 0 <= j < n ==> 0 <= cap[i][j] + cap[j][i] <= MAX_INT
  }

  /** value is carried by a feasible flow and equals the capacity of a cut. */
  ghost predicate MaxFlowMinCut(cap: Matrix, n: nat, s: nat, t: nat, g: Matrix, c: set<int>, value: int)
    requires Square(cap, n) && s < n && t < n
  {
    && Feasible(cap, n, s, t, g) && Sum(g[s]) == value
    && IsCut(c, n, s, t) && CutCapacity(cap, n, c) == value
  }

  /** When the last search has failed, the flow so far fills the cut it found. */
  lemma FailedSearchProvesOptimal(res: Matrix, cap: Matrix, n: nat, s: nat, t: nat, value: int, v: set<int>)
    requires Square(cap, n) && s < n && t < n
    requires ResidualOf(res, cap, n, s, t, value)
    requires IsCut(v, n, s, t) && Explored(res, n, [], v, -1, n)
    ensures MaxFlowMinCut(cap, n, s, t, FlowOf(res, cap, n), v, value)
    ensures forall g :: Feasible(cap, n, s, t, g) ==> Sum(g[s]) <= value
  {
    ResidualGivesFlow(res, cap, n, s, t, value);
    SaturatedCut(cap, n, s, t, FlowOf(res, cap, n), v);
    forall g | Feasible(cap, n, s, t, g)
      ensures Sum(g[s]) <= value
    {
      WeakDuality(cap, n, s, t, g, v);
    }
  }

  method FordFulkerson(n: nat, residuals: array2<int>, path: array<int>, s: nat, t: nat, ghost cap: Matrix)
    returns (maxFlow: int, ghost res: Matrix)
    requires Holds(residuals, n, cap) && path.Length == n
    requires s < n && t < n && s != t
    requires forall i, j :: 0 <= i < n && 0 <= j < n ==> 0 <= cap[i][j]
    requires NoOverflow(cap, n) && Sum(cap[s]) <= MAX_INT
    modifies residuals, path
    ensures 0 <= maxFlow <= MAX_INT
    ensures Holds(residuals, n, res) && ResidualOf(res, cap, n, s, t, maxFlow)
    ensures exists c :: MaxFlowMinCut(cap, n, s, t, FlowOf(res, cap, n), c, maxFlow)
    ensures forall g :: Feasible(cap, n, s, t, g) ==> Sum(g[s]) <= maxFlow
  {
    maxFlow, res := 0, cap;
    SumNonNegative(cap[s]);
    var found, v, level := Bfs(n, residuals, path, s, t, res);
    while found
      invariant Holds(residuals, n, res) && ResidualOf(res, cap, n, s, t, maxFlow)
      invariant 0 <= maxFlow <= Sum(cap[s])
      invariant found ==> SearchTree(res, n, path[..], level, s, v) && t in v
      invariant !found ==> IsCut(v, n, s, t) && Explored(res, n, [], v, -1, n)
      decreases Sum(cap[s]) - maxFlow
    {
      var flow := Bottleneck(n, residuals, path, s, t, res, v, level);
      res := Augment(n, residuals, path, s, t, flow, cap, res, v, level);
      SumNonNegative(res[s]);
      assert maxFlow + flow <= MAX_INT;
      maxFlow := maxFlow + flow;
      found, v, level := Bfs(n, residuals, path, s, t, res);
    }
    FailedSearchProvesOptimal(res, cap, n, s, t, maxFlow, v);
  }

  lemma CutIsFlow(cap: Matrix, n: nat, s: nat, t: nat, g: Matrix, value: int)
    requires Square(cap, n) && s < n && t < n && exists c :: MaxFlowMinCut(cap, n, s, t, g, c, value)
    ensures Feasible(cap, n, s, t, g) && Sum(g[s]) == value
  {
  }
}
