/**
  The wiring program as a whole (algorithms/Wiring/Wiring.java): connections are
  sorted, both sides of the switches get a spanning forest each, every switch
  is hooked up, and the cost of it all is least among all proper wirings.
 */
module Wiring {
  import opened DisjointSets
  import opened Forests
  import opened HookUp
  import opened IntSets
  import opened Kruskal
  import opened SubGraphs
  import opened Wrappers

  // ----- Which connections count, and as what

  predicate BehindNothing(v: Vertex) { !v.Switch? && !v.Light? }

  /** isValidEdge. */
  predicate ValidEdge(a: Vertex, b: Vertex) {
    if (a.Light? && BehindNothing(b)) || (BehindNothing(a) && b.Light?) || (a.Switch? && b.Switch?) then false
    else if a.Light? && b.Light? then a.behindSwitch == b.behindSwitch
    else if a.Light? && b.Switch? then a.behindSwitch == b.name
    else if a.Switch? && b.Light? then b.behindSwitch == a.name
    else true
  }

  datatype Sort = Invalid | Direct | Group | Cross

  function SortOf(e: Edge): Sort {
    if !ValidEdge(e.v1, e.v2) then Invalid
    else if (e.v1.Switch? && e.v2.Light?) || (e.v1.Light? && e.v2.Switch?) || (e.v1.Light? && e.v2.Light?) then Group
    else if e.v1.Switch? || e.v2.Switch? then Cross
    else Direct
  }

  /**
    Which connections count, by the kinds of their ends. Outside the switches
    everything may be connected with everything; a switch may be fed from there;
    a light may only be connected with its own switch and with the lights behind it.
   */
  lemma SortIs(a: Vertex, b: Vertex, cost: int)
    ensures SortOf(Edge(a, b, cost)).Direct? <==>
      (a.BreakerBox? || a.JunctionBox? || a.ElectricalOutlet?) && (b.BreakerBox? || b.JunctionBox? || b.ElectricalOutlet?)
    ensures SortOf(Edge(a, b, cost)).Cross? <==>
      || (a.Switch? && (b.BreakerBox? || b.JunctionBox? || b.ElectricalOutlet?))
      || (b.Switch? && (a.BreakerBox? || a.JunctionBox? || a.ElectricalOutlet?))
    ensures SortOf(Edge(a, b, cost)).Group? <==>
      || (exists m, n, s :: a == Light(m, s) && b == Light(n, s))
      || (exists m, s :: a == Light(m, s) && b == Switch(s))
      || (exists m, s :: a == Switch(s) && b == Light(m, s))
    ensures SortOf(Edge(a, b, cost)).Invalid? <==>
      || (a.Switch? && b.Switch?)
      || (a.Light? && (b.BreakerBox? || b.JunctionBox? || b.ElectricalOutlet? || (b.Switch? && b.name != a.behindSwitch)))
      || (b.Light? && (a.BreakerBox? || a.JunctionBox? || a.ElectricalOutlet? || (a.Switch? && a.name != b.behindSwitch)))
      || (a.Light? && b.Light? && a.behindSwitch != b.behindSwitch)
  {
    if SortOf(Edge(a, b, cost)).Group? {
      if a.Light? && b.Light? {
        assert a == Light(a.name, a.behindSwitch) && b == Light(b.name, a.behindSwitch);
      } else if a.Light? {
        assert a == Light(a.name, a.behindSwitch) && b == Switch(a.behindSwitch);
      } else {
        assert a == Switch(b.behindSwitch) && b == Light(b.name, b.behindSwitch);
      }
    }
  }

  /** The order of the ends does not matter. */
  lemma SortIsSymmetric(a: Vertex, b: Vertex, cost: int)
    ensures ValidEdge(a, b) == ValidEdge(b, a) && SortOf(Edge(a, b, cost)) == SortOf(Edge(b, a, cost))
  {
  }

  /** The three lists hold exactly the connections of their sort. */
  lemma SortedHolds(edges: seq<Edge>, l: Sorted, i: int)
    requires SortedOk(edges, l) && 0 <= i < |edges|
    ensures i in l.directAt <==> SortOf(edges[i]).Direct?
    ensures i in l.groupAt <==> SortOf(edges[i]).Group?
    ensures i in l.crossAt <==> SortOf(edges[i]).Cross?
  {
    if !SortOf(edges[i]).Invalid? {
      NumbersOfAll(edges, SortOf(edges[i]), |edges|, i);
    }
  }

  /** The sides of the house: the breaker, the junctions and the outlets on one, lights and switches on the other. */
  lemma SidesAre(vertices: set<Vertex>, v: Vertex)
    ensures v in NoSwitchDependencies(vertices) <==> v in vertices && (v.BreakerBox? || v.JunctionBox? || v.ElectricalOutlet?)
    ensures v in LightsAndSwitches(vertices) <==> v in vertices && (v.Light? || v.Switch?)
    ensures v in Switches(vertices) <==> v in vertices && v.Switch?
  {
  }

  /** The numbers of the edges of one sort among the first n. */
  ghost function NumbersOf(edges: seq<Edge>, sort: Sort, n: nat): (r: seq<int>)
    requires n <= |edges|
    ensures forall k :: 0 <= k < |r| ==> 0 <= r[k] < n && SortOf(edges[r[k]]) == sort
    ensures forall j, k :: 0 <= j < k < |r| ==> r[j] != r[k]
  {
    if n == 0 then [] else NumbersOf(edges, sort, n - 1) + if SortOf(edges[n - 1]) == sort then [n - 1] else []
  }

  lemma {:induction false} NumbersOfAll(edges: seq<Edge>, sort: Sort, n: nat, i: int)
    requires 0 <= i < n <= |edges| && SortOf(edges[i]) == sort
    ensures i in NumbersOf(edges, sort, n)
  {
    if i < n - 1 {
      NumbersOfAll(edges, sort, n - 1, i);
    } else {
      var r := NumbersOf(edges, sort, n);
      assert r[|r| - 1] == i;
    }
  }

  /** The three lists of the program, and the numbers of their edges. */
  datatype Sorted = Sorted(direct: seq<Edge>, group: seq<Edge>, cross: seq<Edge>, directAt: seq<int>, groupAt: seq<int>, crossAt: seq<int>)

  ghost predicate SortedTo(edges: seq<Edge>, l: Sorted, n: nat)
    requires n <= |edges|
  {
    && Lists(edges, l.directAt, l.direct) && Lists(edges, l.groupAt, l.group) && Lists(edges, l.crossAt, l.cross)
    && l.directAt == NumbersOf(edges, Direct, n) && l.groupAt == NumbersOf(edges, Group, n) && l.crossAt == NumbersOf(edges, Cross, n)
  }

  ghost predicate SortedOk(edges: seq<Edge>, l: Sorted) { SortedTo(edges, l, |edges|) }

  lemma SortNext(edges: seq<Edge>, l: Sorted, i: nat)
    requires i < |edges| && SortedTo(edges, l, i)
    ensures SortedTo(edges, match SortOf(edges[i])
      case Direct => l.(direct := l.direct + [edges[i]], directAt := l.directAt + [i])
      case Group => l.(group := l.group + [edges[i]], groupAt := l.groupAt + [i])
      case Cross => l.(cross := l.cross + [edges[i]], crossAt := l.crossAt + [i])
      case Invalid => l, i + 1)
  {
    hide Lists, SortOf;
    match SortOf(edges[i])
    case Direct => ListsNext(edges, l.directAt, l.direct, i);
    case Group => ListsNext(edges, l.groupAt, l.group, i);
    case Cross => ListsNext(edges, l.crossAt, l.cross, i);
    case Invalid =>
  }

  method SortEdges(edges: seq<Edge>) returns (l: Sorted)
    ensures SortedOk(edges, l)
  {
    l := Sorted([], [], [], [], [], []);
    assert SortedTo(edges, l, 0);
    hide SortedTo;
    for i := 0 to |edges|
      invariant SortedTo(edges, l, i)
    {
      var e := edges[i];
      SortNext(edges, l, i);
      if ValidEdge(e.v1, e.v2) {
        if (e.v1.Switch? && e.v2.Light?) || (e.v1.Light? && e.v2.Switch?) || (e.v1.Light? && e.v2.Light?) {
          l := l.(group := l.group + [e], groupAt := l.groupAt + [i]);
        } else if e.v1.Switch? || e.v2.Switch? {
          l := l.(cross := l.cross + [e], crossAt := l.crossAt + [i]);
        } else {
          l := l.(direct := l.direct + [e], directAt := l.directAt + [i]);
        }
      }
    }
  }

  // ----- Proper wirings

  function Switches(vertices: set<Vertex>): set<Vertex> { set v | v in vertices && v.Switch? }

  function NoSwitchDependencies(vertices: set<Vertex>): set<Vertex> { set v | v in vertices && BehindNothing(v) }

  function LightsAndSwitches(vertices: set<Vertex>): set<Vertex> { set v | v in vertices && !BehindNothing(v) }

  ghost predicate AllValid(edges: seq<Edge>, g: set<int>) {
    forall i :: i in g ==> 0 <= i < |edges| && !SortOf(edges[i]).Invalid?
  }

  ghost predicate Feeds(edges: seq<Edge>, g: set<int>, i: int, s: Vertex) {
    i in g && 0 <= i < |edges| && SortOf(edges[i]).Cross? && SwitchOf(edges[i]) == s
  }

  ghost predicate OneFeedAtMost(edges: seq<Edge>, g: set<int>) {
    forall s, i, j :: Feeds(edges, g, i, s) && Feeds(edges, g, j, s) ==> i == j
  }

  /** Among the vertices of one side, g connects whatever that side's own connections could. */
  ghost predicate JoinsSide(edges: seq<Edge>, side: set<Vertex>, own: set<int>, g: set<int>)
    requires EdgeSet(edges, own) && EdgeSet(edges, g)
  {
    forall a, b :: a in side && b in side && Connected(edges, own, a, b) ==> Connected(edges, g, a, b)
  }

  /**
    A proper wiring: valid connections without a cycle, one feed for every
    switch, and everything joined that the connections of either side can join.
   */
  ghost predicate Proper(edges: seq<Edge>, vertices: set<Vertex>, l: Sorted, g: set<int>)
    requires SortedOk(edges, l)
  {
    && AllValid(edges, g) && IsForest(edges, g)
    && OnePerSwitch(l.cross, Switches(vertices), Preimage(l.crossAt, g))
    && JoinsSide(edges, NoSwitchDependencies(vertices), Image(l.directAt, All(l.direct)), g)
    && JoinsSide(edges, LightsAndSwitches(vertices), Image(l.groupAt, All(l.group)), g)
  }

  // ----- A switch's one feed makes everything behind it a dead end

  function OtherEnd(e: Edge): Vertex {
    if e.v1.Switch? then e.v2 else e.v1
  }

  /** The vertex that feeds the switch. */
  ghost function FeedOf(edges: seq<Edge>, g: set<int>, s: Vertex): Vertex {
    if exists i :: Feeds(edges, g, i, s) then
      var i :| Feeds(edges, g, i, s); OtherEnd(edges[i])
    else BreakerBox("")
  }

  ghost function SwitchBehind(v: Vertex): Vertex {
    match v
    case Switch(n) => Switch(n)
    case Light(_, s) => Switch(s)
    case _ => v
  }

  /** Everything behind a switch moved to the vertex that feeds it. */
  ghost function Outside(edges: seq<Edge>, g: set<int>, v: Vertex): Vertex {
    if BehindNothing(v) then v else FeedOf(edges, g, SwitchBehind(v))
  }

  lemma FeedIs(edges: seq<Edge>, g: set<int>, i: int, s: Vertex)
    requires OneFeedAtMost(edges, g) && Feeds(edges, g, i, s)
    ensures FeedOf(edges, g, s) == OtherEnd(edges[i])
  {
  }

  lemma ListedAt(edges: seq<Edge>, sort: Sort, i: int) returns (k: int)
    requires 0 <= i < |edges| && SortOf(edges[i]) == sort
    ensures 0 <= k < |NumbersOf(edges, sort, |edges|)| && NumbersOf(edges, sort, |edges|)[k] == i
  {
    NumbersOfAll(edges, sort, |edges|, i);
    k :| 0 <= k < |NumbersOf(edges, sort, |edges|)| && NumbersOf(edges, sort, |edges|)[k] == i;
  }

  lemma OutsideJoined(edges: seq<Edge>, l: Sorted, g: set<int>, i: int)
    requires SortedOk(edges, l) && AllValid(edges, g) && OneFeedAtMost(edges, g) && i in g
    ensures Connected(l.direct, Preimage(l.directAt, g), Outside(edges, g, edges[i].v1), Outside(edges, g, edges[i].v2))
  {
    var f := Preimage(l.directAt, g);
    match SortOf(edges[i])
    case Direct =>
      var k := ListedAt(edges, Direct, i);
      ConnectedByEdge(l.direct, f, k);
    case Group =>
      ConnectedReflexive(l.direct, f, Outside(edges, g, edges[i].v1));
    case Cross =>
      FeedIs(edges, g, i, SwitchOf(edges[i]));
      ConnectedReflexive(l.direct, f, Outside(edges, g, edges[i].v1));
  }

  /** What is connected outside the switches is so without them. */
  lemma DirectlyConnected(edges: seq<Edge>, l: Sorted, g: set<int>, a: Vertex, b: Vertex)
    requires SortedOk(edges, l) && AllValid(edges, g) && OneFeedAtMost(edges, g)
    requires BehindNothing(a) && BehindNothing(b) && Connected(edges, g, a, b)
    ensures Connected(l.direct, Preimage(l.directAt, g), a, b)
  {
    var f, m := Preimage(l.directAt, g), v => Outside(edges, g, v);
    forall i | i in g
      ensures Connected(l.direct, f, m(edges[i].v1), m(edges[i].v2))
    {
      OutsideJoined(edges, l, g, i);
    }
    ConnectedMapped(edges, g, l.direct, f, m, a, b);
  }

  /** Everything not behind this switch moved to the switch. */
  ghost function Inside(s: Vertex, v: Vertex): Vertex {
    if SwitchBehind(v) == s then v else s
  }

  /** What is connected behind a switch is so by the connections there. */
  lemma ConnectedBehind(edges: seq<Edge>, l: Sorted, g: set<int>, s: Vertex, a: Vertex, b: Vertex)
    requires SortedOk(edges, l) && AllValid(edges, g) && s.Switch?
    requires SwitchBehind(a) == s == SwitchBehind(b) && Connected(edges, g, a, b)
    ensures Connected(l.group, Preimage(l.groupAt, g), a, b)
  {
    var f, m := Preimage(l.groupAt, g), v => Inside(s, v);
    forall i | i in g
      ensures Connected(l.group, f, m(edges[i].v1), m(edges[i].v2))
    {
      ConnectedReflexive(l.group, f, s);
      if SortOf(edges[i]).Group? {
        var k := ListedAt(edges, Group, i);
        ConnectedByEdge(l.group, f, k);
      }
    }
    ConnectedMapped(edges, g, l.group, f, m, a, b);
  }

  /** The connections behind switches stay behind one. */
  lemma SameGroup(edges: seq<Edge>, l: Sorted, f: set<int>, a: Vertex, b: Vertex)
    requires SortedOk(edges, l) && EdgeSet(l.group, f) && Connected(l.group, f, a, b)
    ensures SwitchBehind(a) == SwitchBehind(b)
  {
    var m := v => SwitchBehind(v);
    forall i | i in f
      ensures Connected([], {}, m(l.group[i].v1), m(l.group[i].v2))
    {
      assert SortOf(edges[l.groupAt[i]]).Group?;
      ConnectedReflexive([], {}, m(l.group[i].v1));
    }
    ConnectedMapped(l.group, f, [], {}, m, a, b);
    var w :| Walk([], {}, w) && w[0] == m(a) && w[|w| - 1] == m(b);
    NoEdges(w);
  }

  /** Without its feed a switch is cut off from what fed it. */
  lemma CutOff(edges: seq<Edge>, g: set<int>, i: int)
    requires 0 <= i < |edges| && AllValid(edges, g) && OneFeedAtMost(edges, g) && Feeds(edges, g, i, SwitchOf(edges[i]))
    ensures EdgeSet(edges, g - {i}) && !Connected(edges, g - {i}, edges[i].v1, edges[i].v2)
  {
    var s := SwitchOf(edges[i]);
    var m := v => if SwitchBehind(v) == s then s else BreakerBox("");
    forall j | j in g - {i}
      ensures Connected([], {}, m(edges[j].v1), m(edges[j].v2))
    {
      assert SortOf(edges[j]).Cross? ==> !Feeds(edges, g, j, s);
      ConnectedReflexive([], {}, m(edges[j].v1));
    }
    if Connected(edges, g - {i}, edges[i].v1, edges[i].v2) {
      ConnectedMapped(edges, g - {i}, [], {}, m, edges[i].v1, edges[i].v2);
      var w :| Walk([], {}, w) && w[0] == m(edges[i].v1) && w[|w| - 1] == m(edges[i].v2);
      NoEdges(w);
    }
  }

  // ----- A wiring in its three parts

  ghost function Whole(l: Sorted, d: set<int>, h: set<int>, c: set<int>): set<int> {
    Image(l.directAt, d) + Image(l.groupAt, h) + Image(l.crossAt, c)
  }

  lemma InParts(edges: seq<Edge>, l: Sorted, g: set<int>)
    requires SortedOk(edges, l) && AllValid(edges, g)
    ensures g == Whole(l, Preimage(l.directAt, g), Preimage(l.groupAt, g), Preimage(l.crossAt, g))
  {
    var w := Whole(l, Preimage(l.directAt, g), Preimage(l.groupAt, g), Preimage(l.crossAt, g));
    forall i | i in g
      ensures i in w
    {
      var k := ListedAt(edges, SortOf(edges[i]), i);
      match SortOf(edges[i])
      case Direct => assert k in Preimage(l.directAt, g);
      case Group => assert k in Preimage(l.groupAt, g);
      case Cross => assert k in Preimage(l.crossAt, g);
    }
  }

  lemma PartsOfWhole(edges: seq<Edge>, l: Sorted, d: set<int>, h: set<int>, c: set<int>)
    requires SortedOk(edges, l) && EdgeSet(l.direct, d) && EdgeSet(l.group, h) && EdgeSet(l.cross, c)
    ensures var g := Whole(l, d, h, c);
      AllValid(edges, g) && Preimage(l.directAt, g) == d && Preimage(l.groupAt, g) == h && Preimage(l.crossAt, g) == c
  {
    var g := Whole(l, d, h, c);
    ImageSort(edges, l.directAt, l.direct, d, Direct);
    ImageSort(edges, l.groupAt, l.group, h, Group);
    ImageSort(edges, l.crossAt, l.cross, c, Cross);
    forall k
      ensures k in Preimage(l.directAt, g) <==> k in d
      ensures k in Preimage(l.groupAt, g) <==> k in h
      ensures k in Preimage(l.crossAt, g) <==> k in c
    {
      assert 0 <= k < |l.directAt| ==> SortOf(edges[l.directAt[k]]).Direct?;
      assert 0 <= k < |l.groupAt| ==> SortOf(edges[l.groupAt[k]]).Group?;
      assert 0 <= k < |l.crossAt| ==> SortOf(edges[l.crossAt[k]]).Cross?;
    }
  }

  lemma ImageSort(edges: seq<Edge>, idx: seq<int>, sub: seq<Edge>, f: set<int>, sort: Sort)
    requires Lists(edges, idx, sub) && idx == NumbersOf(edges, sort, |edges|) && EdgeSet(sub, f)
    ensures forall i {:trigger i in Image(idx, f)} :: i in Image(idx, f) ==> 0 <= i < |edges| && SortOf(edges[i]) == sort
    ensures forall k :: 0 <= k < |idx| ==> (idx[k] in Image(idx, f) <==> k in f)
  {
  }

  lemma CostInParts(edges: seq<Edge>, l: Sorted, d: set<int>, h: set<int>, c: set<int>)
    requires SortedOk(edges, l) && EdgeSet(l.direct, d) && EdgeSet(l.group, h) && EdgeSet(l.cross, c)
    ensures Cost(edges, Whole(l, d, h, c)) == Cost(l.direct, d) + Cost(l.group, h) + Cost(l.cross, c)
  {
    ImageSort(edges, l.directAt, l.direct, d, Direct);
    ImageSort(edges, l.groupAt, l.group, h, Group);
    ImageSort(edges, l.crossAt, l.cross, c, Cross);
    CostOfImage(edges, l.directAt, l.direct, d);
    CostOfImage(edges, l.groupAt, l.group, h);
    CostOfImage(edges, l.crossAt, l.cross, c);
    CostOfUnion(edges, Image(l.directAt, d), Image(l.groupAt, h));
    CostOfUnion(edges, Image(l.directAt, d) + Image(l.groupAt, h), Image(l.crossAt, c));
  }

  lemma FeedsAreUnique(edges: seq<Edge>, l: Sorted, switches: set<Vertex>, g: set<int>)
    requires SortedOk(edges, l) && OnePerSwitch(l.cross, switches, Preimage(l.crossAt, g))
    ensures OneFeedAtMost(edges, g)
  {
    forall s, i, j | Feeds(edges, g, i, s) && Feeds(edges, g, j, s)
      ensures i == j
    {
      var k := ListedAt(edges, Cross, i);
      var m := ListedAt(edges, Cross, j);
      assert SwitchOf(l.cross[k]) == SwitchOf(l.cross[m]);
    }
  }

  // ----- The parts of a proper wiring are spanning forests

  lemma DirectPartSpans(edges: seq<Edge>, vertices: set<Vertex>, l: Sorted, g: set<int>)
    requires SortedOk(edges, l) && Proper(edges, vertices, l, g)
    ensures SpanningForest(NoSwitchDependencies(vertices), l.direct, Preimage(l.directAt, g))
  {
    var f, own := Preimage(l.directAt, g), Image(l.directAt, All(l.direct));
    ForestInList(edges, l.directAt, l.direct, g);
    FeedsAreUnique(edges, l, Switches(vertices), g);
    forall a, b | a in NoSwitchDependencies(vertices) && b in NoSwitchDependencies(vertices)
      ensures Connected(l.direct, f, a, b) <==> Connected(l.direct, All(l.direct), a, b)
    {
      if Connected(l.direct, f, a, b) {
        ConnectedGrows(l.direct, f, All(l.direct), a, b);
      }
      if Connected(l.direct, All(l.direct), a, b) {
        ConnectedInWhole(edges, l.directAt, l.direct, All(l.direct), own, a, b);
        DirectlyConnected(edges, l, g, a, b);
      }
    }
  }

  lemma GroupPartSpans(edges: seq<Edge>, vertices: set<Vertex>, l: Sorted, g: set<int>)
    requires SortedOk(edges, l) && Proper(edges, vertices, l, g)
    ensures SpanningForest(LightsAndSwitches(vertices), l.group, Preimage(l.groupAt, g))
  {
    var f, own := Preimage(l.groupAt, g), Image(l.groupAt, All(l.group));
    ForestInList(edges, l.groupAt, l.group, g);
    forall a, b | a in LightsAndSwitches(vertices) && b in LightsAndSwitches(vertices)
      ensures Connected(l.group, f, a, b) <==> Connected(l.group, All(l.group), a, b)
    {
      if Connected(l.group, f, a, b) {
        ConnectedGrows(l.group, f, All(l.group), a, b);
      }
      if Connected(l.group, All(l.group), a, b) {
        ConnectedInWhole(edges, l.groupAt, l.group, All(l.group), own, a, b);
        SameGroup(edges, l, All(l.group), a, b);
        ConnectedBehind(edges, l, g, SwitchBehind(a), a, b);
      }
    }
  }

  /** So no proper wiring costs less than the cheapest parts together. */
  lemma LeastWiring(edges: seq<Edge>, vertices: set<Vertex>, l: Sorted, d: set<int>, h: set<int>, c: set<int>, g: set<int>)
    requires SortedOk(edges, l) && Proper(edges, vertices, l, g)
    requires MinimumSpanningForest(NoSwitchDependencies(vertices), l.direct, d) && MinimumSpanningForest(LightsAndSwitches(vertices), l.group, h)
    requires EdgeSet(l.cross, c) && forall e :: OnePerSwitch(l.cross, Switches(vertices), e) ==> Cost(l.cross, c) <= Cost(l.cross, e)
    ensures Cost(edges, Whole(l, d, h, c)) <= Cost(edges, g)
  {
    InParts(edges, l, g);
    DirectPartSpans(edges, vertices, l, g);
    GroupPartSpans(edges, vertices, l, g);
    CostInParts(edges, l, d, h, c);
    CostInParts(edges, l, Preimage(l.directAt, g), Preimage(l.groupAt, g), Preimage(l.crossAt, g));
  }

  // ----- And the parts together are a proper wiring

  lemma FewerFeeds(edges: seq<Edge>, g: set<int>, i: int)
    requires OneFeedAtMost(edges, g)
    ensures OneFeedAtMost(edges, g - {i})
  {
    forall s, j, k | Feeds(edges, g - {i}, j, s) && Feeds(edges, g - {i}, k, s)
      ensures j == k
    {
      assert Feeds(edges, g, j, s) && Feeds(edges, g, k, s);
    }
  }

  /** No edge of the whole closes a cycle. */
  lemma NoCycle(edges: seq<Edge>, l: Sorted, g: set<int>, i: int)
    requires SortedOk(edges, l) && AllValid(edges, g) && OneFeedAtMost(edges, g) && i in g
    requires IsForest(l.direct, Preimage(l.directAt, g)) && IsForest(l.group, Preimage(l.groupAt, g))
    ensures EdgeSet(edges, g - {i}) && !Connected(edges, g - {i}, edges[i].v1, edges[i].v2)
  {
    var a, b := edges[i].v1, edges[i].v2;
    FewerFeeds(edges, g, i);
    match SortOf(edges[i])
    case Direct =>
      var k := ListedAt(edges, Direct, i);
      PreimageWithout(edges, l.directAt, l.direct, g, k);
      if Connected(edges, g - {i}, a, b) {
        DirectlyConnected(edges, l, g - {i}, a, b);
      }
    case Group =>
      var k := ListedAt(edges, Group, i);
      PreimageWithout(edges, l.groupAt, l.group, g, k);
      if Connected(edges, g - {i}, a, b) {
        ConnectedBehind(edges, l, g - {i}, SwitchBehind(a), a, b);
      }
    case Cross =>
      assert Feeds(edges, g, i, SwitchOf(edges[i]));
      CutOff(edges, g, i);
  }

  lemma WholeIsProper(edges: seq<Edge>, vertices: set<Vertex>, l: Sorted, d: set<int>, h: set<int>, c: set<int>)
    requires SortedOk(edges, l)
    requires SpanningForest(NoSwitchDependencies(vertices), l.direct, d) && SpanningForest(LightsAndSwitches(vertices), l.group, h)
    requires OnePerSwitch(l.cross, Switches(vertices), c)
    ensures Proper(edges, vertices, l, Whole(l, d, h, c))
  {
    var g := Whole(l, d, h, c);
    PartsOfWhole(edges, l, d, h, c);
    FeedsAreUnique(edges, l, Switches(vertices), g);
    forall i | i in g
      ensures EdgeSet(edges, g - {i}) && !Connected(edges, g - {i}, edges[i].v1, edges[i].v2)
    {
      NoCycle(edges, l, g, i);
    }
    SideJoined(edges, l.directAt, l.direct, NoSwitchDependencies(vertices), d, g);
    SideJoined(edges, l.groupAt, l.group, LightsAndSwitches(vertices), h, g);
  }

  lemma SideJoined(edges: seq<Edge>, idx: seq<int>, sub: seq<Edge>, side: set<Vertex>, f: set<int>, g: set<int>)
    requires Lists(edges, idx, sub) && EdgeSet(edges, g) && Image(idx, f) <= g && SpanningForest(side, sub, f)
    ensures EdgeSet(edges, Image(idx, All(sub))) && JoinsSide(edges, side, Image(idx, All(sub)), g)
  {
    forall a, b | a in side && b in side && Connected(edges, Image(idx, All(sub)), a, b)
      ensures Connected(edges, g, a, b)
    {
      ConnectedInList(edges, idx, sub, All(sub), a, b);
      ConnectedInWhole(edges, idx, sub, f, g, a, b);
    }
  }

  // ----- The program

  lemma SidesOver(edges: seq<Edge>, vertices: set<Vertex>, l: Sorted)
    requires SortedOk(edges, l) && Over(edges, vertices)
    ensures Over(l.direct, NoSwitchDependencies(vertices)) && Over(l.group, LightsAndSwitches(vertices)) && AllCross(l.cross, Switches(vertices))
  {
    forall k | 0 <= k < |l.direct|
      ensures l.direct[k].v1 in NoSwitchDependencies(vertices) && l.direct[k].v2 in NoSwitchDependencies(vertices)
    {
      assert SortOf(edges[l.directAt[k]]).Direct?;
    }
    forall k | 0 <= k < |l.group|
      ensures l.group[k].v1 in LightsAndSwitches(vertices) && l.group[k].v2 in LightsAndSwitches(vertices)
    {
      assert SortOf(edges[l.groupAt[k]]).Group?;
    }
    forall k | 0 <= k < |l.cross|
      ensures IsCross(l.cross[k]) && SwitchOf(l.cross[k]) in Switches(vertices)
    {
      assert SortOf(edges[l.crossAt[k]]).Cross?;
    }
  }

  /**
    main, its input read. None is the null dereference when a switch has no
    connection to hook it up by; else the cost printed is that of a proper
    wiring, and no proper wiring costs less.
   */
  method WireHouse(edges: seq<Edge>, vertices: set<Vertex>) returns (sum: Option<int>, ghost l: Sorted, ghost g: set<int>)
    requires Over(edges, vertices)
    ensures SortedOk(edges, l)
    ensures sum.None? <==> exists s :: s in Switches(vertices) && Unreachable(l.cross, s)
    ensures sum.Some? ==> Proper(edges, vertices, l, g) && sum.value == Cost(edges, g)
    ensures sum.Some? ==> forall e :: Proper(edges, vertices, l, e) ==> Cost(edges, g) <= Cost(edges, e)
  {
    var lists := SortEdges(edges);
    l := lists;
    g := {};
    SidesOver(edges, vertices, l);
    hide *;
    var d := KruskalMST(lists.direct, NoSwitchDependencies(vertices));
    var h := KruskalMST(lists.group, LightsAndSwitches(vertices));
    var c := HookSwitches(lists.cross, Switches(vertices));
    if c.None? {
      return None, l, g;
    }
    g := Whole(l, d, h, c.value);
    WiringIsBest(edges, vertices, l, d, h, c.value);
    var a := TotalCost(lists.direct, d);
    var b := TotalCost(lists.group, h);
    var e := TotalCost(lists.cross, c.value);
    sum := Some(a + b + e);
  }

  lemma WiringIsBest(edges: seq<Edge>, vertices: set<Vertex>, l: Sorted, d: set<int>, h: set<int>, c: set<int>)
    requires SortedOk(edges, l)
    requires MinimumSpanningForest(NoSwitchDependencies(vertices), l.direct, d) && MinimumSpanningForest(LightsAndSwitches(vertices), l.group, h)
    requires OnePerSwitch(l.cross, Switches(vertices), c)
    requires forall e :: OnePerSwitch(l.cross, Switches(vertices), e) ==> Cost(l.cross, c) <= Cost(l.cross, e)
    ensures Proper(edges, vertices, l, Whole(l, d, h, c))
    ensures Cost(edges, Whole(l, d, h, c)) == Cost(l.direct, d) + Cost(l.group, h) + Cost(l.cross, c)
    ensures forall g :: Proper(edges, vertices, l, g) ==> Cost(edges, Whole(l, d, h, c)) <= Cost(edges, g)
  {
    WholeIsProper(edges, vertices, l, d, h, c);
    CostInParts(edges, l, d, h, c);
    forall g | Proper(edges, vertices, l, g)
      ensures Cost(edges, Whole(l, d, h, c)) <= Cost(edges, g)
    {
      LeastWiring(edges, vertices, l, d, h, c, g);
    }
  }
}
