/** The last part of the wiring program: one cheapest cross edge for every switch. */
module HookUp {
  import opened DisjointSets
  import opened Forests
  import opened IntSets
  import opened Kruskal
  import opened Wrappers

  /** A cross edge joins a switch to something that is not one. */
  ghost predicate IsCross(e: Edge) {
    (e.v1.Switch? && !e.v2.Switch?) || (!e.v1.Switch? && e.v2.Switch?)
  }

  function SwitchOf(e: Edge): Vertex {
    if e.v1.Switch? then e.v1 else e.v2
  }

  ghost predicate AllCross(edges: seq<Edge>, switches: set<Vertex>) {
    forall i :: 0 <= i < |edges| ==> IsCross(edges[i]) && SwitchOf(edges[i]) in switches
  }

  /** The edges of f give every vertex of s exactly one cross edge, and nothing else one. */
  ghost predicate OnePerSwitch(edges: seq<Edge>, s: set<Vertex>, f: set<int>) {
    && EdgeSet(edges, f)
    && (forall i :: i in f ==> SwitchOf(edges[i]) in s)
    && (forall v :: v in s ==> exists i :: i in f && SwitchOf(edges[i]) == v)
    && (forall i, j :: i in f && j in f && SwitchOf(edges[i]) == SwitchOf(edges[j]) ==> i == j)
  }

  /** The edge chosen for a switch costs no more than any other edge of that switch. */
  ghost predicate CheapestPerSwitch(edges: seq<Edge>, f: set<int>)
    requires EdgeSet(edges, f)
  {
    forall i, j :: i in f && 0 <= j < |edges| && SwitchOf(edges[i]) == SwitchOf(edges[j]) ==> edges[i].cost <= edges[j].cost
  }

  /** Choosing the cheapest edge switch by switch is cheapest in total. */
  lemma {:induction false} CheapestInTotal(edges: seq<Edge>, s: set<Vertex>, f: set<int>, g: set<int>)
    requires OnePerSwitch(edges, s, f) && OnePerSwitch(edges, s, g) && CheapestPerSwitch(edges, f)
    ensures Cost(edges, f) <= Cost(edges, g)
    decreases |f|
  {
    if |f| == 0 {
      assert f == {};
      assert g == {} by {
        assert forall j :: j !in g;
      }
    } else {
      var i := Pick(f);
      var v := SwitchOf(edges[i]);
      var j :| j in g && SwitchOf(edges[j]) == v;
      OneFewer(edges, s, f, i);
      OneFewer(edges, s, g, j);
      CheapestInTotal(edges, s - {v}, f - {i}, g - {j});
      ExcessWithout(edges, f, 0, i);
      ExcessWithout(edges, g, 0, j);
    }
  }

  lemma OneFewer(edges: seq<Edge>, s: set<Vertex>, f: set<int>, i: int)
    requires OnePerSwitch(edges, s, f) && i in f
    ensures OnePerSwitch(edges, s - {SwitchOf(edges[i])}, f - {i})
  {
    var v := SwitchOf(edges[i]);
    forall u | u in s - {v}
      ensures exists k :: k in f - {i} && SwitchOf(edges[k]) == u
    {
      var k :| k in f && SwitchOf(edges[k]) == u;
      assert k in f - {i};
    }
  }

  /** The state of the loop: f serves the switches hooked so far, and serves them best. */
  ghost predicate Hooking(edges: seq<Edge>, switches: set<Vertex>, queue: set<int>, hooked: set<Vertex>, f: set<int>) {
    && EdgeSet(edges, queue) && hooked <= switches
    && OnePerSwitch(edges, hooked, f) && CheapestPerSwitch(edges, f)
    && (forall j :: 0 <= j < |edges| && j !in queue ==> SwitchOf(edges[j]) in hooked)
  }

  lemma HookStep(edges: seq<Edge>, switches: set<Vertex>, queue: set<int>, hooked: set<Vertex>, f: set<int>, e: int)
    requires AllCross(edges, switches) && Hooking(edges, switches, queue, hooked, f)
    requires EdgeSet(edges, queue) && Cheapest(edges, queue, e)
    ensures SwitchOf(edges[e]) in hooked ==> Hooking(edges, switches, queue - {e}, hooked, f)
    ensures SwitchOf(edges[e]) !in hooked ==> Hooking(edges, switches, queue - {e}, hooked + {SwitchOf(edges[e])}, f + {e})
  {
    var v := SwitchOf(edges[e]);
    if v !in hooked {
      HookNew(edges, hooked, f, e);
    }
  }

  lemma HookNew(edges: seq<Edge>, hooked: set<Vertex>, f: set<int>, e: int)
    requires OnePerSwitch(edges, hooked, f) && 0 <= e < |edges| && SwitchOf(edges[e]) !in hooked
    ensures OnePerSwitch(edges, hooked + {SwitchOf(edges[e])}, f + {e})
  {
    var v := SwitchOf(edges[e]);
    forall u | u in hooked + {v}
      ensures exists k :: k in f + {e} && SwitchOf(edges[k]) == u
    {
      if u == v {
        assert e in f + {e};
      } else {
        var k :| k in f && SwitchOf(edges[k]) == u;
        assert k in f + {e};
      }
    }
  }

  ghost predicate Unreachable(edges: seq<Edge>, v: Vertex) {
    forall j :: 0 <= j < |edges| ==> SwitchOf(edges[j]) != v
  }

  /**
    Hooks up every switch. Running out of edges is a null dereference in the
    program: it happens exactly when some switch has no cross edge at all.
   */
  method HookSwitches(edges: seq<Edge>, switches: set<Vertex>) returns (r: Option<set<int>>)
    requires AllCross(edges, switches)
    ensures r.None? <==> exists v :: v in switches && Unreachable(edges, v)
    ensures r.Some? ==> OnePerSwitch(edges, switches, r.value)
    ensures r.Some? ==> forall g :: OnePerSwitch(edges, switches, g) ==> Cost(edges, r.value) <= Cost(edges, g)
  {
    var numSwitch := |switches|;
    var hooked, f, queue := {}, {}, Numbers(|edges|);
    while |hooked| != numSwitch
      invariant Hooking(edges, switches, queue, hooked, f)
      decreases |queue|
    {
      if queue == {} {
        SomeUnreachable(edges, switches, hooked, f);
        return None;
      }
      var e;
      ghost var before := queue;
      e, queue := Poll(edges, queue);
      HookStep(edges, switches, before, hooked, f, e);
      var theSwitch := SwitchOf(edges[e]);
      if theSwitch !in hooked {
        hooked := hooked + {theSwitch};
        f := f + {e};
      }
    }
    SameSize(hooked, switches);
    forall g | OnePerSwitch(edges, switches, g)
      ensures Cost(edges, f) <= Cost(edges, g)
    {
      CheapestInTotal(edges, switches, f, g);
    }
    r := Some(f);
  }

  lemma SameSize(a: set<Vertex>, b: set<Vertex>)
    requires a <= b && |a| == |b|
    ensures a == b
  {
    assert |b - a| == 0;
    assert b == a + (b - a);
  }

  lemma SomeUnreachable(edges: seq<Edge>, switches: set<Vertex>, hooked: set<Vertex>, f: set<int>)
    requires Hooking(edges, switches, {}, hooked, f) && |hooked| != |switches|
    ensures exists v :: v in switches && Unreachable(edges, v)
  {
    assert switches != hooked;
    var v :| v in switches && v !in hooked;
    assert Unreachable(edges, v);
  }
}
