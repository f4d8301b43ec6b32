/**
  The coordinator's program among the workers (operating-systems/twophase): what
  Brain does in one call is an execution of the system that the protocol's
  theorems are about.
 */
module TwoPhaseBrain {
  import opened Wrappers
  import opened TwoPhaseNodes
  import opened TwoPhase
  import opened TwoPhaseRounds

  /** Brain may be entered: the workers are up, and the coordinator is about to ask the first. */
  ghost predicate Ready(s: System) {
    && Calm(s) && s.coord.Up?
    && s.coord.at == if s.coord.m.state == Init then Rest else Asking(0, false, [])
  }

  /** A vote that came back is the one that the worker cast. */
  ghost predicate Truthful(s: System, votes: seq<Option<Ballot>>) {
    Ready(s) && s.coord.m.state == Waiting ==>
      |votes| == |s.nodes| && forall w :: 0 <= w < |votes| && votes[w].Some? ==> votes[w].value == Vote(s, w)
  }

  lemma RoundIsCalm(s: System, k: nat)
    requires Asks(s) && k <= |s.nodes|
    ensures Calm(Round(s, k))
  {
    hide Handle;
  }

  /** One step of Brain. */
  lemma StepOn(s: System, m: CoordMemory, request: Option<Value>, votes: seq<Option<Ballot>>, acks: seq<Option<()>>) returns (t: System)
    requires Ready(s) && Truthful(s, votes) && Advances(s.coord.m, m, request, votes, acks)
    ensures Reaches(s, t) && Ready(t) && t.coord.m == m && t.log == Some(CoordEntryOf(m))
    ensures |t.nodes| == |s.nodes|
    ensures s.coord.m.state == Init ==> m.state == Waiting && Leads(s, Begin(request.value), t)
    ensures m.state == Waiting ==> s.coord.m.state == Init
  {
    if s.coord.m.state == Init {
      t := Next(s, Begin(request.value)).value;
      Stay(s);
      Go(s, s, Begin(request.value), t);
    } else {
      var n := |s.nodes|;
      var u := Round(s, n);
      AskAll(s, n);
      RoundIsCalm(s, n);
      var step := if s.coord.m.state == Waiting then Decide else Finish;
      if s.coord.m.state == Waiting {
        assert u.coord.at.votes == Came(votes);
      }
      t := Next(u, step).value;
      hide Exec, Handle;
      Go(s, u, step, t);
    }
  }

  /** A call that raises an exception ends Brain where it is. */
  lemma StopAt(s: System, w: nat) returns (t: System)
    requires Ready(s) && s.coord.m.state != Init && w < |s.nodes|
    ensures Reaches(s, t) && t.coord == Up(s.coord.m, Stuck) && t.log == s.log
  {
    var u := Round(s, w);
    AskAll(s, w);
    hide Exec, Handle;
    var v := Next(u, Send).value;
    Go(s, u, Send, v);
    t := Next(v, Fail).value;
    Go(s, v, Fail, t);
  }

  /**
    Brain's memory and log, after any answers that its calls can return, are
    those at the end of an execution of the whole system.
   */
  lemma BrainIsExec(s: System, path: seq<CoordMemory>, request: Option<Value>, votes: seq<Option<Ballot>>, acks: seq<Option<()>>) returns (t: System)
    requires Ready(s) && |votes| == |acks| == |s.nodes| && BrainPath(path, request, votes, acks) && path[0] == s.coord.m
    requires Truthful(s, votes) && forall v, u :: Leads(s, Begin(v), u) ==> Truthful(u, votes)
    ensures Reaches(s, t) && t.coord.Up? && t.coord.m == path[|path| - 1]
    ensures t.log == if |path| == 1 then s.log else Some(CoordEntryOf(t.coord.m))
    ensures if t.coord.m.state == Init then t.coord.at == Rest else t.coord.at == Stuck
  {
    Stay(s);
    var k := 0;
    t := s;
    hide Exec, Reaches, Handle, Calm;
    while k < |path| - 1
      invariant 0 <= k < |path| && Reaches(s, t) && Ready(t) && t.coord.m == path[k] && Truthful(t, votes)
      invariant k == 0 ==> t == s
      invariant t.log == if k == 0 then s.log else Some(CoordEntryOf(t.coord.m))
      invariant |t.nodes| == |s.nodes|
    {
      PathSaid(path, k + 1, request, votes, acks);
      var u := StepOn(t, path[k + 1], request, votes, acks);
      ReachesTransitive(s, t, u);
      assert path[k].state == Init ==> k == 0;
      t, k := u, k + 1;
    }
    if t.coord.m.state != Init {
      var w := FirstFailed(t.coord.m, votes, acks, |t.nodes|);
      var u := StopAt(t, w);
      ReachesTransitive(s, t, u);
      t := u;
    }
  }

  lemma FirstFailed(m: CoordMemory, votes: seq<Option<Ballot>>, acks: seq<Option<()>>, n: nat) returns (w: nat)
    requires |votes| == |acks| == n && m.state != Init
    requires if m.state == Waiting then !AllCame(votes) else !AllCame(acks)
    ensures w < n
  {
    if m.state == Waiting {
      w :| 0 <= w < n && votes[w].None?;
    } else {
      w :| 0 <= w < n && acks[w].None?;
    }
  }
}
