/**
  What two-phase commit achieves when nothing fails any more
  (operating-systems/twophase): a request is carried out, and after any
  failures a restart of the coordinator finishes what was under way.
 */
module TwoPhaseRounds {
  import opened Wrappers
  import opened TwoPhaseNodes
  import opened TwoPhase

  ghost predicate Reaches(s: System, t: System) {
    exists steps :: Exec(s, steps) == Some(t)
  }

  ghost function Exec(s: System, steps: seq<Step>): Option<System> {
    if steps == [] then Some(s)
    else match Exec(s, steps[..|steps| - 1])
      case None => None
      case Some(t) => Next(t, steps[|steps| - 1])
  }

  lemma Stay(s: System)
    ensures Reaches(s, s)
  {
    assert Exec(s, []) == Some(s);
  }

  lemma Go(s: System, t: System, step: Step, u: System)
    requires Reaches(s, t) && Next(t, step) == Some(u)
    ensures Reaches(s, u)
  {
    var steps :| Exec(s, steps) == Some(t);
    assert (steps + [step])[..|steps|] == steps;
    assert Exec(s, steps + [step]) == Some(u);
  }

  /** Every worker is up and no request is under way. */
  ghost predicate Calm(s: System) {
    && |s.wires| == |s.nodes|
    && (forall w {:trigger s.wires[w]} :: 0 <= w < |s.wires| ==> s.wires[w] == [])
    && forall w {:trigger s.nodes[w]} :: 0 <= w < |s.nodes| ==> s.nodes[w].memory.Some?
  }

  /** At the start of a round. */
  ghost predicate Asks(s: System) {
    Calm(s) && s.coord.Up? && s.coord.at == Asking(0, false, []) && s.coord.m.state != Init
  }

  ghost function Vote(s: System, w: nat): Ballot
    requires Asks(s) && w < |s.nodes|
  {
    Handle(s.nodes[w].memory.value, s.nodes[w].log, Call(s.coord.m)).vote
  }

  /** The round after k workers. */
  ghost function Round(s: System, k: nat): (t: System)
    requires Asks(s) && k <= |s.nodes|
    ensures |t.nodes| == |s.nodes| && forall w {:trigger t.nodes[w]} :: 0 <= w < |s.nodes| ==> t.nodes[w] == if w < k then AfterRequest(s.nodes[w], Call(s.coord.m)) else s.nodes[w]
  {
    System(
      s.log,
      Up(s.coord.m, Asking(k, false, seq(k, w requires 0 <= w < k => Vote(s, w)))),
      seq(|s.nodes|, w requires 0 <= w < |s.nodes| => if w < k then AfterRequest(s.nodes[w], Call(s.coord.m)) else s.nodes[w]),
      s.wires)
  }

  lemma AskOne(s: System, k: nat)
    requires Asks(s) && k < |s.nodes| && Reaches(s, Round(s, k))
    ensures Reaches(s, Round(s, k + 1))
  {
    var t, r := Round(s, k), Call(s.coord.m);
    var u := t.(coord := Up(s.coord.m, t.coord.at.(sent := true)), wires := t.wires[k := [r]]);
    assert t.wires[k] + [r] == [r];
    Go(s, t, Send, u);
    var v := Round(s, k + 1);
    assert u.wires[k][1..] == [] == s.wires[k];
    assert u.wires[k := u.wires[k][1..]] == s.wires;
    assert u.nodes[k := AfterRequest(u.nodes[k], r)] == v.nodes;
    assert t.coord.at.votes + [Vote(s, k)] == v.coord.at.votes;
    Go(s, u, Deliver(k, true), v);
  }

  lemma {:induction false} AskAll(s: System, k: nat)
    requires Asks(s) && k <= |s.nodes|
    ensures Reaches(s, Round(s, k))
  {
    if k == 0 {
      assert Round(s, 0) == s;
      Stay(s);
    } else {
      AskAll(s, k - 1);
      AskOne(s, k - 1);
    }
  }

  /** A whole round keeps the invariant and serves every worker. */
  lemma RoundServes(s: System, before: Option<Value>)
    requires Asks(s) && Inv(s, before)
    ensures var t := Round(s, |s.nodes|); Inv(t, before) && Calm(t)
  {
    var t, r := Round(s, |s.nodes|), Call(s.coord.m);
    assert RequestOk(r, s.log);
    forall w {:trigger t.nodes[w]} | 0 <= w < |t.nodes|
      ensures NodeServed(t.nodes[w], s.log, before) && t.nodes[w].memory.Some?
    {
      HandleServes(s.nodes[w], r, s.log, before);
    }
    hide NodeServed, RequestOk, Handle;
    forall w {:trigger t.nodes[w]} | 0 <= w < |t.nodes|
      ensures NodeOk(t.nodes[w], s.log, before)
    {
      ServedIsOk(t.nodes[w], s.log, before);
    }
  }

  /** Everyone is up, no request is under way, and the coordinator waits for the next one. */
  ghost predicate Waits(s: System) {
    Calm(s) && s.coord.Up? && s.coord.at.Rest?
  }

  /** And everyone is available with this value. */
  ghost predicate AllHold(s: System, v: Option<Value>) {
    Waits(s) && forall w {:trigger s.nodes[w]} :: 0 <= w < |s.nodes| ==> Available(s.nodes[w]) && s.nodes[w].memory.value.value == v
  }

  lemma InitHolds(s: System, v: Option<Value>)
    requires Waits(s) && Inv(s, v)
    ensures AllHold(s, v)
  {
    forall w {:trigger s.nodes[w]} | 0 <= w < |s.nodes|
      ensures Available(s.nodes[w]) && s.nodes[w].memory.value.value == v
    {
      assert NodeOk(s.nodes[w], s.log, v);
    }
  }

  /** A logged decision is carried out. */
  lemma Resolves(s: System, before: Option<Value>) returns (t: System)
    requires Asks(s) && Inv(s, before) && (s.coord.m.state == Committing || s.coord.m.state == Aborting)
    ensures Reaches(s, t) && AllHold(t, Outcome(s.log.value, before)) && |t.nodes| == |s.nodes|
  {
    var u := Round(s, |s.nodes|);
    AskAll(s, |s.nodes|);
    RoundServes(s, before);
    t := Next(u, Finish).value;
    StepKeeps(u, before, Finish);
    hide NodeOk, WireOk, AskedUpTo, Exec;
    Go(s, u, Finish, t);
    InitHolds(t, Outcome(s.log.value, before));
  }

  /** No worker has voted in the transaction under way. */
  ghost predicate NobodyVoted(s: System) {
    forall w {:trigger s.nodes[w]} :: 0 <= w < |s.nodes| ==> Available(s.nodes[w])
  }

  lemma VoteIs(s: System, before: Option<Value>, w: nat)
    requires Asks(s) && Inv(s, before) && s.coord.m.state == Waiting && w < |s.nodes|
    ensures Vote(s, w) == Ballot("COMMIT", s.coord.m.current) <==> Available(s.nodes[w])
  {
    assert NodeOk(s.nodes[w], s.log, before);
  }

  lemma ElectionIsUnanimous(s: System, before: Option<Value>)
    requires Asks(s) && Inv(s, before) && s.coord.m.state == Waiting
    ensures Unanimous(Round(s, |s.nodes|).coord.at.votes, s.coord.m.current) <==> NobodyVoted(s)
  {
    var votes := Round(s, |s.nodes|).coord.at.votes;
    forall w | 0 <= w < |s.nodes|
      ensures votes[w] == Ballot("COMMIT", s.coord.m.current) <==> Available(s.nodes[w])
    {
      VoteIs(s, before, w);
    }
    if NobodyVoted(s) {
      assert forall w :: 0 <= w < |s.nodes| ==> Available(s.nodes[w]);
    } else {
      var w :| 0 <= w < |s.nodes| && !Available(s.nodes[w]);
      assert votes[w] != Ballot("COMMIT", s.coord.m.current);
    }
  }

  /** What the transaction under way comes to when the coordinator starts a round over. */
  ghost function Fate(s: System, before: Option<Value>): Option<Value>
    requires s.log.Some?
  {
    if s.log.value.state == Committing || (s.log.value.state == Waiting && NobodyVoted(s)) then s.log.value.newValue else before
  }

  lemma Elects(s: System, before: Option<Value>) returns (t: System)
    requires Asks(s) && Inv(s, before) && s.coord.m.state == Waiting
    ensures Reaches(s, t) && Asks(t) && Inv(t, before) && |t.nodes| == |s.nodes|
    ensures (t.coord.m.state == Committing || t.coord.m.state == Aborting) && Outcome(t.log.value, before) == Fate(s, before)
  {
    var u := Round(s, |s.nodes|);
    AskAll(s, |s.nodes|);
    RoundServes(s, before);
    ElectionIsUnanimous(s, before);
    t := Next(u, Decide).value;
    StepKeeps(u, before, Decide);
    hide NodeOk, WireOk, AskedUpTo, Exec, NobodyVoted, Unanimous;
    Go(s, u, Decide, t);
  }

  lemma {:induction false} ReachesOn(s: System, t: System, steps: seq<Step>, u: System)
    requires Reaches(s, t) && Exec(t, steps) == Some(u)
    ensures Reaches(s, u)
    decreases |steps|
  {
    if steps != [] {
      var last := |steps| - 1;
      ReachesOn(s, t, steps[..last], Exec(t, steps[..last]).value);
      Go(s, Exec(t, steps[..last]).value, steps[last], u);
    }
  }

  lemma ReachesTransitive(s: System, t: System, u: System)
    requires Reaches(s, t) && Reaches(t, u)
    ensures Reaches(s, u)
  {
    var steps :| Exec(t, steps) == Some(u);
    ReachesOn(s, t, steps, u);
  }

  lemma RoundsComplete(s: System, before: Option<Value>) returns (t: System)
    requires Asks(s) && Inv(s, before)
    ensures s.log.Some? && Reaches(s, t) && AllHold(t, Fate(s, before)) && |t.nodes| == |s.nodes|
  {
    hide Reaches, NobodyVoted, NodeOk, WireOk, AskedUpTo, Calm;
    if s.coord.m.state == Waiting {
      var u := Elects(s, before);
      t := Resolves(u, before);
      ReachesTransitive(s, u, t);
    } else {
      t := Resolves(s, before);
    }
  }

  lemma RequestIsCarriedOut(s: System, before: Option<Value>, v: Value) returns (t: System)
    requires Waits(s) && Inv(s, before)
    ensures Reaches(s, t) && AllHold(t, Some(v))
  {
    InitHolds(s, before);
    var u := Next(s, Begin(v)).value;
    StepKeeps(s, before, Begin(v));
    assert NobodyVoted(u);
    t := RoundsComplete(u, before);
    hide Exec, NodeOk, WireOk;
    Stay(s);
    Go(s, s, Begin(v), u);
    ReachesTransitive(s, u, t);
  }

  lemma RestartFinishes(s: System, before: Option<Value>) returns (t: System)
    requires Calm(s) && Inv(s, before)
    ensures Reaches(s, t) && AllHold(t, if PhaseOf(s.log) == Init then before else Fate(s, before))
  {
    var d := s.(coord := Down);
    var m := RecoveredCoordinator(s.log);
    var u := d.(coord := Up(m, if m.state == Init then Rest else Asking(0, false, [])));
    StepKeeps(s, before, CrashCoordinator);
    StepKeeps(d, before, RestartCoordinator);
    Stay(s);
    Go(s, s, CrashCoordinator, d);
    Go(s, d, RestartCoordinator, u);
    hide Exec, NodeOk, WireOk, Reaches;
    if m.state == Init {
      t := u;
      InitHolds(t, before);
    } else {
      t := RoundsComplete(u, before);
      ReachesTransitive(s, u, t);
    }
  }

  /** What can be reached from the end of a run, a longer run reaches. */
  lemma {:induction false} RunOn(run: seq<System>, steps: seq<Step>, t: System) returns (more: seq<System>)
    requires Run(run) && Exec(run[|run| - 1], steps) == Some(t)
    ensures Run(run + more) && (run + more)[|run + more| - 1] == t
    decreases |steps|
  {
    if steps == [] {
      more := [];
      assert run + [] == run;
    } else {
      var last := |steps| - 1;
      var u := Exec(run[|run| - 1], steps[..last]).value;
      more := RunOn(run, steps[..last], u);
      assert Leads(u, steps[last], t);
      hide Run, Exec, Follows;
      assert Follows(u, t) by { LeadsFollows(u, steps[last], t); }
      Extended(run + more, t);
      assert run + (more + [t]) == (run + more) + [t];
      more := more + [t];
    }
  }

  lemma LeadsFollows(s: System, step: Step, t: System)
    requires Leads(s, step, t)
    ensures Follows(s, t)
  {
  }

  /**
    With every worker up and nothing failing, a request is carried out: every
    run that waits for it has a continuation at whose end everyone holds the
    value asked for.
   */
  lemma RequestSucceeds(run: seq<System>, v: Value) returns (more: seq<System>)
    requires Run(run) && Waits(run[|run| - 1])
    ensures Run(run + more) && AllHold((run + more)[|run + more| - 1], Some(v))
  {
    var s := run[|run| - 1];
    RunKeeps(run, |run| - 1);
    var t := RequestIsCarriedOut(s, LastCommitted(run, |run| - 1), v);
    var steps :| Exec(s, steps) == Some(t);
    more := RunOn(run, steps, t);
  }

  /**
    After any failures, once the workers are up and the wires clear, a restart of
    the coordinator brings everyone to one value: the new one if it was
    committed or nobody had voted, else the one last committed in the run.
   */
  lemma RestartCompletes(run: seq<System>) returns (more: seq<System>)
    requires Run(run) && Calm(run[|run| - 1])
    ensures Run(run + more)
    ensures var s, before := run[|run| - 1], LastCommitted(run, |run| - 1);
      AllHold((run + more)[|run + more| - 1], if PhaseOf(s.log) == Init then before else Fate(s, before))
  {
    var s := run[|run| - 1];
    RunKeeps(run, |run| - 1);
    var t := RestartFinishes(s, LastCommitted(run, |run| - 1));
    var steps :| Exec(s, steps) == Some(t);
    more := RunOn(run, steps, t);
  }

  // ----- Why the order of requests matters

  /** A vote that arrives late, after the abort of its transaction, makes the next abort write a log that no restart can read. */
  lemma LateVotePoisonsLog(m: WorkerMemory, log: Option<WorkerEntry>, b: Ballot, next: Ballot)
    requires m.state == Idle && m.id <= b.transID && next.transID != b.transID
    ensures
      var voted := Handle(m, log, CastVote(b));
      var aborted := Handle(voted.memory, voted.log, Abort(b));
      var late := Handle(aborted.memory, aborted.log, CastVote(b));
      RecoveredWorker(Handle(late.memory, late.log, Abort(next)).log) == None
  {
  }

  /** A SetValue that arrives again commits whatever the worker has agreed to since. */
  lemma LateSetValueCommits(m: WorkerMemory, log: Option<WorkerEntry>, b: Ballot, late: Ballot)
    requires m.state == Idle && m.id <= b.transID
    ensures var voted := Handle(m, log, CastVote(b));
      Handle(voted.memory, voted.log, SetValue(late)).memory == WorkerMemory(Some(b.content), None, Idle, b.transID)
  {
  }

  /** SetValue leaves the value it names available exactly if that was agreed to, or was available and nothing else was agreed to since. */
  lemma SetValueNamesIff(m: WorkerMemory, log: Option<WorkerEntry>, b: Ballot)
    ensures var after := Handle(m, log, SetValue(b)).memory;
      after.state == Idle && after.value == Some(b.content) <==>
        m.next == Some(b.content) || (m.next.None? && m.state == Idle && m.value == Some(b.content))
  {
  }

  /** So repeating the SetValue of b after a vote for c is harmless exactly if c has the same content. */
  lemma RepeatIsHarmlessIff(m: WorkerMemory, log: Option<WorkerEntry>, b: Ballot, c: Ballot)
    requires m.state == Idle && m.id <= b.transID <= c.transID
    ensures
      var agreed := Handle(m, log, CastVote(b));
      var applied := Handle(agreed.memory, agreed.log, SetValue(b));
      var next := Handle(applied.memory, applied.log, CastVote(c));
      var again := Handle(next.memory, next.log, SetValue(b)).memory;
      again.state == Idle && again.value == Some(b.content) <==> c.content == b.content
  {
  }
}
