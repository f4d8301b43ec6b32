/**
  Two-phase commit over all runs (operating-systems/twophase). Any node may
  crash between any two durable writes and restart from its log; a call may be
  lost, or fail at the caller and still be executed later; requests to one
  worker stay in order and none is executed twice.
 */
module TwoPhase {
  import opened Wrappers
  import opened TwoPhaseNodes

  /** Where the coordinator stands in the loop over its workers; Stuck after a call raised an exception. */
  datatype Progress = Rest | Asking(n: nat, sent: bool, votes: seq<Ballot>) | Stuck

  datatype Coord = Down | Up(m: CoordMemory, at: Progress)

  /** memory is None while the worker is down. */
  datatype Node = Node(log: Option<WorkerEntry>, memory: Option<WorkerMemory>)

  /** wires[w]: the requests under way to worker w, oldest first. */
  datatype System = System(log: Option<CoordEntry>, coord: Coord, nodes: seq<Node>, wires: seq<seq<Request>>)

  datatype Step =
    | Begin(v: Value)
    | Send
    | Deliver(w: nat, replied: bool)
    | Drop(w: nat, k: nat)
    | Fail
    | Decide
    | Finish
    | CrashCoordinator
    | RestartCoordinator
    | CrashWorker(w: nat)
    | RestartWorker(w: nat)

  ghost function Fresh(workers: nat): System {
    System(None, Up(RecoveredCoordinator(None), Rest), seq(workers, i => Node(None, RecoveredWorker(None))), seq(workers, i => []))
  }

  /** Is the coordinator waiting for worker w? Then its call is the last on the wire. */
  ghost predicate Awaits(c: Coord, w: nat) {
    c.Up? && c.at.Asking? && c.at.sent && c.at.n == w
  }

  ghost predicate CanAsk(s: System) {
    s.coord.Up? && s.coord.at.Asking? && !s.coord.at.sent
  }

  ghost predicate Present(s: System, w: nat) {
    w < |s.nodes| && w < |s.wires|
  }

  /** None: the step cannot be taken here. */
  ghost function Next(s: System, step: Step): Option<System> {
    match step
    case Begin(v) =>
      if s.coord.Up? && s.coord.at.Rest? && s.coord.m.state == Init then
        Some(s.(log := Some(CoordEntryOf(Began(s.coord.m, v))), coord := Up(Began(s.coord.m, v), Asking(0, false, []))))
      else None
    case Send =>
      if CanAsk(s) && Present(s, s.coord.at.n) && s.coord.m.state != Init then
        Some(s.(coord := Up(s.coord.m, s.coord.at.(sent := true)), wires := s.wires[s.coord.at.n := s.wires[s.coord.at.n] + [Call(s.coord.m)]]))
      else None
    case Deliver(w, replied) =>
      if Present(s, w) && s.wires[w] != [] && s.nodes[w].memory.Some? then Some(Delivered(s, w, replied)) else None
    case Drop(w, k) =>
      if Present(s, w) && k < |s.wires[w]| then
        Some(s.(wires := s.wires[w := s.wires[w][..k] + s.wires[w][k + 1..]],
                coord := if Awaits(s.coord, w) && k == |s.wires[w]| - 1 then Up(s.coord.m, Stuck) else s.coord))
      else None
    case Fail =>
      if s.coord.Up? && s.coord.at.Asking? && s.coord.at.sent then Some(s.(coord := Up(s.coord.m, Stuck))) else None
    case Decide =>
      if CanAsk(s) && s.coord.at.n == |s.nodes| && s.coord.m.state == Waiting then
        var m := Decided(s.coord.m, s.coord.at.votes);
        Some(s.(log := Some(CoordEntryOf(m)), coord := Up(m, Asking(0, false, []))))
      else None
    case Finish =>
      if CanAsk(s) && s.coord.at.n == |s.nodes| && (s.coord.m.state == Committing || s.coord.m.state == Aborting) then
        var m := Finished(s.coord.m);
        Some(s.(log := Some(CoordEntryOf(m)), coord := Up(m, Rest)))
      else None
    case CrashCoordinator => Some(s.(coord := Down))
    case RestartCoordinator =>
      var m := RecoveredCoordinator(s.log);
      if s.coord.Down? then Some(s.(coord := Up(m, if m.state == Init then Rest else Asking(0, false, [])))) else None
    case CrashWorker(w) =>
      if w < |s.nodes| then Some(s.(nodes := s.nodes[w := s.nodes[w].(memory := None)])) else None
    case RestartWorker(w) =>
      if w < |s.nodes| && s.nodes[w].memory.None? then
        Some(s.(nodes := s.nodes[w := s.nodes[w].(memory := RecoveredWorker(s.nodes[w].log))]))
      else None
  }

  /** Nothing protects a node or a message: crashes, restarts of workers, losses and failing calls are possible whenever there is something to crash, restart, lose or fail. */
  lemma FaultsArePossible(s: System, w: nat, k: nat)
    ensures Next(s, CrashCoordinator) == Some(s.(coord := Down))
    ensures s.coord.Down? ==> Next(s, RestartCoordinator).Some? && Next(s, RestartCoordinator).value.coord.Up?
    ensures w < |s.nodes| ==> Next(s, CrashWorker(w)) == Some(s.(nodes := s.nodes[w := Node(s.nodes[w].log, None)]))
    ensures w < |s.nodes| && s.nodes[w].memory.None? ==>
      Next(s, RestartWorker(w)) == Some(s.(nodes := s.nodes[w := Node(s.nodes[w].log, RecoveredWorker(s.nodes[w].log))]))
    ensures Present(s, w) && k < |s.wires[w]| ==> Next(s, Drop(w, k)).Some? && Next(s, Drop(w, k)).value.wires == s.wires[w := s.wires[w][..k] + s.wires[w][k + 1..]]
    ensures s.coord.Up? && s.coord.at.Asking? && s.coord.at.sent ==> Next(s, Fail) == Some(s.(coord := Up(s.coord.m, Stuck)))
    ensures Present(s, w) && s.wires[w] != [] && s.nodes[w].memory.Some? ==> Next(s, Deliver(w, true)).Some? && Next(s, Deliver(w, false)).Some?
  {
    hide RecoveredCoordinator, RecoveredWorker;
  }

  ghost function AfterRequest(node: Node, r: Request): Node
    requires node.memory.Some?
  {
    var h := Handle(node.memory.value, node.log, r);
    Node(h.log, Some(h.memory))
  }

  /** The answer to the last request on the wire is the one the coordinator waits for. */
  ghost function Delivered(s: System, w: nat, replied: bool): System
    requires Present(s, w) && s.wires[w] != [] && s.nodes[w].memory.Some?
  {
    var h := Handle(s.nodes[w].memory.value, s.nodes[w].log, s.wires[w][0]);
    System(
      s.log,
      if !Awaits(s.coord, w) || |s.wires[w]| > 1 then s.coord
      else if replied then Up(s.coord.m, Asking(w + 1, false, s.coord.at.votes + [h.vote]))
      else Up(s.coord.m, Stuck),
      s.nodes[w := AfterRequest(s.nodes[w], s.wires[w][0])],
      s.wires[w := s.wires[w][1..]])
  }

  ghost predicate Leads(s: System, step: Step, t: System) {
    Next(s, step) == Some(t)
  }

  ghost predicate Follows(s: System, t: System) {
    exists step :: Leads(s, step, t)
  }

  ghost predicate Run(run: seq<System>) {
    && run != []
    && run[0] == Fresh(|run[0].nodes|)
    && forall i {:trigger StepAt(run, i)} :: 0 < i < |run| ==> StepAt(run, i)
  }

  ghost predicate StepAt(run: seq<System>, i: nat)
    requires 0 < i < |run|
  {
    Follows(run[i - 1], run[i])
  }

  // ----- What every run keeps

  lemma Extended(run: seq<System>, t: System)
    requires Run(run) && Follows(run[|run| - 1], t)
    ensures Run(run + [t])
  {
    hide Follows;
    var r := run + [t];
    forall i {:trigger StepAt(r, i)} | 0 < i < |r|
      ensures StepAt(r, i)
    {
      if i < |run| {
        assert StepAt(run, i);
      }
    }
  }

  ghost function PhaseOf(log: Option<CoordEntry>): Phase {
    if log.None? then Init else log.value.state
  }

  ghost function Counter(log: Option<CoordEntry>): int {
    if log.None? then 0 else log.value.counter
  }

  ghost predicate LogOk(log: Option<CoordEntry>) {
    PhaseOf(log) != Init ==> log.value.newValue.Some? && log.value.transID == log.value.counter
  }

  ghost predicate AgreedTo(m: WorkerMemory, e: CoordEntry, before: Option<Value>) {
    m == WorkerMemory(before, e.newValue, Agreed, e.transID)
  }

  ghost predicate Resting(m: WorkerMemory, v: Option<Value>) {
    m.value == v && m.next.None? && m.state == Idle
  }

  /** Where a worker can be, given the coordinator's log and the value before its transaction. */
  ghost predicate MemoryOk(m: WorkerMemory, log: Option<CoordEntry>, before: Option<Value>) {
    match PhaseOf(log)
    case Init => Resting(m, before) && m.id <= Counter(log)
    case Waiting => AgreedTo(m, log.value, before) || (Resting(m, before) && m.id < log.value.transID)
    case Committing => AgreedTo(m, log.value, before) || (Resting(m, log.value.newValue) && m.id == log.value.transID)
    case Aborting => AgreedTo(m, log.value, before) || (Resting(m, before) && m.id == log.value.transID)
  }

  /** Where it is once it has handled a request of this phase. */
  ghost predicate Served(m: WorkerMemory, log: Option<CoordEntry>, before: Option<Value>) {
    match PhaseOf(log)
    case Init => true
    case Waiting => AgreedTo(m, log.value, before)
    case Committing => Resting(m, log.value.newValue) && m.id == log.value.transID
    case Aborting => Resting(m, before) && m.id == log.value.transID
  }

  ghost predicate NodeOk(node: Node, log: Option<CoordEntry>, before: Option<Value>) {
    var r := RecoveredWorker(node.log);
    && r.Some? && (node.memory.Some? ==> node.memory == r)
    && MemoryOk(r.value, log, before)
  }

  ghost predicate NodeServed(node: Node, log: Option<CoordEntry>, before: Option<Value>) {
    NodeOk(node, log, before) && Served(RecoveredWorker(node.log).value, log, before)
  }

  /** Only requests of the current transaction and phase are under way. */
  ghost predicate RequestOk(r: Request, log: Option<CoordEntry>) {
    match PhaseOf(log)
    case Init => false
    case Waiting => r.CastVote? && Some(r.ballot.content) == log.value.newValue && r.ballot.transID == log.value.transID
    case Committing => r.SetValue?
    case Aborting => r.Abort? && r.ballot.transID == log.value.transID
  }

  ghost predicate WireOk(wire: seq<Request>, log: Option<CoordEntry>) {
    forall k :: 0 <= k < |wire| ==> RequestOk(wire[k], log)
  }

  /** The coordinator's memory against its log. */
  ghost predicate Remembers(m: CoordMemory, log: Option<CoordEntry>) {
    && m.state == PhaseOf(log) && m.counter == Counter(log)
    && (m.state != Init ==> m.current == log.value.transID)
    && (m.state == Waiting || m.state == Committing ==> m.newValue == log.value.newValue)
  }

  ghost predicate CoordOk(s: System, before: Option<Value>)
    requires |s.wires| == |s.nodes|
  {
    s.coord.Up? ==>
      && Remembers(s.coord.m, s.log)
      && (s.coord.at.Rest? <==> s.coord.m.state == Init)
      && (s.coord.at.Asking? ==>
        && s.coord.at.n <= |s.nodes|
        && (s.coord.at.sent ==> s.coord.at.n < |s.nodes| && s.wires[s.coord.at.n] != [])
        && AskedUpTo(s, s.coord.at.n, before))
  }

  /** The first n workers have been served, and nothing is left on their wires. */
  ghost predicate AskedUpTo(s: System, n: nat, before: Option<Value>)
    requires n <= |s.nodes| == |s.wires|
  {
    forall w {:trigger s.nodes[w]} {:trigger s.wires[w]} :: 0 <= w < n ==> NodeServed(s.nodes[w], s.log, before) && s.wires[w] == []
  }

  ghost predicate Inv(s: System, before: Option<Value>) {
    && |s.wires| == |s.nodes| && LogOk(s.log)
    && (forall w {:trigger s.nodes[w]} :: 0 <= w < |s.nodes| ==> NodeOk(s.nodes[w], s.log, before))
    && (forall w {:trigger s.wires[w]} :: 0 <= w < |s.wires| ==> WireOk(s.wires[w], s.log))
    && CoordOk(s, before)
    && (PhaseOf(s.log) == Init ==> forall w {:trigger s.wires[w]} :: 0 <= w < |s.wires| ==> s.wires[w] == [])
  }

  /** The value before the transaction of the next state. */
  ghost function Before(s: System, before: Option<Value>, step: Step): Option<Value> {
    if step.Finish? && PhaseOf(s.log) == Committing then s.log.value.newValue else before
  }

  lemma FreshInv(workers: nat)
    ensures Inv(Fresh(workers), None)
  {
  }

  /** Handling any request under way serves the worker. */
  lemma HandleServes(node: Node, r: Request, log: Option<CoordEntry>, before: Option<Value>)
    requires LogOk(log) && NodeOk(node, log, before) && node.memory.Some? && RequestOk(r, log)
    ensures NodeServed(AfterRequest(node, r), log, before)
  {
  }

  lemma DeliverKeeps(s: System, before: Option<Value>, w: nat, replied: bool)
    requires Inv(s, before) && Present(s, w) && s.wires[w] != [] && s.nodes[w].memory.Some?
    ensures Inv(Delivered(s, w, replied), before)
  {
    HandleServes(s.nodes[w], s.wires[w][0], s.log, before);
    hide NodeServed, NodeOk, RequestOk, Remembers;
    var t := Delivered(s, w, replied);
    assert NodeServed(t.nodes[w], t.log, before);
    assert NodeOk(t.nodes[w], t.log, before) by { ServedIsOk(t.nodes[w], t.log, before); }
    forall k | 0 <= k < |t.wires[w]|
      ensures RequestOk(t.wires[w][k], t.log)
    {
      assert t.wires[w][k] == s.wires[w][k + 1];
    }
  }

  lemma ServedIsOk(node: Node, log: Option<CoordEntry>, before: Option<Value>)
    requires NodeServed(node, log, before)
    ensures NodeOk(node, log, before)
  {
  }

  /** The steps that write the coordinator's log. */
  lemma LoggingKeeps(s: System, before: Option<Value>, step: Step)
    requires Inv(s, before) && Next(s, step).Some? && (step.Begin? || step.Decide? || step.Finish?)
    ensures Inv(Next(s, step).value, Before(s, before, step))
  {
  }

  /** The steps that write no log. */
  lemma QuietKeeps(s: System, before: Option<Value>, step: Step)
    requires Inv(s, before) && Next(s, step).Some? && !(step.Begin? || step.Decide? || step.Finish? || step.Deliver?)
    ensures Inv(Next(s, step).value, before)
  {
  }

  lemma StepKeeps(s: System, before: Option<Value>, step: Step)
    requires Inv(s, before) && Next(s, step).Some?
    ensures Inv(Next(s, step).value, Before(s, before, step))
  {
    hide Inv;
    match step
    case Deliver(w, replied) => DeliverKeeps(s, before, w, replied);
    case Begin(v) => LoggingKeeps(s, before, step);
    case Decide => LoggingKeeps(s, before, step);
    case Finish => LoggingKeeps(s, before, step);
    case _ => QuietKeeps(s, before, step);
  }

  /** The value of the last transaction that a run has committed and finished. */
  ghost function LastCommitted(run: seq<System>, i: nat): Option<Value>
    requires i < |run|
  {
    if i == 0 then None
    else if PhaseOf(run[i - 1].log) == Committing && PhaseOf(run[i].log) == Init then run[i - 1].log.value.newValue
    else LastCommitted(run, i - 1)
  }

  lemma BeforeIsCommitted(s: System, before: Option<Value>, step: Step)
    requires Inv(s, before) && Next(s, step).Some?
    ensures Before(s, before, step) ==
      if PhaseOf(s.log) == Committing && PhaseOf(Next(s, step).value.log) == Init then s.log.value.newValue else before
  {
    hide NodeOk, WireOk, AskedUpTo;
  }

  lemma {:induction false} RunKeeps(run: seq<System>, i: nat)
    requires Run(run) && i < |run|
    ensures Inv(run[i], LastCommitted(run, i))
  {
    if i == 0 {
      FreshInv(|run[0].nodes|);
    } else {
      RunKeeps(run, i - 1);
      assert StepAt(run, i);
      var step :| Leads(run[i - 1], step, run[i]);
      var before := LastCommitted(run, i - 1);
      StepKeeps(run[i - 1], before, step);
      BeforeIsCommitted(run[i - 1], before, step);
    }
  }

  // ----- What that gives

  /** GetCommitted says that the value is available. */
  ghost predicate Available(node: Node) {
    node.memory.Some? && node.memory.value.state == Idle
  }

  lemma AvailableValue(s: System, before: Option<Value>, w: nat)
    requires Inv(s, before) && w < |s.nodes| && Available(s.nodes[w])
    ensures s.nodes[w].memory.value.value == if PhaseOf(s.log) == Committing then s.log.value.newValue else before
  {
    assert NodeOk(s.nodes[w], s.log, before);
  }

  /** Agreement: any two workers whose value is available hold the same one. */
  lemma Agreement(run: seq<System>, i: nat, w: nat, x: nat)
    requires Run(run) && i < |run| && w < |run[i].nodes| && x < |run[i].nodes|
    requires Available(run[i].nodes[w]) && Available(run[i].nodes[x])
    ensures run[i].nodes[w].memory.value.value == run[i].nodes[x].memory.value.value
  {
    RunKeeps(run, i);
    var before := LastCommitted(run, i);
    AvailableValue(run[i], before, w);
    AvailableValue(run[i], before, x);
  }

  /** A durable COMMIT means that every worker, up or down, has agreed to its value or applied it. */
  lemma CommitMeansAgreed(run: seq<System>, i: nat, w: nat)
    requires Run(run) && i < |run| && w < |run[i].nodes| && PhaseOf(run[i].log) == Committing
    ensures var e, m := run[i].log.value, RecoveredWorker(run[i].nodes[w].log);
      && m.Some? && m.value.id == e.transID
      && ((m.value.state == Agreed && m.value.next == e.newValue) || (m.value.state == Idle && m.value.value == e.newValue))
  {
    RunKeeps(run, i);
    var before := LastCommitted(run, i);
    assert NodeOk(run[i].nodes[w], run[i].log, before);
  }

  /** The branch of Abort for another transaction is never taken. */
  lemma AbortMatches(run: seq<System>, i: nat, w: nat)
    requires Run(run) && i < |run| && Present(run[i], w) && run[i].nodes[w].memory.Some?
    requires run[i].wires[w] != [] && run[i].wires[w][0].Abort?
    ensures run[i].wires[w][0].ballot.transID == run[i].nodes[w].memory.value.id
  {
    RunKeeps(run, i);
    var before := LastCommitted(run, i);
    assert NodeOk(run[i].nodes[w], run[i].log, before) && RequestOk(run[i].wires[w][0], run[i].log);
  }

  /** So a worker can always be restarted, and a restart finds what it had in memory. */
  lemma RestartSucceeds(run: seq<System>, i: nat, w: nat)
    requires Run(run) && i < |run| && w < |run[i].nodes|
    ensures RecoveredWorker(run[i].nodes[w].log).Some?
    ensures run[i].nodes[w].memory.Some? ==> RecoveredWorker(run[i].nodes[w].log) == run[i].nodes[w].memory
  {
    RunKeeps(run, i);
    var before := LastCommitted(run, i);
    assert NodeOk(run[i].nodes[w], run[i].log, before);
  }

  /** Decided for e, or finished with the value that e decides. */
  ghost predicate Settled(s: System, e: CoordEntry, before: Option<Value>) {
    && Inv(s, before)
    && (s.log == Some(e) || (PhaseOf(s.log) == Init && Counter(s.log) == e.counter && before == Outcome(e, before)))
  }

  ghost function Outcome(e: CoordEntry, before: Option<Value>): Option<Value> {
    if e.state == Committing then e.newValue else before
  }

  lemma SettledStep(s: System, e: CoordEntry, before: Option<Value>, step: Step)
    requires Settled(s, e, before) && (e.state == Committing || e.state == Aborting) && Next(s, step).Some?
    ensures var t := Next(s, step).value;
      Counter(t.log) > e.counter || (Settled(t, e, Before(s, before, step)) && Outcome(e, Before(s, before, step)) == Outcome(e, before))
  {
    StepKeeps(s, before, step);
    hide NodeOk, WireOk, AskedUpTo;
  }

  lemma {:induction false} StaysSettled(run: seq<System>, i: nat, before: Option<Value>, j: nat) returns (now: Option<Value>)
    requires Run(run) && i <= j < |run| && Inv(run[i], before)
    requires PhaseOf(run[i].log) == Committing || PhaseOf(run[i].log) == Aborting
    ensures Counter(run[j].log) >= run[i].log.value.counter
    ensures Counter(run[j].log) == run[i].log.value.counter ==>
      Settled(run[j], run[i].log.value, now) && Outcome(run[i].log.value, now) == Outcome(run[i].log.value, before)
  {
    var e := run[i].log.value;
    now := before;
    if j > i {
      var was := StaysSettled(run, i, before, j - 1);
      RunKeeps(run, j - 1);
      assert StepAt(run, j);
      hide *;
      now := AfterSettled(run[j - 1], run[j], e, was);
    }
  }

  lemma AfterSettled(s: System, t: System, e: CoordEntry, was: Option<Value>) returns (now: Option<Value>)
    requires Follows(s, t) && (e.state == Committing || e.state == Aborting)
    requires exists b :: Inv(s, b)
    requires Counter(s.log) >= e.counter && (Counter(s.log) == e.counter ==> Settled(s, e, was))
    ensures Counter(t.log) >= e.counter
    ensures Counter(t.log) == e.counter ==> Settled(t, e, now) && Outcome(e, now) == Outcome(e, was)
  {
    var step :| Leads(s, step, t);
    var b :| Inv(s, b);
    CounterGrows(s, b, step);
    now := was;
    if Counter(s.log) == e.counter {
      SettledStep(s, e, was, step);
      now := Before(s, was, step);
    }
  }

  lemma CounterGrows(s: System, before: Option<Value>, step: Step)
    requires Inv(s, before) && Next(s, step).Some?
    ensures Counter(Next(s, step).value.log) >= Counter(s.log)
  {
    hide NodeOk, WireOk, AskedUpTo;
  }

  /**
    A decision is final. From a durable COMMIT until the next transaction
    begins, an available value is the committed one; from a durable ABORT, the
    one that was committed last.
   */
  lemma DecisionIsFinal(run: seq<System>, i: nat, j: nat, w: nat)
    requires Run(run) && i <= j < |run|
    requires PhaseOf(run[i].log) == Committing || PhaseOf(run[i].log) == Aborting
    requires Counter(run[j].log) == run[i].log.value.counter && w < |run[j].nodes| && Available(run[j].nodes[w])
    ensures run[j].nodes[w].memory.value.value == Outcome(run[i].log.value, LastCommitted(run, i))
  {
    RunKeeps(run, i);
    var now := StaysSettled(run, i, LastCommitted(run, i), j);
    AvailableValue(run[j], now, w);
  }
}
