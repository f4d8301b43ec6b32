/**
  The two programs of operating-systems/twophase: a worker (worker.py) and the
  coordinator (coordinator.py), each over a log that holds one entry and
  replaces it as a whole. Every handler is proved against a function of what
  the node holds in memory and in its log.
 */
module TwoPhaseNodes {
  import opened Wrappers

  type Value = string

  /** DummyPersistentLog, and every entry that was ever written to it. */
  class DurableLog<E> {
    var entry: Option<E>
    ghost var history: seq<E>

    constructor (entry: Option<E>)
      ensures this.entry == entry && history == []
    {
      this.entry := entry;
      history := [];
    }

    method SetLastEntry(e: E)
      modifies this
      ensures entry == Some(e) && history == old(history) + [e]
    {
      entry := Some(e);
      history := history + [e];
    }
  }

  datatype Ballot = Ballot(content: Value, transID: int)

  datatype Request = CastVote(ballot: Ballot) | SetValue(ballot: Ballot) | Abort(ballot: Ballot)

  // ----- The worker

  datatype WorkerState = Idle | Agreed

  /** An entry that Abort writes has no new_value. */
  datatype WorkerEntry = WorkerEntry(value: Option<Value>, newValue: Option<Value>, state: WorkerState, transID: int)

  datatype WorkerMemory = WorkerMemory(value: Option<Value>, next: Option<Value>, state: WorkerState, id: int)

  /** What a restart makes of the log. None is the KeyError for a missing new_value. */
  ghost function RecoveredWorker(log: Option<WorkerEntry>): Option<WorkerMemory> {
    match log
    case None => Some(WorkerMemory(None, None, Idle, -1))
    case Some(e) =>
      if e.state == Idle then Some(WorkerMemory(e.value, None, Idle, e.transID))
      else if e.newValue.None? then None
      else Some(WorkerMemory(e.value, e.newValue, Agreed, e.transID))
  }

  /** A worker's memory and log after a request, and its answer to CastVote. */
  datatype Handled = Handled(memory: WorkerMemory, log: Option<WorkerEntry>, vote: Ballot)

  ghost function Handle(m: WorkerMemory, log: Option<WorkerEntry>, r: Request): Handled {
    match r
    case CastVote(b) => Voted(m, log, b)
    case SetValue(b) => Handled(Applied(m), if m.next.None? then log else Some(EntryOf(Applied(m))), b)
    case Abort(b) =>
      Handled(m.(next := None, state := Idle), Some(WorkerEntry(m.value, None, if b.transID == m.id then Idle else Agreed, m.id)), b)
  }

  ghost function Voted(m: WorkerMemory, log: Option<WorkerEntry>, b: Ballot): Handled {
    if m.state != Idle || b.transID < m.id then Handled(m, log, Ballot("ABORT", m.id))
    else
      var agreed := WorkerMemory(m.value, Some(b.content), Agreed, b.transID);
      Handled(agreed, Some(EntryOf(agreed)), Ballot("COMMIT", b.transID))
  }

  /** SetValue: the value agreed to becomes the value, whatever the request says. */
  ghost function Applied(m: WorkerMemory): WorkerMemory {
    if m.next.None? then m else WorkerMemory(m.next, None, Idle, m.id)
  }

  ghost function EntryOf(m: WorkerMemory): WorkerEntry {
    WorkerEntry(m.value, m.next, m.state, m.id)
  }

  /** Except for an Abort of another transaction, the log never falls behind: a restart after the request finds the same memory. */
  lemma RestartFindsTheSame(m: WorkerMemory, log: Option<WorkerEntry>, r: Request)
    requires RecoveredWorker(log) == Some(m) && (m.next.None? <==> m.state == Idle)
    ensures var h := Handle(m, log, r);
      RecoveredWorker(h.log) == Some(h.memory) <==> (r.Abort? ==> r.ballot.transID == m.id)
  {
  }

  class Worker {
    const log: DurableLog<WorkerEntry>
    var value: Option<Value>
    var nextValue: Option<Value>
    var state: WorkerState
    var transactionId: int

    ghost function Memory(): WorkerMemory
      reads this
    {
      WorkerMemory(value, nextValue, state, transactionId)
    }

    /** null is the exception of a restart whose log cannot be read. */
    static method Start(log: DurableLog<WorkerEntry>) returns (w: Worker?)
      ensures w == null <==> RecoveredWorker(log.entry).None?
      ensures w != null ==> fresh(w) && w.log == log && RecoveredWorker(log.entry) == Some(w.Memory())
      ensures w == null <==> log.entry.Some? && log.entry.value.state == Agreed && log.entry.value.newValue == None
      ensures w != null && log.entry == None ==> w.Memory() == WorkerMemory(None, None, Idle, -1)
      ensures w != null && log.entry.Some? ==>
        && w.value == log.entry.value.value && w.transactionId == log.entry.value.transID && w.state == log.entry.value.state
        && w.nextValue == if w.state == Agreed then log.entry.value.newValue else None
    {
      if log.entry.Some? && log.entry.value.state == Agreed && log.entry.value.newValue.None? {
        return null;
      }
      w := new Worker(log);
    }

    constructor (log: DurableLog<WorkerEntry>)
      requires RecoveredWorker(log.entry).Some?
      ensures this.log == log && RecoveredWorker(log.entry) == Some(Memory())
    {
      this.log := log;
      value, nextValue, state, transactionId := None, None, Idle, -1;
      if log.entry.Some? {
        var e := log.entry.value;
        value, transactionId := e.value, e.transID;
        if e.state == Agreed {
          nextValue, state := e.newValue, Agreed;
        }
      }
    }

    method CastVote(request: Ballot) returns (vote: Ballot)
      modifies this, log
      ensures Handled(Memory(), log.entry, vote) == Handle(old(Memory()), old(log.entry), Request.CastVote(request))
      ensures vote == if old(state) == Idle && old(transactionId) <= request.transID then Ballot("COMMIT", request.transID) else Ballot("ABORT", old(transactionId))
      ensures vote.content == "COMMIT" ==>
        && value == old(value) && nextValue == Some(request.content) && state == Agreed && transactionId == request.transID
        && log.entry == Some(WorkerEntry(value, Some(request.content), Agreed, request.transID))
      ensures vote.content == "ABORT" ==> Memory() == old(Memory()) && log.entry == old(log.entry)
    {
      if state != Idle || request.transID < transactionId {
        return Ballot("ABORT", transactionId);
      }
      nextValue := Some(request.content);
      transactionId := request.transID;
      log.SetLastEntry(WorkerEntry(value, nextValue, Agreed, transactionId));
      state := Agreed;
      vote := Ballot("COMMIT", transactionId);
    }

    method SetValue(request: Ballot)
      modifies this, log
      ensures Handled(Memory(), log.entry, request) == Handle(old(Memory()), old(log.entry), Request.SetValue(request))
      ensures old(nextValue).None? ==> Memory() == old(Memory()) && log.entry == old(log.entry)
      ensures old(nextValue).Some? ==>
        && value == old(nextValue) && nextValue == None && state == Idle && transactionId == old(transactionId)
        && log.entry == Some(WorkerEntry(value, None, Idle, transactionId))
    {
      if nextValue.None? {
        return;
      }
      Commit();
    }

    method Commit()
      requires nextValue.Some?
      modifies this, log
      ensures Memory() == WorkerMemory(old(nextValue), None, Idle, old(transactionId))
      ensures log.entry == Some(WorkerEntry(value, None, Idle, transactionId))
    {
      value := nextValue;
      nextValue := None;
      log.SetLastEntry(WorkerEntry(value, None, Idle, transactionId));
      state := Idle;
    }

    method Abort(request: Ballot)
      modifies this, log
      ensures Handled(Memory(), log.entry, request) == Handle(old(Memory()), old(log.entry), Request.Abort(request))
      ensures value == old(value) && nextValue == None && state == Idle && transactionId == old(transactionId)
      ensures log.entry == Some(WorkerEntry(value, None, if request.transID == transactionId then Idle else Agreed, transactionId))
    {
      nextValue := None;
      var nextState := if request.transID == transactionId then Idle else Agreed;
      log.SetLastEntry(WorkerEntry(value, None, nextState, transactionId));
      state := Idle;
    }

    /** A value that was never set is sent as the empty string. */
    method GetCommitted() returns (available: bool, content: Value)
      ensures available <==> state == Idle
      ensures content == if available && value.Some? then value.value else ""
    {
      if state == Idle {
        available, content := true, if value.None? then "" else value.value;
      } else {
        available, content := false, "";
      }
    }
  }

  // ----- The coordinator

  datatype Phase = Init | Waiting | Committing | Aborting

  /** An INIT entry has a counter only. */
  datatype CoordEntry = CoordEntry(state: Phase, newValue: Option<Value>, counter: int, transID: int)

  datatype CoordMemory = CoordMemory(state: Phase, newValue: Option<Value>, counter: int, current: int)

  /** An ABORT entry has the value, but a restart does not read it. */
  ghost function RecoveredCoordinator(log: Option<CoordEntry>): CoordMemory {
    match log
    case None => CoordMemory(Init, None, 0, -1)
    case Some(e) =>
      if e.state == Init then CoordMemory(Init, None, e.counter, -1)
      else CoordMemory(e.state, if e.state == Aborting then None else e.newValue, e.counter, e.transID)
  }

  ghost function CoordEntryOf(m: CoordMemory): CoordEntry {
    if m.state == Init then CoordEntry(Init, None, m.counter, -1) else CoordEntry(m.state, m.newValue, m.counter, m.current)
  }

  ghost function Began(m: CoordMemory, v: Value): CoordMemory {
    CoordMemory(Waiting, Some(v), m.counter + 1, m.counter + 1)
  }

  /** Every worker's ballot says COMMIT to this transaction. */
  ghost predicate Unanimous(votes: seq<Ballot>, t: int) {
    forall i :: 0 <= i < |votes| ==> votes[i] == Ballot("COMMIT", t)
  }

  ghost function Decided(m: CoordMemory, votes: seq<Ballot>): CoordMemory {
    m.(state := if Unanimous(votes, m.current) then Committing else Aborting)
  }

  ghost function Finished(m: CoordMemory): CoordMemory {
    m.(state := Init)
  }

  /** The request that the current phase sends to every worker. */
  ghost function Call(m: CoordMemory): Request
    requires m.state != Init
  {
    var b := Ballot(if m.newValue.None? then "" else m.newValue.value, m.current);
    match m.state
    case Waiting => CastVote(b)
    case Committing => SetValue(b)
    case Aborting => Abort(b)
  }

  /** All of these calls came back. */
  ghost predicate AllCame<R(!new)>(rs: seq<Option<R>>) {
    forall i :: 0 <= i < |rs| ==> rs[i].Some?
  }

  ghost function Came<R(!new)>(rs: seq<Option<R>>): (vs: seq<R>)
    requires AllCame(rs)
    ensures |vs| == |rs|
  {
    seq(|rs|, i requires 0 <= i < |rs| => rs[i].value)
  }

  /** One step of Brain: a request is taken up, the votes are counted, or the decision has reached everyone. */
  ghost predicate Advances(m: CoordMemory, n: CoordMemory, request: Option<Value>, votes: seq<Option<Ballot>>, acks: seq<Option<()>>) {
    || (m.state == Init && request.Some? && n == Began(m, request.value))
    || (m.state == Waiting && AllCame(votes) && n == Decided(m, Came(votes)))
    || ((m.state == Committing || m.state == Aborting) && AllCame(acks) && n == Finished(m))
  }

  ghost predicate AdvancesAt(path: seq<CoordMemory>, k: nat, request: Option<Value>, votes: seq<Option<Ballot>>, acks: seq<Option<()>>)
    requires 0 < k < |path|
  {
    Advances(path[k - 1], path[k], request, votes, acks)
  }

  /**
    The memories that Brain goes through, given what the calls of its two rounds
    return. It stops once a transaction is over, where there is nothing to do,
    and where a call fails; nowhere else.
   */
  ghost predicate BrainPath(path: seq<CoordMemory>, request: Option<Value>, votes: seq<Option<Ballot>>, acks: seq<Option<()>>) {
    && Going(path, request, votes, acks)
    && var last := path[|path| - 1];
    && (last.state == Init ==> |path| > 1 || request.None?)
    && (last.state == Waiting ==> !AllCame(votes))
    && (last.state == Committing || last.state == Aborting ==> !AllCame(acks))
  }

  ghost predicate Going(path: seq<CoordMemory>, request: Option<Value>, votes: seq<Option<Ballot>>, acks: seq<Option<()>>) {
    && path != []
    && (forall k {:trigger AdvancesAt(path, k, request, votes, acks)} :: 0 < k < |path| ==> AdvancesAt(path, k, request, votes, acks))
    && (forall k :: 0 < k < |path| - 1 ==> path[k].state != Init)
  }

  lemma GoesOn(path: seq<CoordMemory>, m: CoordMemory, request: Option<Value>, votes: seq<Option<Ballot>>, acks: seq<Option<()>>)
    requires Going(path, request, votes, acks) && Advances(path[|path| - 1], m, request, votes, acks)
    requires path[|path| - 1].state != Init || |path| == 1
    ensures Going(path + [m], request, votes, acks)
  {
    var r := path + [m];
    forall k {:trigger AdvancesAt(r, k, request, votes, acks)} | 0 < k < |r|
      ensures AdvancesAt(r, k, request, votes, acks)
    {
      assert k < |path| ==> AdvancesAt(path, k, request, votes, acks);
    }
  }

  /** What these memories leave in the log. */
  ghost function EntriesOf(ms: seq<CoordMemory>): (es: seq<CoordEntry>)
    ensures |es| == |ms| && forall k :: 0 <= k < |es| ==> es[k] == CoordEntryOf(ms[k])
  {
    seq(|ms|, k requires 0 <= k < |ms| => CoordEntryOf(ms[k]))
  }

  lemma EntriesGrow(h: seq<CoordEntry>, path: seq<CoordMemory>, m: CoordMemory)
    requires path != []
    ensures h + EntriesOf(path[1..]) + [CoordEntryOf(m)] == h + EntriesOf((path + [m])[1..])
  {
  }

  lemma EntriesEnd(path: seq<CoordMemory>)
    requires |path| >= 3
    ensures EntriesOf(path[1..])[|path| - 3] == CoordEntryOf(path[|path| - 2])
  {
  }

  lemma PathSaid(path: seq<CoordMemory>, k: nat, request: Option<Value>, votes: seq<Option<Ballot>>, acks: seq<Option<()>>)
    requires BrainPath(path, request, votes, acks) && 0 < k < |path|
    ensures Advances(path[k - 1], path[k], request, votes, acks)
  {
    assert AdvancesAt(path, k, request, votes, acks);
  }

  /**
    When every call comes back, a transaction is carried through: the votes are
    counted, the decision they call for is reached, and Brain ends where it can
    take the next request.
   */
  lemma BrainCompletes(path: seq<CoordMemory>, request: Option<Value>, votes: seq<Option<Ballot>>, acks: seq<Option<()>>)
    requires BrainPath(path, request, votes, acks) && AllCame(votes) && AllCame(acks)
    requires path[0].state != Init || request.Some?
    ensures |path| == (match path[0].state case Init => 4 case Waiting => 3 case _ => 2)
    ensures path[|path| - 1].state == Init && path[|path| - 2] == path[|path| - 1].(state := path[|path| - 2].state)
    ensures path[0].state == Init || path[0].state == Waiting ==>
      path[|path| - 2].state == if forall w :: 0 <= w < |votes| ==> votes[w] == Some(Ballot("COMMIT", path[|path| - 2].current)) then Committing else Aborting
    ensures path[0].state == Init ==>
      var m := path[|path| - 1]; m.newValue == request && m.counter == path[0].counter + 1 == m.current
    ensures path[0].state != Init ==> path[|path| - 1] == path[0].(state := Init)
  {
    hide BrainPath;
    var n := PathLength(path, request, votes, acks);
    forall k | 0 < k < |path|
      ensures Advances(path[k - 1], path[k], request, votes, acks)
    {
      PathSaid(path, k, request, votes, acks);
    }
    assert forall j {:trigger Came(votes)[j]} {:trigger votes[j]} :: 0 <= j < |votes| ==> votes[j] == Some(Came(votes)[j]);
    if n >= 3 {
      assert Advances(path[n - 3], path[n - 2], request, votes, acks);
    }
    assert Advances(path[n - 2], path[n - 1], request, votes, acks);
  }

  lemma PathLength(path: seq<CoordMemory>, request: Option<Value>, votes: seq<Option<Ballot>>, acks: seq<Option<()>>) returns (n: nat)
    requires BrainPath(path, request, votes, acks) && AllCame(votes) && AllCame(acks)
    requires path[0].state != Init || request.Some?
    ensures n == |path| == (match path[0].state case Init => 4 case Waiting => 3 case _ => 2)
  {
    n := |path|;
    if n > 1 {
      PathSaid(path, 1, request, votes, acks);
    }
    if n > 2 && (path[0].state == Init || path[0].state == Waiting) {
      PathSaid(path, 2, request, votes, acks);
    }
    if n > 3 && path[0].state == Init {
      PathSaid(path, 3, request, votes, acks);
    }
  }

  class Coordinator {
    const log: DurableLog<CoordEntry>
    const workers: nat
    var counter: int
    var newValue: Option<Value>
    var currentTransactionId: int
    var state: Phase

    ghost function Memory(): CoordMemory
      reads this
    {
      CoordMemory(state, newValue, counter, currentTransactionId)
    }

    /** Restart up to the call of Brain, which is Resume. */
    constructor (log: DurableLog<CoordEntry>, workers: nat)
      ensures this.log == log && this.workers == workers
      ensures Memory() == RecoveredCoordinator(log.entry)
      ensures log.entry == None ==> state == Init && newValue == None && counter == 0 && currentTransactionId == -1
      ensures log.entry.Some? ==> state == log.entry.value.state && counter == log.entry.value.counter
      ensures log.entry.Some? && state != Init ==> currentTransactionId == log.entry.value.transID
      ensures log.entry.Some? && (state == Waiting || state == Committing) ==> newValue == log.entry.value.newValue
    {
      this.log := log;
      this.workers := workers;
      counter, newValue, currentTransactionId, state := 0, None, -1, Init;
      if log.entry.Some? {
        var e := log.entry.value;
        counter := e.counter;
        if e.state != Init {
          state, currentTransactionId := e.state, e.transID;
          if e.state != Aborting {
            newValue := e.newValue;
          }
        }
      }
    }

    method HandleRequest(content: Value)
      requires state == Init
      modifies this, log
      ensures Memory() == Began(old(Memory()), content) && log.entry == Some(CoordEntryOf(Memory()))
      ensures log.entry == Some(CoordEntry(Waiting, Some(content), old(counter) + 1, old(counter) + 1))
      ensures log.history == old(log.history) + [CoordEntryOf(Memory())]
    {
      counter := counter + 1;
      newValue := Some(content);
      currentTransactionId := counter;
      log.SetLastEntry(CoordEntry(Waiting, newValue, counter, currentTransactionId));
      state := Waiting;
    }

    /** votes: what the CastVote calls return, None being an exception. */
    method ConductElection(votes: seq<Option<Ballot>>) returns (ok: bool)
      requires state == Waiting && |votes| == workers
      modifies this, log
      ensures ok <==> AllCame(votes)
      ensures ok ==> Memory() == Decided(old(Memory()), Came(votes)) && log.entry == Some(CoordEntryOf(Memory()))
      ensures ok ==> var commit := forall w :: 0 <= w < workers ==> votes[w] == Some(Ballot("COMMIT", old(currentTransactionId)));
        log.entry == Some(CoordEntry(if commit then Committing else Aborting, old(newValue), old(counter), old(currentTransactionId)))
      ensures !ok ==> Memory() == old(Memory()) && log.entry == old(log.entry)
      ensures log.history == old(log.history) + if ok then [CoordEntryOf(Memory())] else []
    {
      var commit, c := true, 0;
      for i := 0 to workers
        invariant forall j :: 0 <= j < i ==> votes[j].Some?
        invariant 0 <= c <= i
        invariant c == i <==> forall j :: 0 <= j < i ==> votes[j] == Some(Ballot("COMMIT", currentTransactionId))
        invariant !commit ==> c < i
      {
        if votes[i].None? {
          return false;
        }
        var ballot := votes[i].value;
        if ballot.content == "ABORT" && ballot.transID == currentTransactionId {
          commit := false;
        } else if ballot.content == "COMMIT" && ballot.transID == currentTransactionId {
          c := c + 1;
        }
      }
      if c != workers {
        commit := false;
      }
      var nextState := if commit then Committing else Aborting;
      log.SetLastEntry(CoordEntry(nextState, newValue, counter, currentTransactionId));
      state := nextState;
      ok := true;
      assert forall j {:trigger Came(votes)[j]} {:trigger votes[j]} :: 0 <= j < workers ==> Came(votes)[j] == votes[j].value;
    }

    /** acks: what the SetValue or Abort calls return. */
    method ResolveElection(acks: seq<Option<()>>) returns (ok: bool)
      requires (state == Committing || state == Aborting) && |acks| == workers
      modifies this, log
      ensures ok <==> AllCame(acks)
      ensures ok ==> Memory() == Finished(old(Memory())) && log.entry == Some(CoordEntryOf(Memory()))
      ensures !ok ==> Memory() == old(Memory()) && log.entry == old(log.entry)
      ensures log.history == old(log.history) + if ok then [CoordEntryOf(Memory())] else []
    {
      for i := 0 to workers
        invariant forall j :: 0 <= j < i ==> acks[j].Some?
      {
        if acks[i].None? {
          return false;
        }
      }
      log.SetLastEntry(CoordEntry(Init, None, counter, -1));
      state := Init;
      ok := true;
    }

    /** path: the memories it goes through, each but the first of which is durable before the next. */
    method Brain(request: Option<Value>, votes: seq<Option<Ballot>>, acks: seq<Option<()>>) returns (ghost path: seq<CoordMemory>)
      requires |votes| == workers && |acks| == workers
      modifies this, log
      ensures BrainPath(path, request, votes, acks) && path[0] == old(Memory()) && path[|path| - 1] == Memory()
      ensures log.history == old(log.history) + EntriesOf(path[1..])
      ensures log.entry == if |path| == 1 then old(log.entry) else Some(CoordEntryOf(Memory()))
      ensures AllCame(votes) && AllCame(acks) && (old(state) != Init || request.Some?) ==>
        state == Init && log.entry == Some(CoordEntry(Init, None, counter, -1))
      ensures AllCame(votes) && AllCame(acks) && (old(state) == Waiting || (old(state) == Init && request.Some?)) ==>
        && |log.history| >= |old(log.history)| + 2
        && var commit := forall w :: 0 <= w < workers ==> votes[w] == Some(Ballot("COMMIT", currentTransactionId));
        log.history[|log.history| - 2] == CoordEntry(if commit then Committing else Aborting, newValue, counter, currentTransactionId)
    {
      path := [Memory()];
      var done := false;
      while !done
        invariant Going(path, request, votes, acks) && path[0] == old(Memory()) && path[|path| - 1] == Memory()
        invariant if done then BrainPath(path, request, votes, acks) else state == Init ==> |path| == 1
        invariant log.history == old(log.history) + EntriesOf(path[1..])
        invariant log.entry == if |path| == 1 then old(log.entry) else Some(CoordEntryOf(Memory()))
        decreases if done then 0 else match state case Init => 3 case Waiting => 2 case _ => 1
      {
        ghost var was := path;
        if state == Init && request.Some? {
          HandleRequest(request.value);
          path := was + [Memory()];
        } else if state == Waiting {
          var ok := ConductElection(votes);
          if !ok {
            break;
          }
          path := was + [Memory()];
        } else if state == Committing || state == Aborting {
          var ok := ResolveElection(acks);
          if !ok {
            break;
          }
          path := was + [Memory()];
          done := true;
        } else {
          done := true;
        }
        if |path| > |was| {
          GoesOn(was, Memory(), request, votes, acks);
          EntriesGrow(old(log.history), was, Memory());
        }
      }
      if AllCame(votes) && AllCame(acks) && (path[0].state != Init || request.Some?) {
        BrainCompletes(path, request, votes, acks);
        if |path| > 2 {
          EntriesEnd(path);
        }
      }
    }

    /** The SetValue handler: a request that finds a transaction under way is dropped. */
    method SetValue(content: Value, votes: seq<Option<Ballot>>, acks: seq<Option<()>>) returns (ghost path: seq<CoordMemory>)
      requires |votes| == workers && |acks| == workers
      modifies this, log
      ensures path != [] && path[0] == old(Memory()) && path[|path| - 1] == Memory()
      ensures if old(state) == Init then BrainPath(path, Some(content), votes, acks) else |path| == 1
      ensures log.history == old(log.history) + EntriesOf(path[1..])
      ensures log.entry == if |path| == 1 then old(log.entry) else Some(CoordEntryOf(Memory()))
    {
      if state != Init {
        return [Memory()];
      }
      path := Brain(Some(content), votes, acks);
    }
  }
}
