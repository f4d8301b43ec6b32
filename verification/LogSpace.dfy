/**
  Log space over all runs of operating-systems/xv6-OS/log.c, by the steps that
  begin_op, log_write and end_op are proved to take. When can a panic be reached?
 */
module LogSpace {
  import opened BufferList
  import opened IntSets
  import opened Wrappers
  import opened CrashModel
  import opened LogSteps

  ghost function Run(steps: seq<Step>, u: Setup): Option<Space> {
    if steps == [] then Some(Space([], [], 0))
    else match Run(steps[..|steps| - 1], u)
      case None => None
      case Some(s) => match Take(s, steps[|steps| - 1], u)
        case Next(t) => Some(t)
        case _ => None
  }

  ghost predicate Reachable(s: Space, u: Setup) {
    exists steps :: Run(steps, u) == Some(s)
  }

  // ----- The reservation

  /** What the running calls may still write. */
  ghost function Reserved(written: seq<set<int>>): (r: int) {
    if written == [] then 0 else Reserved(written[..|written| - 1]) + MAXOPBLOCKS - |written[|written| - 1]|
  }

  lemma {:induction false} ReservedUpdated(w: seq<set<int>>, i: nat, s: set<int>)
    requires i < |w|
    ensures Reserved(w[i := s]) == Reserved(w) + |w[i]| - |s|
  {
    var last := |w| - 1;
    if i == last {
      assert w[i := s][..last] == w[..last];
    } else {
      ReservedUpdated(w[..last], i, s);
      assert w[i := s][..last] == w[..last][i := s];
    }
  }

  lemma {:induction false} ReservedRemoved(w: seq<set<int>>, i: nat)
    requires i < |w|
    ensures Reserved(w[..i] + w[i + 1..]) == Reserved(w) - MAXOPBLOCKS + |w[i]|
  {
    var last := |w| - 1;
    if i == last {
      assert w[..i] + w[i + 1..] == w[..last];
    } else {
      var r := w[..i] + w[i + 1..];
      ReservedRemoved(w[..last], i);
      assert r[..|r| - 1] == w[..last][..i] + w[..last][i + 1..];
      assert r[|r| - 1] == w[last];
    }
  }

  lemma {:induction false} ReservedBounds(w: seq<set<int>>)
    requires forall i :: 0 <= i < |w| ==> |w[i]| <= MAXOPBLOCKS
    ensures 0 <= Reserved(w) <= |w| * MAXOPBLOCKS
    ensures forall i :: 0 <= i < |w| ==> MAXOPBLOCKS - |w[i]| <= Reserved(w)
  {
    if w != [] {
      ReservedBounds(w[..|w| - 1]);
    }
  }

  /** The log has room for everything the running calls may still write. */
  ghost predicate Fits(s: Space) {
    && Distinct(s.homes)
    && (forall i :: 0 <= i < |s.written| ==> |s.written[i]| <= MAXOPBLOCKS && forall b :: b in s.written[i] ==> b in s.homes)
    && |s.homes| + Reserved(s.written) <= LOGSIZE
    && (s.written == [] ==> s.homes == [])
  }

  lemma FitsStep(s: Space, step: Step, u: Setup)
    requires Fits(s) && Take(s, step, u).Next?
    ensures Fits(Take(s, step, u).s)
  {
    hide Distinct;
    match step
    case Begin =>
      FitsBegin(s);
    case Write(op, b) =>
      hide Fits;
      FitsWrite(s, op, b, u);
    case End(op) =>
      FitsEnd(s, op);
      assert Distinct([]);
    case Hold =>
    case Release =>
  }

  lemma FitsBegin(s: Space)
    requires Fits(s) && |s.homes| + (|s.written| + 1) * MAXOPBLOCKS <= LOGSIZE
    ensures Fits(s.(written := s.written + [{}]))
  {
    ReservedBounds(s.written);
    assert (s.written + [{}])[..|s.written|] == s.written;
  }

  lemma FitsEnd(s: Space, op: nat)
    requires Fits(s) && op < |s.written|
    ensures |s.written| > 1 ==> Fits(s.(written := s.written[..op] + s.written[op + 1..]))
    ensures Fits(s.(homes := [], written := []))
  {
    var t := s.(written := s.written[..op] + s.written[op + 1..]);
    ReservedRemoved(s.written, op);
    forall i | 0 <= i < |t.written|
      ensures |t.written[i]| <= MAXOPBLOCKS && forall b :: b in t.written[i] ==> b in s.homes
    {
      assert t.written[i] == s.written[if i < op then i else i + 1];
    }
  }

  lemma FitsWrite(s: Space, op: nat, b: int, u: Setup)
    requires Fits(s) && Take(s, Write(op, b), u).Next?
    ensures Fits(Take(s, Write(op, b), u).s)
  {
    var t := Take(s, Write(op, b), u).s;
    var w := s.written[op];
    ReservedUpdated(s.written, op, w + {b});
    SubsetSize(w, w + {b});
    assert b !in s.homes ==> b !in w;
    hide Reserved;
    forall i | 0 <= i < |t.written|
      ensures |t.written[i]| <= MAXOPBLOCKS && forall c :: c in t.written[i] ==> c in t.homes
    {
      assert i != op ==> t.written[i] == s.written[i];
    }
  }

  lemma {:induction false} RunFits(steps: seq<Step>, u: Setup)
    requires Run(steps, u).Some?
    ensures Fits(Run(steps, u).value)
  {
    if steps != [] {
      var before := steps[..|steps| - 1];
      RunFits(before, u);
      FitsStep(Run(before, u).value, steps[|steps| - 1], u);
    }
  }

  /** In no run does the transaction outgrow the log's header. */
  lemma NeverOutgrows(s: Space, u: Setup)
    requires Reachable(s, u)
    ensures |s.homes| <= LOGSIZE && Distinct(s.homes)
  {
    var steps :| Run(steps, u) == Some(s);
    RunFits(steps, u);
    ReservedBounds(s.written);
  }

  // ----- When a panic can be reached

  ghost predicate Reaches(o: Outcome, u: Setup) {
    exists s, step :: Reachable(s, u) && Take(s, step, u) == o
  }

  lemma {:induction false} RunBounds(steps: seq<Step>, u: Setup)
    requires Run(steps, u).Some?
    ensures var s := Run(steps, u).value; (|s.homes| == 0 || |s.homes| < u.size) && s.held <= u.readers
  {
    if steps != [] {
      RunBounds(steps[..|steps| - 1], u);
    }
  }

  ghost function Range(a: int, b: int): (s: set<int>)
    ensures forall i :: i in s <==> a <= i < b
    ensures |s| == if a <= b then b - a else 0
    decreases b - a
  {
    if a >= b then {} else Range(a, b - 1) + {b - 1}
  }

  /** What call j of three has written when they have written blocks 0..k-1, ten each at most. */
  ghost function Part(k: nat, j: nat): set<int> {
    Range(10 * j, if k < 10 * j + 10 then k else 10 * j + 10)
  }

  ghost function Filled(k: nat): (s: Space)
    ensures |s.homes| == k && |s.written| == 3 && s.held == 0
    ensures (forall i :: 0 <= i < k ==> s.homes[i] == i) && forall j {:trigger s.written[j]} :: 0 <= j < 3 ==> s.written[j] == Part(k, j)
  {
    Space(seq(k, i => i), [Part(k, 0), Part(k, 1), Part(k, 2)], 0)
  }

  lemma Extend(s: Space, step: Step, u: Setup)
    requires Reachable(s, u) && Take(s, step, u).Next?
    ensures Reachable(Take(s, step, u).s, u)
  {
    var steps :| Run(steps, u) == Some(s);
    assert (steps + [step])[..|steps|] == steps;
    assert Run(steps + [step], u) == Some(Take(s, step, u).s);
  }

  lemma ThreeCalls(u: Setup)
    ensures Reachable(Filled(0), u)
  {
    hide Range, Part, Filled;
    var s: Space := Space([], [], 0);
    assert Run([], u) == Some(s);
    hide Run, Reachable;
    assert Reachable(s, u) by { Start(u); }
    Extend(s, Begin, u);
    var t := Space([], s.written + [{}], 0);
    Extend(t, Begin, u);
    var v := Space([], t.written + [{}], 0);
    Extend(v, Begin, u);
    forall j | 0 <= j < 3
      ensures Filled(0).written[j] == {}
    {
      NothingWritten(j);
    }
    assert v.written + [{}] == Filled(0).written;
  }

  lemma Start(u: Setup)
    ensures Reachable(Space([], [], 0), u)
  {
    assert Run([], u) == Some(Space([], [], 0));
  }

  lemma NothingWritten(j: nat)
    ensures Part(0, j) == {}
  {
  }

  lemma {:induction false} FilledReachable(k: nat, u: Setup)
    requires k <= LOGSIZE && (k == 0 || k < u.size)
    ensures Reachable(Filled(k), u)
  {
    if k == 0 {
      ThreeCalls(u);
    } else {
      FilledReachable(k - 1, u);
      WriteNext(k - 1, u);
      Extend(Filled(k - 1), Write((k - 1) / 10, k - 1), u);
    }
  }

  /** The call of the next ten writes its next block. */
  lemma FilledNext(k: nat)
    requires k < LOGSIZE
    ensures var s, op := Filled(k), k / 10;
      && op < 3 && |s.written[op] + {k}| <= MAXOPBLOCKS
      && k !in s.homes && s.homes + [k] == Filled(k + 1).homes
      && s.written[op := s.written[op] + {k}] == Filled(k + 1).written
  {
    hide Range, Filled;
    var op := k / 10;
    assert op < 3 && 10 * op <= k < 10 * op + 10;
    forall j | 0 <= j < 3
      ensures Part(k + 1, j) == if j == op then Part(k, j) + {k} else Part(k, j)
    {
    }
  }

  lemma WriteNext(k: nat, u: Setup)
    requires k < LOGSIZE
    ensures Take(Filled(k), Write(k / 10, k), u) == if k < u.size - 1 then Next(Filled(k + 1)) else WritePanic
  {
    FilledNext(k);
    hide Filled, Part;
  }

  lemma FullLogRefusesAbsorption(u: Setup)
    ensures Take(Filled(LOGSIZE), Write(2, 20), u) == WritePanic
  {
    hide Filled, Range;
    var w := Filled(LOGSIZE).written[2];
    assert w == Part(LOGSIZE, 2) == Range(20, 30);
    assert w + {20} == w;
  }

  /**
    log_write can panic whatever the size of the log area: it refuses a full log
    even a block that it would absorb.
   */
  lemma WritePanics(u: Setup)
    ensures Reaches(WritePanic, u)
  {
    hide Filled, Reachable, Take;
    if u.size <= LOGSIZE {
      var k := if u.size == 0 then 0 else u.size - 1;
      FilledReachable(k, u);
      WriteNext(k, u);
    } else {
      FilledReachable(LOGSIZE, u);
      FullLogRefusesAbsorption(u);
    }
  }

  ghost predicate PanicsOnNewBlock(u: Setup) {
    exists s, op, b :: Reachable(s, u) && b !in s.homes && Take(s, Write(op, b), u) == WritePanic
  }

  /** For a block new to the log it can panic exactly when the log area has no more blocks than the header has entries. */
  lemma NewBlockPanics(u: Setup)
    ensures PanicsOnNewBlock(u) <==> u.size <= LOGSIZE
  {
    if u.size <= LOGSIZE {
      var k := if u.size == 0 then 0 else u.size - 1;
      FilledReachable(k, u);
      WriteNext(k, u);
      FilledNext(k);
    } else {
      forall s, op, b | Reachable(s, u) && b !in s.homes
        ensures Take(s, Write(op, b), u) != WritePanic
      {
        var steps :| Run(steps, u) == Some(s);
        RunFits(steps, u);
        ReservedBounds(s.written);
        RoomForNew(s, op, b, u);
      }
    }
  }

  lemma RoomForNew(s: Space, op: nat, b: int, u: Setup)
    requires Fits(s) && u.size > LOGSIZE && b !in s.homes
    requires forall i :: 0 <= i < |s.written| ==> MAXOPBLOCKS - |s.written[i]| <= Reserved(s.written)
    ensures Take(s, Write(op, b), u) != WritePanic
  {
    if op < |s.written| {
      assert b !in s.written[op];
    }
  }

  lemma EndFirst(s: Space, u: Setup)
    requires Reachable(s, u) && |s.written| > 1
    ensures Reachable(s.(written := s.written[1..]), u)
  {
    assert s.written[..0] + s.written[1..] == s.written[1..];
    Extend(s, End(0), u);
  }

  /** Readers take up to k buffers. */
  lemma {:induction false} HeldReachable(s: Space, k: nat, u: Setup)
    requires Reachable(s, u) && s.held <= k <= u.readers && |s.homes| + k <= NBUF
    ensures Reachable(s.(held := k), u)
    decreases k
  {
    if k == s.held {
      assert s.(held := k) == s;
    } else {
      HeldReachable(s, k - 1, u);
      Extend(s.(held := k - 1), Hold, u);
    }
  }

  lemma CommitReached(u: Setup)
    requires u.size >= 2 && u.size + u.readers > NBUF
    ensures Reaches(CommitPanic, u)
  {
    hide Filled, Range, Part, Reachable;
    var n := if u.size > LOGSIZE then LOGSIZE else u.size - 1;
    var s := Filled(n);
    FilledReachable(n, u);
    EndFirst(s, u);
    EndFirst(s.(written := s.written[1..]), u);
    var t := s.(written := s.written[1..][1..]);
    HeldReachable(t, NBUF - n, u);
    assert Take(t.(held := NBUF - n), End(0), u) == CommitPanic;
  }

  /**
    commit can run out of buffers exactly when a log area with room for a block,
    together with the readers, can use up the cache; without readers, when it is
    larger than the cache.
   */
  lemma CommitPanics(u: Setup)
    ensures Reaches(CommitPanic, u) <==> u.size >= 2 && u.size + u.readers > NBUF
  {
    if u.size >= 2 && u.size + u.readers > NBUF {
      CommitReached(u);
    } else {
      forall s, step | Reachable(s, u)
        ensures Take(s, step, u) != CommitPanic
      {
        var steps :| Run(steps, u) == Some(s);
        RunBounds(steps, u);
      }
    }
  }

  lemma OneLogged(u: Setup)
    requires u.size >= 2
    ensures Take(Space([], [], 0), Begin, u) == Next(Space([], [{}], 0))
    ensures Take(Space([], [{}], 0), Write(0, 7), u) == Next(Space([7], [{7}], 0))
  {
    assert {} + {7} == {7};
  }

  /** The shipped log area of 30 blocks: one logged block and readers holding the other 29 buffers are enough. */
  lemma ReadersPanicCommit()
    ensures var u, s := Setup(30, 29), Space([7], [{7}], 29); Reachable(s, u) && Take(s, End(0), u) == CommitPanic
  {
    var u := Setup(30, 29);
    OneLogged(u);
    assert Take(Space([7], [{7}], 29), End(0), u) == CommitPanic;
    hide *;
    Start(u);
    Extend(Space([], [], 0), Begin, u);
    Extend(Space([], [{}], 0), Write(0, 7), u);
    HeldReachable(Space([7], [{7}], 0), 29, u);
  }
}
