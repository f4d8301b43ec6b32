/**
  Two-phase commit over files (operating-systems/twophase): every node keeps its
  entry in a two-slot file, and a crash may also strike while the file is being
  written. Every such run is a run of TwoPhase, whose log entries are atomic.
 */
module TwoPhaseOnDisk {
  import opened Words
  import opened Wrappers
  import opened TwoPhaseNodes
  import opened TwoPhase
  import Disk = TwoSlotLog

  type Image = seq<Byte>

  /** The nodes, whose logs stand for what their files say. */
  datatype Machine = Machine(s: System, coordFile: Image, files: seq<Image>)

  datatype Codecs = Codecs(coord: Disk.Codec<CoordEntry>, worker: Disk.Codec<WorkerEntry>)

  ghost predicate FaithfulBoth(c: Codecs) {
    Disk.Faithful(c.coord) && Disk.Faithful(c.worker)
  }

  /** Opening the file gives that entry; before the first write there is none. */
  ghost predicate Holds<E>(d: Image, c: Disk.Codec<E>, log: Option<E>) {
    Disk.Opened(d, c) == Some(log) && (Disk.Complete(d, c) || (Disk.Blank(d) && log.None?))
  }

  ghost predicate FileHolds(m: Machine, c: Codecs, w: nat)
    requires w < |m.files| && w < |m.s.nodes|
  {
    Holds(m.files[w], c.worker, m.s.nodes[w].log)
  }

  ghost predicate Faces(m: Machine, c: Codecs) {
    && |m.files| == |m.s.nodes| && Holds(m.coordFile, c.coord, m.s.log)
    && forall w {:trigger FileHolds(m, c, w)} :: 0 <= w < |m.files| ==> FileHolds(m, c, w)
  }

  // ----- The steps

  /** The file after a step during which no crash struck: left alone, or written with the new entry. */
  ghost predicate Saved<E>(d: Image, g: Image, c: Disk.Codec<E>, was: Option<E>, now: Option<E>) {
    || (g == d && now == was)
    || (now.Some? && |c.dumps(now.value)| <= Disk.MAX_SIZE && g == Disk.Written(d, Disk.Flipped(Disk.IndexOf(d)), c, now.value))
  }

  /** A file that a crash has left while now was being written. */
  ghost predicate Struck<E>(d: Image, g: Image, c: Disk.Codec<E>, now: Option<E>) {
    && now.Some? && |c.dumps(now.value)| <= Disk.MAX_SIZE && Disk.Complete(d, c)
    && Disk.CrashLeaves(d, Disk.Flipped(Disk.IndexOf(d)), c, now.value, g)
  }

  ghost predicate SavedAt(m: Machine, t: Machine, c: Codecs, w: nat)
    requires w < |m.files| && w < |t.files| && w < |m.s.nodes| && w < |t.s.nodes|
  {
    Saved(m.files[w], t.files[w], c.worker, m.s.nodes[w].log, t.s.nodes[w].log)
  }

  ghost predicate Quiet(m: Machine, t: Machine, c: Codecs) {
    && Follows(m.s, t.s)
    && |t.files| == |m.files| == |m.s.nodes| == |t.s.nodes|
    && Saved(m.coordFile, t.coordFile, c.coord, m.s.log, t.s.log)
    && forall w {:trigger SavedAt(m, t, c, w)} :: 0 <= w < |m.files| ==> SavedAt(m, t, c, w)
  }

  /** Worker w crashes while it writes what handling its request calls for: the call fails, and its file says what it then says. */
  ghost predicate WorkerStruck(m: Machine, t: Machine, c: Codecs, w: nat) {
    && Next(m.s, Deliver(w, false)).Some? && w < |m.files| == |m.s.nodes| && t.coordFile == m.coordFile
    && var now := Next(m.s, Deliver(w, false)).value;
    && |t.files| == |m.files| && t.files == m.files[w := t.files[w]]
    && Struck(m.files[w], t.files[w], c.worker, now.nodes[w].log)
    && Disk.Opened(t.files[w], c.worker).Some?
    && t.s == now.(nodes := m.s.nodes[w := Node(Disk.Opened(t.files[w], c.worker).value, None)])
  }

  /** The coordinator crashes while it writes its log. */
  ghost predicate CoordinatorStruck(m: Machine, t: Machine, c: Codecs, step: Step) {
    && (step.Begin? || step.Decide? || step.Finish?) && Next(m.s, step).Some? && t.files == m.files
    && Struck(m.coordFile, t.coordFile, c.coord, Next(m.s, step).value.log)
    && Disk.Opened(t.coordFile, c.coord).Some?
    && t.s == m.s.(log := Disk.Opened(t.coordFile, c.coord).value, coord := Down)
  }

  ghost predicate Step(m: Machine, t: Machine, c: Codecs) {
    || Quiet(m, t, c)
    || (exists w :: WorkerStruck(m, t, c, w))
    || exists step :: CoordinatorStruck(m, t, c, step)
  }

  ghost predicate StepsAt(ms: seq<Machine>, c: Codecs, i: nat)
    requires 0 < i < |ms|
  {
    Step(ms[i - 1], ms[i], c)
  }

  /** A run from empty files, or files of zeros too short for a slot. */
  ghost predicate DiskRun(ms: seq<Machine>, c: Codecs) {
    && ms != [] && ms[0].s == Fresh(|ms[0].s.nodes|) && Faces(ms[0], c)
    && forall i {:trigger StepsAt(ms, c, i)} :: 0 < i < |ms| ==> StepsAt(ms, c, i)
  }

  // ----- Files stay what the logs say

  lemma SavedHolds<E(!new)>(d: Image, g: Image, c: Disk.Codec<E>, was: Option<E>, now: Option<E>)
    requires Disk.Faithful(c) && Holds(d, c, was) && Saved(d, g, c, was, now)
    ensures Holds(g, c, now)
  {
    hide Disk.Faithful, Disk.Opened, Disk.Complete, Disk.Blank, Disk.Written;
    if !(g == d && now == was) {
      Disk.WriteCompletes(d, Disk.Flipped(Disk.IndexOf(d)), c, now.value);
    }
  }

  /** A crash during a write leaves the entry from before or the one being written. */
  lemma StruckHolds<E(!new)>(d: Image, g: Image, c: Disk.Codec<E>, was: Option<E>, now: Option<E>)
    requires Disk.Faithful(c) && Holds(d, c, was) && Struck(d, g, c, now)
    ensures Disk.Opened(g, c) == Some(was) || Disk.Opened(g, c) == Some(now)
    ensures Holds(g, c, Disk.Opened(g, c).value)
  {
    hide Disk.Faithful, Disk.Opened, Disk.Complete, Disk.Blank, Disk.CrashLeaves;
    Disk.CompleteIndex(d, c);
    Disk.CrashIsAtomic(d, c, now.value, g);
  }

  // ----- Every step is one or two of TwoPhase

  ghost predicate Simulated(m: Machine, t: Machine) {
    Follows(m.s, t.s) || exists u :: Follows(m.s, u) && Follows(u, t.s)
  }

  lemma QuietKeeps(m: Machine, t: Machine, c: Codecs)
    requires FaithfulBoth(c) && Faces(m, c) && Quiet(m, t, c)
    ensures Faces(t, c) && Simulated(m, t)
  {
    hide Holds, Saved, Follows, Disk.Faithful;
    SavedHolds(m.coordFile, t.coordFile, c.coord, m.s.log, t.s.log);
    forall w {:trigger FileHolds(t, c, w)} | 0 <= w < |t.files|
      ensures FileHolds(t, c, w)
    {
      assert FileHolds(m, c, w) && SavedAt(m, t, c, w);
      SavedHolds(m.files[w], t.files[w], c.worker, m.s.nodes[w].log, t.s.nodes[w].log);
    }
  }

  /** The crash came before the request, which is lost, or behind it. */
  lemma WorkerStruckKeeps(m: Machine, t: Machine, c: Codecs, w: nat)
    requires FaithfulBoth(c) && Faces(m, c) && WorkerStruck(m, t, c, w)
    ensures Faces(t, c) && Simulated(m, t)
  {
    hide Holds, Struck, Disk.Faithful, Handle;
    var s, now := m.s, Next(m.s, Deliver(w, false)).value;
    assert FileHolds(m, c, w);
    StruckHolds(m.files[w], t.files[w], c.worker, s.nodes[w].log, now.nodes[w].log);
    forall x {:trigger FileHolds(t, c, x)} | 0 <= x < |t.files|
      ensures FileHolds(t, c, x)
    {
      assert FileHolds(m, c, x);
    }
    if t.s.nodes[w].log == s.nodes[w].log {
      var u := Next(s, CrashWorker(w)).value;
      assert Leads(s, CrashWorker(w), u);
      assert s.wires[w][..0] + s.wires[w][1..] == s.wires[w][1..];
      assert Leads(u, Drop(w, 0), t.s);
      assert Follows(s, u) && Follows(u, t.s);
    } else {
      assert t.s.nodes == now.nodes[w := now.nodes[w].(memory := None)];
      assert Leads(s, Deliver(w, false), now) && Leads(now, CrashWorker(w), t.s);
      assert Follows(s, now) && Follows(now, t.s);
    }
  }

  lemma CoordinatorStruckKeeps(m: Machine, t: Machine, c: Codecs, step: Step)
    requires FaithfulBoth(c) && Faces(m, c) && CoordinatorStruck(m, t, c, step)
    ensures Faces(t, c) && Simulated(m, t)
  {
    hide Holds, Struck, Disk.Faithful;
    var s, now := m.s, Next(m.s, step).value;
    StruckHolds(m.coordFile, t.coordFile, c.coord, s.log, now.log);
    forall x {:trigger FileHolds(t, c, x)} | 0 <= x < |t.files|
      ensures FileHolds(t, c, x)
    {
      assert FileHolds(m, c, x);
    }
    if t.s.log == s.log {
      assert Leads(s, CrashCoordinator, t.s);
      assert Follows(s, t.s);
    } else {
      assert Leads(s, step, now) && Leads(now, CrashCoordinator, t.s);
      assert Follows(s, now) && Follows(now, t.s);
    }
  }

  lemma StepSimulated(m: Machine, t: Machine, c: Codecs)
    requires FaithfulBoth(c) && Faces(m, c) && Step(m, t, c)
    ensures Faces(t, c) && Simulated(m, t)
  {
    hide Faces, Simulated, Quiet, WorkerStruck, CoordinatorStruck, FaithfulBoth;
    if Quiet(m, t, c) {
      QuietKeeps(m, t, c);
    } else if w :| WorkerStruck(m, t, c, w) {
      WorkerStruckKeeps(m, t, c, w);
    } else {
      var step :| CoordinatorStruck(m, t, c, step);
      CoordinatorStruckKeeps(m, t, c, step);
    }
  }

  /** The refinement: whatever crashes strike the files, the nodes are where a run with atomic logs can bring them. */
  lemma {:induction false} Refines(ms: seq<Machine>, c: Codecs, i: nat) returns (run: seq<System>)
    requires FaithfulBoth(c) && DiskRun(ms, c) && i < |ms|
    ensures Faces(ms[i], c) && Run(run) && run[|run| - 1] == ms[i].s
  {
    hide Faces, Step, Follows, FaithfulBoth;
    if i == 0 {
      run := [ms[0].s];
    } else {
      var was := Refines(ms, c, i - 1);
      assert StepsAt(ms, c, i);
      StepSimulated(ms[i - 1], ms[i], c);
      if Follows(ms[i - 1].s, ms[i].s) {
        Extended(was, ms[i].s);
        run := was + [ms[i].s];
      } else {
        var u :| Follows(ms[i - 1].s, u) && Follows(u, ms[i].s);
        Extended(was, u);
        Extended(was + [u], ms[i].s);
        run := was + [u] + [ms[i].s];
      }
    }
  }

  /** So agreement holds over files, too. */
  lemma AgreementOnDisk(ms: seq<Machine>, c: Codecs, i: nat, w: nat, x: nat)
    requires FaithfulBoth(c) && DiskRun(ms, c) && i < |ms| && w < |ms[i].s.nodes| && x < |ms[i].s.nodes|
    requires Available(ms[i].s.nodes[w]) && Available(ms[i].s.nodes[x])
    ensures ms[i].s.nodes[w].memory.value.value == ms[i].s.nodes[x].memory.value.value
  {
    var run := Refines(ms, c, i);
    Agreement(run, |run| - 1, w, x);
  }

  /** And every file can be opened, to an entry that a worker can be restarted from. */
  lemma FilesRestart(ms: seq<Machine>, c: Codecs, i: nat, w: nat)
    requires FaithfulBoth(c) && DiskRun(ms, c) && i < |ms| && w < |ms[i].s.nodes|
    ensures w < |ms[i].files| && var log := Disk.Opened(ms[i].files[w], c.worker);
      log.Some? && log.value == ms[i].s.nodes[w].log && RecoveredWorker(log.value).Some?
  {
    var run := Refines(ms, c, i);
    RestartSucceeds(run, |run| - 1, w);
    assert FileHolds(ms[i], c, w);
  }
}
