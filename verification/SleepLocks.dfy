/**
  Sleep locks over all interleavings (operating-systems/xv6-OS/sleeplock.c, with
  sleep, wakeup, wakeup1 and kill of proc.c). A step is one access to shared
  state by one process; spinlocks exclude each other, nothing else does.
 */
module SleepLocks {
  import opened Wrappers

  /** The next thing a process does. l is the sleep lock, which is also the channel. */
  datatype Pc =
    | Elsewhere
    // acquiresleep
    | AcquireInner(l: nat) | TestLocked(l: nat) | SetLocked(l: nat) | ReleaseInner(l: nat)
    // sleep
    | SleepTable(l: nat) | SleepRelease(l: nat) | SetChan(l: nat) | SetSleeping(l: nat) | Sched(l: nat)
    | Asleep(l: nat) | ClearChan(l: nat) | WokenTable(l: nat)
    // releasesleep and wakeup
    | UnlockInner(l: nat) | ClearLocked(l: nat) | WakeTable(l: nat) | WakeScan(l: nat, i: nat) | WakeDone(l: nat)
    // kill
    | KillTable(pid: int) | KillScan(pid: int, i: nat) | KillDone

  datatype Run = Sleeping | Runnable | Running

  /** held is the history variable: the locks this process has taken and not yet given back. */
  datatype Proc = Proc(pc: Pc, run: Run, chan: Option<nat>, pid: int, killed: bool, held: set<nat>)

  datatype SleepLock = SleepLock(locked: bool, pid: int)

  /** Who holds ptable.lock and the spinlock inside each sleep lock; the scheduler holds ptable.lock for the process it runs. */
  datatype System = System(procs: seq<Proc>, table: Option<nat>, inner: seq<Option<nat>>, locks: seq<SleepLock>)

  /** What a process may call next. releasesleep is for its holder. */
  datatype Call = AcquireSleep(l: nat) | ReleaseSleep(l: nat) | Kill(pid: int)

  ghost function Called(s: System, p: Proc, call: Call): Option<Pc> {
    match call
    case AcquireSleep(l) => if l < |s.locks| then Some(AcquireInner(l)) else None
    case ReleaseSleep(l) => if l in p.held then Some(UnlockInner(l)) else None
    case Kill(pid) => Some(KillTable(pid))
  }

  ghost predicate Sized(s: System) { |s.inner| == |s.locks| }

  ghost predicate Has(s: System, l: nat) { l < |s.locks| && l < |s.inner| }

  // ----- Steps

  ghost function To(s: System, p: nat, q: Proc): System
    requires p < |s.procs|
  {
    s.(procs := s.procs[p := q])
  }

  ghost function TakeTable(s: System, p: nat, pc: Pc): Option<System>
    requires p < |s.procs|
  {
    if s.table.None? then Some(To(s, p, s.procs[p].(pc := pc)).(table := Some(p))) else None
  }

  ghost function DropTable(s: System, p: nat, pc: Pc): System
    requires p < |s.procs|
  {
    To(s, p, s.procs[p].(pc := pc)).(table := None)
  }

  ghost function TakeInner(s: System, p: nat, l: nat, pc: Pc): Option<System>
    requires p < |s.procs|
  {
    if Has(s, l) && s.inner[l].None? then Some(To(s, p, s.procs[p].(pc := pc)).(inner := s.inner[l := Some(p)])) else None
  }

  ghost function DropInner(s: System, p: nat, l: nat, pc: Pc): Option<System>
    requires p < |s.procs|
  {
    if Has(s, l) then Some(To(s, p, s.procs[p].(pc := pc)).(inner := s.inner[l := None])) else None
  }

  /** wakeup1 at process i. */
  ghost function Woken(p: Proc, chan: nat): Proc {
    if p.run == Sleeping && p.chan == Some(chan) then p.(run := Runnable) else p
  }

  /** kill at the process with the pid. */
  ghost function Killed(p: Proc): Proc {
    p.(killed := true, run := if p.run == Sleeping then Runnable else p.run)
  }

  ghost function AcquireStep(s: System, p: nat): Option<System>
    requires p < |s.procs|
  {
    var me := s.procs[p];
    match me.pc
    case AcquireInner(l) => TakeInner(s, p, l, TestLocked(l))
    case TestLocked(l) => if Has(s, l) then Some(To(s, p, me.(pc := if s.locks[l].locked then SleepTable(l) else SetLocked(l)))) else None
    case SetLocked(l) =>
      if Has(s, l) then Some(To(s, p, me.(pc := ReleaseInner(l), held := me.held + {l})).(locks := s.locks[l := SleepLock(true, me.pid)])) else None
    case ReleaseInner(l) => DropInner(s, p, l, Elsewhere)
    case _ => None
  }

  ghost function SleepStep(s: System, p: nat): Option<System>
    requires p < |s.procs|
  {
    var me := s.procs[p];
    match me.pc
    case SleepTable(l) => TakeTable(s, p, SleepRelease(l))
    case SleepRelease(l) => DropInner(s, p, l, SetChan(l))
    case SetChan(l) => Some(To(s, p, me.(pc := SetSleeping(l), chan := Some(l))))
    case SetSleeping(l) => Some(To(s, p, me.(pc := Sched(l), run := Sleeping)))
    case Sched(l) => Some(DropTable(s, p, Asleep(l)))
    case Asleep(l) =>
      if me.run == Runnable && s.table.None? then Some(To(s, p, me.(pc := ClearChan(l), run := Running)).(table := Some(p))) else None
    case ClearChan(l) => Some(To(s, p, me.(pc := WokenTable(l), chan := None)))
    case WokenTable(l) => Some(DropTable(s, p, AcquireInner(l)))
    case _ => None
  }

  ghost function Scanned(s: System, p: nat, l: nat, i: nat): System
    requires p < |s.procs| && i < |s.procs|
  {
    var t := To(s, i, Woken(s.procs[i], l));
    To(t, p, t.procs[p].(pc := WakeScan(l, i + 1)))
  }

  ghost function ReleaseStep(s: System, p: nat): Option<System>
    requires p < |s.procs|
  {
    var me := s.procs[p];
    match me.pc
    case UnlockInner(l) => TakeInner(s, p, l, ClearLocked(l))
    case ClearLocked(l) =>
      if Has(s, l) then Some(To(s, p, me.(pc := WakeTable(l), held := me.held - {l})).(locks := s.locks[l := SleepLock(false, 0)])) else None
    case WakeTable(l) => TakeTable(s, p, WakeScan(l, 0))
    case WakeScan(l, i) =>
      if i < |s.procs| then Some(Scanned(s, p, l, i))
      else Some(DropTable(s, p, WakeDone(l)))
    case WakeDone(l) => DropInner(s, p, l, Elsewhere)
    case _ => None
  }

  ghost function KillStep(s: System, p: nat): Option<System>
    requires p < |s.procs|
  {
    match s.procs[p].pc
    case KillTable(pid) => TakeTable(s, p, KillScan(pid, 0))
    case KillScan(pid, i) =>
      if i >= |s.procs| then Some(To(s, p, s.procs[p].(pc := KillDone)))
      else if s.procs[i].pid == pid then
        var t := To(s, i, Killed(s.procs[i]));
        Some(To(t, p, t.procs[p].(pc := KillDone)))
      else Some(To(s, p, s.procs[p].(pc := KillScan(pid, i + 1))))
    case KillDone => Some(DropTable(s, p, Elsewhere))
    case _ => None
  }

  /** One step of process p; call is used only when it is about to call something. None: it has to wait. */
  ghost function Next(s: System, p: nat, call: Call): Option<System> {
    if p >= |s.procs| then None
    else if s.procs[p].pc == Elsewhere then
      var pc := Called(s, s.procs[p], call);
      if pc.Some? then Some(To(s, p, s.procs[p].(pc := pc.value))) else None
    else if AcquireStep(s, p).Some? then AcquireStep(s, p)
    else if SleepStep(s, p).Some? then SleepStep(s, p)
    else if ReleaseStep(s, p).Some? then ReleaseStep(s, p)
    else KillStep(s, p)
  }

  // ----- What every step keeps

  /** The program counters between acquire and release of the inner lock. */
  ghost predicate InInner(pc: Pc, l: nat) {
    match pc
    case TestLocked(k) => k == l
    case SetLocked(k) => k == l
    case ReleaseInner(k) => k == l
    case SleepTable(k) => k == l
    case SleepRelease(k) => k == l
    case ClearLocked(k) => k == l
    case WakeTable(k) => k == l
    case WakeScan(k, _) => k == l
    case WakeDone(k) => k == l
    case _ => false
  }

  ghost predicate InTable(pc: Pc) {
    pc.SleepRelease? || pc.SetChan? || pc.SetSleeping? || pc.Sched? || pc.ClearChan? || pc.WokenTable?
    || pc.WakeScan? || pc.KillScan? || pc.KillDone?
  }

  /** Past the point of no return on the way to sleep, or asleep, on lock l. */
  ghost predicate Committed(p: Proc, l: nat) {
    match p.pc
    case SetChan(k) => k == l
    case SetSleeping(k) => k == l
    case Sched(k) => k == l
    case Asleep(k) => k == l && p.run == Sleeping
    case _ => false
  }

  /** What a process's place in the code says about its own fields and the lock. */
  ghost predicate PlaceOk(s: System, p: nat)
    requires p < |s.procs|
  {
    var me := s.procs[p];
    match me.pc
    case SetLocked(l) => Has(s, l) && !s.locks[l].locked
    case ReleaseInner(l) => l in me.held
    case SleepTable(l) => Has(s, l) && s.locks[l].locked
    case SleepRelease(l) => Has(s, l) && s.locks[l].locked
    case UnlockInner(l) => l in me.held
    case ClearLocked(l) => l in me.held
    case WakeTable(l) => Has(s, l) && !s.locks[l].locked
    case WakeScan(l, i) => Has(s, l) && !s.locks[l].locked
    case WakeDone(l) => Has(s, l) && !s.locks[l].locked
    case SetSleeping(l) => me.chan == Some(l)
    case Sched(l) => me.chan == Some(l) && me.run == Sleeping
    case Asleep(l) => me.chan == Some(l) && me.run != Running
    case _ => true
  }

  ghost predicate ProcOk(s: System, p: nat)
    requires p < |s.procs|
  {
    && PlaceOk(s, p)
    && (s.procs[p].run != Running ==> s.procs[p].pc.Sched? || s.procs[p].pc.Asleep?)
    && (s.table == Some(p) <==> InTable(s.procs[p].pc))
  }

  /** Whoever is on the way to sleep on a free lock will be found by a releaser that still has to pass it. */
  ghost predicate WillBeWoken(s: System, p: nat, l: nat)
    requires p < |s.procs| && Has(s, l)
  {
    s.locks[l].locked || (s.inner[l].Some? && s.inner[l].value < |s.procs| && Wakes(s.procs[s.inner[l].value].pc, p, l, s.procs[p].pc))
  }

  ghost predicate Wakes(pc: Pc, p: nat, l: nat, sleeper: Pc) {
    pc == WakeTable(l) || (pc.WakeScan? && pc.l == l && pc.i <= p && sleeper.Asleep?)
  }

  /** A process and a lock. */
  ghost predicate PairOk(s: System, p: nat, l: nat)
    requires p < |s.procs| && Has(s, l)
  {
    var me := s.procs[p];
    && (s.inner[l] == Some(p) <==> InInner(me.pc, l))
    && (l in me.held ==> s.locks[l] == SleepLock(true, me.pid))
    && (Committed(me, l) ==> WillBeWoken(s, p, l))
  }

  ghost predicate Apart(s: System, p: nat, q: nat, l: nat)
    requires p < |s.procs| && q < |s.procs|
  {
    p != q && l in s.procs[p].held ==> l !in s.procs[q].held
  }

  /** A lock that is taken has a holder. */
  ghost predicate LockOk(s: System, l: nat)
    requires l < |s.locks|
  {
    s.locks[l].locked ==> exists p :: 0 <= p < |s.procs| && l in s.procs[p].held
  }

  ghost predicate HeldOk(s: System, p: nat)
    requires p < |s.procs|
  {
    forall l :: l in s.procs[p].held ==> l < |s.locks|
  }

  ghost predicate Inv(s: System) {
    && Sized(s)
    && (forall l {:trigger LockOk(s, l)} :: 0 <= l < |s.locks| ==> LockOk(s, l))
    && (forall p {:trigger ProcOk(s, p)} :: 0 <= p < |s.procs| ==> ProcOk(s, p))
    && (forall p, l {:trigger PairOk(s, p, l)} :: 0 <= p < |s.procs| && 0 <= l < |s.locks| ==> PairOk(s, p, l))
    && (forall p, q, l {:trigger Apart(s, p, q, l)} :: 0 <= p < |s.procs| && 0 <= q < |s.procs| && 0 <= l ==> Apart(s, p, q, l))
    && (forall p {:trigger HeldOk(s, p)} :: 0 <= p < |s.procs| ==> HeldOk(s, p))
  }

  ghost function LockOf(pc: Pc): nat {
    match pc
    case SetLocked(l) => l
    case SleepTable(l) => l
    case SleepRelease(l) => l
    case WakeTable(l) => l
    case WakeScan(l, _) => l
    case WakeDone(l) => l
    case _ => 0
  }

  ghost predicate Changed(s: System, t: System) {
    |t.procs| == |s.procs| && |t.locks| == |s.locks| && Sized(t)
  }

  /** The instances of the invariant that a step of p can need for process q and lock l. */
  ghost predicate Known(s: System, p: nat, q: nat, l: nat)
    requires p < |s.procs| && q < |s.procs|
  {
    && Sized(s) && ProcOk(s, p) && ProcOk(s, q)
    && (l < |s.locks| ==>
      && PairOk(s, p, l) && PairOk(s, q, l) && Apart(s, p, q, l) && Apart(s, q, p, l)
      && (s.inner[l].Some? && s.inner[l].value < |s.procs| ==> ProcOk(s, s.inner[l].value) && PairOk(s, s.inner[l].value, l)))
  }

  lemma InvKnown(s: System, p: nat, q: nat, l: nat)
    requires Inv(s) && p < |s.procs| && q < |s.procs|
    ensures Known(s, p, q, l)
  {
    assert ProcOk(s, p) && ProcOk(s, q) && Apart(s, p, q, l) && Apart(s, q, p, l);
    if l < |s.locks| {
      assert PairOk(s, p, l) && PairOk(s, q, l);
      if s.inner[l].Some? && s.inner[l].value < |s.procs| {
        assert ProcOk(s, s.inner[l].value) && PairOk(s, s.inner[l].value, l);
      }
    }
  }

  lemma LockingKeepsProc(s: System, p: nat, t: System, q: nat)
    requires p < |s.procs| && q < |s.procs| && Known(s, p, q, LockOf(s.procs[q].pc)) && AcquireStep(s, p) == Some(t)
    requires s.procs[p].pc.SetLocked?
    ensures Changed(s, t) && ProcOk(t, q)
  {
    hide WillBeWoken, Committed, Wakes, Apart;
  }

  lemma AcquireKeepsProc(s: System, p: nat, t: System, q: nat)
    requires p < |s.procs| && q < |s.procs| && Known(s, p, q, LockOf(s.procs[q].pc)) && AcquireStep(s, p) == Some(t)
    ensures Changed(s, t) && ProcOk(t, q)
  {
    hide WillBeWoken, Committed, Wakes, Apart;
    if s.procs[p].pc.SetLocked? {
      LockingKeepsProc(s, p, t, q);
      hide ProcOk;
    }
  }

  lemma AcquireKeepsPair(s: System, p: nat, t: System, q: nat, l: nat)
    requires p < |s.procs| && q < |s.procs| && l < |s.locks| && Known(s, p, q, l) && AcquireStep(s, p) == Some(t)
    ensures Changed(s, t) && PairOk(t, q, l)
  {
  }

  lemma WakingKeepsProc(s: System, p: nat, t: System, q: nat)
    requires p < |s.procs| && q < |s.procs| && Known(s, p, q, LockOf(s.procs[q].pc)) && SleepStep(s, p) == Some(t)
    requires s.procs[p].pc.Asleep? || s.procs[p].pc.ClearChan? || s.procs[p].pc.WokenTable?
    ensures Changed(s, t) && ProcOk(t, q)
  {
    hide WillBeWoken, Committed, Wakes, Apart;
  }

  lemma SleepKeepsProc(s: System, p: nat, t: System, q: nat)
    requires p < |s.procs| && q < |s.procs| && Known(s, p, q, LockOf(s.procs[q].pc)) && SleepStep(s, p) == Some(t)
    ensures Changed(s, t) && ProcOk(t, q)
  {
    hide WillBeWoken, Committed, Wakes, Apart;
    if s.procs[p].pc.Asleep? || s.procs[p].pc.ClearChan? || s.procs[p].pc.WokenTable? {
      WakingKeepsProc(s, p, t, q);
      hide ProcOk;
    }
  }

  /** The steps behind sched. */
  lemma WakingKeepsPair(s: System, p: nat, t: System, q: nat, l: nat)
    requires p < |s.procs| && q < |s.procs| && l < |s.locks| && Known(s, p, q, l) && SleepStep(s, p) == Some(t)
    requires s.procs[p].pc.Asleep? || s.procs[p].pc.ClearChan? || s.procs[p].pc.WokenTable?
    ensures Changed(s, t) && PairOk(t, q, l)
  {
    hide Apart;
  }

  lemma SleepKeepsPair(s: System, p: nat, t: System, q: nat, l: nat)
    requires p < |s.procs| && q < |s.procs| && l < |s.locks| && Known(s, p, q, l) && SleepStep(s, p) == Some(t)
    ensures Changed(s, t) && PairOk(t, q, l)
  {
    hide Apart;
    if s.procs[p].pc.Asleep? || s.procs[p].pc.ClearChan? || s.procs[p].pc.WokenTable? {
      WakingKeepsPair(s, p, t, q, l);
      hide PairOk;
    }
  }

  lemma ScanKeepsProc(s: System, p: nat, q: nat, i: nat)
    requires p < |s.procs| && q < |s.procs| && Known(s, p, q, LockOf(s.procs[q].pc))
    requires s.procs[p].pc.WakeScan? && s.procs[p].pc.i == i < |s.procs|
    ensures ProcOk(Scanned(s, p, s.procs[p].pc.l, i), q)
  {
    hide WillBeWoken, Committed, Wakes, Apart;
  }

  lemma ScanKeepsPair(s: System, p: nat, q: nat, l: nat, i: nat)
    requires p < |s.procs| && q < |s.procs| && l < |s.locks| && Known(s, p, q, l)
    requires s.procs[p].pc.WakeScan? && s.procs[p].pc.i == i < |s.procs|
    ensures PairOk(Scanned(s, p, s.procs[p].pc.l, i), q, l)
  {
  }

  lemma ClearKeepsProc(s: System, p: nat, t: System, q: nat)
    requires p < |s.procs| && q < |s.procs| && Known(s, p, q, LockOf(s.procs[q].pc)) && ReleaseStep(s, p) == Some(t)
    requires s.procs[p].pc.ClearLocked?
    ensures Changed(s, t) && ProcOk(t, q)
  {
    hide WillBeWoken, Committed, Wakes, Apart;
  }

  lemma TableKeepsProc(s: System, p: nat, t: System, q: nat)
    requires p < |s.procs| && q < |s.procs| && Known(s, p, q, LockOf(s.procs[q].pc)) && ReleaseStep(s, p) == Some(t)
    requires s.procs[p].pc.WakeTable? || (s.procs[p].pc.WakeScan? && s.procs[p].pc.i >= |s.procs|)
    ensures Changed(s, t) && ProcOk(t, q)
  {
    hide WillBeWoken, Committed, Wakes, Apart;
  }

  lemma ReleaseKeepsProc(s: System, p: nat, t: System, q: nat)
    requires p < |s.procs| && q < |s.procs| && Known(s, p, q, LockOf(s.procs[q].pc)) && ReleaseStep(s, p) == Some(t)
    ensures Changed(s, t) && ProcOk(t, q)
  {
    hide WillBeWoken, Committed, Wakes, Apart;
    if s.procs[p].pc.WakeScan? && s.procs[p].pc.i < |s.procs| {
      ScanKeepsProc(s, p, q, s.procs[p].pc.i);
      hide ProcOk;
    } else if s.procs[p].pc.ClearLocked? {
      ClearKeepsProc(s, p, t, q);
      hide ProcOk;
    } else if s.procs[p].pc.WakeTable? || s.procs[p].pc.WakeScan? {
      TableKeepsProc(s, p, t, q);
      hide ProcOk;
    }
  }

  lemma ReleaseKeepsPair(s: System, p: nat, t: System, q: nat, l: nat)
    requires p < |s.procs| && q < |s.procs| && l < |s.locks| && Known(s, p, q, l) && ReleaseStep(s, p) == Some(t)
    ensures Changed(s, t) && PairOk(t, q, l)
  {
    if s.procs[p].pc.WakeScan? && s.procs[p].pc.i < |s.procs| {
      ScanKeepsPair(s, p, q, l, s.procs[p].pc.i);
      hide PairOk;
    }
  }

  lemma KillKeepsProc(s: System, p: nat, t: System, q: nat)
    requires p < |s.procs| && q < |s.procs| && Known(s, p, q, LockOf(s.procs[q].pc)) && KillStep(s, p) == Some(t)
    ensures Changed(s, t) && ProcOk(t, q)
  {
    hide WillBeWoken, Committed, Wakes, Apart;
  }

  lemma KillKeepsPair(s: System, p: nat, t: System, q: nat, l: nat)
    requires p < |s.procs| && q < |s.procs| && l < |s.locks| && Known(s, p, q, l) && KillStep(s, p) == Some(t)
    ensures Changed(s, t) && PairOk(t, q, l)
  {
  }

  lemma CallKeepsProc(s: System, p: nat, call: Call, pc: Pc, q: nat)
    requires p < |s.procs| && q < |s.procs| && Known(s, p, q, LockOf(s.procs[q].pc))
    requires s.procs[p].pc == Elsewhere && Called(s, s.procs[p], call) == Some(pc)
    ensures ProcOk(To(s, p, s.procs[p].(pc := pc)), q)
  {
    hide WillBeWoken, Committed, Wakes, Apart;
  }

  lemma CallKeepsPair(s: System, p: nat, call: Call, pc: Pc, q: nat, l: nat)
    requires p < |s.procs| && q < |s.procs| && l < |s.locks| && Known(s, p, q, l)
    requires s.procs[p].pc == Elsewhere && Called(s, s.procs[p], call) == Some(pc)
    ensures PairOk(To(s, p, s.procs[p].(pc := pc)), q, l)
  {
  }

  lemma ProcKept(s: System, p: nat, call: Call, q: nat)
    requires Inv(s) && Next(s, p, call).Some? && q < |s.procs|
    ensures var t := Next(s, p, call).value; Changed(s, t) && ProcOk(t, q)
  {
    InvKnown(s, p, q, LockOf(s.procs[q].pc));
    hide Inv, Known, ProcOk, PairOk, AcquireStep, SleepStep, ReleaseStep, KillStep;
    var t := Next(s, p, call).value;
    if s.procs[p].pc == Elsewhere {
      CallKeepsProc(s, p, call, t.procs[p].pc, q);
    } else if AcquireStep(s, p).Some? {
      AcquireKeepsProc(s, p, t, q);
    } else if SleepStep(s, p).Some? {
      SleepKeepsProc(s, p, t, q);
    } else if ReleaseStep(s, p).Some? {
      ReleaseKeepsProc(s, p, t, q);
    } else {
      KillKeepsProc(s, p, t, q);
    }
  }

  lemma PairKept(s: System, p: nat, call: Call, q: nat, l: nat)
    requires Inv(s) && Next(s, p, call).Some? && q < |s.procs| && l < |s.locks|
    ensures var t := Next(s, p, call).value; Changed(s, t) && PairOk(t, q, l)
  {
    InvKnown(s, p, q, l);
    hide Inv, Known, ProcOk, PairOk, AcquireStep, SleepStep, ReleaseStep, KillStep;
    var t := Next(s, p, call).value;
    if s.procs[p].pc == Elsewhere {
      CallKeepsPair(s, p, call, t.procs[p].pc, q, l);
    } else if AcquireStep(s, p).Some? {
      AcquireKeepsPair(s, p, t, q, l);
    } else if SleepStep(s, p).Some? {
      SleepKeepsPair(s, p, t, q, l);
    } else if ReleaseStep(s, p).Some? {
      ReleaseKeepsPair(s, p, t, q, l);
    } else {
      KillKeepsPair(s, p, t, q, l);
    }
  }

  /** Only two steps change what a process holds. */
  lemma HeldChanges(s: System, p: nat, call: Call, q: nat)
    requires Next(s, p, call).Some? && q < |s.procs|
    ensures var t := Next(s, p, call).value;
      && |t.procs| == |s.procs|
      && t.procs[q].held ==
        if q == p && s.procs[p].pc.SetLocked? then s.procs[p].held + {s.procs[p].pc.l}
        else if q == p && s.procs[p].pc.ClearLocked? then s.procs[p].held - {s.procs[p].pc.l}
        else s.procs[q].held
  {
  }

  lemma ApartKept(s: System, p: nat, call: Call, q: nat, r: nat, l: nat)
    requires Inv(s) && Next(s, p, call).Some? && q < |s.procs| && r < |s.procs|
    ensures var t := Next(s, p, call).value; |t.procs| == |s.procs| && Apart(t, q, r, l)
  {
    HeldChanges(s, p, call, q);
    HeldChanges(s, p, call, r);
    assert ProcOk(s, p) && Apart(s, q, r, l) && HeldOk(s, q) && HeldOk(s, r);
    if l < |s.locks| {
      assert PairOk(s, q, l) && PairOk(s, r, l);
    }
    hide Inv, Next, WillBeWoken, Committed, InInner;
  }

  lemma LockKept(s: System, p: nat, call: Call, l: nat)
    requires Inv(s) && Next(s, p, call).Some? && l < |s.locks|
    ensures var t := Next(s, p, call).value; Changed(s, t) && LockOk(t, l)
  {
    ProcKept(s, p, call, p);
    LocksChange(s, p, call, l);
    assert LockOk(s, l);
    hide Inv, Next;
    var t := Next(s, p, call).value;
    if t.locks[l].locked {
      var q: nat := if s.procs[p].pc == SetLocked(l) then p else HolderOf(s, l);
      HeldChanges(s, p, call, q);
      assert l in t.procs[q].held;
    }
  }

  ghost function HolderOf(s: System, l: nat): (p: nat)
    requires l < |s.locks| && s.locks[l].locked && LockOk(s, l)
    ensures p < |s.procs| && l in s.procs[p].held
  {
    var p :| 0 <= p < |s.procs| && l in s.procs[p].held;
    p
  }

  lemma LocksChange(s: System, p: nat, call: Call, l: nat)
    requires Next(s, p, call).Some? && l < |s.locks|
    ensures var t := Next(s, p, call).value;
      && |t.locks| == |s.locks|
      && t.locks[l].locked == (if s.procs[p].pc == SetLocked(l) then true else if s.procs[p].pc == ClearLocked(l) then false else s.locks[l].locked)
  {
  }

  lemma StepKeeps(s: System, p: nat, call: Call)
    requires Inv(s) && Next(s, p, call).Some?
    ensures Inv(Next(s, p, call).value)
  {
    var t := Next(s, p, call).value;
    ProcKept(s, p, call, p);
    hide Next;
    forall q {:trigger ProcOk(t, q)} {:trigger HeldOk(t, q)} | 0 <= q < |t.procs|
      ensures ProcOk(t, q) && HeldOk(t, q)
    {
      ProcKept(s, p, call, q);
      assert HeldOk(s, q) && ProcOk(s, p);
      HeldChanges(s, p, call, q);
    }
    forall l {:trigger LockOk(t, l)} | 0 <= l < |t.locks|
      ensures LockOk(t, l)
    {
      LockKept(s, p, call, l);
    }
    forall q, l {:trigger PairOk(t, q, l)} | 0 <= q < |t.procs| && 0 <= l < |t.locks|
      ensures PairOk(t, q, l)
    {
      PairKept(s, p, call, q, l);
    }
    forall q, r, l {:trigger Apart(t, q, r, l)} | 0 <= q < |t.procs| && 0 <= r < |t.procs| && 0 <= l
      ensures Apart(t, q, r, l)
    {
      ApartKept(s, p, call, q, r, l);
    }
    hide ProcOk, PairOk, Apart, LockOk, HeldOk;
  }

  // ----- Runs

  /** Nobody has touched a sleep lock yet. */
  ghost predicate Start(s: System) {
    && Sized(s) && s.table.None?
    && (forall l :: 0 <= l < |s.locks| ==> s.locks[l] == SleepLock(false, 0) && s.inner[l].None?)
    && forall p :: 0 <= p < |s.procs| ==> s.procs[p].pc == Elsewhere && s.procs[p].run == Running && s.procs[p].held == {}
  }

  ghost predicate StepAt(run: seq<System>, i: nat)
    requires 0 < i < |run|
  {
    Follows(run[i - 1], run[i])
  }

  ghost predicate Follows(s: System, t: System) {
    exists p, call :: Leads(s, p, call, t)
  }

  ghost predicate Leads(s: System, p: nat, call: Call, t: System) {
    Next(s, p, call) == Some(t)
  }

  ghost predicate Interleaving(run: seq<System>) {
    run != [] && Start(run[0]) && forall i {:trigger StepAt(run, i)} :: 0 < i < |run| ==> StepAt(run, i)
  }

  lemma StartInv(s: System)
    requires Start(s)
    ensures Inv(s)
  {
  }

  lemma {:induction false} AlwaysInv(run: seq<System>, i: nat)
    requires Interleaving(run) && i < |run|
    ensures Inv(run[i])
  {
    if i == 0 {
      StartInv(run[0]);
    } else {
      AlwaysInv(run, i - 1);
      assert StepAt(run, i);
      hide Inv, Next;
      var p, call :| Leads(run[i - 1], p, call, run[i]);
      StepKeeps(run[i - 1], p, call);
    }
  }

  /** At most one process holds a sleep lock, and while one does the lock says so. */
  lemma MutualExclusion(run: seq<System>, i: nat, p: nat, q: nat, l: nat)
    requires Interleaving(run) && i < |run| && p < |run[i].procs| && q < |run[i].procs|
    requires l in run[i].procs[p].held && l in run[i].procs[q].held
    ensures p == q && l < |run[i].locks| && run[i].locks[l] == SleepLock(true, run[i].procs[p].pid)
  {
    AlwaysInv(run, i);
    assert Apart(run[i], p, q, l) && HeldOk(run[i], p) && PairOk(run[i], p, l);
  }

  /** holdingsleep, as process p would compute it. */
  ghost predicate HoldingSleep(s: System, p: nat, l: nat)
    requires p < |s.procs| && l < |s.locks|
  {
    s.locks[l].locked && s.locks[l].pid == s.procs[p].pid
  }

  /** With distinct pids holdingsleep is true exactly for the holder. */
  lemma HoldingSleepIsHolder(run: seq<System>, i: nat, p: nat, l: nat)
    requires Interleaving(run) && i < |run| && p < |run[i].procs| && l < |run[i].locks|
    requires forall q, r :: 0 <= q < r < |run[i].procs| ==> run[i].procs[q].pid != run[i].procs[r].pid
    ensures HoldingSleep(run[i], p, l) <==> l in run[i].procs[p].held
  {
    AlwaysInv(run, i);
    var s := run[i];
    assert PairOk(s, p, l) && LockOk(s, l);
    if HoldingSleep(s, p, l) {
      var q := HolderOf(s, l);
      assert PairOk(s, q, l);
    }
  }

  /** No wakeup is lost: when a lock and its inner lock are free, nobody sleeps on it or is bound to. */
  lemma NoLostWakeup(run: seq<System>, i: nat, p: nat, l: nat)
    requires Interleaving(run) && i < |run| && p < |run[i].procs| && l < |run[i].locks|
    requires |run[i].inner| == |run[i].locks| && run[i].inner[l].None? && !run[i].locks[l].locked
    ensures !Committed(run[i].procs[p], l)
  {
    AlwaysInv(run, i);
    assert PairOk(run[i], p, l);
  }

  /** p alone, n steps. */
  ghost function Alone(s: System, p: nat, n: nat): Option<System> {
    if n == 0 then Some(s) else match Alone(s, p, n - 1) case None => None case Some(t) => Next(t, p, Kill(0))
  }

  lemma TakesFromTop(s: System, p: nat, l: nat)
    requires Sized(s) && p < |s.procs| && l < |s.locks| && s.inner[l].None? && !s.locks[l].locked && s.procs[p].pc == AcquireInner(l)
    ensures Alone(s, p, 3).Some? && p < |Alone(s, p, 3).value.procs| && l in Alone(s, p, 3).value.procs[p].held
  {
    var t1 := Next(s, p, Kill(0)).value;
    var t2 := Next(t1, p, Kill(0)).value;
    assert Alone(s, p, 1) == Some(t1);
    assert Alone(s, p, 2) == Some(t2);
  }

  lemma WakesToTop(s: System, p: nat, l: nat) returns (t: System)
    requires Sized(s) && p < |s.procs| && s.table.None? && s.procs[p].pc == Asleep(l) && s.procs[p].run == Runnable
    ensures Alone(s, p, 3) == Some(t)
    ensures |t.procs| == |s.procs| && t.procs[p].pc == AcquireInner(l) && t.inner == s.inner && t.locks == s.locks
  {
    var t1 := Next(s, p, Kill(0)).value;
    var t2 := Next(t1, p, Kill(0)).value;
    t := Next(t2, p, Kill(0)).value;
    assert Alone(s, p, 1) == Some(t1);
    assert Alone(s, p, 2) == Some(t2);
  }

  /** So whoever waits for a lock that is free can take it by its own steps, asleep or not. */
  lemma WaiterCanTake(run: seq<System>, i: nat, p: nat, l: nat) returns (n: nat)
    requires Interleaving(run) && i < |run| && p < |run[i].procs| && l < |run[i].locks|
    requires |run[i].inner| == |run[i].locks| && run[i].inner[l].None? && !run[i].locks[l].locked && run[i].table.None?
    requires run[i].procs[p].pc == AcquireInner(l) || run[i].procs[p].pc == Asleep(l)
    ensures Alone(run[i], p, n).Some? && p < |Alone(run[i], p, n).value.procs| && l in Alone(run[i], p, n).value.procs[p].held
  {
    var s := run[i];
    AlwaysInv(run, i);
    if s.procs[p].pc == AcquireInner(l) {
      TakesFromTop(s, p, l);
      n := 3;
    } else {
      NoLostWakeup(run, i, p, l);
      assert ProcOk(s, p);
      hide Inv, Interleaving, Next;
      var t := WakesToTop(s, p, l);
      TakesFromTop(t, p, l);
      AloneOn(s, p, 3, t, 3);
      n := 6;
    }
  }

  /** Whoever is about to return from acquiresleep holds the lock. */
  lemma AcquiredIsHeld(run: seq<System>, i: nat, p: nat, l: nat)
    requires Interleaving(run) && i < |run| && p < |run[i].procs| && run[i].procs[p].pc == ReleaseInner(l)
    ensures l in run[i].procs[p].held
  {
    AlwaysInv(run, i);
    assert ProcOk(run[i], p);
    hide Inv, Interleaving;
  }

  /** Only process p differs. */
  ghost predicate OthersSame(s: System, t: System, p: nat) {
    |t.procs| == |s.procs| && forall q :: 0 <= q < |s.procs| && q != p ==> t.procs[q] == s.procs[q]
  }

  /** acquiresleep, undisturbed: a free lock is taken, with the process's number in it; on a held one the process sleeps, having given back both spinlocks. */
  lemma AcquireAlone(s: System, p: nat, l: nat)
    requires Sized(s) && p < |s.procs| && l < |s.locks| && s.inner[l].None? && s.table.None? && s.procs[p].pc == AcquireInner(l)
    ensures !s.locks[l].locked ==> Alone(s, p, 4).Some? && var t := Alone(s, p, 4).value;
      && OthersSame(s, t, p) && t.procs[p] == s.procs[p].(pc := Elsewhere, held := s.procs[p].held + {l})
      && t.locks == s.locks[l := SleepLock(true, s.procs[p].pid)] && t.inner == s.inner && t.table == s.table
    ensures s.locks[l].locked ==> Alone(s, p, 7).Some? && var t := Alone(s, p, 7).value;
      && OthersSame(s, t, p) && t.procs[p] == s.procs[p].(pc := Asleep(l), run := Sleeping, chan := Some(l))
      && t.locks == s.locks && t.inner == s.inner && t.table == s.table
  {
    hide Next, Alone;
    if s.locks[l].locked {
      var t := GoesToTable(s, p, l);
      var u := GoesToSleep(t, p, l);
      AloneOn(s, p, 3, t, 4);
    } else {
      var t := Takes(s, p, l);
      assert s.inner[l := Some(p)][l := None] == s.inner;
    }
  }

  lemma Takes(s: System, p: nat, l: nat) returns (t: System)
    requires Sized(s) && p < |s.procs| && l < |s.locks| && s.inner[l].None? && s.procs[p].pc == AcquireInner(l) && !s.locks[l].locked
    ensures Alone(s, p, 4) == Some(t)
    ensures t == System(s.procs[p := s.procs[p].(pc := Elsewhere, held := s.procs[p].held + {l})], s.table,
                        s.inner[l := Some(p)][l := None], s.locks[l := SleepLock(true, s.procs[p].pid)])
  {
    var t1 := Next(s, p, Kill(0)).value;
    var t2 := Next(t1, p, Kill(0)).value;
    var t3 := Next(t2, p, Kill(0)).value;
    t := Next(t3, p, Kill(0)).value;
    hide Next;
    ThreeAlone(s, p, t1, t2, t3);
    OneMoreAlone(s, p, 3, t3, t);
  }

  lemma GoesToTable(s: System, p: nat, l: nat) returns (t: System)
    requires Sized(s) && p < |s.procs| && l < |s.locks| && s.inner[l].None? && s.table.None?
    requires s.procs[p].pc == AcquireInner(l) && s.locks[l].locked
    ensures Alone(s, p, 3) == Some(t)
    ensures t == System(s.procs[p := s.procs[p].(pc := SleepRelease(l))], Some(p), s.inner[l := Some(p)], s.locks)
  {
    var t1 := Next(s, p, Kill(0)).value;
    var t2 := Next(t1, p, Kill(0)).value;
    t := Next(t2, p, Kill(0)).value;
    hide Next;
    ThreeAlone(s, p, t1, t2, t);
  }

  lemma GoesToSleep(s: System, p: nat, l: nat) returns (t: System)
    requires Sized(s) && p < |s.procs| && l < |s.locks| && s.procs[p].pc == SleepRelease(l)
    ensures Alone(s, p, 4) == Some(t)
    ensures t == System(s.procs[p := s.procs[p].(pc := Asleep(l), run := Sleeping, chan := Some(l))], None, s.inner[l := None], s.locks)
  {
    var t1 := Next(s, p, Kill(0)).value;
    var t2 := Next(t1, p, Kill(0)).value;
    var t3 := Next(t2, p, Kill(0)).value;
    t := Next(t3, p, Kill(0)).value;
    hide Next;
    ThreeAlone(s, p, t1, t2, t3);
    OneMoreAlone(s, p, 3, t3, t);
  }

  lemma OneMoreAlone(s: System, p: nat, n: nat, t: System, u: System)
    requires Alone(s, p, n) == Some(t) && Next(t, p, Kill(0)) == Some(u)
    ensures Alone(s, p, n + 1) == Some(u)
  {
    hide Next;
  }

  lemma ThreeAlone(s: System, p: nat, t1: System, t2: System, t3: System)
    requires Next(s, p, Kill(0)) == Some(t1) && Next(t1, p, Kill(0)) == Some(t2) && Next(t2, p, Kill(0)) == Some(t3)
    ensures Alone(s, p, 3) == Some(t3)
  {
    hide Next;
    assert Alone(s, p, 0) == Some(s);
    OneMoreAlone(s, p, 0, s, t1);
    OneMoreAlone(s, p, 1, t1, t2);
    OneMoreAlone(s, p, 2, t2, t3);
  }

  /** The process as a wakeup on lock l leaves it. */
  ghost predicate WokenOn(was: Proc, now: Proc, l: nat) {
    if was.run == Sleeping && was.chan == Some(l) then now == was.(run := Runnable) else now == was
  }

  /** k turns of wakeup1. */
  lemma {:induction false} ScanAlone(s: System, p: nat, l: nat, k: nat)
    requires p < |s.procs| && k <= |s.procs| && s.procs[p].pc == WakeScan(l, 0) && s.procs[p].run == Running
    ensures Alone(s, p, k).Some?
    ensures var t := Alone(s, p, k).value;
      && t == s.(procs := t.procs) && |t.procs| == |s.procs| && t.procs[p] == s.procs[p].(pc := WakeScan(l, k))
      && forall q :: 0 <= q < |s.procs| && q != p ==> if q < k then WokenOn(s.procs[q], t.procs[q], l) else t.procs[q] == s.procs[q]
  {
    if k > 0 {
      ScanAlone(s, p, l, k - 1);
      var t := Alone(s, p, k - 1).value;
      var u := Next(t, p, Kill(0)).value;
      OneMoreAlone(s, p, k - 1, t, u);
    } else {
      assert Alone(s, p, 0) == Some(s);
    }
  }

  /** releasesleep, undisturbed: the lock is free and given back, and everyone who slept on it can run. */
  lemma ReleaseAlone(s: System, p: nat, l: nat)
    requires Sized(s) && p < |s.procs| && l < |s.locks| && s.inner[l].None? && s.table.None?
    requires s.procs[p].pc == UnlockInner(l) && s.procs[p].run == Running
    ensures Alone(s, p, |s.procs| + 5).Some?
    ensures var t := Alone(s, p, |s.procs| + 5).value;
      && |t.procs| == |s.procs| && t.procs[p] == s.procs[p].(pc := Elsewhere, held := s.procs[p].held - {l})
      && (forall q :: 0 <= q < |s.procs| && q != p ==> WokenOn(s.procs[q], t.procs[q], l))
      && t.locks == s.locks[l := SleepLock(false, 0)] && t.inner == s.inner && t.table == s.table
  {
    hide Next, Alone;
    var n := |s.procs|;
    var t := ReleaseStarts(s, p, l);
    ScanAlone(t, p, l, n);
    var u := Alone(t, p, n).value;
    AloneOn(s, p, 3, t, n);
    var v := ReleaseEnds(u, p, l);
    AloneOn(s, p, 3 + n, u, 2);
    assert s.inner[l := Some(p)][l := None] == s.inner;
  }

  lemma ReleaseStarts(s: System, p: nat, l: nat) returns (t: System)
    requires Sized(s) && p < |s.procs| && l < |s.locks| && s.inner[l].None? && s.table.None?
    requires s.procs[p].pc == UnlockInner(l) && s.procs[p].run == Running
    ensures Alone(s, p, 3) == Some(t)
    ensures t == System(s.procs[p := s.procs[p].(pc := WakeScan(l, 0), held := s.procs[p].held - {l})], Some(p),
                        s.inner[l := Some(p)], s.locks[l := SleepLock(false, 0)])
  {
    var t1 := Next(s, p, Kill(0)).value;
    var t2 := Next(t1, p, Kill(0)).value;
    t := Next(t2, p, Kill(0)).value;
    ThreeAlone(s, p, t1, t2, t);
  }

  lemma ReleaseEnds(s: System, p: nat, l: nat) returns (t: System)
    requires Sized(s) && p < |s.procs| && l < |s.locks| && s.procs[p].pc == WakeScan(l, |s.procs|)
    ensures Alone(s, p, 2) == Some(t)
    ensures t == System(s.procs[p := s.procs[p].(pc := Elsewhere)], None, s.inner[l := None], s.locks)
  {
    var t1 := Next(s, p, Kill(0)).value;
    t := Next(t1, p, Kill(0)).value;
    assert Alone(s, p, 0) == Some(s);
    hide Next;
    OneMoreAlone(s, p, 0, s, t1);
    OneMoreAlone(s, p, 1, t1, t);
  }

  lemma {:induction false} AloneOn(s: System, p: nat, m: nat, t: System, n: nat)
    requires Alone(s, p, m) == Some(t)
    ensures Alone(s, p, m + n) == Alone(t, p, n)
  {
    hide Next;
    if n != 0 {
      AloneOn(s, p, m, t, n - 1);
    }
  }

  // ----- The process table, as the loops of wakeup1 and kill change it

  /** The first process with the pid is marked; if it slept it can run, and nothing else about it or another has changed. */
  ghost predicate KillsAt(was: seq<Proc>, now: seq<Proc>, pid: int, i: nat) {
    && i < |was| == |now| && was[i].pid == pid && (forall j :: 0 <= j < i ==> was[j].pid != pid)
    && now[i].killed && (was[i].run == Sleeping ==> now[i].run == Runnable) && (was[i].run != Sleeping ==> now[i].run == was[i].run)
    && now[i].pc == was[i].pc && now[i].chan == was[i].chan && now[i].pid == was[i].pid && now[i].held == was[i].held
    && forall j :: 0 <= j < |was| && j != i ==> now[j] == was[j]
  }

  /** The step of kill that finds another process does this to it, and goes on to the end. */
  lemma KillFinds(s: System, p: nat, call: Call, pid: int, i: nat)
    requires p < |s.procs| && i < |s.procs| && i != p && s.procs[p].pc == KillScan(pid, i) && s.procs[i].pid == pid
    ensures Next(s, p, call).Some?
    ensures var t := Next(s, p, call).value;
      && t.procs[p] == s.procs[p].(pc := KillDone) && t.table == s.table && t.inner == s.inner && t.locks == s.locks
      && t.procs[i] == s.procs[i].(killed := true, run := t.procs[i].run)
      && (s.procs[i].run == Sleeping ==> t.procs[i].run == Runnable) && (s.procs[i].run != Sleeping ==> t.procs[i].run == s.procs[i].run)
      && |t.procs| == |s.procs| && forall j :: 0 <= j < |s.procs| && j != i && j != p ==> t.procs[j] == s.procs[j]
  {
  }

  /** The step of a wakeup at another process: it can run if it slept on this lock, and is left alone otherwise. */
  lemma WakeFinds(s: System, p: nat, call: Call, l: nat, i: nat)
    requires p < |s.procs| && i < |s.procs| && i != p && s.procs[p].pc == WakeScan(l, i)
    ensures Next(s, p, call).Some?
    ensures var t := Next(s, p, call).value;
      && t.procs[p] == s.procs[p].(pc := WakeScan(l, i + 1)) && t.table == s.table && t.inner == s.inner && t.locks == s.locks
      && (s.procs[i].run == Sleeping && s.procs[i].chan == Some(l) ==> t.procs[i] == s.procs[i].(run := Runnable))
      && (s.procs[i].run != Sleeping || s.procs[i].chan != Some(l) ==> t.procs[i] == s.procs[i])
      && |t.procs| == |s.procs| && forall j :: 0 <= j < |s.procs| && j != i && j != p ==> t.procs[j] == s.procs[j]
  {
  }

  class ProcTable {
    const procs: array<Proc>

    constructor (procs: array<Proc>)
      ensures this.procs == procs
    {
      this.procs := procs;
    }

    method Wakeup1(chan: nat)
      modifies procs
      ensures forall i :: 0 <= i < procs.Length ==> old(procs[i]).run == Sleeping && old(procs[i]).chan == Some(chan) ==>
        procs[i] == old(procs[i]).(run := Runnable)
      ensures forall i :: 0 <= i < procs.Length ==> old(procs[i]).run != Sleeping || old(procs[i]).chan != Some(chan) ==> procs[i] == old(procs[i])
    {
      for i := 0 to procs.Length
        invariant forall j :: 0 <= j < i ==> procs[j] == Woken(old(procs[j]), chan)
        invariant forall j :: i <= j < procs.Length ==> procs[j] == old(procs[j])
      {
        if procs[i].run == Sleeping && procs[i].chan == Some(chan) {
          procs[i] := procs[i].(run := Runnable);
        }
      }
    }

    /** Only the first process with the pid; -1 when there is none. */
    method Kill(pid: int) returns (r: int)
      modifies procs
      ensures r == 0 || r == -1
      ensures r == -1 <==> forall i :: 0 <= i < procs.Length ==> old(procs[i]).pid != pid
      ensures r == -1 ==> procs[..] == old(procs[..])
      ensures r == 0 ==> exists i :: KillsAt(old(procs[..]), procs[..], pid, i)
    {
      for i := 0 to procs.Length
        invariant forall j :: 0 <= j < i ==> procs[j].pid != pid
        invariant procs[..] == old(procs[..])
      {
        if procs[i].pid == pid {
          ghost var was := procs[..];
          procs[i] := procs[i].(killed := true);
          if procs[i].run == Sleeping {
            procs[i] := procs[i].(run := Runnable);
          }
          assert KillsAt(was, procs[..], pid, i);
          return 0;
        }
      }
      r := -1;
    }
  }
}
