/**
  The steps of operating-systems/xv6-OS/log.c as they concern space: system calls
  begin, log blocks and end in any order, each writing at most MAXOPBLOCKS blocks.
  Meanwhile processes outside the log's calls read files, which takes buffers too.
 */
module LogSteps {
  import opened BufferList
  import opened CrashModel

  const MAXOPBLOCKS := 10

  ghost predicate Distinct(bs: seq<int>) {
    forall i, j :: 0 <= i < j < |bs| ==> bs[i] != bs[j]
  }

  /** The blocks in the log, those each running system call has written, and how many buffers readers hold. */
  datatype Space = Space(homes: seq<int>, written: seq<set<int>>, held: nat)

  /** size: the blocks of the log area; readers: how many buffers processes outside the log's calls may hold at a time. */
  datatype Setup = Setup(size: nat, readers: nat)

  datatype Step = Begin | Write(op: nat, b: int) | End(op: nat) | Hold | Release

  datatype Outcome = Next(s: Space) | Refused | WritePanic | CommitPanic

  /** Refused: begin_op waits, or the step is not one that may be taken. */
  ghost function Take(s: Space, step: Step, u: Setup): Outcome {
    match step
    case Begin =>
      if |s.homes| + (|s.written| + 1) * MAXOPBLOCKS > LOGSIZE then Refused
      else Next(s.(written := s.written + [{}]))
    case Write(op, b) =>
      if op >= |s.written| || |s.written[op] + {b}| > MAXOPBLOCKS then Refused
      else if |s.homes| >= LOGSIZE || |s.homes| >= u.size - 1 then WritePanic
      else Next(s.(homes := if b in s.homes then s.homes else s.homes + [b], written := s.written[op := s.written[op] + {b}]))
    case End(op) =>
      if op >= |s.written| then Refused
      else if |s.written| > 1 then Next(s.(written := s.written[..op] + s.written[op + 1..]))
      else if |s.homes| > 0 && |s.homes| + s.held >= NBUF then CommitPanic
      else Next(s.(homes := [], written := []))
    case Hold =>
      if s.held >= u.readers || |s.homes| + s.held >= NBUF then Refused else Next(s.(held := s.held + 1))
    case Release =>
      if s.held == 0 then Refused else Next(s.(held := s.held - 1))
  }

  // ----- What a method does is the step that is taken

  /** The blocks in the log and the number of running calls are those of s. */
  ghost predicate Matches(homes: seq<int>, outstanding: int, s: Space) {
    s.homes == homes && |s.written| == outstanding
  }

  ghost predicate TakesBegin(homes: seq<int>, outstanding: int, admitted: bool, now: int, size: nat) {
    forall s, u: Setup {:trigger Take(s, Begin, u)} :: u.size == size && Matches(homes, outstanding, s) ==>
      if admitted then Take(s, Begin, u).Next? && Matches(homes, now, Take(s, Begin, u).s) else Take(s, Begin, u) == Refused
  }

  ghost predicate TakesWrite(homes: seq<int>, outstanding: int, b: int, ok: bool, now: seq<int>, size: nat) {
    forall s, op: nat, u: Setup {:trigger Take(s, Write(op, b), u)} :: u.size == size && Matches(homes, outstanding, s) && Take(s, Write(op, b), u) != Refused ==>
      if ok then Take(s, Write(op, b), u).Next? && Matches(now, outstanding, Take(s, Write(op, b), u).s)
      else Take(s, Write(op, b), u) == WritePanic
  }

  ghost predicate TakesEnd(homes: seq<int>, outstanding: int, held: nat, ok: bool, now: seq<int>, size: nat) {
    forall s, op: nat, u: Setup {:trigger Take(s, End(op), u)} :: u.size == size && Matches(homes, outstanding, s) && s.held == held && op < |s.written| ==>
      if ok then Take(s, End(op), u).Next? && Matches(now, outstanding - 1, Take(s, End(op), u).s)
      else Take(s, End(op), u) == CommitPanic
  }

  lemma BeginIsTaken(homes: seq<int>, outstanding: int, size: nat)
    ensures
      var admitted := |homes| + (outstanding + 1) * MAXOPBLOCKS <= LOGSIZE;
      TakesBegin(homes, outstanding, admitted, if admitted then outstanding + 1 else outstanding, size)
  {
  }

  lemma WriteIsTaken(homes: seq<int>, outstanding: int, b: int, size: nat)
    ensures var ok := |homes| < LOGSIZE && |homes| < size - 1 && outstanding >= 1;
      TakesWrite(homes, outstanding, b, ok, if b in homes then homes else homes + [b], size)
  {
  }

  /** The panics leave the blocks as they were. */
  lemma RefusalIsTaken(homes: seq<int>, outstanding: int, b: int, size: nat)
    ensures !(|homes| < LOGSIZE && |homes| < size - 1 && outstanding >= 1) ==> TakesWrite(homes, outstanding, b, false, homes, size)
  {
  }

  lemma EndIsTaken(homes: seq<int>, outstanding: int, held: nat, size: nat)
    ensures var ok := outstanding == 1 ==> |homes| + held < NBUF || homes == [];
      TakesEnd(homes, outstanding, held, ok, if outstanding == 1 then [] else homes, size)
  {
  }
}
