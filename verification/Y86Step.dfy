/**
  step_state of computer-architecture/Lab4/hclrs/tools/isa.c: one instruction
  of the Y86-64 simulator, and the loop of yis.c around it.
 */
module Y86Step {
  import opened Words
  import opened Wrappers
  import opened Y86Set

  datatype Stat = AOK | HLT | ADR | INS

  /** The register file is a memory of sixteen words, the last of which is not used. */
  const REGISTERS := 128

  /** %rsp */
  const RSP: Reg := 4

  datatype State = State(regs: seq<Byte>, mem: seq<Byte>, pc: int, cc: Flags)

  // ----- Words in a memory, and registers

  predicate InMemory(mem: seq<Byte>, pos: int) { 0 <= pos && pos + 8 <= |mem| }

  function WordAt(mem: seq<Byte>, pos: int): (v: int)
    requires InMemory(mem, pos)
    ensures IsWord(v)
  {
    Signed(Value(mem[pos..pos + 8]))
  }

  ghost function WithWord(mem: seq<Byte>, pos: int, v: int): (r: seq<Byte>)
    requires InMemory(mem, pos)
    ensures |r| == |mem|
  {
    mem[..pos] + Bytes(v, 8) + mem[pos + 8..]
  }

  /** The word is there, and nothing else has changed. */
  lemma WordWritten(mem: seq<Byte>, pos: int, v: int, q: int)
    requires InMemory(mem, pos) && IsWord(v) && InMemory(mem, q) && (q == pos || q + 8 <= pos || pos + 8 <= q)
    ensures WordAt(WithWord(mem, pos, v), q) == if q == pos then v else WordAt(mem, q)
    ensures forall i {:trigger WithWord(mem, pos, v)[i]} :: 0 <= i < |mem| && !(pos <= i < pos + 8) ==> WithWord(mem, pos, v)[i] == mem[i]
  {
    hide Signed, Value, Bytes, IsWord;
    if q == pos {
      StoredWord(mem, pos, v);
    } else {
      assert WithWord(mem, pos, v)[q..q + 8] == mem[q..q + 8];
    }
  }

  /** Register 15 reads as zero. */
  function RegVal(regs: seq<Byte>, id: Reg): (v: int)
    requires |regs| == REGISTERS
    ensures IsWord(v)
  {
    if id >= 15 then 0 else WordAt(regs, id * 8)
  }

  /** Writes to register 15 are lost. */
  ghost function WithReg(regs: seq<Byte>, id: Reg, v: int): (r: seq<Byte>)
    requires |regs| == REGISTERS
    ensures |r| == REGISTERS
  {
    if id >= 15 then regs else WithWord(regs, id * 8, v)
  }

  lemma RegWritten(regs: seq<Byte>, id: Reg, v: int, other: Reg)
    requires |regs| == REGISTERS && IsWord(v)
    ensures RegVal(WithReg(regs, id, v), other) == if other == id && id < 15 then v else RegVal(regs, other)
  {
    if id < 15 && other < 15 {
      WordWritten(regs, id * 8, v, other * 8);
    }
  }

  // ----- One instruction, by its kind

  ghost predicate Ok(s: State) { |s.regs| == REGISTERS }

  ghost function Move(s: State, f: Fetched): (Stat, State)
    requires Ok(s) && f.Fetched?
  {
    if f.rA == 15 || f.rB == 15 then (INS, s)
    else (AOK, s.(regs := if CondHolds(s.cc, f.ifun) then WithReg(s.regs, f.rB, RegVal(s.regs, f.rA)) else s.regs, pc := f.next))
  }

  ghost function Constant(s: State, f: Fetched): (Stat, State)
    requires Ok(s) && f.Fetched?
  {
    if !f.immOk || f.rB == 15 then (INS, s) else (AOK, s.(regs := WithReg(s.regs, f.rB, f.imm), pc := f.next))
  }

  /** The displacement, with the base if there is one. */
  function Address(regs: seq<Byte>, b: Reg, d: int): int
    requires |regs| == REGISTERS
  {
    if b == 15 then d else Signed(d + RegVal(regs, b))
  }

  ghost function StoreTo(s: State, f: Fetched): (Stat, State)
    requires Ok(s) && f.Fetched?
  {
    var a := Address(s.regs, f.rB, f.imm);
    if !f.immOk || f.rA == 15 then (INS, s)
    else if !InMemory(s.mem, a) then (ADR, s)
    else (AOK, s.(mem := WithWord(s.mem, a, RegVal(s.regs, f.rA)), pc := f.next))
  }

  ghost function LoadFrom(s: State, f: Fetched): (Stat, State)
    requires Ok(s) && f.Fetched?
  {
    var a := Address(s.regs, f.rB, f.imm);
    if !f.immOk || f.rA == 15 then (INS, s)
    else if !InMemory(s.mem, a) then (ADR, s)
    else (AOK, s.(regs := WithReg(s.regs, f.rA, WordAt(s.mem, a)), pc := f.next))
  }

  /** Here the register numbers are not checked. */
  ghost function Operate(s: State, f: Fetched): (Stat, State)
    requires Ok(s) && f.Fetched?
  {
    var op, a, b := AluOf(f.ifun), RegVal(s.regs, f.rA), RegVal(s.regs, f.rB);
    (AOK, s.(regs := WithReg(s.regs, f.rB, ComputeAlu(op, a, b)), cc := ComputeCC(op, a, b), pc := f.next))
  }

  ghost function Jump(s: State, f: Fetched): (Stat, State)
    requires f.Fetched?
  {
    if !f.immOk then (ADR, s) else (AOK, s.(pc := if CondHolds(s.cc, f.ifun) then f.imm else f.next))
  }

  /** The stack pointer has moved even if the address is bad. */
  ghost function Pushed(s: State, v: int, pc: int): (Stat, State)
    requires Ok(s)
  {
    var top := Signed(RegVal(s.regs, RSP) - 8);
    var moved := s.(regs := WithReg(s.regs, RSP, top));
    if !InMemory(s.mem, top) then (ADR, moved) else (AOK, moved.(mem := WithWord(s.mem, top, v), pc := pc))
  }

  ghost function Call(s: State, f: Fetched): (Stat, State)
    requires Ok(s) && f.Fetched?
  {
    if !f.immOk then (ADR, s) else Pushed(s, f.next, f.imm)
  }

  ghost function Return(s: State): (Stat, State)
    requires Ok(s)
  {
    var top := RegVal(s.regs, RSP);
    if !InMemory(s.mem, top) then (ADR, s)
    else (AOK, s.(regs := WithReg(s.regs, RSP, Signed(top + 8)), pc := WordAt(s.mem, top)))
  }

  ghost function Push(s: State, f: Fetched): (Stat, State)
    requires Ok(s) && f.Fetched?
  {
    if f.rA == 15 then (INS, s) else Pushed(s, RegVal(s.regs, f.rA), f.next)
  }

  ghost function Pop(s: State, f: Fetched): (Stat, State)
    requires Ok(s) && f.Fetched?
  {
    var top := RegVal(s.regs, RSP);
    var moved := s.(regs := WithReg(s.regs, RSP, Signed(top + 8)));
    if f.rA == 15 then (INS, s)
    else if !InMemory(s.mem, top) then (ADR, moved)
    else (AOK, s.(regs := WithReg(moved.regs, f.rA, WordAt(s.mem, top)), pc := f.next))
  }

  ghost function AddConstant(s: State, f: Fetched): (Stat, State)
    requires Ok(s) && f.Fetched?
  {
    var b := RegVal(s.regs, f.rB);
    if !f.immOk || f.rB == 15 then (INS, s)
    else (AOK, s.(regs := WithReg(s.regs, f.rB, Signed(b + f.imm)), cc := ComputeCC(Add, f.imm, b), pc := f.next))
  }

  ghost function Executed(s: State, f: Fetched): (Stat, State)
    requires Ok(s) && f.Fetched?
  {
    if !f.regsOk then (ADR, s)
    else match f.icode
      case 0 => (HLT, s)
      case 1 => (AOK, s.(pc := f.next))
      case 2 => Move(s, f)
      case 3 => Constant(s, f)
      case 4 => StoreTo(s, f)
      case 5 => LoadFrom(s, f)
      case 6 => Operate(s, f)
      case 7 => Jump(s, f)
      case 8 => Call(s, f)
      case 9 => Return(s)
      case 10 => Push(s, f)
      case 11 => Pop(s, f)
      case 12 => AddConstant(s, f)
      case _ => (INS, s)
  }

  ghost function Step(s: State): (r: (Stat, State))
    requires Ok(s)
    ensures Ok(r.1)
  {
    var f := Fetch(s.mem, s.pc);
    if f.BadAddress? then (ADR, s) else Executed(s, f)
  }

  // ----- The machine

  class Machine {
    const r: Memory
    const m: Memory
    var pc: int
    var cc: Flags

    constructor (r: Memory, m: Memory, pc: int, cc: Flags)
      requires r.contents != m.contents && r.contents.Length == REGISTERS && m.contents.Length < 0x8000_0000
      ensures Valid() && Now() == State(r.contents[..], m.contents[..], pc, cc) && this.r == r && this.m == m
    {
      this.r, this.m, this.pc, this.cc := r, m, pc, cc;
    }

    /** Sizes of memories are ints. */
    ghost predicate Valid() {
      r.contents != m.contents && r.contents.Length == REGISTERS && m.contents.Length < 0x8000_0000
    }

    ghost function Now(): State
      reads this, r.contents, m.contents
    {
      State(r.contents[..], m.contents[..], pc, cc)
    }

    method GetReg(id: Reg) returns (v: int)
      requires Valid()
      ensures v == RegVal(r.contents[..], id)
    {
      if id >= 15 {
        return 0;
      }
      var ok;
      ok, v := r.GetWordVal(id * 8);
      assert r.contents[..][id * 8..id * 8 + 8] == r.contents[id * 8..id * 8 + 8];
    }

    method SetReg(id: Reg, v: int)
      requires Valid() && IsWord(v)
      modifies r.contents
      ensures r.contents[..] == WithReg(old(r.contents[..]), id, v)
    {
      ghost var was := r.contents[..];
      if id < 15 {
        var ok := r.SetWordVal(id * 8, v);
        assert was[..id * 8] == old(r.contents[..id * 8]) && was[id * 8 + 8..] == old(r.contents[id * 8 + 8..]);
      }
    }

    method GetWord(pos: int) returns (ok: bool, v: int)
      ensures ok <==> InMemory(m.contents[..], pos)
      ensures v == if ok then WordAt(m.contents[..], pos) else 0
    {
      ok, v := m.GetWordVal(pos);
      if ok {
        assert m.contents[..][pos..pos + 8] == m.contents[pos..pos + 8];
      }
    }

    method SetWord(pos: int, v: int) returns (ok: bool)
      requires IsWord(v)
      modifies m.contents
      ensures ok <==> InMemory(m.contents[..], pos)
      ensures m.contents[..] == if ok then WithWord(old(m.contents[..]), pos, v) else old(m.contents[..])
    {
      ghost var was := m.contents[..];
      ok := m.SetWordVal(pos, v);
      if ok {
        assert was[..pos] == old(m.contents[..pos]) && was[pos + 8..] == old(m.contents[pos + 8..]);
      }
    }

    method DoMove(f: Fetched) returns (stat: Stat)
      requires Valid() && f.Fetched?
      modifies this, r.contents
      ensures (stat, Now()) == Move(old(Now()), f)
    {
      hide Signed, WithReg, WithWord, WordAt, RegVal, ComputeCC, ComputeAlu, CondHolds, IsWord;
      if f.rA == 15 || f.rB == 15 {
        return INS;
      }
      var val := GetReg(f.rA);
      if CondHolds(cc, f.ifun) {
        SetReg(f.rB, val);
      }
      pc := f.next;
      stat := AOK;
    }

    method DoConstant(f: Fetched) returns (stat: Stat)
      requires Valid() && f.Fetched? && IsWord(f.imm)
      modifies this, r.contents
      ensures (stat, Now()) == Constant(old(Now()), f)
    {
      hide Signed, WithReg, WithWord, WordAt, RegVal, ComputeCC, ComputeAlu, CondHolds, IsWord;
      if !f.immOk || f.rB == 15 {
        return INS;
      }
      SetReg(f.rB, f.imm);
      pc := f.next;
      stat := AOK;
    }

    method DoStore(f: Fetched) returns (stat: Stat)
      requires Valid() && f.Fetched?
      modifies this, m.contents
      ensures (stat, Now()) == StoreTo(old(Now()), f)
    {
      hide Signed, WithReg, WithWord, WordAt, RegVal, ComputeCC, ComputeAlu, CondHolds, IsWord;
      if !f.immOk || f.rA == 15 {
        return INS;
      }
      var cval := f.imm;
      if f.rB != 15 {
        var base := GetReg(f.rB);
        cval := Signed(cval + base);
      }
      var val := GetReg(f.rA);
      var ok := SetWord(cval, val);
      if !ok {
        return ADR;
      }
      pc := f.next;
      stat := AOK;
    }

    method DoLoad(f: Fetched) returns (stat: Stat)
      requires Valid() && f.Fetched?
      modifies this, r.contents
      ensures (stat, Now()) == LoadFrom(old(Now()), f)
    {
      hide Signed, WithReg, WithWord, WordAt, RegVal, ComputeCC, ComputeAlu, CondHolds, IsWord;
      if !f.immOk || f.rA == 15 {
        return INS;
      }
      var cval := f.imm;
      if f.rB != 15 {
        var base := GetReg(f.rB);
        cval := Signed(cval + base);
      }
      var ok, val := GetWord(cval);
      if !ok {
        return ADR;
      }
      SetReg(f.rA, val);
      pc := f.next;
      stat := AOK;
    }

    method DoOperate(f: Fetched) returns (stat: Stat)
      requires Valid() && f.Fetched?
      modifies this, r.contents
      ensures (stat, Now()) == Operate(old(Now()), f)
    {
      hide Signed, WithReg, WithWord, WordAt, RegVal, ComputeCC, ComputeAlu, CondHolds, IsWord;
      var argA := GetReg(f.rA);
      var argB := GetReg(f.rB);
      var val := ComputeAlu(AluOf(f.ifun), argA, argB);
      FlagsMean(AluOf(f.ifun), argA, argB);
      SetReg(f.rB, val);
      cc := ComputeCC(AluOf(f.ifun), argA, argB);
      pc := f.next;
      stat := AOK;
    }

    method DoJump(f: Fetched) returns (stat: Stat)
      requires Valid() && f.Fetched?
      modifies this
      ensures (stat, Now()) == Jump(old(Now()), f)
    {
      hide Signed, WithReg, WithWord, WordAt, RegVal, ComputeCC, ComputeAlu, CondHolds, IsWord;
      if !f.immOk {
        return ADR;
      }
      pc := if CondHolds(cc, f.ifun) then f.imm else f.next;
      stat := AOK;
    }

    /** The common part of call and pushq: the pointer first, then the word. */
    method DoPush(val: int, next: int) returns (stat: Stat)
      requires Valid() && IsWord(val)
      modifies this, r.contents, m.contents
      ensures (stat, Now()) == Pushed(old(Now()), val, next)
    {
      hide Signed, WithReg, WithWord, WordAt, RegVal, ComputeCC, ComputeAlu, CondHolds, IsWord;
      var rsp := GetReg(RSP);
      var top := Signed(rsp - 8);
      SetReg(RSP, top);
      var ok := SetWord(top, val);
      if !ok {
        return ADR;
      }
      pc := next;
      stat := AOK;
    }

    method DoReturn() returns (stat: Stat)
      requires Valid()
      modifies this, r.contents
      ensures (stat, Now()) == Return(old(Now()))
    {
      hide Signed, WithReg, WithWord, WordAt, RegVal, ComputeCC, ComputeAlu, CondHolds, IsWord;
      var top := GetReg(RSP);
      var ok, val := GetWord(top);
      if !ok {
        return ADR;
      }
      SetReg(RSP, Signed(top + 8));
      pc := val;
      stat := AOK;
    }

    method DoPop(f: Fetched) returns (stat: Stat)
      requires Valid() && f.Fetched?
      modifies this, r.contents
      ensures (stat, Now()) == Pop(old(Now()), f)
    {
      hide Signed, WithReg, WithWord, WordAt, RegVal, ComputeCC, ComputeAlu, CondHolds, IsWord;
      if f.rA == 15 {
        return INS;
      }
      var top := GetReg(RSP);
      SetReg(RSP, Signed(top + 8));
      var ok, val := GetWord(top);
      if !ok {
        return ADR;
      }
      SetReg(f.rA, val);
      pc := f.next;
      stat := AOK;
    }

    method DoAddConstant(f: Fetched) returns (stat: Stat)
      requires Valid() && f.Fetched?
      modifies this, r.contents
      ensures (stat, Now()) == AddConstant(old(Now()), f)
    {
      hide Signed, WithReg, WithWord, WordAt, RegVal, ComputeCC, ComputeAlu, CondHolds, IsWord;
      if !f.immOk || f.rB == 15 {
        return INS;
      }
      var argB := GetReg(f.rB);
      SetReg(f.rB, Signed(argB + f.imm));
      cc := ComputeCC(Add, f.imm, argB);
      pc := f.next;
      stat := AOK;
    }

    /** step_state */
    method StepState() returns (stat: Stat)
      requires Valid()
      modifies this, r.contents, m.contents
      ensures (stat, Now()) == Step(old(Now()))
    {
      var f := m.FetchInstr(pc);
      if f.BadAddress? {
        return ADR;
      }
      FetchedWords(m.contents[..], pc);
      if !f.regsOk {
        return ADR;
      }
      hide Fetch, Move, Constant, StoreTo, LoadFrom, Operate, Jump, Pushed, Return, Pop, AddConstant;
      match f.icode
      case 0 => stat := HLT;
      case 1 => pc, stat := f.next, AOK;
      case 2 => stat := DoMove(f);
      case 3 => stat := DoConstant(f);
      case 4 => stat := DoStore(f);
      case 5 => stat := DoLoad(f);
      case 6 => stat := DoOperate(f);
      case 7 => stat := DoJump(f);
      case 8 =>
        if !f.immOk {
          return ADR;
        }
        stat := DoPush(f.next, f.imm);
      case 9 => stat := DoReturn();
      case 10 =>
        if f.rA == 15 {
          return INS;
        }
        var val := GetReg(f.rA);
        stat := DoPush(val, f.next);
      case 11 => stat := DoPop(f);
      case 12 => stat := DoAddConstant(f);
      case _ => stat := INS;
    }

    /** The loop of yis.c: it ends behind the given number of steps, or behind the first that is not AOK. */
    method Run(maxSteps: int) returns (e: Stat, steps: nat)
      requires Valid()
      modifies this, r.contents, m.contents
      ensures e == AOK ==> steps == (if maxSteps > 0 then maxSteps else 0) && After(old(Now()), steps) == Some(Now())
      ensures e != AOK ==> 0 < steps <= maxSteps && After(old(Now()), steps - 1).Some?
      ensures e != AOK ==> Step(After(old(Now()), steps - 1).value) == (e, Now())
    {
      hide Step;
      ghost var start := Now();
      e, steps := AOK, 0;
      while steps < maxSteps && e == AOK
        invariant maxSteps > 0 ==> steps <= maxSteps
        invariant maxSteps <= 0 ==> steps == 0 && e == AOK
        invariant e == AOK ==> After(start, steps) == Some(Now())
        invariant e != AOK ==> steps > 0 && After(start, steps - 1).Some? && Step(After(start, steps - 1).value) == (e, Now())
      {
        e := StepState();
        steps := steps + 1;
      }
    }
  }

  /** The state behind n steps, if all of them were AOK. */
  ghost function After(s: State, n: nat): (r: Option<State>)
    requires Ok(s)
    ensures r.Some? ==> Ok(r.value)
  {
    if n == 0 then Some(s)
    else match After(s, n - 1)
      case None => None
      case Some(t) => if Step(t).0 == AOK then Some(Step(t).1) else None
  }

  lemma {:induction false} AfterBoth(s: State, m: nat, n: nat)
    requires Ok(s)
    ensures After(s, m + n) == if After(s, m).Some? then After(After(s, m).value, n) else None
    decreases n
  {
    hide Step;
    if n > 0 {
      AfterBoth(s, m, n - 1);
    }
  }

  lemma FetchedWords(mem: seq<Byte>, pc: int)
    requires |mem| < 0x8000_0000 && Fetch(mem, pc).Fetched?
    ensures IsWord(Fetch(mem, pc).imm) && IsWord(Fetch(mem, pc).next)
  {
  }
}
