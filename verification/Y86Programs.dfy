/**
  What the instructions of computer-architecture/Lab4/hclrs/tools/isa.c do,
  from their bytes: one step each, then short programs, then programs as they
  are written for the assembler.
 */
module Y86Programs {
  import opened Words
  import opened Wrappers
  import opened Y86Set
  import opened Y86Step

  /** The next bytes are these. */
  ghost predicate Next(s: State, code: seq<Byte>) {
    Ok(s) && 0 <= s.pc && s.pc + |code| <= |s.mem| && s.mem[s.pc..s.pc + |code|] == code
  }

  /** The low and the high half of a byte. */
  lemma Halves(b: int, hi: int, lo: int)
    requires 0 <= hi < 16 && 0 <= lo < 16 && b == hi * 16 + lo
    ensures High(b) == hi && Low(b) == lo
  {
  }

  lemma FetchBare(s: State, icode: int, ifun: int)
    requires icode in {0, 1, 9} && 0 <= ifun < 16 && Next(s, [icode * 16 + ifun])
    ensures Fetch(s.mem, s.pc) == Fetched(icode, ifun, 15, 15, 0, true, true, s.pc + 1)
  {
    assert s.mem[s.pc] == s.mem[s.pc..s.pc + 1][0];
    Halves(s.mem[s.pc], icode, ifun);
  }

  lemma FetchRegs(s: State, icode: int, ifun: int, a: Reg, b: Reg)
    requires icode in {2, 6, 10, 11} && 0 <= ifun < 16 && Next(s, [icode * 16 + ifun, a * 16 + b])
    ensures Fetch(s.mem, s.pc) == Fetched(icode, ifun, a, b, 0, true, true, s.pc + 2)
  {
    assert s.mem[s.pc] == s.mem[s.pc..s.pc + 2][0] && s.mem[s.pc + 1] == s.mem[s.pc..s.pc + 2][1];
    Halves(s.mem[s.pc], icode, ifun);
    Halves(s.mem[s.pc + 1], a, b);
  }

  lemma FetchNumber(s: State, icode: int, ifun: int, v: int)
    requires icode in {7, 8} && 0 <= ifun < 16 && IsWord(v) && Next(s, [icode * 16 + ifun] + Bytes(v, 8))
    ensures Fetch(s.mem, s.pc) == Fetched(icode, ifun, 15, 15, v, true, true, s.pc + 9)
  {
    hide Signed, Value, Bytes;
    var code := [icode * 16 + ifun] + Bytes(v, 8);
    assert s.mem[s.pc] == s.mem[s.pc..s.pc + 9][0];
    assert code[0] == icode * 16 + ifun;
    Halves(s.mem[s.pc], icode, ifun);
    TailAt(s.mem, s.pc, 9, [icode * 16 + ifun], Bytes(v, 8));
    WordRoundTrip(v);
  }

  lemma FetchRegsNumber(s: State, icode: int, a: Reg, b: Reg, v: int)
    requires icode in {3, 4, 5, 12} && IsWord(v) && Next(s, [icode * 16, a * 16 + b] + Bytes(v, 8))
    ensures Fetch(s.mem, s.pc) == Fetched(icode, 0, a, b, v, true, true, s.pc + 10)
  {
    hide Signed, Value, Bytes;
    var code: seq<Byte> := [icode * 16, a * 16 + b] + Bytes(v, 8);
    assert s.mem[s.pc] == s.mem[s.pc..s.pc + 10][0] && s.mem[s.pc + 1] == s.mem[s.pc..s.pc + 10][1];
    assert code[0] == icode * 16 && code[1] == a * 16 + b;
    Halves(s.mem[s.pc], icode, 0);
    Halves(s.mem[s.pc + 1], a, b);
    TailAt(s.mem, s.pc, 10, [icode * 16, a * 16 + b], Bytes(v, 8));
    WordRoundTrip(v);
  }

  // ----- One step

  /** Only this register may differ. */
  ghost predicate SameBut(regs: seq<Byte>, was: seq<Byte>, b: Reg) {
    |regs| == |was| == REGISTERS && forall q: Reg :: q != b ==> RegVal(regs, q) == RegVal(was, q)
  }

  lemma OneWritten(regs: seq<Byte>, b: Reg, v: int)
    requires |regs| == REGISTERS && IsWord(v)
    ensures SameBut(WithReg(regs, b, v), regs, b) && (b < 15 ==> RegVal(WithReg(regs, b, v), b) == v)
  {
    hide WithReg, RegVal, IsWord;
    RegWritten(regs, b, v, b);
    forall q: Reg | q != b
      ensures RegVal(WithReg(regs, b, v), q) == RegVal(regs, q)
    {
      RegWritten(regs, b, v, q);
    }
  }

  /** Instruction 2 copies the first register to the second if its condition holds. */
  lemma MoveSteps(s: State, ifun: int, a: Reg, b: Reg)
    requires 0 <= ifun < 16 && Next(s, [0x20 + ifun, a * 16 + b])
    ensures a == 15 || b == 15 ==> Step(s) == (INS, s)
    ensures a < 15 && b < 15 ==> var t := Step(s).1;
      && Step(s).0 == AOK && t.pc == s.pc + 2 && t.mem == s.mem && t.cc == s.cc && SameBut(t.regs, s.regs, b)
      && RegVal(t.regs, b) == if CondHolds(s.cc, ifun) then RegVal(s.regs, a) else RegVal(s.regs, b)
  {
    hide Fetch, RegVal, WithReg, CondHolds, Bytes, Value, Signed;
    FetchRegs(s, 2, ifun, a, b);
    OneWritten(s.regs, b, RegVal(s.regs, a));
  }

  /** Instruction 3 puts the number into the register in the low half. */
  lemma ConstantSteps(s: State, a: Reg, b: Reg, v: int)
    requires IsWord(v) && Next(s, [0x30, a * 16 + b] + Bytes(v, 8))
    ensures b == 15 ==> Step(s) == (INS, s)
    ensures b < 15 ==> var t := Step(s).1;
      && Step(s).0 == AOK && t.pc == s.pc + 10 && t.mem == s.mem && t.cc == s.cc && SameBut(t.regs, s.regs, b) && RegVal(t.regs, b) == v
  {
    hide Fetch, RegVal, WithReg, Bytes, Value, Signed;
    FetchRegsNumber(s, 3, a, b, v);
    OneWritten(s.regs, b, v);
  }

  /** The address that a displacement and a base make: their sum as a word, or the displacement alone. */
  ghost predicate Addresses(s: State, d: int, b: Reg, at: int) {
    Ok(s) && IsWord(at) && (if b == 15 then at == d else (at - (d + RegVal(s.regs, b))) % WORD == 0)
  }

  lemma AddressIs(s: State, d: int, b: Reg, at: int)
    requires Addresses(s, d, b, at)
    ensures Address(s.regs, b, d) == at
  {
    if b != 15 {
      SignedOnly(d + RegVal(s.regs, b), at);
    }
  }

  /** A word is the signed value of everything that differs from it by multiples of the word size. */
  lemma SignedOnly(n: int, v: int)
    requires IsWord(v) && (v - n) % WORD == 0
    ensures Signed(n) == v
  {
    var q := (v - n) / WORD;
    assert v - n == WORD * q;
    SignedWord(v);
    SignedShift(v, -q);
    assert n == v + WORD * -q;
    hide *;
  }

  /** Only the eight bytes there may differ. */
  ghost predicate SameMemoryBut(mem: seq<Byte>, was: seq<Byte>, at: int) {
    |mem| == |was| && forall i :: 0 <= i < |mem| && !(at <= i < at + 8) ==> mem[i] == was[i]
  }

  lemma OneStored(mem: seq<Byte>, at: int, v: int)
    requires InMemory(mem, at) && IsWord(v)
    ensures SameMemoryBut(WithWord(mem, at, v), mem, at) && WordAt(WithWord(mem, at, v), at) == v
  {
    WordWritten(mem, at, v, at);
    hide Bytes, WordAt, Signed;
  }

  /** Instruction 4 stores the register in the high half. */
  lemma StoreSteps(s: State, a: Reg, b: Reg, d: int, at: int)
    requires IsWord(d) && Next(s, [0x40, a * 16 + b] + Bytes(d, 8)) && Addresses(s, d, b, at)
    ensures a == 15 ==> Step(s) == (INS, s)
    ensures a < 15 && !InMemory(s.mem, at) ==> Step(s) == (ADR, s)
    ensures a < 15 && InMemory(s.mem, at) ==> var t := Step(s).1;
      && Step(s).0 == AOK && t.pc == s.pc + 10 && t.regs == s.regs && t.cc == s.cc
      && SameMemoryBut(t.mem, s.mem, at) && WordAt(t.mem, at) == RegVal(s.regs, a)
  {
    hide Fetch, RegVal, WithWord, WordAt, Address, Bytes, Value, Signed;
    FetchRegsNumber(s, 4, a, b, d);
    AddressIs(s, d, b, at);
    if InMemory(s.mem, at) {
      OneStored(s.mem, at, RegVal(s.regs, a));
    }
  }

  /** Instruction 5 loads the register in the high half. */
  lemma LoadSteps(s: State, a: Reg, b: Reg, d: int, at: int)
    requires IsWord(d) && Next(s, [0x50, a * 16 + b] + Bytes(d, 8)) && Addresses(s, d, b, at)
    ensures a == 15 ==> Step(s) == (INS, s)
    ensures a < 15 && !InMemory(s.mem, at) ==> Step(s) == (ADR, s)
    ensures a < 15 && InMemory(s.mem, at) ==> var t := Step(s).1;
      && Step(s).0 == AOK && t.pc == s.pc + 10 && t.mem == s.mem && t.cc == s.cc
      && SameBut(t.regs, s.regs, a) && RegVal(t.regs, a) == WordAt(s.mem, at)
  {
    hide Fetch, RegVal, WithReg, WordAt, Address, Bytes, Value, Signed;
    FetchRegsNumber(s, 5, a, b, d);
    AddressIs(s, d, b, at);
    if InMemory(s.mem, at) {
      OneWritten(s.regs, a, WordAt(s.mem, at));
    }
  }

  /** Instruction 6: the second register and the flags get what the operation makes of both. */
  lemma OperateSteps(s: State, ifun: int, a: Reg, b: Reg)
    requires 0 <= ifun < 16 && b < 15 && Next(s, [0x60 + ifun, a * 16 + b])
    ensures var t := Step(s).1;
      && Step(s).0 == AOK && t.pc == s.pc + 2 && t.mem == s.mem && SameBut(t.regs, s.regs, b)
      && RegVal(t.regs, b) == ComputeAlu(AluOf(ifun), RegVal(s.regs, a), RegVal(s.regs, b))
      && t.cc == ComputeCC(AluOf(ifun), RegVal(s.regs, a), RegVal(s.regs, b))
  {
    hide Fetch, RegVal, WithReg, ComputeAlu, ComputeCC, AluOf, Bytes, Value, Signed;
    FetchRegs(s, 6, ifun, a, b);
    FlagsMean(AluOf(ifun), RegVal(s.regs, a), RegVal(s.regs, b));
    OneWritten(s.regs, b, ComputeAlu(AluOf(ifun), RegVal(s.regs, a), RegVal(s.regs, b)));
  }

  /** Instruction 7 goes to the number if its condition holds. */
  lemma JumpSteps(s: State, ifun: int, v: int)
    requires 0 <= ifun < 16 && IsWord(v) && Next(s, [0x70 + ifun] + Bytes(v, 8))
    ensures Step(s) == (AOK, s.(pc := if CondHolds(s.cc, ifun) then v else s.pc + 9))
  {
    hide Fetch, CondHolds, Bytes, Value, Signed;
    FetchNumber(s, 7, ifun, v);
  }

  /** Instruction 0 stops, and instruction 1 does nothing. */
  lemma NothingSteps(s: State, ifun: int)
    requires 0 <= ifun < 16
    ensures Next(s, [ifun]) ==> Step(s) == (HLT, s)
    ensures Next(s, [0x10 + ifun]) ==> Step(s) == (AOK, s.(pc := s.pc + 1))
  {
    hide Fetch, Next;
    if Next(s, [ifun]) {
      FetchBare(s, 0, ifun);
    }
    if Next(s, [0x10 + ifun]) {
      FetchBare(s, 1, ifun);
    }
  }

  /** Instruction 9 goes to the address on the top of the stack and moves the pointer. */
  lemma ReturnSteps(s: State, ifun: int)
    requires 0 <= ifun < 16 && Next(s, [0x90 + ifun])
    ensures !InMemory(s.mem, RegVal(s.regs, 4)) ==> Step(s) == (ADR, s)
    ensures InMemory(s.mem, RegVal(s.regs, 4)) ==> var t := Step(s).1;
      && Step(s).0 == AOK && t.pc == WordAt(s.mem, RegVal(s.regs, 4)) && t.mem == s.mem && t.cc == s.cc && SameBut(t.regs, s.regs, 4)
      && (IsWord(RegVal(s.regs, 4) + 8) ==> RegVal(t.regs, 4) == RegVal(s.regs, 4) + 8)
  {
    hide Fetch, RegVal, WithReg, WordAt, Signed, SameBut;
    FetchBare(s, 9, ifun);
    var top := RegVal(s.regs, 4);
    OneWritten(s.regs, 4, Signed(top + 8));
    if IsWord(top + 8) {
      SignedWord(top + 8);
    }
  }

  /** What a push of v does: the stack pointer is eight less, and v is there, or the address is bad. */
  ghost predicate HasPushed(r: (Stat, State), s: State, v: int, pc: int) {
    Ok(s) && Ok(r.1) &&
    var top, t := RegVal(s.regs, 4) - 8, r.1;
    IsWord(top) ==>
      && SameBut(t.regs, s.regs, 4) && RegVal(t.regs, 4) == top && t.cc == s.cc
      && (InMemory(s.mem, top) ==> r.0 == AOK && t.pc == pc && SameMemoryBut(t.mem, s.mem, top) && WordAt(t.mem, top) == v)
      && (!InMemory(s.mem, top) ==> r.0 == ADR && t.pc == s.pc && t.mem == s.mem)
  }

  lemma PushedIs(s: State, v: int, pc: int)
    requires Ok(s) && IsWord(v)
    ensures HasPushed(Pushed(s, v, pc), s, v, pc)
  {
    var top := RegVal(s.regs, RSP) - 8;
    if IsWord(top) {
      SignedWord(top);
      OneWritten(s.regs, RSP, top);
      if InMemory(s.mem, top) {
        OneStored(s.mem, top, v);
      }
    }
    hide RegVal, WithReg, WithWord, WordAt, Signed, SameBut, SameMemoryBut;
  }

  /** Instruction 10 pushes what the register in the high half holds before the stack pointer moves. */
  lemma PushSteps(s: State, a: Reg, b: Reg)
    requires Next(s, [0xA0, a * 16 + b])
    ensures a == 15 ==> Step(s) == (INS, s)
    ensures a < 15 ==> HasPushed(Step(s), s, RegVal(s.regs, a), s.pc + 2)
  {
    hide Fetch, RegVal, Pushed, HasPushed, Bytes, Value, Signed;
    FetchRegs(s, 10, 0, a, b);
    PushedIs(s, RegVal(s.regs, a), s.pc + 2);
  }

  /** Instruction 8 pushes the address behind it and goes to the number. */
  lemma CallSteps(s: State, v: int)
    requires IsWord(v) && IsWord(s.pc + 9) && Next(s, [0x80] + Bytes(v, 8))
    ensures HasPushed(Step(s), s, s.pc + 9, v)
  {
    hide Fetch, Pushed, HasPushed, Bytes, Signed, Value;
    FetchNumber(s, 8, 0, v);
    PushedIs(s, s.pc + 9, v);
  }

  /** Instruction 11: the stack pointer is eight more, but the register in the high half, %rsp too, gets the word from the top. */
  lemma PopSteps(s: State, a: Reg, b: Reg)
    requires Next(s, [0xB0, a * 16 + b]) && IsWord(RegVal(s.regs, 4) + 8)
    ensures a == 15 ==> Step(s) == (INS, s)
    ensures a < 15 && !InMemory(s.mem, RegVal(s.regs, 4)) ==> var t := Step(s).1;
      Step(s).0 == ADR && t.pc == s.pc && t.mem == s.mem && t.cc == s.cc && SameBut(t.regs, s.regs, 4) && RegVal(t.regs, 4) == RegVal(s.regs, 4) + 8
    ensures a < 15 && InMemory(s.mem, RegVal(s.regs, 4)) ==> var t := Step(s).1;
      && Step(s).0 == AOK && t.pc == s.pc + 2 && t.mem == s.mem && t.cc == s.cc
      && RegVal(t.regs, a) == WordAt(s.mem, RegVal(s.regs, 4)) && (a != 4 ==> RegVal(t.regs, 4) == RegVal(s.regs, 4) + 8)
      && forall q: Reg :: q != a && q != 4 ==> RegVal(t.regs, q) == RegVal(s.regs, q)
  {
    hide Fetch, RegVal, WithReg, WordAt, Signed, Bytes, Value;
    FetchRegs(s, 11, 0, a, b);
    var top := RegVal(s.regs, 4);
    SignedWord(top + 8);
    OneWritten(s.regs, 4, top + 8);
    if InMemory(s.mem, top) {
      OneWritten(WithReg(s.regs, 4, top + 8), a, WordAt(s.mem, top));
    }
  }

  /** Instruction 12 adds the number to the register in the low half, with the flags of an addition. */
  lemma AddConstantSteps(s: State, a: Reg, b: Reg, v: int)
    requires IsWord(v) && Next(s, [0xC0, a * 16 + b] + Bytes(v, 8))
    ensures b == 15 ==> Step(s) == (INS, s)
    ensures b < 15 ==> var t := Step(s).1;
      && Step(s).0 == AOK && t.pc == s.pc + 10 && t.mem == s.mem && SameBut(t.regs, s.regs, b)
      && RegVal(t.regs, b) == ComputeAlu(Add, v, RegVal(s.regs, b)) && t.cc == ComputeCC(Add, v, RegVal(s.regs, b))
  {
    hide Fetch, RegVal, WithReg, ComputeCC, Signed, Bytes, Value, Combined, SameBut;
    FetchRegsNumber(s, 12, a, b, v);
    OneWritten(s.regs, b, Signed(v + RegVal(s.regs, b)));
  }

  /** Whatever is fetched: no byte there, a code beyond 12, or missing operand bytes. */
  lemma BadSteps(s: State)
    requires Ok(s)
    ensures !(0 <= s.pc < |s.mem|) ==> Step(s) == (ADR, s)
    ensures 0 <= s.pc < |s.mem| && s.mem[s.pc] >= 0xD0 ==> Step(s) == (INS, s)
    ensures 0 <= s.pc == |s.mem| - 1 && 0x20 <= s.mem[s.pc] < 0x70 ==> Step(s) == (ADR, s)
    ensures 0 <= s.pc < |s.mem| - 1 && s.pc + 10 > |s.mem| && (0x30 <= s.mem[s.pc] < 0x60 || 0xC0 <= s.mem[s.pc] < 0xD0) ==> Step(s) == (INS, s)
    ensures 0 <= s.pc < |s.mem| && s.pc + 9 > |s.mem| && 0x70 <= s.mem[s.pc] < 0x90 ==> Step(s) == (ADR, s)
  {
    hide RegVal, WithReg, WithWord, WordAt, ComputeAlu, ComputeCC, CondHolds, Signed, Value, Pushed, Move, Operate, Return, Push, Pop;
  }

  // ----- Short programs

  lemma TwoSteps(s: State)
    requires Ok(s) && Step(s).0 == AOK && Step(Step(s).1).0 == AOK
    ensures After(s, 2) == Some(Step(Step(s).1).1)
  {
    hide Step;
    assert After(s, 1) == Some(Step(s).1) by {
      assert After(s, 0) == Some(s);
    }
  }

  /** What is pushed is popped: one register goes to the other over the stack, and the pointer comes back. */
  lemma PushPop(s: State, a: Reg, b: Reg)
    requires a < 15 && b < 15 && Next(s, [0xA0, a * 16 + 15]) && Next(Step(s).1, [0xB0, b * 16 + 15])
    requires IsWord(RegVal(s.regs, 4) - 8) && InMemory(s.mem, RegVal(s.regs, 4) - 8)
    ensures After(s, 2).Some?
    ensures var u := After(s, 2).value;
      && u.pc == s.pc + 4 && u.cc == s.cc && SameMemoryBut(u.mem, s.mem, RegVal(s.regs, 4) - 8)
      && RegVal(u.regs, b) == RegVal(s.regs, a) && SameBut(u.regs, s.regs, b)
  {
    hide Step, Next, RegVal, WordAt, After;
    NextOk(s, [0xA0, a * 16 + 15]);
    var t := Step(s).1;
    PushSteps(s, a, 15);
    PopSteps(t, b, 15);
    TwoSteps(s);
  }

  lemma NextOk(s: State, code: seq<Byte>)
    requires Next(s, code)
    ensures Ok(s)
  {
  }

  /** A call, whatever runs in between, and a return: if that leaves the stack pointer and the word there as it found them, the program goes on behind the call. */
  lemma CallReturn(s: State, v: int, n: nat)
    requires IsWord(v) && IsWord(s.pc + 9) && Next(s, [0x80] + Bytes(v, 8))
    requires IsWord(RegVal(s.regs, 4) - 8) && InMemory(s.mem, RegVal(s.regs, 4) - 8)
    requires After(Step(s).1, n).Some? && Next(After(Step(s).1, n).value, [0x90])
    requires var w := After(Step(s).1, n).value;
      RegVal(w.regs, 4) == RegVal(s.regs, 4) - 8 && |w.mem| == |s.mem| && WordAt(w.mem, RegVal(s.regs, 4) - 8) == WordAt(Step(s).1.mem, RegVal(s.regs, 4) - 8)
    ensures Step(s).1.pc == v && After(s, n + 2).Some?
    ensures var w, u := After(Step(s).1, n).value, After(s, n + 2).value;
      u.pc == s.pc + 9 && RegVal(u.regs, 4) == RegVal(s.regs, 4) && SameBut(u.regs, w.regs, 4) && u.mem == w.mem && u.cc == w.cc
  {
    hide Step, Next, RegVal, WordAt, After, Bytes, SameBut;
    NextOk(s, [0x80] + Bytes(v, 8));
    CallSteps(s, v);
    var w := After(Step(s).1, n).value;
    ReturnSteps(w, 0);
    FirstStep(s, n);
    LastStep(s, n + 1);
  }

  lemma FirstStep(s: State, n: nat)
    requires Ok(s) && Step(s).0 == AOK
    ensures After(s, n + 1) == After(Step(s).1, n)
  {
    AfterBoth(s, 1, n);
    hide Step;
    assert After(s, 0) == Some(s);
  }

  lemma LastStep(s: State, n: nat)
    requires Ok(s) && After(s, n).Some? && Step(After(s, n).value).0 == AOK
    ensures After(s, n + 1) == Some(Step(After(s, n).value).1)
  {
    hide Step;
  }

  /** What is stored at an address is loaded from it. */
  lemma StoreLoad(s: State, a: Reg, b: Reg, d: int, at: int, c: Reg)
    requires a < 15 && c < 15 && IsWord(d) && Addresses(s, d, b, at) && InMemory(s.mem, at)
    requires Next(s, [0x40, a * 16 + b] + Bytes(d, 8)) && Next(Step(s).1, [0x50, c * 16 + b] + Bytes(d, 8))
    ensures After(s, 2).Some?
    ensures var u := After(s, 2).value;
      RegVal(u.regs, c) == RegVal(s.regs, a) && SameBut(u.regs, s.regs, c) && SameMemoryBut(u.mem, s.mem, at) && u.pc == s.pc + 20 && u.cc == s.cc
  {
    hide Step, RegVal, WordAt, After, Bytes, SameBut, Next;
    NextOk(s, [0x40, a * 16 + b] + Bytes(d, 8));
    var t := Step(s).1;
    StoreSteps(s, a, b, d, at);
    LoadSteps(t, c, b, d, at);
    TwoSteps(s);
  }

  /** The comparisons in the order of the conditions; the first always holds. */
  ghost predicate Compares(cond: int, x: int, y: int) {
    match cond
    case 0 => true
    case 1 => x <= y
    case 2 => x < y
    case 3 => x == y
    case 4 => x != y
    case 5 => x >= y
    case 6 => x > y
    case _ => false
  }

  lemma AfterSubtraction(a: int, b: int, cond: int)
    requires IsWord(a) && IsWord(b)
    ensures CondHolds(ComputeCC(Sub, a, b), cond) <==> Compares(cond, b, a)
  {
    ConditionsCompare(a, b);
    ConditionsOpposed(ComputeCC(Sub, a, b), cond);
    hide CondHolds, ComputeCC, IsWord;
  }

  lemma AfterTest(a: int, cond: int)
    requires IsWord(a)
    ensures CondHolds(ComputeCC(BitAnd, a, a), cond) <==> Compares(cond, a, 0)
  {
    ConditionsTest(a);
    ConditionsOpposed(ComputeCC(BitAnd, a, a), cond);
    hide CondHolds, ComputeCC, IsWord;
  }

  /** A subtraction and a jump: it is taken exactly if the target compares so with the other operand, as they were before. */
  lemma CompareJump(s: State, a: Reg, b: Reg, cond: int, v: int)
    requires b < 15 && 0 <= cond < 16 && IsWord(v)
    requires Next(s, [0x61, a * 16 + b]) && Next(Step(s).1, [0x70 + cond] + Bytes(v, 8))
    ensures After(s, 2).Some?
    ensures var u := After(s, 2).value;
      && u.pc == (if Compares(cond, RegVal(s.regs, b), RegVal(s.regs, a)) then v else s.pc + 11)
      && SameBut(u.regs, s.regs, b) && (RegVal(u.regs, b) - (RegVal(s.regs, b) - RegVal(s.regs, a))) % WORD == 0 && u.mem == s.mem
  {
    hide Step, RegVal, After, Bytes, SameBut, Next, CondHolds, ComputeCC, ComputeAlu, Compares;
    NextOk(s, [0x61, a * 16 + b]);
    var t := Step(s).1;
    OperateSteps(s, 1, a, b);
    JumpSteps(t, cond, v);
    AfterSubtraction(RegVal(s.regs, a), RegVal(s.regs, b), cond);
    SumsMean(RegVal(s.regs, a), RegVal(s.regs, b));
    TwoSteps(s);
  }

  /** A subtraction and a conditional move. */
  lemma CompareMove(s: State, a: Reg, b: Reg, cond: int, c: Reg, d: Reg)
    requires b < 15 && 0 <= cond < 16 && c < 15 && d < 15 && d != b && c != b
    requires Next(s, [0x61, a * 16 + b]) && Next(Step(s).1, [0x20 + cond, c * 16 + d])
    ensures After(s, 2).Some?
    ensures var u := After(s, 2).value;
      u.pc == s.pc + 4 && RegVal(u.regs, d) == RegVal(s.regs, if Compares(cond, RegVal(s.regs, b), RegVal(s.regs, a)) then c else d)
  {
    hide Step, RegVal, After, Next, CondHolds, ComputeCC, ComputeAlu, Compares;
    NextOk(s, [0x61, a * 16 + b]);
    var t := Step(s).1;
    OperateSteps(s, 1, a, b);
    MoveSteps(t, cond, c, d);
    AfterSubtraction(RegVal(s.regs, a), RegVal(s.regs, b), cond);
    TwoSteps(s);
  }

  /** The usual test against zero: andq of a register with itself changes no register. */
  lemma TestJump(s: State, a: Reg, cond: int, v: int)
    requires a < 15 && 0 <= cond < 16 && IsWord(v)
    requires Next(s, [0x62, a * 16 + a]) && Next(Step(s).1, [0x70 + cond] + Bytes(v, 8))
    ensures After(s, 2).Some?
    ensures var u := After(s, 2).value;
      && u.pc == (if Compares(cond, RegVal(s.regs, a), 0) then v else s.pc + 11)
      && u.mem == s.mem && forall q: Reg :: RegVal(u.regs, q) == RegVal(s.regs, q)
  {
    hide Step, RegVal, After, Bytes, Next, CondHolds, ComputeCC, ComputeAlu, Compares;
    NextOk(s, [0x62, a * 16 + a]);
    var t := Step(s).1;
    OperateSteps(s, 2, a, a);
    JumpSteps(t, cond, v);
    ConditionsTest(RegVal(s.regs, a));
    AfterTest(RegVal(s.regs, a), cond);
    TwoSteps(s);
  }

  /** The usual way to clear a register. */
  lemma Clears(s: State, a: Reg)
    requires a < 15 && Next(s, [0x63, a * 16 + a])
    ensures Step(s).0 == AOK && RegVal(Step(s).1.regs, a) == 0 && SameBut(Step(s).1.regs, s.regs, a) && Step(s).1.cc.zero
  {
    hide Step, RegVal, Next, Combined, SameBut, Signed;
    NextOk(s, [0x63, a * 16 + a]);
    OperateSteps(s, 3, a, a);
    SelfCombined(RegVal(s.regs, a));
  }
}
