/** The Y86-64 instruction set of computer-architecture/Lab4/hclrs/tools/isa.c: encodings, fetch, arithmetic flags. */
module Y86Set {
  import opened Wrappers
  import opened Words

  datatype Arg = RArg | MArg | IArg | NoArg

  /** hi is 1 for the high half of the register byte; for a number it is the count of bytes. */
  datatype Instr = Instr(name: string, code: Byte, bytes: nat, arg1: Arg, pos1: nat, hi1: nat, arg2: Arg, pos2: nat, hi2: nat)

  const MOVES: seq<Instr> := [
    Instr("nop", 0x10, 1, NoArg, 0, 0, NoArg, 0, 0),
    Instr("halt", 0x00, 1, NoArg, 0, 0, NoArg, 0, 0),
    Instr("rrmovq", 0x20, 2, RArg, 1, 1, RArg, 1, 0),
    Instr("cmovle", 0x21, 2, RArg, 1, 1, RArg, 1, 0),
    Instr("cmovl", 0x22, 2, RArg, 1, 1, RArg, 1, 0)
  ]

  const CMOVES: seq<Instr> := [
    Instr("cmove", 0x23, 2, RArg, 1, 1, RArg, 1, 0),
    Instr("cmovne", 0x24, 2, RArg, 1, 1, RArg, 1, 0),
    Instr("cmovge", 0x25, 2, RArg, 1, 1, RArg, 1, 0),
    Instr("cmovg", 0x26, 2, RArg, 1, 1, RArg, 1, 0)
  ]

  const TRANSFERS: seq<Instr> := [
    Instr("irmovq", 0x30, 10, IArg, 2, 8, RArg, 1, 0),
    Instr("rmmovq", 0x40, 10, RArg, 1, 1, MArg, 1, 0),
    Instr("mrmovq", 0x50, 10, MArg, 1, 0, RArg, 1, 1)
  ]

  const ALU: seq<Instr> := [
    Instr("addq", 0x60, 2, RArg, 1, 1, RArg, 1, 0),
    Instr("subq", 0x61, 2, RArg, 1, 1, RArg, 1, 0),
    Instr("andq", 0x62, 2, RArg, 1, 1, RArg, 1, 0),
    Instr("xorq", 0x63, 2, RArg, 1, 1, RArg, 1, 0)
  ]

  const JUMPS: seq<Instr> := [
    Instr("jmp", 0x70, 9, IArg, 1, 8, NoArg, 0, 0),
    Instr("jle", 0x71, 9, IArg, 1, 8, NoArg, 0, 0),
    Instr("jl", 0x72, 9, IArg, 1, 8, NoArg, 0, 0),
    Instr("je", 0x73, 9, IArg, 1, 8, NoArg, 0, 0)
  ]

  const JUMPS_ON: seq<Instr> := [
    Instr("jne", 0x74, 9, IArg, 1, 8, NoArg, 0, 0),
    Instr("jge", 0x75, 9, IArg, 1, 8, NoArg, 0, 0),
    Instr("jg", 0x76, 9, IArg, 1, 8, NoArg, 0, 0),
    Instr("call", 0x80, 9, IArg, 1, 8, NoArg, 0, 0)
  ]

  const OTHERS: seq<Instr> := [
    Instr("ret", 0x90, 1, NoArg, 0, 0, NoArg, 0, 0),
    Instr("pushq", 0xA0, 2, RArg, 1, 1, NoArg, 0, 0),
    Instr("popq", 0xB0, 2, RArg, 1, 1, NoArg, 0, 0),
    Instr("iaddq", 0xC0, 10, IArg, 2, 8, RArg, 1, 0),
    Instr("pop2", 0xD0, 0, NoArg, 0, 0, NoArg, 0, 0)
  ]

  const ALLOCATIONS: seq<Instr> := [
    Instr(".byte", 0x00, 1, IArg, 0, 1, NoArg, 0, 0),
    Instr(".word", 0x00, 2, IArg, 0, 2, NoArg, 0, 0),
    Instr(".long", 0x00, 4, IArg, 0, 4, NoArg, 0, 0),
    Instr(".quad", 0x00, 8, IArg, 0, 8, NoArg, 0, 0)
  ]

  /** The table in the order of the source. */
  const TABLE: seq<Instr> := MOVES + CMOVES + TRANSFERS + ALU + JUMPS + JUMPS_ON + OTHERS + ALLOCATIONS

  /** The first entry with the name, from entry i on. */
  ghost function Named(name: string, i: nat): (r: Option<Instr>)
    ensures r.Some? ==> r.value in TABLE && r.value.name == name
    decreases |TABLE| - i
  {
    if i >= |TABLE| then None else if TABLE[i].name == name then Some(TABLE[i]) else Named(name, i + 1)
  }

  method FindInstr(name: string) returns (r: Option<Instr>)
    ensures r == Named(name, 0)
  {
    hide TABLE;
    for i := 0 to |TABLE|
      invariant Named(name, 0) == Named(name, i)
    {
      if TABLE[i].name == name {
        return Some(TABLE[i]);
      }
    }
    r := None;
  }

  // ----- What an instruction is made of

  /** Registers 0..14; 15 stands for none. */
  type Reg = r: int | 0 <= r < 16

  datatype Ops = Ops(rA: Reg, rB: Reg, imm: int)

  function High(b: Byte): Reg { b / 16 }
  function Low(b: Byte): Reg { b % 16 }
  function Pack(a: Reg, b: Reg): Byte { a * 16 + b }

  predicate NeedsRegs(icode: int) { icode in {2, 3, 4, 5, 6, 0xA, 0xB, 0xC} }

  predicate NeedsImm(icode: int) { icode in {3, 4, 5, 7, 8, 0xC} }

  /** An allocation, which is data and not an instruction. */
  predicate IsData(e: Instr) { e.arg1 == IArg && e.pos1 == 0 }

  /** pop2 has no bytes and cannot be written. */
  predicate IsInstruction(e: Instr) { !IsData(e) && e.bytes > 0 }

  ghost predicate WellFormed(e: Instr) {
    var icode := High(e.code);
    if IsData(e) then 0 < e.bytes == e.hi1 <= 8 && e.arg2 == NoArg
    else if e.bytes == 0 then e.arg1 == NoArg && e.arg2 == NoArg
    else
      && e.bytes == 1 + (if NeedsRegs(icode) then 1 else 0) + (if NeedsImm(icode) then 8 else 0)
      && (e.arg1 == RArg ==> e.pos1 == 1 && NeedsRegs(icode)) && (e.arg1 == MArg ==> e.pos1 == 1 && NeedsRegs(icode) && NeedsImm(icode))
      && (e.arg1 == IArg ==> e.hi1 == 8 && NeedsImm(icode) && e.pos1 == if NeedsRegs(icode) then 2 else 1)
      && (e.arg2 == RArg ==> e.pos2 == 1 && NeedsRegs(icode)) && (e.arg2 == MArg ==> e.pos2 == 1 && NeedsRegs(icode) && NeedsImm(icode))
      && e.arg2 != IArg
      && (NeedsImm(icode) <==> e.arg1 == IArg || e.arg1 == MArg || e.arg2 == MArg)
      && !(e.arg1 == MArg && e.arg2 == MArg) && !(e.arg1 == IArg && e.arg2 == MArg)
  }

  lemma MovesWellFormed(e: Instr)
    requires e in MOVES
    ensures WellFormed(e)
  {
  }

  lemma CmovesWellFormed(e: Instr)
    requires e in CMOVES
    ensures WellFormed(e)
  {
  }

  lemma TransfersWellFormed(e: Instr)
    requires e in TRANSFERS
    ensures WellFormed(e)
  {
  }

  lemma AluWellFormed(e: Instr)
    requires e in ALU
    ensures WellFormed(e)
  {
  }

  lemma JumpsWellFormed(e: Instr)
    requires e in JUMPS
    ensures WellFormed(e)
  {
  }

  lemma JumpsOnWellFormed(e: Instr)
    requires e in JUMPS_ON
    ensures WellFormed(e)
  {
  }

  lemma OthersWellFormed(e: Instr)
    requires e in OTHERS
    ensures WellFormed(e)
  {
  }

  lemma AllocationsWellFormed(e: Instr)
    requires e in ALLOCATIONS
    ensures WellFormed(e)
  {
  }

  lemma TableWellFormed(e: Instr)
    requires e in TABLE
    ensures WellFormed(e)
  {
    hide WellFormed, MOVES, CMOVES, TRANSFERS, ALU, JUMPS, JUMPS_ON, OTHERS, ALLOCATIONS;
    if e in MOVES {
      MovesWellFormed(e);
    } else if e in CMOVES {
      CmovesWellFormed(e);
    } else if e in TRANSFERS {
      TransfersWellFormed(e);
    } else if e in ALU {
      AluWellFormed(e);
    } else if e in JUMPS {
      JumpsWellFormed(e);
    } else if e in JUMPS_ON {
      JumpsOnWellFormed(e);
    } else if e in OTHERS {
      OthersWellFormed(e);
    } else {
      AllocationsWellFormed(e);
    }
  }

  /** The bytes of an instruction or datum with these operands. */
  ghost function Assembled(e: Instr, ops: Ops): seq<Byte> {
    if IsData(e) then Bytes(ops.imm, e.hi1)
    else if e.bytes == 0 then []
    else
      [e.code] + (if NeedsRegs(High(e.code)) then [Pack(ops.rA, ops.rB)] else [])
      + if NeedsImm(High(e.code)) then Bytes(ops.imm, 8) else []
  }

  // ----- The fetch part of step_state

  datatype Fetched = BadAddress | Fetched(icode: int, ifun: int, rA: Reg, rB: Reg, imm: int, regsOk: bool, immOk: bool, next: int)

  ghost function Fetch(mem: seq<Byte>, pc: int): Fetched {
    if !(0 <= pc < |mem|) then BadAddress
    else
      var icode, ifun := High(mem[pc]), Low(mem[pc]);
      var p := if NeedsRegs(icode) then pc + 2 else pc + 1;
      var regsOk := NeedsRegs(icode) ==> pc + 1 < |mem|;
      var regs: Byte := if NeedsRegs(icode) then if regsOk then mem[pc + 1] else 0 else 0xFF;
      var immOk := NeedsImm(icode) ==> p + 8 <= |mem|;
      Fetched(icode, ifun, High(regs), Low(regs),
              if NeedsImm(icode) && immOk then Signed(Value(mem[p..p + 8])) else 0,
              regsOk, immOk, if NeedsImm(icode) then p + 8 else p)
  }

  class Memory {
    const contents: array<Byte>

    constructor (contents: array<Byte>)
      ensures this.contents == contents
    {
      this.contents := contents;
    }

    method GetByteVal(pos: int) returns (ok: bool, b: Byte)
      ensures ok <==> 0 <= pos < contents.Length
      ensures b == if ok then contents[pos] else 0
    {
      if pos < 0 || pos >= contents.Length {
        return false, 0;
      }
      ok, b := true, contents[pos];
    }

    method GetWordVal(pos: int) returns (ok: bool, val: int)
      ensures ok <==> 0 <= pos && pos + 8 <= contents.Length
      ensures val == if ok then Signed(Value(contents[pos..pos + 8])) else 0
    {
      if pos < 0 || pos + 8 > contents.Length {
        return false, 0;
      }
      val := 0;
      for i := 0 to 8
        invariant val == Value(contents[pos..pos + i])
      {
        ValueAppended(contents[pos..pos + i], contents[pos + i]);
        assert contents[pos..pos + i + 1] == contents[pos..pos + i] + [contents[pos + i]];
        val := val + contents[pos + i] * Power256(i);
      }
      ok, val := true, Signed(val);
    }

    method SetWordVal(pos: int, val: int) returns (ok: bool)
      requires IsWord(val)
      modifies contents
      ensures ok <==> 0 <= pos && pos + 8 <= contents.Length
      ensures contents[..] == if ok then old(contents[..pos]) + Bytes(val, 8) + old(contents[pos + 8..]) else old(contents[..])
    {
      if pos < 0 || pos + 8 > contents.Length {
        return false;
      }
      var v := val;
      for i := 0 to 8
        invariant v == Shifted(val, i)
        invariant forall k :: 0 <= k < contents.Length ==> contents[k] == if pos <= k < pos + i then Bytes(val, 8)[k - pos] else old(contents[k])
      {
        ByteAt(val, 8, i);
        ShiftedNext(val, i);
        contents[pos + i] := v % 256;
        v := v / 256;
      }
      ok := true;
    }

    method FetchInstr(pc: int) returns (f: Fetched)
      ensures f == Fetch(contents[..], pc)
    {
      var ok, byte0 := GetByteVal(pc);
      if !ok {
        return BadAddress;
      }
      var ftpc := pc + 1;
      var byte1, ok1, okc, cval := 0xFF, true, true, 0;
      if NeedsRegs(High(byte0)) {
        ok1, byte1 := GetByteVal(ftpc);
        ftpc := ftpc + 1;
      }
      if NeedsImm(High(byte0)) {
        okc, cval := GetWordVal(ftpc);
        assert okc ==> contents[..][ftpc..ftpc + 8] == contents[ftpc..ftpc + 8];
        ftpc := ftpc + 8;
      }
      f := Fetched(High(byte0), Low(byte0), High(byte1), Low(byte1), cval, ok1, okc, ftpc);
    }
  }

  /** A word that has been stored is read back. */
  lemma StoredWord(mem: seq<Byte>, pos: nat, val: int)
    requires IsWord(val) && pos + 8 <= |mem|
    ensures var m := mem[..pos] + Bytes(val, 8) + mem[pos + 8..]; |m| == |mem| && Signed(Value(m[pos..pos + 8])) == val
  {
    WordRoundTrip(val);
    assert (mem[..pos] + Bytes(val, 8) + mem[pos + 8..])[pos..pos + 8] == Bytes(val, 8);
  }

  /** The operands that the fetch of such an instruction can recover. */
  ghost predicate Fitting(e: Instr, ops: Ops) {
    && IsWord(ops.imm)
    && (!NeedsRegs(High(e.code)) ==> ops.rA == ops.rB == 15)
    && (!NeedsImm(High(e.code)) ==> ops.imm == 0)
  }

  lemma FetchWellFormed(mem: seq<Byte>, pc: nat, e: Instr, ops: Ops)
    requires WellFormed(e) && IsInstruction(e) && Fitting(e, ops)
    requires pc + e.bytes <= |mem| && mem[pc..pc + e.bytes] == Assembled(e, ops)
    ensures Fetch(mem, pc) == Fetched(High(e.code), Low(e.code), ops.rA, ops.rB, ops.imm, true, true, pc + e.bytes)
  {
    var bs := mem[pc..pc + e.bytes];
    var icode := High(e.code);
    assert mem[pc] == bs[0];
    if NeedsRegs(icode) {
      assert mem[pc + 1] == bs[1];
      assert High(Pack(ops.rA, ops.rB)) == ops.rA && Low(Pack(ops.rA, ops.rB)) == ops.rB;
    }
    if NeedsImm(icode) {
      WordRoundTrip(ops.imm);
      var p := if NeedsRegs(icode) then 2 else 1;
      assert bs == bs[..p] + Bytes(ops.imm, 8);
      TailAt(mem, pc, e.bytes, bs[..p], Bytes(ops.imm, 8));
    }
    hide Signed, Value, Bytes;
  }

  lemma TailAt(mem: seq<Byte>, pc: nat, n: nat, head: seq<Byte>, tail: seq<Byte>)
    requires pc + n <= |mem| && mem[pc..pc + n] == head + tail
    ensures n == |head| + |tail| && mem[pc + |head|..pc + n] == tail
  {
    assert |mem[pc..pc + n]| == n;
    assert mem[pc + |head|..pc + n] == mem[pc..pc + n][|head|..];
  }

  /** What is assembled is fetched again, and the next instruction is the one behind it. */
  lemma FetchAssembled(mem: seq<Byte>, pc: nat, e: Instr, ops: Ops)
    requires e in TABLE && IsInstruction(e) && Fitting(e, ops)
    requires pc + e.bytes <= |mem| && mem[pc..pc + e.bytes] == Assembled(e, ops)
    ensures Fetch(mem, pc) == Fetched(High(e.code), Low(e.code), ops.rA, ops.rB, ops.imm, true, true, pc + e.bytes)
  {
    hide *;
    TableWellFormed(e);
    FetchWellFormed(mem, pc, e, ops);
  }

  // ----- Arithmetic and conditions

  datatype Alu = Add | Sub | BitAnd | BitXor | NoAlu

  /** The operation with this number. */
  function AluOf(fun: int): Alu {
    match fun
    case 0 => Add
    case 1 => Sub
    case 2 => BitAnd
    case 3 => BitXor
    case _ => NoAlu
  }

  /** Addition and subtraction wrap around; the second operand is the target. */
  function ComputeAlu(op: Alu, a: int, b: int): int {
    match op
    case Add => Signed(a + b)
    case Sub => Signed(b - a)
    case BitAnd => Signed(Combined(And, a, b, 64))
    case BitXor => Signed(Combined(Xor, a, b, 64))
    case NoAlu => 0
  }

  datatype Flags = Flags(zero: bool, sign: bool, overflow: bool)

  function ComputeCC(op: Alu, a: int, b: int): Flags {
    var val := ComputeAlu(op, a, b);
    Flags(val == 0, val < 0,
          match op
          case Add => (a < 0) == (b < 0) && (val < 0) != (a < 0)
          case Sub => (a > 0) == (b < 0) && (val < 0) != (b < 0)
          case _ => false)
  }

  function CondHolds(cc: Flags, cond: int): bool {
    var less := cc.sign != cc.overflow;
    match cond
    case 0 => true
    case 1 => less || cc.zero
    case 2 => less
    case 3 => cc.zero
    case 4 => !cc.zero
    case 5 => !less
    case 6 => !less && !cc.zero
    case _ => false
  }

  /** The overflow flag says exactly that the true sum or difference is no word. */
  lemma OverflowIff(op: Alu, a: int, b: int)
    requires IsWord(a) && IsWord(b)
    ensures ComputeCC(op, a, b).overflow <==> (op == Add && !IsWord(a + b)) || (op == Sub && !IsWord(b - a))
  {
    hide Combined;
  }

  /** The numbers of addition and subtraction: exact where the result is a word, and right modulo the word size. */
  lemma SumsMean(a: int, b: int)
    ensures IsWord(a + b) ==> ComputeAlu(AluOf(0), a, b) == a + b
    ensures IsWord(b - a) ==> ComputeAlu(AluOf(1), a, b) == b - a
    ensures (ComputeAlu(AluOf(0), a, b) - (a + b)) % WORD == 0 && (ComputeAlu(AluOf(1), a, b) - (b - a)) % WORD == 0
  {
    SignedDiffers(a + b);
    SignedDiffers(b - a);
    hide Combined;
    assert IsWord(a + b) ==> Signed(a + b) == a + b;
    assert IsWord(b - a) ==> Signed(b - a) == b - a;
    hide Signed;
  }

  lemma SignedDiffers(n: int)
    ensures (Signed(n) - n) % WORD == 0
  {
    assert n == n / WORD * WORD + n % WORD;
    assert Signed(n) - n == -(n / WORD) * WORD || Signed(n) - n == -(n / WORD + 1) * WORD;
  }

  /** Operations 2 and 3 work bit by bit. */
  lemma BitsMean(a: int, b: int, i: nat)
    requires i < 64
    ensures Bit(ComputeAlu(AluOf(2), a, b), i) <==> Bit(a, i) && Bit(b, i)
    ensures Bit(ComputeAlu(AluOf(3), a, b), i) <==> Bit(a, i) != Bit(b, i)
  {
    WordBits(And, a, b, i);
    WordBits(Xor, a, b, i);
    hide Combined, Bit, Signed;
  }

  /** The flags say of the result, a word, whether it is zero and whether it is negative. */
  lemma FlagsMean(op: Alu, a: int, b: int)
    ensures IsWord(ComputeAlu(op, a, b))
    ensures ComputeCC(op, a, b).zero <==> ComputeAlu(op, a, b) == 0
    ensures ComputeCC(op, a, b).sign <==> ComputeAlu(op, a, b) < 0
  {
  }

  /** After a subtraction the conditions compare the operands as signed words. */
  lemma ConditionsCompare(a: int, b: int)
    requires IsWord(a) && IsWord(b)
    ensures var cc := ComputeCC(Sub, a, b);
      && (CondHolds(cc, 1) <==> b <= a) && (CondHolds(cc, 2) <==> b < a) && (CondHolds(cc, 3) <==> b == a)
      && (CondHolds(cc, 4) <==> b != a) && (CondHolds(cc, 5) <==> b >= a) && (CondHolds(cc, 6) <==> b > a)
  {
  }

  /** After the bitwise and of a word with itself they compare it with zero. */
  lemma ConditionsTest(a: int)
    requires IsWord(a)
    ensures ComputeAlu(BitAnd, a, a) == a
    ensures var cc := ComputeCC(BitAnd, a, a);
      && (CondHolds(cc, 1) <==> a <= 0) && (CondHolds(cc, 2) <==> a < 0) && (CondHolds(cc, 3) <==> a == 0)
      && (CondHolds(cc, 4) <==> a != 0) && (CondHolds(cc, 5) <==> a >= 0) && (CondHolds(cc, 6) <==> a > 0)
  {
    SelfCombined(a);
  }

  /** Whatever the flags: condition 0 always holds, each of the others excludes its opposite, and there are no more than seven. */
  lemma ConditionsOpposed(cc: Flags, cond: int)
    ensures CondHolds(cc, 0)
    ensures (CondHolds(cc, 1) <==> !CondHolds(cc, 6)) && (CondHolds(cc, 2) <==> !CondHolds(cc, 5)) && (CondHolds(cc, 3) <==> !CondHolds(cc, 4))
    ensures !(0 <= cond <= 6) ==> !CondHolds(cc, cond)
  {
  }
}
