/**
  What each line of computer-architecture/Lab4/hclrs/tools/yas.c means: the
  mnemonics, their operands and the bytes that come out, written down without
  the instruction table.
 */
module Y86Lines {
  import opened Wrappers
  import opened Words
  import opened Y86Set
  import opened Y86Assembler

  // ----- The table has one entry for each name

  lemma EarlyDistinct(i: nat, j: nat)
    requires i < j < 15
    ensures TABLE[i].name != TABLE[j].name
  {
  }

  lemma MiddleDistinct(i: nat, j: nat)
    requires i < j && 15 <= j < 24
    ensures TABLE[i].name != TABLE[j].name
  {
  }

  lemma LateDistinct(i: nat, j: nat)
    requires i < j && 24 <= j < |TABLE|
    ensures TABLE[i].name != TABLE[j].name
  {
  }

  lemma Distinct(i: nat, j: nat)
    requires i < j < |TABLE|
    ensures TABLE[i].name != TABLE[j].name
  {
    hide *;
    if j < 15 {
      EarlyDistinct(i, j);
    } else if j < 24 {
      MiddleDistinct(i, j);
    } else {
      LateDistinct(i, j);
    }
  }

  lemma {:induction false} NamedFrom(i: nat, k: nat)
    requires k <= i < |TABLE|
    ensures Named(TABLE[i].name, k) == Some(TABLE[i])
    decreases i - k
  {
    hide TABLE;
    if k < i {
      Distinct(k, i);
      NamedFrom(i, k + 1);
    }
  }

  /** Every entry is found under its name. */
  lemma FindsEntry(e: Instr)
    requires e in TABLE
    ensures Named(e.name, 0) == Some(e)
  {
    hide *;
    var i :| 0 <= i < |TABLE| && TABLE[i] == e;
    NamedFrom(i, 0);
  }

  // ----- Lines

  /** The line is an instruction, with or without a label, whose mnemonic is token k. */
  ghost predicate Says(line: Line, k: nat, name: string) {
    TokenAt(line, k) == InstrTok(name) && (k == 0 || (k == 2 && TokenAt(line, 0).Ident? && TokenAt(line, 1) == Punct(':')))
  }

  /** The number that a token stands for: itself, or the address of a label. */
  ghost predicate Denotes(t: Token, syms: Symbols, v: int) {
    t == Num(v) || (t.Ident? && Lookup(syms, t.s) == Some(v))
  }

  ghost predicate Denotable(t: Token, syms: Symbols) {
    exists v :: Denotes(t, syms, v)
  }

  lemma KindIs(line: Line, k: nat, e: Instr)
    requires Says(line, k, e.name) && e in TABLE && e.name !in {".pos", ".align"}
    ensures KindOf(line) == Code(e, k + 1)
  {
    FindsEntry(e);
    hide Named, TABLE;
  }

  /** A line that the table takes for e. */
  lemma LineOf(line: Line, k: nat, e: Instr, pos: int, syms: Symbols)
    requires Says(line, k, e.name) && e in TABLE && e.name !in {".pos", ".align"}
    ensures Fails(line, 2, syms) <==> Parsed(e, line, k + 1, syms).None?
    ensures !Fails(line, 2, syms) ==> CodeOf(line, pos, syms) == [(pos, Assembled(e, Parsed(e, line, k + 1, syms).value))]
    ensures NextPos(line, pos) == pos + e.bytes
  {
    KindIs(line, k, e);
    hide KindOf, Parsed, Assembled;
  }

  /** The entry has this code, and the bytes behind the opcode are as regs and imm say. */
  ghost predicate Entry(e: Instr, icode: int, ifun: int, regs: bool, imm: bool) {
    && 0 <= icode < 16 && 0 <= ifun < 16 && e.code == icode * 16 + ifun
    && (NeedsRegs(icode) <==> regs) && (NeedsImm(icode) <==> imm)
    && !IsData(e) && e.bytes == 1 + (if regs then 1 else 0) + (if imm then 8 else 0)
    && e in TABLE && e.name !in {".pos", ".align"}
  }

  lemma AssembledAs(e: Instr, icode: int, ifun: int, regs: bool, imm: bool, ops: Ops)
    requires Entry(e, icode, ifun, regs, imm)
    ensures !regs && !imm ==> Assembled(e, ops) == [icode * 16 + ifun]
    ensures regs && !imm ==> Assembled(e, ops) == [icode * 16 + ifun, ops.rA * 16 + ops.rB]
    ensures !regs && imm ==> Assembled(e, ops) == [icode * 16 + ifun] + Bytes(ops.imm, 8)
    ensures regs && imm ==> Assembled(e, ops) == [icode * 16 + ifun, ops.rA * 16 + ops.rB] + Bytes(ops.imm, 8)
  {
    hide TABLE, Bytes;
    assert High(e.code) == icode;
  }

  // ----- Two registers

  lemma TwoRegisterEntry(name: string, icode: int, ifun: int)
    requires (name, icode, ifun) in {("rrmovq", 2, 0), ("cmovle", 2, 1), ("cmovl", 2, 2), ("cmove", 2, 3), ("cmovne", 2, 4),
      ("cmovge", 2, 5), ("cmovg", 2, 6), ("addq", 6, 0), ("subq", 6, 1), ("andq", 6, 2), ("xorq", 6, 3)}
    ensures 0 <= icode < 16 && 0 <= ifun < 16
    ensures Entry(Instr(name, icode * 16 + ifun, 2, RArg, 1, 1, RArg, 1, 0), icode, ifun, true, false)
  {
    var e := Instr(name, icode * 16 + ifun, 2, RArg, 1, 1, RArg, 1, 0);
    assert e in MOVES || e in CMOVES || e in ALU;
  }

  lemma TwoRegistersAs(line: Line, k: nat, e: Instr, icode: int, ifun: int, pos: int, syms: Symbols)
    requires Entry(e, icode, ifun, true, false) && Says(line, k, e.name)
    requires e.arg1 == RArg && e.hi1 == 1 && e.arg2 == RArg && e.hi2 == 0
    ensures !Fails(line, 2, syms) <==> TokenAt(line, k + 1).RegTok? && TokenAt(line, k + 2) == Punct(',') && TokenAt(line, k + 3).RegTok?
    ensures !Fails(line, 2, syms) ==> CodeOf(line, pos, syms) == [(pos, [icode * 16 + ifun, TokenAt(line, k + 1).r * 16 + TokenAt(line, k + 3).r])]
    ensures NextPos(line, pos) == pos + 2
  {
    hide *;
    EntryInTable(e, icode, ifun, true, false);
    LineOf(line, k, e, pos, syms);
    ParsedTwo(e, line, k + 1, syms);
    if !Fails(line, 2, syms) {
      AssembledAs(e, icode, ifun, true, false, Ops(TokenAt(line, k + 1).r, TokenAt(line, k + 3).r, 0));
    }
  }

  lemma ParsedTwo(e: Instr, line: Line, k: nat, syms: Symbols)
    requires e.arg1 == RArg && e.hi1 == 1 && e.arg2 == RArg && e.hi2 == 0
    ensures Parsed(e, line, k, syms).Some? <==> TokenAt(line, k).RegTok? && TokenAt(line, k + 1) == Punct(',') && TokenAt(line, k + 2).RegTok?
    ensures Parsed(e, line, k, syms).Some? ==> Parsed(e, line, k, syms).value == Ops(TokenAt(line, k).r, TokenAt(line, k + 2).r, 0)
  {
  }

  /** A move or an operation: the register written first is the high half of the byte behind the opcode, the target the low half. */
  lemma TwoRegisters(line: Line, k: nat, name: string, icode: int, ifun: int, pos: int, syms: Symbols)
    requires (name, icode, ifun) in {("rrmovq", 2, 0), ("cmovle", 2, 1), ("cmovl", 2, 2), ("cmove", 2, 3), ("cmovne", 2, 4),
      ("cmovge", 2, 5), ("cmovg", 2, 6), ("addq", 6, 0), ("subq", 6, 1), ("andq", 6, 2), ("xorq", 6, 3)}
    requires Says(line, k, name)
    ensures !Fails(line, 2, syms) <==> TokenAt(line, k + 1).RegTok? && TokenAt(line, k + 2) == Punct(',') && TokenAt(line, k + 3).RegTok?
    ensures !Fails(line, 2, syms) ==> CodeOf(line, pos, syms) == [(pos, [icode * 16 + ifun, TokenAt(line, k + 1).r * 16 + TokenAt(line, k + 3).r])]
    ensures NextPos(line, pos) == pos + 2
  {
    hide *;
    TwoRegisterEntry(name, icode, ifun);
    TwoRegistersAs(line, k, Instr(name, icode * 16 + ifun, 2, RArg, 1, 1, RArg, 1, 0), icode, ifun, pos, syms);
  }

  // ----- One register

  lemma OneRegisterEntry(name: string, icode: int)
    requires (name, icode) in {("pushq", 0xA), ("popq", 0xB)}
    ensures 0 <= icode < 16 && Entry(Instr(name, icode * 16, 2, RArg, 1, 1, NoArg, 0, 0), icode, 0, true, false)
  {
    assert Instr(name, icode * 16, 2, RArg, 1, 1, NoArg, 0, 0) in OTHERS;
  }

  lemma ParsedOne(e: Instr, line: Line, k: nat, syms: Symbols)
    requires e.arg1 == RArg && e.hi1 == 1 && e.arg2 == NoArg
    ensures Parsed(e, line, k, syms).Some? <==> TokenAt(line, k).RegTok?
    ensures Parsed(e, line, k, syms).Some? ==> Parsed(e, line, k, syms).value == Ops(TokenAt(line, k).r, 15, 0)
  {
  }

  /** A push or a pop of one register. */
  lemma OneRegister(line: Line, k: nat, name: string, icode: int, pos: int, syms: Symbols)
    requires (name, icode) in {("pushq", 0xA), ("popq", 0xB)} && Says(line, k, name)
    ensures !Fails(line, 2, syms) <==> TokenAt(line, k + 1).RegTok?
    ensures !Fails(line, 2, syms) ==> CodeOf(line, pos, syms) == [(pos, [icode * 16, TokenAt(line, k + 1).r * 16 + 15])]
    ensures NextPos(line, pos) == pos + 2
  {
    hide *;
    OneRegisterEntry(name, icode);
    var e := Instr(name, icode * 16, 2, RArg, 1, 1, NoArg, 0, 0);
    EntryInTable(e, icode, 0, true, false);
    LineOf(line, k, e, pos, syms);
    ParsedOne(e, line, k + 1, syms);
    if !Fails(line, 2, syms) {
      AssembledAs(e, icode, 0, true, false, Ops(TokenAt(line, k + 1).r, 15, 0));
    }
  }

  lemma EntryInTable(e: Instr, icode: int, ifun: int, regs: bool, imm: bool)
    requires Entry(e, icode, ifun, regs, imm)
    ensures e in TABLE && e.name !in {".pos", ".align"} && e.bytes == 1 + (if regs then 1 else 0) + if imm then 8 else 0
  {
    hide TABLE;
  }

  // ----- Numbers

  lemma NumberIff(t: Token, syms: Symbols)
    ensures Number(t, syms).Some? <==> Denotable(t, syms)
    ensures Number(t, syms).Some? ==> Denotes(t, syms, Number(t, syms).value)
  {
    if Number(t, syms).Some? {
      assert Denotes(t, syms, Number(t, syms).value);
    }
  }

  lemma NumberIs(t: Token, syms: Symbols, v: int)
    ensures Denotes(t, syms, v) <==> Number(t, syms) == Some(v)
  {
  }

  lemma NumberToRegisterEntry(name: string, icode: int)
    requires (name, icode) in {("irmovq", 3), ("iaddq", 0xC)}
    ensures 0 <= icode < 16 && Entry(Instr(name, icode * 16, 10, IArg, 2, 8, RArg, 1, 0), icode, 0, true, true)
  {
    var e := Instr(name, icode * 16, 10, IArg, 2, 8, RArg, 1, 0);
    assert e in TRANSFERS || e in OTHERS;
  }

  lemma ParsedNumberReg(e: Instr, line: Line, k: nat, syms: Symbols)
    requires e.arg1 == IArg && e.arg2 == RArg && e.hi2 == 0
    ensures Parsed(e, line, k, syms).Some? <==>
      Number(TokenAt(line, k), syms).Some? && TokenAt(line, k + 1) == Punct(',') && TokenAt(line, k + 2).RegTok?
    ensures Parsed(e, line, k, syms).Some? ==> Parsed(e, line, k, syms).value == Ops(15, TokenAt(line, k + 2).r, Number(TokenAt(line, k), syms).value)
  {
  }

  /** A number or a label's address that goes to a register, the low half. */
  lemma NumberToRegister(line: Line, k: nat, name: string, icode: int, pos: int, syms: Symbols, v: int)
    requires (name, icode) in {("irmovq", 3), ("iaddq", 0xC)} && Says(line, k, name)
    ensures !Fails(line, 2, syms) <==>
      Denotable(TokenAt(line, k + 1), syms) && TokenAt(line, k + 2) == Punct(',') && TokenAt(line, k + 3).RegTok?
    ensures !Fails(line, 2, syms) && Denotes(TokenAt(line, k + 1), syms, v) ==>
      CodeOf(line, pos, syms) == [(pos, [icode * 16, 0xF0 + TokenAt(line, k + 3).r] + Bytes(v, 8))]
    ensures NextPos(line, pos) == pos + 10
  {
    hide *;
    NumberToRegisterEntry(name, icode);
    var e := Instr(name, icode * 16, 10, IArg, 2, 8, RArg, 1, 0);
    EntryInTable(e, icode, 0, true, true);
    LineOf(line, k, e, pos, syms);
    ParsedNumberReg(e, line, k + 1, syms);
    NumberIff(TokenAt(line, k + 1), syms);
    NumberIs(TokenAt(line, k + 1), syms, v);
    if !Fails(line, 2, syms) {
      AssembledAs(e, icode, 0, true, true, Ops(15, TokenAt(line, k + 3).r, Number(TokenAt(line, k + 1), syms).value));
    }
  }

  lemma TargetEntry(name: string, icode: int, ifun: int)
    requires (name, icode, ifun) in {("jmp", 7, 0), ("jle", 7, 1), ("jl", 7, 2), ("je", 7, 3), ("jne", 7, 4), ("jge", 7, 5), ("jg", 7, 6), ("call", 8, 0)}
    ensures 0 <= icode < 16 && 0 <= ifun < 16 && Entry(Instr(name, icode * 16 + ifun, 9, IArg, 1, 8, NoArg, 0, 0), icode, ifun, false, true)
  {
    var e := Instr(name, icode * 16 + ifun, 9, IArg, 1, 8, NoArg, 0, 0);
    assert e in JUMPS || e in JUMPS_ON;
  }

  lemma ParsedNumber(e: Instr, line: Line, k: nat, syms: Symbols)
    requires e.arg1 == IArg && e.arg2 == NoArg
    ensures Parsed(e, line, k, syms).Some? <==> Number(TokenAt(line, k), syms).Some?
    ensures Parsed(e, line, k, syms).Some? ==> Parsed(e, line, k, syms).value == Ops(15, 15, Number(TokenAt(line, k), syms).value)
  {
  }

  lemma TargetAs(line: Line, k: nat, e: Instr, icode: int, ifun: int, pos: int, syms: Symbols, v: int)
    requires Entry(e, icode, ifun, false, true) && Says(line, k, e.name) && e.arg1 == IArg && e.arg2 == NoArg && e.bytes == 9
    ensures !Fails(line, 2, syms) <==> Denotable(TokenAt(line, k + 1), syms)
    ensures Denotes(TokenAt(line, k + 1), syms, v) ==> CodeOf(line, pos, syms) == [(pos, [icode * 16 + ifun] + Bytes(v, 8))]
    ensures NextPos(line, pos) == pos + 9
  {
    hide *;
    EntryInTable(e, icode, ifun, false, true);
    LineOf(line, k, e, pos, syms);
    ParsedNumber(e, line, k + 1, syms);
    NumberIff(TokenAt(line, k + 1), syms);
    NumberIs(TokenAt(line, k + 1), syms, v);
    if !Fails(line, 2, syms) {
      AssembledAs(e, icode, ifun, false, true, Ops(15, 15, Number(TokenAt(line, k + 1), syms).value));
    }
  }

  /** A jump or a call and where it goes. */
  lemma Target(line: Line, k: nat, name: string, icode: int, ifun: int, pos: int, syms: Symbols, v: int)
    requires (name, icode, ifun) in {("jmp", 7, 0), ("jle", 7, 1), ("jl", 7, 2), ("je", 7, 3), ("jne", 7, 4), ("jge", 7, 5), ("jg", 7, 6), ("call", 8, 0)}
    requires Says(line, k, name)
    ensures !Fails(line, 2, syms) <==> Denotable(TokenAt(line, k + 1), syms)
    ensures Denotes(TokenAt(line, k + 1), syms, v) ==> CodeOf(line, pos, syms) == [(pos, [icode * 16 + ifun] + Bytes(v, 8))]
    ensures NextPos(line, pos) == pos + 9
  {
    hide *;
    TargetEntry(name, icode, ifun);
    TargetAs(line, k, Instr(name, icode * 16 + ifun, 9, IArg, 1, 8, NoArg, 0, 0), icode, ifun, pos, syms, v);
  }

  lemma BareEntry(name: string, icode: int)
    requires (name, icode) in {("halt", 0), ("nop", 1), ("ret", 9)}
    ensures 0 <= icode < 16 && Entry(Instr(name, icode * 16, 1, NoArg, 0, 0, NoArg, 0, 0), icode, 0, false, false)
  {
    var e := Instr(name, icode * 16, 1, NoArg, 0, 0, NoArg, 0, 0);
    assert e in MOVES || e in OTHERS;
  }

  lemma ParsedBare(e: Instr, line: Line, k: nat, syms: Symbols)
    requires e.arg1 == NoArg && e.arg2 == NoArg
    ensures Parsed(e, line, k, syms) == Some(Ops(15, 15, 0))
  {
  }

  /** An instruction without operands. */
  lemma Bare(line: Line, k: nat, name: string, icode: int, pos: int, syms: Symbols)
    requires (name, icode) in {("halt", 0), ("nop", 1), ("ret", 9)} && Says(line, k, name)
    ensures !Fails(line, 2, syms) && CodeOf(line, pos, syms) == [(pos, [icode * 16])] && NextPos(line, pos) == pos + 1
  {
    hide *;
    BareEntry(name, icode);
    var e := Instr(name, icode * 16, 1, NoArg, 0, 0, NoArg, 0, 0);
    EntryInTable(e, icode, 0, false, false);
    LineOf(line, k, e, pos, syms);
    ParsedBare(e, line, k + 1, syms);
    AssembledAs(e, icode, 0, false, false, Ops(15, 15, 0));
  }

  lemma DatumEntry(name: string, n: nat)
    requires (name, n) in {(".byte", 1), (".word", 2), (".long", 4), (".quad", 8)}
    ensures name !in {".pos", ".align"} && Instr(name, 0, n, IArg, 0, n, NoArg, 0, 0) in TABLE
  {
    assert Instr(name, 0, n, IArg, 0, n, NoArg, 0, 0) in ALLOCATIONS;
  }

  /** The low bytes of a number, or of a label's address. */
  lemma Datum(line: Line, k: nat, name: string, n: nat, pos: int, syms: Symbols, v: int)
    requires (name, n) in {(".byte", 1), (".word", 2), (".long", 4), (".quad", 8)} && Says(line, k, name)
    ensures !Fails(line, 2, syms) <==> Denotable(TokenAt(line, k + 1), syms)
    ensures Denotes(TokenAt(line, k + 1), syms, v) ==> CodeOf(line, pos, syms) == [(pos, Bytes(v, n))]
    ensures NextPos(line, pos) == pos + n
  {
    DatumEntry(name, n);
    var e := Instr(name, 0, n, IArg, 0, n, NoArg, 0, 0);
    assert forall ops :: Assembled(e, ops) == Bytes(ops.imm, n);
    hide *;
    LineOf(line, k, e, pos, syms);
    ParsedNumber(e, line, k + 1, syms);
    NumberIff(TokenAt(line, k + 1), syms);
    NumberIs(TokenAt(line, k + 1), syms, v);
  }

  // ----- Memory operands

  /** A base register in parentheses at token k, or none, which is written 15; j is the token behind it. */
  ghost predicate Base(line: Line, k: nat, b: Reg, j: nat) {
    if TokenAt(line, k) == Punct('(') then TokenAt(line, k + 1) == RegTok(b) && TokenAt(line, k + 2) == Punct(')') && j == k + 3
    else b == 15 && j == k
  }

  /** A displacement d, which is 0 where none is written, and a base. */
  ghost predicate Reference(line: Line, k: nat, syms: Symbols, d: int, b: Reg, j: nat) {
    var t := TokenAt(line, k);
    if t.Num? || t.Ident? then Denotes(t, syms, d) && Base(line, k + 1, b, j) else d == 0 && Base(line, k, b, j)
  }

  ghost predicate Readable(line: Line, k: nat, syms: Symbols) {
    exists d, b, j :: Reference(line, k, syms, d, b, j)
  }

  lemma BaseIff(line: Line, k: nat, ops: Ops, b: Reg, j: nat)
    ensures Base(line, k, b, j) <==> ParseBase(line, k, ops) == Some((ops.(rB := b), j))
  {
  }

  lemma ReferenceIff(line: Line, k: nat, syms: Symbols, ops: Ops, hi: nat, d: int, b: Reg, j: nat)
    ensures Reference(line, k, syms, d, b, j) <==> ParseArg(MArg, hi, line, k, syms, ops) == Some((ops.(rB := b, imm := d), j))
  {
    BaseIff(line, k, ops.(imm := d), b, j);
    BaseIff(line, k + 1, ops.(imm := d), b, j);
    NumberIs(TokenAt(line, k), syms, d);
    hide Lookup, Base;
  }

  lemma ReferenceParses(line: Line, k: nat, syms: Symbols, ops: Ops, hi: nat)
    ensures ParseArg(MArg, hi, line, k, syms, ops).Some? <==> Readable(line, k, syms)
    ensures ParseArg(MArg, hi, line, k, syms, ops).Some? ==>
      ParseArg(MArg, hi, line, k, syms, ops).value.0 == ops.(rB := ParseArg(MArg, hi, line, k, syms, ops).value.0.rB, imm := ParseArg(MArg, hi, line, k, syms, ops).value.0.imm)
  {
    var p := ParseArg(MArg, hi, line, k, syms, ops);
    if p.Some? {
      assert p.value.0 == ops.(rB := p.value.0.rB, imm := p.value.0.imm);
      ReferenceIff(line, k, syms, ops, hi, p.value.0.imm, p.value.0.rB, p.value.1);
      assert Reference(line, k, syms, p.value.0.imm, p.value.0.rB, p.value.1);
    }
    forall d, b, j | Reference(line, k, syms, d, b, j)
      ensures p.Some?
    {
      ReferenceIff(line, k, syms, ops, hi, d, b, j);
    }
  }

  lemma MemoryEntries()
    ensures Entry(Instr("rmmovq", 0x40, 10, RArg, 1, 1, MArg, 1, 0), 4, 0, true, true)
    ensures Entry(Instr("mrmovq", 0x50, 10, MArg, 1, 0, RArg, 1, 1), 5, 0, true, true)
  {
    assert Instr("rmmovq", 0x40, 10, RArg, 1, 1, MArg, 1, 0) in TRANSFERS && Instr("mrmovq", 0x50, 10, MArg, 1, 0, RArg, 1, 1) in TRANSFERS;
  }

  lemma ParsedStore(e: Instr, line: Line, k: nat, syms: Symbols, d: int, b: Reg, j: nat)
    requires e.arg1 == RArg && e.hi1 == 1 && e.arg2 == MArg
    ensures Parsed(e, line, k, syms).Some? <==>
      TokenAt(line, k).RegTok? && TokenAt(line, k + 1) == Punct(',') && Readable(line, k + 2, syms)
    ensures Parsed(e, line, k, syms).Some? && Reference(line, k + 2, syms, d, b, j) ==> Parsed(e, line, k, syms).value == Ops(TokenAt(line, k).r, b, d)
  {
    if TokenAt(line, k).RegTok? {
      var ops := Ops(TokenAt(line, k).r, 15, 0);
      ReferenceParses(line, k + 2, syms, ops, e.hi2);
      ReferenceIff(line, k + 2, syms, ops, e.hi2, d, b, j);
      var first := ParseArg(e.arg1, e.hi1, line, k, syms, Ops(15, 15, 0));
      assert first.Some? && first.value.0 == ops && first.value.1 == k + 1;
    }
    hide ParseArg, Reference;
  }

  /** A store: the register is the high half, the base the low half. */
  lemma Store(line: Line, k: nat, pos: int, syms: Symbols, d: int, b: Reg, j: nat)
    requires Says(line, k, "rmmovq")
    ensures !Fails(line, 2, syms) <==>
      TokenAt(line, k + 1).RegTok? && TokenAt(line, k + 2) == Punct(',') && Readable(line, k + 3, syms)
    ensures Reference(line, k + 3, syms, d, b, j) && !Fails(line, 2, syms) ==>
      CodeOf(line, pos, syms) == [(pos, [0x40, TokenAt(line, k + 1).r * 16 + b] + Bytes(d, 8))]
    ensures NextPos(line, pos) == pos + 10
  {
    hide *;
    MemoryEntries();
    var e := Instr("rmmovq", 0x40, 10, RArg, 1, 1, MArg, 1, 0);
    EntryInTable(e, 4, 0, true, true);
    LineOf(line, k, e, pos, syms);
    ParsedStore(e, line, k + 1, syms, d, b, j);
    if TokenAt(line, k + 1).RegTok? {
      AssembledAs(e, 4, 0, true, true, Ops(TokenAt(line, k + 1).r, b, d));
    }
  }

  lemma ParsedLoad(e: Instr, line: Line, k: nat, syms: Symbols, d: int, b: Reg, j: nat)
    requires e.arg1 == MArg && e.arg2 == RArg && e.hi2 == 1
    ensures Parsed(e, line, k, syms).Some? ==> Readable(line, k, syms)
    ensures Reference(line, k, syms, d, b, j) ==>
      && (Parsed(e, line, k, syms).Some? <==> TokenAt(line, j) == Punct(',') && TokenAt(line, j + 1).RegTok?)
      && (Parsed(e, line, k, syms).Some? ==> Parsed(e, line, k, syms).value == Ops(TokenAt(line, j + 1).r, b, d))
  {
    ReferenceParses(line, k, syms, Ops(15, 15, 0), e.hi1);
    ReferenceIff(line, k, syms, Ops(15, 15, 0), e.hi1, d, b, j);
    hide Reference, ParseBase, Number;
  }

  /** A load: the register is the high half too, though it is written last. */
  lemma Load(line: Line, k: nat, pos: int, syms: Symbols, d: int, b: Reg, j: nat)
    requires Says(line, k, "mrmovq")
    ensures !Fails(line, 2, syms) ==> Readable(line, k + 1, syms)
    ensures Reference(line, k + 1, syms, d, b, j) ==>
      && (!Fails(line, 2, syms) <==> TokenAt(line, j) == Punct(',') && TokenAt(line, j + 1).RegTok?)
      && (!Fails(line, 2, syms) ==> CodeOf(line, pos, syms) == [(pos, [0x50, TokenAt(line, j + 1).r * 16 + b] + Bytes(d, 8))])
    ensures NextPos(line, pos) == pos + 10
  {
    hide *;
    MemoryEntries();
    var e := Instr("mrmovq", 0x50, 10, MArg, 1, 0, RArg, 1, 1);
    EntryInTable(e, 5, 0, true, true);
    LineOf(line, k, e, pos, syms);
    ParsedLoad(e, line, k + 1, syms, d, b, j);
    if Reference(line, k + 1, syms, d, b, j) && !Fails(line, 2, syms) {
      AssembledAs(e, 5, 0, true, true, Ops(TokenAt(line, j + 1).r, b, d));
    }
  }

  // ----- The other lines

  /** A line that only moves the address, or does nothing. */
  lemma Silent(line: Line, k: nat, pos: int, syms: Symbols)
    ensures line == [] ==> !Fails(line, 2, syms) && NextPos(line, pos) == pos
    ensures |line| == 2 && line[0].Ident? && line[1] == Punct(':') ==> !Fails(line, 2, syms) && NextPos(line, pos) == pos
    ensures Says(line, k, ".pos") ==>
      (!Fails(line, 2, syms) <==> TokenAt(line, k + 1).Num?) && (!Fails(line, 2, syms) ==> NextPos(line, pos) == ToInt(line[k + 1].n))
    ensures Says(line, k, ".align") ==>
      && (!Fails(line, 2, syms) <==> TokenAt(line, k + 1).Num? && ToInt(line[k + 1].n) > 0)
      && (!Fails(line, 2, syms) ==> NextPos(line, pos) == Aligned(pos, ToInt(line[k + 1].n)))
    ensures !Fails(line, 2, syms) && (line == [] || (|line| == 2 && line[0].Ident?) || Says(line, k, ".pos") || Says(line, k, ".align")) ==>
      CodeOf(line, pos, syms) == []
  {
    hide Named, Aligned, ToInt;
  }

  const MNEMONICS := {"nop", "halt", "rrmovq", "cmovle", "cmovl", "cmove", "cmovne", "cmovge", "cmovg", "irmovq", "rmmovq", "mrmovq", "addq", "subq",
    "andq", "xorq", "jmp", "jle", "jl", "je", "jne", "jge", "jg", "call", "ret", "pushq", "popq", "iaddq", "pop2",
    ".byte", ".word", ".long", ".quad", ".pos", ".align"}

  lemma EarlyNames(e: Instr)
    requires e in MOVES || e in CMOVES || e in TRANSFERS || e in ALU
    ensures e.name in MNEMONICS
  {
  }

  lemma LateNames(e: Instr)
    requires e in JUMPS || e in JUMPS_ON || e in OTHERS || e in ALLOCATIONS
    ensures e.name in MNEMONICS
  {
  }

  lemma NamesKnown(e: Instr)
    requires e in TABLE
    ensures e.name in MNEMONICS
  {
    hide MNEMONICS, MOVES, CMOVES, TRANSFERS, ALU, JUMPS, JUMPS_ON, OTHERS, ALLOCATIONS;
    if e in MOVES || e in CMOVES || e in TRANSFERS || e in ALU {
      EarlyNames(e);
    } else {
      LateNames(e);
    }
  }

  /** The lines that are errors in either pass: an unknown mnemonic, a name without its colon, or none of the forms of a line. */
  lemma Refused(line: Line, k: nat, name: string, pass: int, syms: Symbols)
    ensures Says(line, k, name) && name !in MNEMONICS ==> Fails(line, pass, syms)
    ensures line != [] && line[0].Ident? && TokenAt(line, 1) != Punct(':') ==> Fails(line, pass, syms)
    ensures |line| > 2 && line[0].Ident? && !line[2].InstrTok? ==> Fails(line, pass, syms)
    ensures line != [] && !line[0].Ident? && !line[0].InstrTok? ==> Fails(line, pass, syms)
  {
    assert ".pos" in MNEMONICS && ".align" in MNEMONICS;
    if Named(name, 0).Some? {
      NamesKnown(Named(name, 0).value);
    }
    hide Named, MNEMONICS, TABLE, Parsed;
  }

  lemma Pop2Entry()
    ensures Instr("pop2", 0xD0, 0, NoArg, 0, 0, NoArg, 0, 0) in TABLE && "pop2" !in {".pos", ".align"}
  {
    assert Instr("pop2", 0xD0, 0, NoArg, 0, 0, NoArg, 0, 0) in OTHERS;
  }

  /** pop2 is in the table, but makes nothing. */
  lemma Pop2(line: Line, k: nat, pos: int, syms: Symbols)
    requires Says(line, k, "pop2")
    ensures !Fails(line, 2, syms) && CodeOf(line, pos, syms) == [(pos, [])] && NextPos(line, pos) == pos
  {
    var e := Instr("pop2", 0xD0, 0, NoArg, 0, 0, NoArg, 0, 0);
    assert forall ops :: Assembled(e, ops) == [];
    hide *;
    Pop2Entry();
    LineOf(line, k, e, pos, syms);
    ParsedBare(e, line, k + 1, syms);
  }
}
