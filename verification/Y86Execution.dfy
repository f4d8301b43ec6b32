/**
  From the written line to what the machine does: assembled lines of
  computer-architecture/Lab4/hclrs/tools/yas.c run by step_state of isa.c.
 */
module Y86Execution {
  import opened Words
  import opened Wrappers
  import opened Y86Set
  import opened Y86Step
  import opened Y86Programs
  import opened Y86Assembler
  import L = Y86Lines
  import Y86Loader

  ghost function SymbolsOf(lines: seq<Line>): Symbols { SymbolsUpTo(lines, |lines|) }

  /** The code of line i is in memory at its address. */
  ghost predicate InPlace(mem: seq<Byte>, lines: seq<Line>, i: nat) {
    && i < |lines| && !Fails(lines[i], 2, SymbolsOf(lines)) && PosAt(lines, i) >= 0
    && |CodeOf(lines[i], PosAt(lines, i), SymbolsOf(lines))| == 1
    && var code := CodeOf(lines[i], PosAt(lines, i), SymbolsOf(lines))[0].1;
      PosAt(lines, i) + |code| <= |mem| && mem[PosAt(lines, i)..PosAt(lines, i) + |code|] == code
  }

  /** The machine is about to execute line i. */
  ghost predicate Before(s: State, lines: seq<Line>, i: nat) {
    Ok(s) && InPlace(s.mem, lines, i) && s.pc == PosAt(lines, i)
  }

  /** Loading the assembler's output puts a line's code in its place, unless later code is put over it. */
  lemma LoadedInPlace(lines: seq<Line>, i: nat, mem: seq<Byte>)
    requires AllGood(lines, 2, SymbolsOf(lines), |lines|) && Y86Loader.Loaded(mem, Emitted(lines, SymbolsOf(lines), |lines|)).ok
    requires i < |lines| && KindOf(lines[i]).Code? && KindOf(lines[i]).e.bytes > 0 && Y86Loader.NotOverwritten(lines, i)
    ensures InPlace(Y86Loader.Loaded(mem, Emitted(lines, SymbolsOf(lines), |lines|)).mem, lines, i)
  {
    hide Fails, CodeOf, KindOf, PosAt, Emitted, AllGood, SymbolsUpTo, Y86Loader.Loaded, Y86Loader.NotOverwritten;
    Y86Loader.CodeIsLoaded(lines, i, mem);
  }

  /** Token k of the line and what stands behind it: a mnemonic and two registers. */
  ghost predicate Writes(line: Line, k: nat, name: string, a: Reg, b: Reg) {
    L.Says(line, k, name) && TokenAt(line, k + 1) == RegTok(a) && TokenAt(line, k + 2) == Punct(',') && TokenAt(line, k + 3) == RegTok(b)
  }

  lemma TwoRegistersNext(s: State, lines: seq<Line>, i: nat, k: nat, name: string, icode: int, ifun: int, a: Reg, b: Reg)
    requires (name, icode, ifun) in {("rrmovq", 2, 0), ("cmovle", 2, 1), ("cmovl", 2, 2), ("cmove", 2, 3), ("cmovne", 2, 4),
      ("cmovge", 2, 5), ("cmovg", 2, 6), ("addq", 6, 0), ("subq", 6, 1), ("andq", 6, 2), ("xorq", 6, 3)}
    requires Before(s, lines, i) && Writes(lines[i], k, name, a, b)
    ensures Ok(s) && 0 <= icode < 16 && 0 <= ifun < 16 && Next(s, [icode * 16 + ifun, a * 16 + b]) && PosAt(lines, i + 1) == s.pc + 2
  {
    hide Fails, CodeOf, NextPos, SymbolsUpTo, L.Says;
    L.TwoRegisters(lines[i], k, name, icode, ifun, PosAt(lines, i), SymbolsOf(lines));
  }

  /** The line names the label that line j is the first to define, and jumps or calls. */
  ghost predicate GoesTo(lines: seq<Line>, i: nat, k: nat, name: string, target: string, j: nat) {
    && i < |lines| && j < |lines| && L.Says(lines[i], k, name) && TokenAt(lines[i], k + 1) == Ident(target)
    && LabelOf(lines[j]) == Some(target) && forall h :: 0 <= h < j ==> LabelOf(lines[h]) != Some(target)
  }

  lemma TargetNext(s: State, lines: seq<Line>, i: nat, k: nat, name: string, icode: int, ifun: int, target: string, j: nat)
    requires (name, icode, ifun) in {("jmp", 7, 0), ("jle", 7, 1), ("jl", 7, 2), ("je", 7, 3), ("jne", 7, 4), ("jge", 7, 5), ("jg", 7, 6), ("call", 8, 0)}
    requires Before(s, lines, i) && GoesTo(lines, i, k, name, target, j)
    ensures Ok(s) && j < |lines| && 0 <= icode < 16 && 0 <= ifun < 16 && Next(s, [icode * 16 + ifun] + Bytes(PosAt(lines, j), 8)) && PosAt(lines, i + 1) == s.pc + 9
  {
    hide Fails, CodeOf, NextPos, SymbolsUpTo, L.Says, Bytes, LabelOf, Lookup;
    LabelResolves(lines, j, target);
    L.Target(lines[i], k, name, icode, ifun, PosAt(lines, i), SymbolsOf(lines), PosAt(lines, j));
  }

  /** rrmovq %a, %b copies %a to %b and goes on with the next line. */
  lemma MoveExecuted(s: State, lines: seq<Line>, i: nat, k: nat, a: Reg, b: Reg)
    requires Before(s, lines, i) && Writes(lines[i], k, "rrmovq", a, b) && a < 15 && b < 15
    ensures var t := Step(s).1;
      Step(s).0 == AOK && RegVal(t.regs, b) == RegVal(s.regs, a) && SameBut(t.regs, s.regs, b) && t.mem == s.mem && t.pc == PosAt(lines, i + 1)
  {
    hide *;
    TwoRegistersNext(s, lines, i, k, "rrmovq", 2, 0, a, b);
    MoveSteps(s, 0, a, b);
    ConditionsOpposed(s.cc, 0);
  }

  /** subq %a, %b and a jump behind it: the program goes on at the label exactly if %b compared so with %a, and otherwise behind the jump. */
  lemma CompareExecuted(s: State, lines: seq<Line>, i: nat, k: nat, a: Reg, b: Reg, k1: nat, name: string, cond: int, target: string, j: nat)
    requires (name, cond) in {("jmp", 0), ("jle", 1), ("jl", 2), ("je", 3), ("jne", 4), ("jge", 5), ("jg", 6)}
    requires Before(s, lines, i) && Writes(lines[i], k, "subq", a, b) && b < 15
    requires InPlace(s.mem, lines, i + 1) && GoesTo(lines, i + 1, k1, name, target, j) && IsWord(PosAt(lines, j))
    ensures After(s, 2).Some?
    ensures After(s, 2).value.pc ==
      PosAt(lines, if Compares(cond, RegVal(s.regs, b), RegVal(s.regs, a)) then j else i + 2)
  {
    hide *;
    TwoRegistersNext(s, lines, i, k, "subq", 6, 1, a, b);
    OperateSteps(s, 1, a, b);
    var t := Step(s).1;
    BeforeNext(t, lines, i + 1);
    TargetNext(t, lines, i + 1, k1, name, 7, cond, target, j);
    CompareJump(s, a, b, cond, PosAt(lines, j));
  }

  lemma BeforeNext(t: State, lines: seq<Line>, i: nat)
    requires Ok(t) && InPlace(t.mem, lines, i) && t.pc == PosAt(lines, i)
    ensures Before(t, lines, i)
  {
  }

  /** call: the label's line is next, and the address of the line behind the call is on the stack. */
  lemma CallExecuted(s: State, lines: seq<Line>, i: nat, k: nat, target: string, j: nat)
    requires Before(s, lines, i) && GoesTo(lines, i, k, "call", target, j) && IsWord(PosAt(lines, j)) && IsWord(PosAt(lines, i + 1))
    ensures HasPushed(Step(s), s, PosAt(lines, i + 1), PosAt(lines, j))
  {
    hide *;
    TargetNext(s, lines, i, k, "call", 8, 0, target, j);
    CallSteps(s, PosAt(lines, j));
  }
}
