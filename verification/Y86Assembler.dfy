/**
  The assembler of computer-architecture/Lab4/hclrs/tools/yas.c from tokens on:
  finish_line and the functions it calls, run over all lines twice.
 */
module Y86Assembler {
  import opened Wrappers
  import opened Words
  import opened Y86Set
  import Congruences

  /** A register token carries its number, which the scanner has checked. NoTok is the error token behind the last one. */
  datatype Token = Ident(s: string) | Num(n: int) | RegTok(r: Reg) | InstrTok(s: string) | Punct(c: char) | NoTok

  type Line = seq<Token>

  function TokenAt(line: Line, k: int): Token {
    if 0 <= k < |line| then line[k] else NoTok
  }

  /** (int) of a long long */
  function ToInt(n: int): int {
    var m := n % 0x1_0000_0000;
    if m >= 0x8000_0000 then m - 0x1_0000_0000 else m
  }

  /** The int that is the same modulo its size. */
  lemma ToIntIs(n: int)
    ensures -0x8000_0000 <= ToInt(n) < 0x8000_0000 && (ToInt(n) - n) % 0x1_0000_0000 == 0
    ensures -0x8000_0000 <= n < 0x8000_0000 ==> ToInt(n) == n
  {
    var q := n / 0x1_0000_0000;
    assert ToInt(n) - n == -q * 0x1_0000_0000 || ToInt(n) - n == -(q + 1) * 0x1_0000_0000;
  }

  /** C's division for a positive divisor. */
  function TruncDiv(n: int, a: int): int
    requires a > 0
  {
    if n >= 0 then n / a else -(-n / a)
  }

  function Aligned(pos: int, a: int): int
    requires a > 0
  {
    TruncDiv(pos + a - 1, a) * a
  }

  /** The next multiple of the alignment. */
  lemma AlignedUp(pos: nat, a: int)
    requires a > 0
    ensures Aligned(pos, a) % a == 0 && pos <= Aligned(pos, a) < pos + a
  {
    var n := pos + a - 1;
    assert Aligned(pos, a) == n - n % a;
    Congruences.Remainder(a, n);
    Congruences.DividesIffMod(a, n - n % a);
  }

  /** From a negative address it is the next multiple only where the division is exact; otherwise one further up. */
  lemma AlignedBelowZero(pos: int, a: int)
    requires a > 0 && pos + a - 1 < 0
    ensures Aligned(pos, a) % a == 0 && pos + a - 1 <= Aligned(pos, a) < pos + 2 * a - 1
    ensures Aligned(pos, a) < pos + a <==> (1 - pos - a) % a == 0
  {
    var m := -(pos + a - 1);
    assert Aligned(pos, a) == -(m / a) * a;
    hide Aligned;
    Congruences.Remainder(a, m);
    Negated(a, m);
  }

  lemma Negated(a: int, m: int)
    requires a > 0
    ensures -(m / a) * a == m % a - m && (-(m / a) * a) % a == 0
  {
    var q := m / a;
    assert m == a * q + m % a;
    hide *;
    Congruences.Multiple(a, -q);
    TimesNegative(a, q);
    Congruences.DividesIffMod(a, -(a * q));
  }

  lemma TimesNegative(a: int, q: int)
    ensures a * -q == -(a * q) == -q * a
  {
  }

  // ----- What a line says

  type Symbols = seq<(string, int)>

  /** The first entry for the name wins. */
  ghost function Lookup(syms: Symbols, name: string): Option<int> {
    if syms == [] then None else if syms[0].0 == name then Some(syms[0].1) else Lookup(syms[1..], name)
  }

  datatype Kind = Empty | BadLine | LabelOnly | Pos(p: int) | Align(a: int) | Unknown | Code(e: Instr, k: nat)

  ghost function KindOf(line: Line): Kind {
    if line == [] then Empty
    else if line[0].Ident? then
      if TokenAt(line, 1) != Punct(':') then BadLine
      else if |line| == 2 then LabelOnly
      else KindAt(line, 2)
    else KindAt(line, 0)
  }

  ghost function KindAt(line: Line, k: nat): Kind {
    if !TokenAt(line, k).InstrTok? then BadLine
    else
      var arg := TokenAt(line, k + 1);
      if line[k].s == ".pos" then if arg.Num? then Pos(ToInt(arg.n)) else BadLine
      else if line[k].s == ".align" then if arg.Num? && ToInt(arg.n) > 0 then Align(ToInt(arg.n)) else BadLine
      else match Named(line[k].s, 0)
        case None => Unknown
        case Some(e) => Code(e, k + 1)
  }

  ghost function LabelOf(line: Line): Option<string> {
    if TokenAt(line, 0).Ident? && TokenAt(line, 1) == Punct(':') then Some(line[0].s) else None
  }

  /** The address behind a line. */
  ghost function NextPos(line: Line, pos: int): int {
    PosBehind(KindOf(line), pos)
  }

  ghost function PosBehind(kind: Kind, pos: int): int {
    match kind
    case Pos(p) => p
    case Align(a) => if a > 0 then Aligned(pos, a) else pos
    case Code(e, _) => pos + e.bytes
    case _ => pos
  }

  ghost function Number(t: Token, syms: Symbols): Option<int> {
    match t
    case Num(n) => Some(n)
    case Ident(s) => Lookup(syms, s)
    case _ => None
  }

  /** An argument read from token k on: the operands with it, and the token behind it. */
  ghost function ParseArg(arg: Arg, hi: nat, line: Line, k: nat, syms: Symbols, ops: Ops): Option<(Ops, nat)> {
    match arg
    case NoArg => Some((ops, k))
    case RArg =>
      if TokenAt(line, k).RegTok? then Some((if hi != 0 then ops.(rA := line[k].r) else ops.(rB := line[k].r), k + 1)) else None
    case IArg =>
      var n := Number(TokenAt(line, k), syms);
      if n.Some? then Some((ops.(imm := n.value), k + 1)) else None
    case MArg =>
      var t := TokenAt(line, k);
      if t.Num? || t.Ident? then
        var n := Number(t, syms);
        if n.Some? then ParseBase(line, k + 1, ops.(imm := n.value)) else None
      else ParseBase(line, k, ops.(imm := 0))
  }

  /** The register of a memory reference, which may be missing. */
  ghost function ParseBase(line: Line, k: nat, ops: Ops): Option<(Ops, nat)> {
    if TokenAt(line, k) != Punct('(') then Some((ops.(rB := 15), k))
    else if TokenAt(line, k + 1).RegTok? && TokenAt(line, k + 2) == Punct(')') then Some((ops.(rB := line[k + 1].r), k + 3))
    else None
  }

  /** The operands of an instruction whose arguments begin at token k. What follows the last one is not looked at. */
  ghost function Parsed(e: Instr, line: Line, k: nat, syms: Symbols): Option<Ops> {
    match ParseArg(e.arg1, e.hi1, line, k, syms, Ops(15, 15, 0))
    case None => None
    case Some((ops, j)) =>
      if e.arg2 == NoArg then Some(ops)
      else if TokenAt(line, j) != Punct(',') then None
      else match ParseArg(e.arg2, e.hi2, line, j + 1, syms, ops)
        case None => None
        case Some((all, _)) => Some(all)
  }

  /** Only the second pass looks at the arguments. */
  ghost predicate FailsAs(kind: Kind, line: Line, pass: int, syms: Symbols) {
    kind.BadLine? || kind.Unknown? || (kind.Code? && pass != 1 && Parsed(kind.e, line, kind.k, syms).None?)
  }

  ghost predicate Fails(line: Line, pass: int, syms: Symbols) {
    FailsAs(KindOf(line), line, pass, syms)
  }

  /** The code of a line and its address. */
  ghost function CodeAs(kind: Kind, line: Line, pos: int, syms: Symbols): seq<(int, seq<Byte>)>
    requires !FailsAs(kind, line, 2, syms)
  {
    if kind.Code? then [(pos, Assembled(kind.e, Parsed(kind.e, line, kind.k, syms).value))] else []
  }

  ghost function CodeOf(line: Line, pos: int, syms: Symbols): seq<(int, seq<Byte>)>
    requires !Fails(line, 2, syms)
  {
    CodeAs(KindOf(line), line, pos, syms)
  }

  // ----- The code buffer

  ghost predicate ArgFits(arg: Arg, pos: nat, hi: nat) {
    match arg
    case NoArg => true
    case RArg => pos == 1
    case MArg => pos == 1
    case IArg => pos + hi <= 10
  }

  /** The buffer after an argument has been put into it. */
  ghost function Placed(arg: Arg, pos: nat, hi: nat, code: seq<Byte>, ops: Ops): (r: seq<Byte>)
    requires |code| == 10 && ArgFits(arg, pos, hi)
    ensures |r| == 10
  {
    match arg
    case NoArg => code
    case RArg => code[pos := if hi != 0 then Pack(ops.rA, Low(code[pos])) else Pack(High(code[pos]), ops.rB)]
    case MArg => [code[0]] + [Pack(High(code[1]), ops.rB)] + Bytes(ops.imm, 8)
    case IArg => code[..pos] + Bytes(ops.imm, hi) + code[pos + hi..]
  }

  ghost function ImmPos(e: Instr): nat { if IsData(e) then 0 else if NeedsRegs(High(e.code)) then 2 else 1 }

  ghost function ImmLen(e: Instr): nat { if IsData(e) then e.hi1 else 8 }

  /** What the buffer shows of these operands; imm says whether the number is in it. */
  ghost predicate Shows(e: Instr, code: seq<Byte>, ops: Ops, imm: bool) {
    && |code| == 10
    && (!IsData(e) ==> code[0] == e.code && (NeedsRegs(High(e.code)) ==> code[1] == Pack(ops.rA, ops.rB)))
    && (imm && ImmPos(e) + ImmLen(e) <= 10 ==> code[ImmPos(e)..ImmPos(e) + ImmLen(e)] == Bytes(ops.imm, ImmLen(e)))
  }

  ghost predicate IsArgOf(e: Instr, arg: Arg, pos: nat, hi: nat) {
    (arg == e.arg1 && pos == e.pos1 && hi == e.hi1) || (arg == e.arg2 && pos == e.pos2 && hi == e.hi2)
  }

  /** An argument adds to what the buffer shows. */
  lemma PlacedShows(e: Instr, arg: Arg, pos: nat, hi: nat, code: seq<Byte>, was: Ops, ops: Ops, imm: bool)
    requires WellFormed(e) && e.bytes > 0 && IsArgOf(e, arg, pos, hi) && ArgFits(arg, pos, hi) && Shows(e, code, was, imm)
    requires imm ==> arg != IArg && arg != MArg
    requires match arg
      case NoArg => ops == was
      case RArg => ops == if hi != 0 then was.(rA := ops.rA) else was.(rB := ops.rB)
      case MArg => ops == was.(rB := ops.rB, imm := ops.imm)
      case IArg => ops == was.(imm := ops.imm)
    ensures Shows(e, Placed(arg, pos, hi, code, ops), ops, imm || arg == IArg || arg == MArg)
  {
    var r := Placed(arg, pos, hi, code, ops);
    assert High(Pack(was.rA, was.rB)) == was.rA && Low(Pack(was.rA, was.rB)) == was.rB;
    hide Bytes, High, Low, Pack;
    if arg == MArg {
      assert r[2..10] == Bytes(ops.imm, 8);
    } else if arg == IArg {
      assert r[pos..pos + hi] == Bytes(ops.imm, hi);
    } else if imm && arg == RArg {
      assert r[ImmPos(e)..ImmPos(e) + ImmLen(e)] == code[ImmPos(e)..ImmPos(e) + ImmLen(e)];
    }
  }

  /** Once all arguments are in, the buffer begins with the assembled bytes. */
  lemma ShowsAssembled(e: Instr, code: seq<Byte>, ops: Ops)
    requires WellFormed(e) && e.bytes > 0 && Shows(e, code, ops, e.arg1 == IArg || e.arg1 == MArg || e.arg2 == MArg)
    ensures e.bytes <= 10 && code[..e.bytes] == Assembled(e, ops)
  {
    hide Bytes;
    if !IsData(e) && NeedsImm(High(e.code)) {
      assert code[..e.bytes] == code[..ImmPos(e)] + code[ImmPos(e)..ImmPos(e) + 8];
    }
  }

  // ----- The assembler

  class Assembler {
    const code: array<Byte>
    var pass: int
    var bytepos: int
    var symbols: Symbols
    var tpos: nat
    var errorMode: bool
    var hitError: bool
    var output: seq<(int, seq<Byte>)>

    constructor ()
      ensures fresh(code) && code.Length == 10
      ensures pass == 1 && bytepos == 0 && symbols == [] && !errorMode && !hitError && output == []
    {
      code := new Byte[10](_ => 0);
      pass, bytepos, symbols, tpos, errorMode, hitError, output := 1, 0, [], 0, false, false, [];
    }

    method Fail()
      modifies `errorMode, `hitError
      ensures errorMode && hitError
    {
      errorMode, hitError := true, true;
    }

    /** The first symbol with the name; -1 and an error if there is none. */
    method FindSymbol(name: string) returns (pos: int)
      modifies `errorMode, `hitError
      ensures Lookup(symbols, name).Some? ==> pos == Lookup(symbols, name).value && errorMode == old(errorMode) && hitError == old(hitError)
      ensures Lookup(symbols, name).None? ==> errorMode && hitError
    {
      for i := 0 to |symbols|
        invariant Lookup(symbols, name) == Lookup(symbols[i..], name)
        invariant errorMode == old(errorMode) && hitError == old(hitError)
      {
        if symbols[i].0 == name {
          return symbols[i].1;
        }
        assert symbols[i..][1..] == symbols[i + 1..];
      }
      Fail();
      pos := -1;
    }

    method GetReg(line: Line, pos: nat, hi: nat, ghost ops: Ops)
      requires code.Length == 10 && pos == 1
      modifies `tpos, `errorMode, `hitError, code
      ensures Outcome(old(errorMode), old(hitError), ParseArg(RArg, hi, line, old(tpos), symbols, ops))
      ensures var p := ParseArg(RArg, hi, line, old(tpos), symbols, ops);
        p.Some? ==> tpos == p.value.1 && code[..] == Placed(RArg, pos, hi, old(code[..]), p.value.0)
    {
      if !TokenAt(line, tpos).RegTok? {
        Fail();
        return;
      }
      var r := line[tpos].r;
      code[pos] := if hi != 0 then Pack(r, Low(code[pos])) else Pack(High(code[pos]), r);
      tpos := tpos + 1;
    }

    /** An error is noted exactly when the parse has failed. */
    ghost predicate Outcome(error: bool, hit: bool, p: Option<(Ops, nat)>)
      reads this
    {
      if p.Some? then errorMode == error && hitError == hit else errorMode && hitError
    }

    /** The loop that puts a number into the code. */
    method PutNumber(pos: nat, bytes: nat, val: int)
      requires code.Length == 10 && pos + bytes <= 10
      modifies code
      ensures code[..] == old(code[..pos]) + Bytes(val, bytes) + old(code[pos + bytes..])
    {
      var v := val;
      for i := 0 to bytes
        invariant v == Shifted(val, i)
        invariant forall k :: 0 <= k < 10 ==> code[k] == if pos <= k < pos + i then Bytes(val, bytes)[k - pos] else old(code[k])
      {
        ByteAt(val, bytes, i);
        ShiftedNext(val, i);
        code[pos + i] := v % 256;
        v := v / 256;
      }
    }

    method GetNum(line: Line, pos: nat, bytes: nat, ghost ops: Ops)
      requires code.Length == 10 && pos + bytes <= 10
      modifies `tpos, `errorMode, `hitError, code
      ensures Outcome(old(errorMode), old(hitError), ParseArg(IArg, bytes, line, old(tpos), symbols, ops))
      ensures var p := ParseArg(IArg, bytes, line, old(tpos), symbols, ops);
        p.Some? ==> tpos == p.value.1 && code[..] == Placed(IArg, pos, bytes, old(code[..]), p.value.0)
    {
      var val := 0;
      if TokenAt(line, tpos).Num? {
        val := line[tpos].n;
      } else if TokenAt(line, tpos).Ident? {
        val := FindSymbol(line[tpos].s);
      } else {
        Fail();
        return;
      }
      PutNumber(pos, bytes, val);
      tpos := tpos + 1;
    }

    method GetMem(line: Line, pos: nat, ghost hi: nat, ghost ops: Ops)
      requires code.Length == 10 && pos == 1
      modifies `tpos, `errorMode, `hitError, code
      ensures Outcome(old(errorMode), old(hitError), ParseArg(MArg, hi, line, old(tpos), symbols, ops))
      ensures var p := ParseArg(MArg, hi, line, old(tpos), symbols, ops);
        p.Some? ==> tpos == p.value.1 && code[..] == Placed(MArg, pos, hi, old(code[..]), p.value.0)
    {
      hide Bytes, High, Low, Pack, ParseBase, Lookup;
      ghost var was := code[..];
      var val := 0;
      if TokenAt(line, tpos).Num? {
        val := line[tpos].n;
        tpos := tpos + 1;
      } else if TokenAt(line, tpos).Ident? {
        val := FindSymbol(line[tpos].s);
        tpos := tpos + 1;
      }
      var ok, rval := GetBase(line, ops.(imm := val));
      if ok {
        code[pos] := Pack(High(code[pos]), rval);
        assert code[..2] == [was[0], Pack(High(was[1]), rval)];
        PutNumber(pos + 1, 8, val);
        assert code[..] == [was[0]] + [Pack(High(was[1]), rval)] + Bytes(val, 8);
      }
    }

    /** The optional register of a memory reference. */
    method GetBase(line: Line, ghost ops: Ops) returns (ok: bool, rval: Reg)
      modifies `tpos, `errorMode, `hitError
      ensures Outcome(old(errorMode), old(hitError), ParseBase(line, old(tpos), ops))
      ensures ok <==> ParseBase(line, old(tpos), ops).Some?
      ensures ok ==> ParseBase(line, old(tpos), ops) == Some((ops.(rB := rval), tpos))
    {
      rval := 15;
      if TokenAt(line, tpos) == Punct('(') {
        tpos := tpos + 1;
        if !TokenAt(line, tpos).RegTok? {
          Fail();
          return false, 15;
        }
        rval := line[tpos].r;
        tpos := tpos + 1;
        if TokenAt(line, tpos) != Punct(')') {
          Fail();
          return false, 15;
        }
        tpos := tpos + 1;
      }
      ok := true;
    }

    method GetArg(line: Line, arg: Arg, pos: nat, hi: nat, ghost ops: Ops)
      requires code.Length == 10 && ArgFits(arg, pos, hi)
      modifies `tpos, `errorMode, `hitError, code
      ensures Outcome(old(errorMode), old(hitError), ParseArg(arg, hi, line, old(tpos), symbols, ops))
      ensures var p := ParseArg(arg, hi, line, old(tpos), symbols, ops);
        p.Some? ==> tpos == p.value.1 && code[..] == Placed(arg, pos, hi, old(code[..]), p.value.0)
    {
      match arg
      case RArg => GetReg(line, pos, hi, ops);
      case MArg => GetMem(line, pos, hi, ops);
      case IArg => GetNum(line, pos, hi, ops);
      case NoArg =>
    }

    /** The second pass over one instruction, whose arguments begin at token tpos. */
    method PutCode(line: Line, e: Instr)
      requires code.Length == 10 && WellFormed(e) && e.bytes > 0 && !errorMode
      modifies `tpos, `errorMode, `hitError, code
      ensures var p := Parsed(e, line, old(tpos), symbols);
        if p.Some? then
          !errorMode && hitError == old(hitError) && e.bytes <= 10 && code[..e.bytes] == Assembled(e, p.value)
        else errorMode && hitError
    {
      ArgsFit(e);
      hide WellFormed, Placed, Assembled, ParseArg, Shows, IsArgOf, ArgFits, High, Low, Pack, NeedsRegs, NeedsImm, IsData;
      ghost var p1 := ParseArg(e.arg1, e.hi1, line, tpos, symbols, Ops(15, 15, 0));
      ghost var ops1 := if p1.Some? then p1.value.0 else Ops(15, 15, 0);
      PutFirst(line, e);
      if e.arg2 != NoArg {
        PutSecond(line, e, ops1, p1.Some?);
      } else if p1.Some? {
        ShowsAssembled(e, code[..], ops1);
      }
    }

    /** The opcode, empty registers, and the first argument. */
    method PutFirst(line: Line, e: Instr)
      requires code.Length == 10 && WellFormed(e) && e.bytes > 0 && !errorMode
      modifies `tpos, `errorMode, `hitError, code
      ensures var p := ParseArg(e.arg1, e.hi1, line, old(tpos), symbols, Ops(15, 15, 0));
        if p.Some? then
          && !errorMode && hitError == old(hitError) && tpos == p.value.1
          && Shows(e, code[..], p.value.0, e.arg1 == IArg || e.arg1 == MArg)
        else errorMode && hitError
    {
      ArgsFit(e);
      hide WellFormed, Placed, ParseArg, Shows, IsArgOf, ArgFits, High, Low, Pack, NeedsRegs, NeedsImm, IsData;
      ghost var k := tpos;
      ghost var p := ParseArg(e.arg1, e.hi1, line, k, symbols, Ops(15, 15, 0));
      code[0] := e.code;
      code[1] := 0xFF;
      ghost var c0 := code[..];
      GetArg(line, e.arg1, e.pos1, e.hi1, Ops(15, 15, 0));
      if p.Some? {
        FirstArg(e, line, k, symbols, c0, p.value.0);
      }
    }

    /** The comma and the second argument; good if the first has been put in. */
    method PutSecond(line: Line, e: Instr, ghost was: Ops, ghost good: bool)
      requires code.Length == 10 && WellFormed(e) && e.bytes > 0 && ArgFits(e.arg2, e.pos2, e.hi2)
      requires good ==> Shows(e, code[..], was, e.arg1 == IArg || e.arg1 == MArg)
      modifies `tpos, `errorMode, `hitError, code
      ensures var p := if TokenAt(line, old(tpos)) != Punct(',') then None else ParseArg(e.arg2, e.hi2, line, old(tpos) + 1, symbols, was);
        if p.Some? then
          && errorMode == old(errorMode) && hitError == old(hitError)
          && (good ==> e.bytes <= 10 && code[..e.bytes] == Assembled(e, p.value.0))
        else errorMode && hitError
    {
      hide WellFormed, Placed, Assembled, ParseArg, Shows, ArgFits;
      if TokenAt(line, tpos) != Punct(',') {
        Fail();
        return;
      }
      tpos := tpos + 1;
      ghost var c1 := code[..];
      ghost var p2 := ParseArg(e.arg2, e.hi2, line, tpos, symbols, was);
      GetArg(line, e.arg2, e.pos2, e.hi2, was);
      if good && p2.Some? {
        SecondArg(e, line, old(tpos) + 1, symbols, c1, was, p2.value.0);
        ShowsAssembled(e, code[..], p2.value.0);
      }
    }

    /** finish_line, for a line that the scanner accepted. */
    method FinishLine(line: Line)
      requires code.Length == 10 && !errorMode
      modifies `bytepos, `symbols, `tpos, `errorMode, `hitError, `output, code
      ensures !errorMode && bytepos == NextPos(line, old(bytepos))
      ensures symbols == old(symbols) + if pass == 1 && LabelOf(line).Some? then [(LabelOf(line).value, old(bytepos))] else []
      ensures hitError == (old(hitError) || Fails(line, pass, symbols))
      ensures !Fails(line, pass, symbols) ==> output == old(output) + if pass == 1 then [] else CodeOf(line, old(bytepos), symbols)
    {
      hide TABLE, Assembled, Parsed, Named;
      if |line| == 0 {
        return;
      }
      tpos := 0;
      if line[0].Ident? {
        if TokenAt(line, 1) != Punct(':') {
          Fail();
          errorMode := false;
          return;
        }
        if pass == 1 {
          symbols := symbols + [(line[0].s, bytepos)];
        }
        tpos := 2;
        if |line| == 2 {
          return;
        }
      }
      FinishInstr(line);
    }

    /** The part of finish_line behind the label. */
    method FinishInstr(line: Line)
      requires code.Length == 10 && !errorMode
      modifies `bytepos, `tpos, `errorMode, `hitError, `output, code
      ensures !errorMode && bytepos == PosBehind(KindAt(line, old(tpos)), old(bytepos))
      ensures hitError == (old(hitError) || FailsAs(KindAt(line, old(tpos)), line, pass, symbols))
      ensures !FailsAs(KindAt(line, old(tpos)), line, pass, symbols) ==>
        output == old(output) + if pass == 1 then [] else CodeAs(KindAt(line, old(tpos)), line, old(bytepos), symbols)
    {
      hide TABLE, Assembled, Parsed, Named;
      if !TokenAt(line, tpos).InstrTok? {
        Fail();
        errorMode := false;
        return;
      }
      var arg := TokenAt(line, tpos + 1);
      if line[tpos].s == ".pos" {
        if !arg.Num? {
          Fail();
          errorMode := false;
          return;
        }
        bytepos := ToInt(arg.n);
        return;
      }
      if line[tpos].s == ".align" {
        if !arg.Num? || ToInt(arg.n) <= 0 {
          Fail();
          errorMode := false;
          return;
        }
        bytepos := Aligned(bytepos, ToInt(arg.n));
        return;
      }
      var saved := bytepos;
      var instr := FindInstr(line[tpos].s);
      tpos := tpos + 1;
      if instr.None? {
        Fail();
        errorMode := false;
        return;
      }
      var e := instr.value;
      bytepos := bytepos + e.bytes;
      if pass == 1 {
        return;
      }
      TableWellFormed(e);
      ghost var k := tpos;
      if e.bytes > 0 {
        PutCode(line, e);
        output := output + [(saved, code[..if e.bytes <= 10 then e.bytes else 10])];
      } else {
        NoBytes(e, line, k, symbols);
        output := output + [(saved, [])];
      }
      errorMode := false;
    }
  }

  /** pop2 assembles to nothing. */
  lemma NoBytes(e: Instr, line: Line, k: nat, syms: Symbols)
    requires WellFormed(e) && e.bytes == 0
    ensures Parsed(e, line, k, syms) == Some(Ops(15, 15, 0)) && Assembled(e, Ops(15, 15, 0)) == []
  {
  }

  lemma ArgsFit(e: Instr)
    requires WellFormed(e)
    ensures ArgFits(e.arg1, e.pos1, e.hi1) && ArgFits(e.arg2, e.pos2, e.hi2)
  {
  }

  lemma FirstArg(e: Instr, line: Line, k: nat, syms: Symbols, code: seq<Byte>, ops: Ops)
    requires WellFormed(e) && e.bytes > 0 && |code| == 10 && code[0] == e.code && code[1] == 0xFF
    requires ArgFits(e.arg1, e.pos1, e.hi1)
    requires ParseArg(e.arg1, e.hi1, line, k, syms, Ops(15, 15, 0)).Some?
    requires ops == ParseArg(e.arg1, e.hi1, line, k, syms, Ops(15, 15, 0)).value.0
    ensures Shows(e, Placed(e.arg1, e.pos1, e.hi1, code, ops), ops, e.arg1 == IArg || e.arg1 == MArg)
  {
    PlacedShows(e, e.arg1, e.pos1, e.hi1, code, Ops(15, 15, 0), ops, false);
  }

  lemma SecondArg(e: Instr, line: Line, k: nat, syms: Symbols, code: seq<Byte>, was: Ops, ops: Ops)
    requires WellFormed(e) && e.bytes > 0 && ArgFits(e.arg2, e.pos2, e.hi2)
    requires Shows(e, code, was, e.arg1 == IArg || e.arg1 == MArg)
    requires ParseArg(e.arg2, e.hi2, line, k, syms, was).Some? && ops == ParseArg(e.arg2, e.hi2, line, k, syms, was).value.0
    ensures Shows(e, Placed(e.arg2, e.pos2, e.hi2, code, ops), ops, e.arg1 == IArg || e.arg1 == MArg || e.arg2 == MArg)
  {
    PlacedShows(e, e.arg2, e.pos2, e.hi2, code, was, ops, e.arg1 == IArg || e.arg1 == MArg);
  }

  // ----- Two passes

  ghost function PosAt(lines: seq<Line>, i: nat): int
    requires i <= |lines|
  {
    if i == 0 then 0 else NextPos(lines[i - 1], PosAt(lines, i - 1))
  }

  ghost function SymbolsUpTo(lines: seq<Line>, i: nat): Symbols
    requires i <= |lines|
  {
    if i == 0 then []
    else SymbolsUpTo(lines, i - 1) + var l := LabelOf(lines[i - 1]); if l.Some? then [(l.value, PosAt(lines, i - 1))] else []
  }

  ghost predicate AllGood(lines: seq<Line>, pass: int, syms: Symbols, i: nat)
    requires i <= |lines|
  {
    forall j :: 0 <= j < i ==> !Fails(lines[j], pass, syms)
  }

  ghost function Emitted(lines: seq<Line>, syms: Symbols, i: nat): seq<(int, seq<Byte>)>
    requires i <= |lines| && AllGood(lines, 2, syms, i)
  {
    if i == 0 then [] else Emitted(lines, syms, i - 1) + CodeOf(lines[i - 1], PosAt(lines, i - 1), syms)
  }

  /** The whole run: both passes go through the same addresses, and the second emits each line's code at the address that labels on it got in the first. */
  method Assemble(lines: seq<Line>) returns (ok: bool, output: seq<(int, seq<Byte>)>)
    ensures ok <==> AllGood(lines, 2, SymbolsUpTo(lines, |lines|), |lines|)
    ensures ok ==> output == Emitted(lines, SymbolsUpTo(lines, |lines|), |lines|)
  {
    hide NextPos, LabelOf, Fails, CodeOf;
    var a := new Assembler();
    output := [];
    for i := 0 to |lines|
      invariant fresh(a) && fresh(a.code) && a.code.Length == 10 && a.pass == 1 && !a.errorMode && a.output == []
      invariant a.bytepos == PosAt(lines, i) && a.symbols == SymbolsUpTo(lines, i)
      invariant a.hitError <==> !AllGood(lines, 1, [], i)
    {
      FirstPassFails(lines[i], a.symbols);
      FirstPassFails(lines[i], SymbolsUpTo(lines, i + 1));
      a.FinishLine(lines[i]);
      GoodSoFar(lines, 1, [], i);
      assert a.output == [] || a.hitError;
      a.output := [];
    }
    ghost var syms := a.symbols;
    SecondFailsToo(lines, syms);
    if a.hitError {
      return false, [];
    }
    a.pass, a.bytepos, a.errorMode := 2, 0, false;
    for i := 0 to |lines|
      invariant fresh(a) && fresh(a.code) && a.code.Length == 10 && a.pass == 2 && !a.errorMode && a.symbols == syms
      invariant a.bytepos == PosAt(lines, i)
      invariant a.hitError <==> !AllGood(lines, 2, syms, i)
      invariant !a.hitError ==> a.output == Emitted(lines, syms, i)
    {
      a.FinishLine(lines[i]);
      GoodSoFar(lines, 2, syms, i);
      assert a.symbols == syms + [] == syms;
    }
    ok, output := !a.hitError, a.output;
  }

  lemma FirstPassFails(line: Line, syms: Symbols)
    ensures Fails(line, 1, syms) <==> Fails(line, 1, [])
    ensures Fails(line, 1, []) ==> Fails(line, 2, syms)
  {
  }

  lemma GoodSoFar(lines: seq<Line>, pass: int, syms: Symbols, i: nat)
    requires i < |lines|
    ensures AllGood(lines, pass, syms, i + 1) <==> AllGood(lines, pass, syms, i) && !Fails(lines[i], pass, syms)
  {
  }

  lemma SecondFailsToo(lines: seq<Line>, syms: Symbols)
    ensures !AllGood(lines, 1, [], |lines|) ==> !AllGood(lines, 2, syms, |lines|)
  {
    forall j | 0 <= j < |lines|
      ensures Fails(lines[j], 1, []) ==> Fails(lines[j], 2, syms)
    {
      FirstPassFails(lines[j], syms);
    }
  }

  // ----- Labels and code

  lemma {:induction false} LookupAppended(a: Symbols, b: Symbols, name: string)
    ensures Lookup(a + b, name) == if Lookup(a, name).Some? then Lookup(a, name) else Lookup(b, name)
  {
    if a == [] {
      assert a + b == b;
    } else {
      LookupAppended(a[1..], b, name);
      assert (a + b)[1..] == a[1..] + b;
    }
  }

  lemma {:induction false} NoLabelYet(lines: seq<Line>, i: nat, name: string)
    requires i <= |lines| && forall j :: 0 <= j < i ==> LabelOf(lines[j]) != Some(name)
    ensures Lookup(SymbolsUpTo(lines, i), name) == None
  {
    if i != 0 {
      NoLabelYet(lines, i - 1, name);
      assert LabelOf(lines[i - 1]) != Some(name);
      var l := LabelOf(lines[i - 1]);
      LookupAppended(SymbolsUpTo(lines, i - 1), if l.Some? then [(l.value, PosAt(lines, i - 1))] else [], name);
    }
  }

  lemma {:induction false} LabelStays(lines: seq<Line>, i: nat, n: nat, name: string)
    requires i <= n <= |lines| && Lookup(SymbolsUpTo(lines, i), name).Some?
    ensures Lookup(SymbolsUpTo(lines, n), name) == Lookup(SymbolsUpTo(lines, i), name)
  {
    if i < n {
      LabelStays(lines, i, n - 1, name);
      var l := LabelOf(lines[n - 1]);
      LookupAppended(SymbolsUpTo(lines, n - 1), if l.Some? then [(l.value, PosAt(lines, n - 1))] else [], name);
    }
  }

  /** A label stands for the address at its first definition, which is where the second pass puts that line's code. */
  lemma LabelResolves(lines: seq<Line>, i: nat, name: string)
    requires i < |lines| && LabelOf(lines[i]) == Some(name)
    requires forall j :: 0 <= j < i ==> LabelOf(lines[j]) != Some(name)
    ensures Lookup(SymbolsUpTo(lines, |lines|), name) == Some(PosAt(lines, i))
  {
    NoLabelYet(lines, i, name);
    LookupAppended(SymbolsUpTo(lines, i), [(name, PosAt(lines, i))], name);
    LabelStays(lines, i + 1, |lines|, name);
  }

  lemma HasCode(line: Line, pos: int, syms: Symbols)
    requires !Fails(line, 2, syms) && KindOf(line).Code?
    ensures |CodeOf(line, pos, syms)| > 0
  {
    hide KindOf;
  }

  lemma InSum<T>(x: T, a: seq<T>, b: seq<T>)
    ensures x in a || x in b ==> x in a + b
  {
  }

  lemma {:induction false} EmittedAt(lines: seq<Line>, syms: Symbols, n: nat, i: nat)
    requires i < n <= |lines| && AllGood(lines, 2, syms, n) && KindOf(lines[i]).Code?
    ensures !Fails(lines[i], 2, syms)
    ensures CodeOf(lines[i], PosAt(lines, i), syms)[0] in Emitted(lines, syms, n)
  {
    hide CodeOf, CodeAs, Fails, FailsAs, KindOf, KindAt, PosAt;
    HasCode(lines[i], PosAt(lines, i), syms);
    InSum(CodeOf(lines[i], PosAt(lines, i), syms)[0], Emitted(lines, syms, n - 1), CodeOf(lines[n - 1], PosAt(lines, n - 1), syms));
    if i < n - 1 {
      EmittedAt(lines, syms, n - 1, i);
    }
  }

  /** The numbers that the scanner makes are words, and so are addresses. */
  ghost predicate WordTokens(line: Line, syms: Symbols) {
    (forall k {:trigger line[k]} :: 0 <= k < |line| && line[k].Num? ==> IsWord(line[k].n)) && forall k {:trigger syms[k]} :: 0 <= k < |syms| ==> IsWord(syms[k].1)
  }

  lemma {:induction false} LookupIsWord(syms: Symbols, name: string)
    requires forall k {:trigger syms[k]} :: 0 <= k < |syms| ==> IsWord(syms[k].1)
    ensures Lookup(syms, name).Some? ==> IsWord(Lookup(syms, name).value)
  {
    if syms != [] {
      LookupIsWord(syms[1..], name);
    }
  }

  lemma ParsedArgFits(arg: Arg, hi: nat, line: Line, k: nat, syms: Symbols, ops: Ops)
    requires WordTokens(line, syms) && IsWord(ops.imm) && ParseArg(arg, hi, line, k, syms, ops).Some?
    ensures var r := ParseArg(arg, hi, line, k, syms, ops).value.0;
      && IsWord(r.imm) && (arg == RArg || arg == NoArg ==> r.imm == ops.imm)
      && (arg == IArg || arg == NoArg ==> r.rA == ops.rA && r.rB == ops.rB)
  {
    if TokenAt(line, k).Ident? {
      LookupIsWord(syms, line[k].s);
    }
  }

  lemma ParsedFits(e: Instr, line: Line, k: nat, syms: Symbols)
    requires WellFormed(e) && IsInstruction(e) && WordTokens(line, syms) && Parsed(e, line, k, syms).Some?
    ensures Fitting(e, Parsed(e, line, k, syms).value)
  {
    var first := ParseArg(e.arg1, e.hi1, line, k, syms, Ops(15, 15, 0)).value;
    ParsedArgFits(e.arg1, e.hi1, line, k, syms, Ops(15, 15, 0));
    if e.arg2 != NoArg {
      ParsedArgFits(e.arg2, e.hi2, line, first.1 + 1, syms, first.0);
    }
    hide ParseArg, WordTokens;
  }

  /**
    The round trip: where the emitted bytes lie in memory, the simulator fetches
    the operation, the registers and the number that the line says, and the
    address behind it is that of the next line.
   */
  lemma FetchedAsWritten(lines: seq<Line>, i: nat, mem: seq<Byte>)
    requires i < |lines| && AllGood(lines, 2, SymbolsUpTo(lines, |lines|), |lines|)
    requires KindOf(lines[i]).Code? && IsInstruction(KindOf(lines[i]).e) && WordTokens(lines[i], SymbolsUpTo(lines, |lines|))
    requires !Fails(lines[i], 2, SymbolsUpTo(lines, |lines|)) && PosAt(lines, i) >= 0
    requires var code := CodeOf(lines[i], PosAt(lines, i), SymbolsUpTo(lines, |lines|))[0].1;
      PosAt(lines, i) + |code| <= |mem| && mem[PosAt(lines, i)..PosAt(lines, i) + |code|] == code
    ensures var e := KindOf(lines[i]).e;
      var ops := Parsed(e, lines[i], KindOf(lines[i]).k, SymbolsUpTo(lines, |lines|)).value;
      Fetch(mem, PosAt(lines, i)) == Fetched(High(e.code), Low(e.code), ops.rA, ops.rB, ops.imm, true, true, PosAt(lines, i + 1))
  {
    var syms := SymbolsUpTo(lines, |lines|);
    var e, k := KindOf(lines[i]).e, KindOf(lines[i]).k;
    CodeIsInTable(lines[i]);
    TableWellFormed(e);
    hide TABLE;
    var ops := Parsed(e, lines[i], k, syms).value;
    ParsedFits(e, lines[i], k, syms);
    AssembledSize(e, ops);
    FetchAssembled(mem, PosAt(lines, i), e, ops);
  }

  lemma CodeIsInTable(line: Line)
    ensures KindOf(line).Code? ==> KindOf(line).e in TABLE
  {
  }

  lemma AssembledSize(e: Instr, ops: Ops)
    requires WellFormed(e)
    ensures |Assembled(e, ops)| == e.bytes
  {
  }
}
