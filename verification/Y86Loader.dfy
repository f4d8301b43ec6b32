/**
  load_mem of computer-architecture/Lab4/hclrs/tools/isa.c, which puts the
  assembler's output into the simulator's memory: source text to fetched
  instructions.
 */
module Y86Loader {
  import opened Words
  import opened Wrappers
  import opened Y86Set
  import opened Y86Assembler

  /** Memory contents, and whether every byte has found a place. */
  datatype Load = Load(mem: seq<Byte>, ok: bool)

  /** The bytes of code that fit at pos. */
  ghost function Room(mem: seq<Byte>, pos: int, code: seq<Byte>): (n: nat)
    ensures n <= |code| && (n > 0 ==> 0 <= pos && pos + n <= |mem|)
  {
    if pos < 0 || pos >= |mem| then 0 else if pos + |code| <= |mem| then |code| else |mem| - pos
  }

  ghost function Blit(mem: seq<Byte>, pos: int, code: seq<Byte>): (r: seq<Byte>)
    requires code == [] || (0 <= pos && pos + |code| <= |mem|)
    ensures |r| == |mem|
  {
    if code == [] then mem else mem[..pos] + code + mem[pos + |code|..]
  }

  /** One line: its bytes one after the other, up to the first beyond the memory. */
  ghost function LineLoaded(mem: seq<Byte>, pos: int, code: seq<Byte>): (r: Load)
    ensures |r.mem| == |mem|
  {
    var n := Room(mem, pos, code);
    Load(Blit(mem, pos, code[..n]), n == |code|)
  }

  /** Of a line, the bytes that have an address in memory are there, all others are as they were, and it is an error if one has none. */
  lemma LineLoadedIs(mem: seq<Byte>, pos: int, code: seq<Byte>, i: nat)
    requires pos >= 0 && i < |mem|
    ensures LineLoaded(mem, pos, code).mem[i] == if pos <= i < pos + |code| then code[i - pos] else mem[i]
    ensures LineLoaded(mem, pos, code).ok <==> code == [] || pos + |code| <= |mem|
  {
  }

  /** From a negative address nothing is loaded. */
  lemma NothingBelowZero(mem: seq<Byte>, pos: int, code: seq<Byte>)
    requires pos < 0
    ensures LineLoaded(mem, pos, code) == Load(mem, code == [])
  {
  }

  /** Lines are loaded in order, up to the first that does not fit; that one as far as it goes. */
  lemma {:induction false} LoadedUpTo(mem: seq<Byte>, output: seq<(int, seq<Byte>)>, k: nat)
    requires k < |output|
    requires Loaded(mem, output[..k]).ok && !LineLoaded(Loaded(mem, output[..k]).mem, output[k].0, output[k].1).ok
    ensures Loaded(mem, output) == LineLoaded(Loaded(mem, output[..k]).mem, output[k].0, output[k].1)
    decreases |output|
  {
    hide LineLoaded;
    var n := |output| - 1;
    if k < n {
      assert output[..n][..k] == output[..k];
      LoadedUpTo(mem, output[..n], k);
    } else {
      assert output[..n] == output[..k];
    }
  }

  ghost function Loaded(mem: seq<Byte>, output: seq<(int, seq<Byte>)>): (r: Load)
    ensures |r.mem| == |mem|
  {
    if output == [] then Load(mem, true)
    else
      var was := Loaded(mem, output[..|output| - 1]);
      if was.ok then LineLoaded(was.mem, output[|output| - 1].0, output[|output| - 1].1) else was
  }

  /** Puts one line's bytes. */
  method LoadLine(m: Memory, pos: int, code: seq<Byte>) returns (ok: bool)
    modifies m.contents
    ensures Load(m.contents[..], ok) == LineLoaded(old(m.contents[..]), pos, code)
  {
    ghost var was := m.contents[..];
    var bytepos := pos;
    for k := 0 to |code|
      invariant bytepos == pos + k && k <= Room(was, pos, code)
      invariant m.contents[..] == Blit(was, pos, code[..k])
    {
      if bytepos < 0 || bytepos >= m.contents.Length {
        return false;
      }
      m.contents[bytepos] := code[k];
      BlitNext(was, pos, code, k);
      bytepos := bytepos + 1;
    }
    assert code[..|code|] == code;
    ok := true;
  }

  lemma BlitNext(mem: seq<Byte>, pos: int, code: seq<Byte>, k: nat)
    requires k < |code| && 0 <= pos && pos + k < |mem|
    ensures Blit(mem, pos, code[..k + 1]) == Blit(mem, pos, code[..k])[pos + k := code[k]]
  {
  }

  /** load_mem, line by line. False is an address beyond the memory. */
  method LoadMem(m: Memory, output: seq<(int, seq<Byte>)>) returns (ok: bool)
    modifies m.contents
    ensures Load(m.contents[..], ok) == Loaded(old(m.contents[..]), output)
  {
    ghost var was := m.contents[..];
    for k := 0 to |output|
      invariant Load(m.contents[..], true) == Loaded(was, output[..k])
    {
      assert output[..k + 1][..k] == output[..k];
      ok := LoadLine(m, output[k].0, output[k].1);
      if !ok {
        StaysFailed(was, output, k + 1);
        return;
      }
    }
    assert output[..|output|] == output;
    ok := true;
  }

  lemma {:induction false} StaysFailed(mem: seq<Byte>, output: seq<(int, seq<Byte>)>, k: nat)
    requires k <= |output| && !Loaded(mem, output[..k]).ok
    ensures Loaded(mem, output) == Loaded(mem, output[..k])
    decreases |output| - k
  {
    if k == |output| {
      assert output[..k] == output;
    } else {
      assert output[..k + 1][..k] == output[..k];
      StaysFailed(mem, output, k + 1);
    }
  }

  // ----- What has been loaded is fetched

  /** The code of the line is where it belongs. */
  ghost predicate Holds(mem: seq<Byte>, pos: int, code: seq<Byte>) {
    0 <= pos && pos + |code| <= |mem| && mem[pos..pos + |code|] == code
  }

  ghost predicate Apart(pos: int, code: seq<Byte>, pos': int, code': seq<Byte>) {
    pos + |code| <= pos' || pos' + |code'| <= pos
  }

  lemma LineHolds(mem: seq<Byte>, pos: int, code: seq<Byte>)
    requires LineLoaded(mem, pos, code).ok && code != []
    ensures Holds(LineLoaded(mem, pos, code).mem, pos, code)
  {
    assert code[..|code|] == code;
  }

  lemma StillHolds(mem: seq<Byte>, pos: int, code: seq<Byte>, pos': int, code': seq<Byte>)
    requires Holds(mem, pos, code) && Apart(pos, code, pos', code') && LineLoaded(mem, pos', code').ok
    ensures Holds(LineLoaded(mem, pos', code').mem, pos, code)
  {
    assert code'[..|code'|] == code';
    var r := LineLoaded(mem, pos', code').mem;
    forall k | 0 <= k < |code|
      ensures r[pos..pos + |code|][k] == code[k]
    {
      assert mem[pos..pos + |code|][k] == code[k] == mem[pos + k];
      assert code' != [] ==> r == mem[..pos'] + code' + mem[pos' + |code'|..];
      assert r[pos + k] == mem[pos + k];
    }
  }

  /** What is loaded last, or not overwritten by anything behind it, stays. */
  lemma {:induction false} StaysLoaded(mem: seq<Byte>, output: seq<(int, seq<Byte>)>, i: nat)
    requires i < |output| && Loaded(mem, output).ok && output[i].1 != []
    requires forall j :: i < j < |output| ==> Apart(output[i].0, output[i].1, output[j].0, output[j].1)
    ensures Holds(Loaded(mem, output).mem, output[i].0, output[i].1)
  {
    var last := |output| - 1;
    var was := Loaded(mem, output[..last]);
    if i == last {
      LineHolds(was.mem, output[i].0, output[i].1);
    } else {
      StaysLoaded(mem, output[..last], i);
      StillHolds(was.mem, output[i].0, output[i].1, output[last].0, output[last].1);
    }
  }

  // ----- From the source text to the fetch

  lemma LineCode(line: Line, pos: int, syms: Symbols)
    requires !Fails(line, 2, syms)
    ensures |CodeOf(line, pos, syms)| == if KindOf(line).Code? then 1 else 0
  {
  }

  lemma EmittedStep(lines: seq<Line>, syms: Symbols, n: nat)
    requires 0 < n <= |lines| && AllGood(lines, 2, syms, n)
    ensures AllGood(lines, 2, syms, n - 1) && !Fails(lines[n - 1], 2, syms)
    ensures var c := CodeOf(lines[n - 1], PosAt(lines, n - 1), syms);
      Emitted(lines, syms, n) == Emitted(lines, syms, n - 1) + c && |c| == if KindOf(lines[n - 1]).Code? then 1 else 0
  {
    LineCode(lines[n - 1], PosAt(lines, n - 1), syms);
  }

  lemma {:induction false} EmittedLonger(lines: seq<Line>, syms: Symbols, i: nat, n: nat)
    requires i <= n <= |lines| && AllGood(lines, 2, syms, n)
    ensures AllGood(lines, 2, syms, i) && |Emitted(lines, syms, i)| <= |Emitted(lines, syms, n)|
    decreases n
  {
    hide *;
    if i < n {
      EmittedStep(lines, syms, n);
      EmittedLonger(lines, syms, i, n - 1);
    }
  }

  /** The code of line i, and where the output has it. */
  lemma {:induction false} EmittedIndex(lines: seq<Line>, syms: Symbols, n: nat, i: nat)
    requires i < n <= |lines| && AllGood(lines, 2, syms, n) && KindOf(lines[i]).Code?
    ensures AllGood(lines, 2, syms, i) && !Fails(lines[i], 2, syms)
    ensures var k := |Emitted(lines, syms, i)|;
      k < |Emitted(lines, syms, n)| && CodeOf(lines[i], PosAt(lines, i), syms) == [Emitted(lines, syms, n)[k]]
  {
    hide *;
    EmittedStep(lines, syms, n);
    if i < n - 1 {
      EmittedIndex(lines, syms, n - 1, i);
    }
  }

  /** Everything behind it is the code of a later line. */
  lemma {:induction false} EmittedBehind(lines: seq<Line>, syms: Symbols, n: nat, i: nat, m: nat) returns (j: nat)
    requires i < n <= |lines| && AllGood(lines, 2, syms, n)
    requires AllGood(lines, 2, syms, i + 1) && |Emitted(lines, syms, i + 1)| <= m < |Emitted(lines, syms, n)|
    ensures i < j < n && KindOf(lines[j]).Code? && !Fails(lines[j], 2, syms)
    ensures CodeOf(lines[j], PosAt(lines, j), syms) == [Emitted(lines, syms, n)[m]]
  {
    hide *;
    EmittedStep(lines, syms, n);
    assert i + 1 < n;
    if m >= |Emitted(lines, syms, n - 1)| {
      j := n - 1;
    } else {
      j := EmittedBehind(lines, syms, n - 1, i, m);
    }
  }

  ghost predicate LinesApart(lines: seq<Line>, i: nat, j: nat)
    requires i < |lines| && j < |lines| && KindOf(lines[i]).Code? && KindOf(lines[j]).Code?
  {
    || PosAt(lines, i) + KindOf(lines[i]).e.bytes <= PosAt(lines, j)
    || PosAt(lines, j) + KindOf(lines[j]).e.bytes <= PosAt(lines, i)
  }

  /** No later line puts its code over that of line i. */
  ghost predicate NotOverwritten(lines: seq<Line>, i: nat)
    requires i < |lines| && KindOf(lines[i]).Code?
  {
    forall j {:trigger LinesApart(lines, i, j)} :: i < j < |lines| && KindOf(lines[j]).Code? ==> LinesApart(lines, i, j)
  }

  lemma CodeSize(line: Line, pos: int, syms: Symbols)
    requires !Fails(line, 2, syms) && KindOf(line).Code?
    ensures |CodeOf(line, pos, syms)| == 1 && CodeOf(line, pos, syms)[0].0 == pos
    ensures |CodeOf(line, pos, syms)[0].1| == KindOf(line).e.bytes
  {
    CodeIsInTable(line);
    TableWellFormed(KindOf(line).e);
    hide TABLE, KindOf;
    AssembledSize(KindOf(line).e, Parsed(KindOf(line).e, line, KindOf(line).k, syms).value);
  }

  lemma OneMore(lines: seq<Line>, syms: Symbols, i: nat)
    requires i < |lines| && AllGood(lines, 2, syms, i + 1) && KindOf(lines[i]).Code?
    ensures AllGood(lines, 2, syms, i) && |Emitted(lines, syms, i + 1)| == |Emitted(lines, syms, i)| + 1
  {
    EmittedStep(lines, syms, i + 1);
  }

  /** The output loaded, the code of a line that is not overwritten is in its place. */
  lemma CodeIsLoaded(lines: seq<Line>, i: nat, mem: seq<Byte>)
    requires var syms := SymbolsUpTo(lines, |lines|);
      AllGood(lines, 2, syms, |lines|) && Loaded(mem, Emitted(lines, syms, |lines|)).ok
    requires i < |lines| && KindOf(lines[i]).Code? && KindOf(lines[i]).e.bytes > 0 && NotOverwritten(lines, i)
    ensures var syms := SymbolsUpTo(lines, |lines|);
      && !Fails(lines[i], 2, syms) && |CodeOf(lines[i], PosAt(lines, i), syms)| == 1
      && Holds(Loaded(mem, Emitted(lines, syms, |lines|)).mem, PosAt(lines, i), CodeOf(lines[i], PosAt(lines, i), syms)[0].1)
  {
    var syms, n := SymbolsUpTo(lines, |lines|), |lines|;
    var output, k := Emitted(lines, syms, n), |Emitted(lines, syms, i)|;
    EmittedIndex(lines, syms, n, i);
    CodeSize(lines[i], PosAt(lines, i), syms);
    OneMore(lines, syms, i);
    hide CodeOf, Fails, KindOf, PosAt, Emitted, Loaded, SymbolsUpTo, Holds;
    forall m | k < m < |output|
      ensures Apart(output[k].0, output[k].1, output[m].0, output[m].1)
    {
      var j := EmittedBehind(lines, syms, n, i, m);
      CodeSize(lines[j], PosAt(lines, j), syms);
      assert LinesApart(lines, i, j);
    }
    StaysLoaded(mem, output, k);
  }

  /**
    The round trip through the files: the assembler's output loaded into any
    memory that has room for it, the simulator fetches at the address of a line
    what the line says, unless later code has been put over it.
   */
  lemma LoadedAsWritten(lines: seq<Line>, i: nat, mem: seq<Byte>)
    requires var syms := SymbolsUpTo(lines, |lines|);
      AllGood(lines, 2, syms, |lines|) && Loaded(mem, Emitted(lines, syms, |lines|)).ok
    requires i < |lines| && KindOf(lines[i]).Code? && IsInstruction(KindOf(lines[i]).e) && NotOverwritten(lines, i)
    requires WordTokens(lines[i], SymbolsUpTo(lines, |lines|))
    ensures var syms, e := SymbolsUpTo(lines, |lines|), KindOf(lines[i]).e;
      Parsed(e, lines[i], KindOf(lines[i]).k, syms).Some? &&
      var ops := Parsed(e, lines[i], KindOf(lines[i]).k, syms).value;
      Fetch(Loaded(mem, Emitted(lines, syms, |lines|)).mem, PosAt(lines, i))
        == Fetched(High(e.code), Low(e.code), ops.rA, ops.rB, ops.imm, true, true, PosAt(lines, i + 1))
  {
    CodeIsInTable(lines[i]);
    TableWellFormed(KindOf(lines[i]).e);
    hide TABLE, KindOf;
    CodeIsLoaded(lines, i, mem);
    FetchedAsWritten(lines, i, Loaded(mem, Emitted(lines, SymbolsUpTo(lines, |lines|), |lines|)).mem);
  }

  /** No directive moves back. */
  ghost predicate Forward(lines: seq<Line>) {
    forall j {:trigger lines[j]} :: 0 <= j < |lines| && KindOf(lines[j]).Pos? ==> KindOf(lines[j]).p >= PosAt(lines, j)
  }

  lemma NextIsLater(line: Line, pos: nat)
    requires KindOf(line).Pos? ==> KindOf(line).p >= pos
    ensures NextPos(line, pos) >= pos + if KindOf(line).Code? then KindOf(line).e.bytes else 0
  {
    if KindOf(line).Align? && KindOf(line).a > 0 {
      hide KindOf;
      AlignedUp(pos, KindOf(line).a);
    }
    if KindOf(line).Code? {
      CodeIsInTable(line);
      TableWellFormed(KindOf(line).e);
    }
  }

  lemma {:induction false} PosGrows(lines: seq<Line>, i: nat, j: nat)
    requires i <= j <= |lines| && Forward(lines)
    ensures 0 <= PosAt(lines, i) <= PosAt(lines, j)
    decreases j
  {
    hide KindOf, NextPos;
    if j > 0 {
      PosGrows(lines, if i < j then i else i - 1, j - 1);
      NextIsLater(lines[j - 1], PosAt(lines, j - 1));
    }
  }

  /** Then nothing is overwritten. */
  lemma ForwardKeepsAll(lines: seq<Line>, i: nat)
    requires i < |lines| && KindOf(lines[i]).Code? && Forward(lines)
    ensures NotOverwritten(lines, i)
  {
    hide KindOf, NextPos;
    PosGrows(lines, 0, i);
    NextIsLater(lines[i], PosAt(lines, i));
    forall j {:trigger LinesApart(lines, i, j)} | i < j < |lines| && KindOf(lines[j]).Code?
      ensures LinesApart(lines, i, j)
    {
      PosGrows(lines, i + 1, j);
    }
  }
}
