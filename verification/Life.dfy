/** The game of life as operating-systems/life/life-serial.cc steps it, on two boards used in turn. */
module Life {

  /** Rows of cells. */
  type Grid = seq<seq<bool>>

  predicate Rect(g: Grid, h: nat, w: nat) {
    |g| == h && forall y :: 0 <= y < h ==> |g[y]| == w
  }

  predicate Interior(y: int, x: int, h: nat, w: nat) { 1 <= y < h - 1 && 1 <= x < w - 1 }

  function One(b: bool): nat { if b then 1 else 0 }

  /** The live cells among the three of a row around x. */
  function InRow(row: seq<bool>, x: int): nat
    requires 1 <= x < |row| - 1
  {
    One(row[x - 1]) + One(row[x]) + One(row[x + 1])
  }

  function Window(g: Grid, y: int, x: int, h: nat, w: nat): nat
    requires Rect(g, h, w) && Interior(y, x, h, w)
  {
    InRow(g[y - 1], x) + InRow(g[y], x) + InRow(g[y + 1], x)
  }

  /** Three live cells in the window, or four with the middle one alive. */
  function Rule(g: Grid, y: int, x: int, h: nat, w: nat): bool
    requires Rect(g, h, w) && Interior(y, x, h, w)
  {
    Window(g, y, x, h, w) == 3 || (Window(g, y, x, h, w) == 4 && g[y][x])
  }

  /** The live cells of row j at places lo to hi. */
  ghost function LiveIn(g: Grid, j: int, lo: int, hi: int): (s: set<(int, int)>)
    requires 0 <= j < |g| && 0 <= lo && hi < |g[j]|
    ensures forall c :: c in s <==> c.0 == j && lo <= c.1 <= hi && g[j][c.1]
    decreases hi - lo
  {
    if hi < lo then {} else LiveIn(g, j, lo, hi - 1) + if g[j][hi] then {(j, hi)} else {}
  }

  lemma {:induction false} LiveInSize(g: Grid, j: int, lo: int, hi: int)
    requires 0 <= j < |g| && 0 <= lo <= hi + 1 && hi < |g[j]|
    ensures hi >= lo ==> |LiveIn(g, j, lo, hi)| == |LiveIn(g, j, lo, hi - 1)| + One(g[j][hi])
    ensures hi < lo ==> |LiveIn(g, j, lo, hi)| == 0
  {
    if hi >= lo {
      assert (j, hi) !in LiveIn(g, j, lo, hi - 1);
    }
  }

  lemma RowIsCount(g: Grid, j: int, x: int)
    requires 0 <= j < |g| && 1 <= x < |g[j]| - 1
    ensures InRow(g[j], x) == |LiveIn(g, j, x - 1, x + 1)|
  {
    LiveInSize(g, j, x - 1, x + 1);
    LiveInSize(g, j, x - 1, x);
    LiveInSize(g, j, x - 1, x - 1);
    LiveInSize(g, j, x - 1, x - 2);
  }

  /** The live cells in the window of three by three around (y, x). */
  ghost function LiveAround(g: Grid, y: int, x: int, h: nat, w: nat): set<(int, int)>
    requires Rect(g, h, w)
  {
    set j, i | y - 1 <= j <= y + 1 && x - 1 <= i <= x + 1 && 0 <= j < h && 0 <= i < w && g[j][i] :: (j, i)
  }

  /** What the loops over the offsets count are the live cells in the window. */
  lemma WindowIsCount(g: Grid, y: int, x: int, h: nat, w: nat)
    requires Rect(g, h, w) && 0 < y < h - 1 && 0 < x < w - 1
    ensures Interior(y, x, h, w)
    ensures Window(g, y, x, h, w) == |set j, i | y - 1 <= j <= y + 1 && x - 1 <= i <= x + 1 && 0 <= j < h && 0 <= i < w && g[j][i] :: (j, i)|
  {
    RowIsCount(g, y - 1, x);
    RowIsCount(g, y, x);
    RowIsCount(g, y + 1, x);
    ThreeRows(g, y, x, h, w);
    hide LiveIn, InRow;
    ThreeSets(LiveIn(g, y - 1, x - 1, x + 1), LiveIn(g, y, x - 1, x + 1), LiveIn(g, y + 1, x - 1, x + 1));
    assert LiveAround(g, y, x, h, w) == set j, i | y - 1 <= j <= y + 1 && x - 1 <= i <= x + 1 && 0 <= j < h && 0 <= i < w && g[j][i] :: (j, i);
  }

  lemma ThreeSets(a: set<(int, int)>, b: set<(int, int)>, c: set<(int, int)>)
    requires a !! b && a !! c && b !! c
    ensures |a + b + c| == |a| + |b| + |c|
  {
    assert |a + b| == |a| + |b|;
  }

  lemma ThreeRows(g: Grid, y: int, x: int, h: nat, w: nat)
    requires Rect(g, h, w) && 0 < y < h - 1 && 0 < x < w - 1
    ensures var a, b, c := LiveIn(g, y - 1, x - 1, x + 1), LiveIn(g, y, x - 1, x + 1), LiveIn(g, y + 1, x - 1, x + 1);
      LiveAround(g, y, x, h, w) == a + b + c && a !! b && a !! c && b !! c
  {
    hide LiveIn;
    var a, b, c := LiveIn(g, y - 1, x - 1, x + 1), LiveIn(g, y, x - 1, x + 1), LiveIn(g, y + 1, x - 1, x + 1);
    forall p
      ensures p in LiveAround(g, y, x, h, w) <==> p in a || p in b || p in c
    {
    }
  }

  /** The live ones among the eight cells next to (y, x). */
  ghost function Neighbours(g: Grid, y: int, x: int, h: nat, w: nat): set<(int, int)>
    requires Rect(g, h, w)
  {
    set j, i | y - 1 <= j <= y + 1 && x - 1 <= i <= x + 1 && (j, i) != (y, x) && 0 <= j < h && 0 <= i < w && g[j][i] :: (j, i)
  }

  /** Conway's rule: a live cell with two or three live neighbours lives, a dead cell with three comes to life. */
  ghost predicate Conway(g: Grid, y: int, x: int, h: nat, w: nat)
    requires Rect(g, h, w) && 0 <= y < h && 0 <= x < w
  {
    var n := |Neighbours(g, y, x, h, w)|;
    if g[y][x] then n == 2 || n == 3 else n == 3
  }

  lemma RuleIsConway(g: Grid, y: int, x: int, h: nat, w: nat)
    requires Rect(g, h, w) && 0 < y < h - 1 && 0 < x < w - 1
    ensures Interior(y, x, h, w)
    ensures var n := |set j, i | y - 1 <= j <= y + 1 && x - 1 <= i <= x + 1 && (j, i) != (y, x) && 0 <= j < h && 0 <= i < w && g[j][i] :: (j, i)|;
      Rule(g, y, x, h, w) <==> if g[y][x] then n == 2 || n == 3 else n == 3
  {
    WindowIsCount(g, y, x, h, w);
    var all, others := LiveAround(g, y, x, h, w), Neighbours(g, y, x, h, w);
    assert all == set j, i | y - 1 <= j <= y + 1 && x - 1 <= i <= x + 1 && 0 <= j < h && 0 <= i < w && g[j][i] :: (j, i);
    assert others == set j, i | y - 1 <= j <= y + 1 && x - 1 <= i <= x + 1 && (j, i) != (y, x) && 0 <= j < h && 0 <= i < w && g[j][i] :: (j, i);
    assert all == others + if g[y][x] then {(y, x)} else {};
  }

  /** The next board: the rule inside, and at the edge whatever the board written to held. */
  ghost function Stepped(from: Grid, onto: Grid, h: nat, w: nat): (r: Grid)
    requires Rect(from, h, w) && Rect(onto, h, w)
    ensures Rect(r, h, w)
    ensures forall y, x {:trigger r[y][x]} :: 0 <= y < h && 0 <= x < w ==> r[y][x] == NewCell(from, onto, y, x, h, w)
  {
    seq(h, y requires 0 <= y < h => seq(w, x requires 0 <= x < w => NewCell(from, onto, y, x, h, w)))
  }

  ghost function NewCell(from: Grid, onto: Grid, y: int, x: int, h: nat, w: nat): bool
    requires Rect(from, h, w) && Rect(onto, h, w) && 0 <= y < h && 0 <= x < w
  {
    if Interior(y, x, h, w) then Rule(from, y, x, h, w) else onto[y][x]
  }

  /** The board after k steps when the boards are used in turn, the second starting as other. */
  ghost function After(g: Grid, other: Grid, k: nat, h: nat, w: nat): (r: Grid)
    requires Rect(g, h, w) && Rect(other, h, w)
    ensures Rect(r, h, w)
  {
    if k == 0 then g
    else if k == 1 then Stepped(g, other, h, w)
    else Stepped(After(g, other, k - 1, h, w), After(g, other, k - 2, h, w), h, w)
  }

  function Dead(h: nat, w: nat): (r: Grid)
    ensures Rect(r, h, w) && forall y, x :: 0 <= y < h && 0 <= x < w ==> !r[y][x]
  {
    seq(h, y => seq(w, x => false))
  }

  /** simulate_life_serial starts its second board dead, simulate_life_parallel as a copy. */
  ghost function Serial(g: Grid, k: nat, h: nat, w: nat): Grid
    requires Rect(g, h, w)
  {
    After(g, Dead(h, w), k, h, w)
  }

  ghost function Copied(g: Grid, k: nat, h: nat, w: nat): Grid
    requires Rect(g, h, w)
  {
    After(g, g, k, h, w)
  }

  /**
    The serial program, step by step: inside, every cell follows Conway's rule
    on the board before; at the edge, which no step writes, the first board and
    the dead second one take turns.
   */
  lemma SerialSteps(g: Grid, k: nat, h: nat, w: nat, y: int, x: int)
    requires Rect(g, h, w) && 0 <= y < h && 0 <= x < w
    ensures Serial(g, 0, h, w) == g && Rect(Serial(g, k, h, w), h, w) && Rect(Serial(g, k + 1, h, w), h, w)
    ensures 0 < y < h - 1 && 0 < x < w - 1 ==> (Serial(g, k + 1, h, w)[y][x] <==> Conway(Serial(g, k, h, w), y, x, h, w))
    ensures !(0 < y < h - 1 && 0 < x < w - 1) ==> Serial(g, k + 1, h, w)[y][x] == (k % 2 == 1 && g[y][x])
  {
    if 0 < y < h - 1 && 0 < x < w - 1 {
      var b := Serial(g, k, h, w);
      RuleIsConway(b, y, x, h, w);
      assert Neighbours(b, y, x, h, w) == set j, i | y - 1 <= j <= y + 1 && x - 1 <= i <= x + 1 && (j, i) != (y, x) && 0 <= j < h && 0 <= i < w && b[j][i] :: (j, i);
    } else {
      Edge(g, Dead(h, w), k + 1, h, w, y, x);
    }
  }

  /** Likewise with the second board a copy of the first, whose edge then stays. */
  lemma CopiedSteps(g: Grid, k: nat, h: nat, w: nat, y: int, x: int)
    requires Rect(g, h, w) && 0 <= y < h && 0 <= x < w
    ensures Copied(g, 0, h, w) == g && Rect(Copied(g, k, h, w), h, w) && Rect(Copied(g, k + 1, h, w), h, w)
    ensures 0 < y < h - 1 && 0 < x < w - 1 ==> (Copied(g, k + 1, h, w)[y][x] <==> Conway(Copied(g, k, h, w), y, x, h, w))
    ensures !(0 < y < h - 1 && 0 < x < w - 1) ==> Copied(g, k + 1, h, w)[y][x] == g[y][x]
  {
    if 0 < y < h - 1 && 0 < x < w - 1 {
      var b := Copied(g, k, h, w);
      RuleIsConway(b, y, x, h, w);
      assert Neighbours(b, y, x, h, w) == set j, i | y - 1 <= j <= y + 1 && x - 1 <= i <= x + 1 && (j, i) != (y, x) && 0 <= j < h && 0 <= i < w && b[j][i] :: (j, i);
    } else {
      Edge(g, g, k + 1, h, w, y, x);
    }
  }

  // ----- When the two agree

  ghost predicate DeadBorder(g: Grid, h: nat, w: nat)
    requires Rect(g, h, w)
  {
    forall y, x {:trigger g[y][x]} :: 0 <= y < h && 0 <= x < w && !Interior(y, x, h, w) ==> !g[y][x]
  }

  lemma DeadBorderIs(g: Grid, h: nat, w: nat)
    requires Rect(g, h, w)
    ensures DeadBorder(g, h, w) <==> forall y, x :: 0 <= y < h && 0 <= x < w && (y == 0 || y == h - 1 || x == 0 || x == w - 1) ==> !g[y][x]
  {
  }

  /** The edge alternates between the two boards' edges. */
  lemma {:induction false} Edge(g: Grid, other: Grid, k: nat, h: nat, w: nat, y: int, x: int)
    requires Rect(g, h, w) && Rect(other, h, w) && 0 <= y < h && 0 <= x < w && !Interior(y, x, h, w)
    ensures After(g, other, k, h, w)[y][x] == if k % 2 == 0 then g[y][x] else other[y][x]
  {
    if k > 1 {
      Edge(g, other, k - 2, h, w, y, x);
    }
  }

  ghost predicate SameEdge(a: Grid, b: Grid, h: nat, w: nat)
    requires Rect(a, h, w) && Rect(b, h, w)
  {
    forall y, x {:trigger a[y][x]} {:trigger b[y][x]} :: 0 <= y < h && 0 <= x < w && !Interior(y, x, h, w) ==> a[y][x] == b[y][x]
  }

  lemma SteppedOnto(g: Grid, a: Grid, b: Grid, h: nat, w: nat)
    requires Rect(g, h, w) && Rect(a, h, w) && Rect(b, h, w) && SameEdge(a, b, h, w)
    ensures Stepped(g, a, h, w) == Stepped(g, b, h, w)
  {
    var r, s := Stepped(g, a, h, w), Stepped(g, b, h, w);
    forall y | 0 <= y < h
      ensures r[y] == s[y]
    {
      forall x | 0 <= x < w
        ensures r[y][x] == s[y][x]
      {
        assert a[y][x] == b[y][x] || Interior(y, x, h, w);
      }
    }
  }

  /** Only the edge of the second board matters. */
  lemma {:induction false} AfterOnto(g: Grid, a: Grid, b: Grid, k: nat, h: nat, w: nat)
    requires Rect(g, h, w) && Rect(a, h, w) && Rect(b, h, w) && SameEdge(a, b, h, w)
    ensures After(g, a, k, h, w) == After(g, b, k, h, w)
  {
    if k == 1 {
      SteppedOnto(g, a, b, h, w);
    } else if k > 1 {
      AfterOnto(g, a, b, k - 1, h, w);
      AfterOnto(g, a, b, k - 2, h, w);
    }
  }

  lemma DeadBorderAgrees(g: Grid, k: nat, h: nat, w: nat)
    requires Rect(g, h, w) && DeadBorder(g, h, w)
    ensures Serial(g, k, h, w) == Copied(g, k, h, w)
  {
    AfterOnto(g, Dead(h, w), g, k, h, w);
  }

  /** After an odd number of steps the two agree exactly when the border was dead. */
  lemma OddStepsAgreeIff(g: Grid, k: nat, h: nat, w: nat)
    requires Rect(g, h, w) && k % 2 == 1
    ensures Serial(g, k, h, w) == Copied(g, k, h, w) <==> DeadBorder(g, h, w)
  {
    if DeadBorder(g, h, w) {
      DeadBorderAgrees(g, k, h, w);
    } else {
      var y, x :| 0 <= y < h && 0 <= x < w && !Interior(y, x, h, w) && g[y][x];
      Edge(g, Dead(h, w), k, h, w, y, x);
      Edge(g, g, k, h, w, y, x);
    }
  }

  /** So they agree for every number of steps exactly when it was dead. */
  lemma AlwaysAgreeIff(g: Grid, h: nat, w: nat)
    requires Rect(g, h, w)
    ensures (forall k: nat :: Serial(g, k, h, w) == Copied(g, k, h, w)) <==> DeadBorder(g, h, w)
  {
    if DeadBorder(g, h, w) {
      forall k: nat
        ensures Serial(g, k, h, w) == Copied(g, k, h, w)
      {
        DeadBorderAgrees(g, k, h, w);
      }
    } else {
      OddStepsAgreeIff(g, 1, h, w);
    }
  }

  // ----- The loops

  ghost predicate Shows(a: array2<bool>, g: Grid)
    reads a
  {
    Rect(g, a.Length0, a.Length1) && forall y, x {:trigger a[y, x]} {:trigger g[y][x]} :: 0 <= y < a.Length0 && 0 <= x < a.Length1 ==> a[y, x] == g[y][x]
  }

  /** The loop over x_offset. */
  method CountRow(a: array2<bool>, ghost g: Grid, y: int, x: int) returns (n: nat)
    requires Shows(a, g) && 0 <= y < a.Length0 && 1 <= x < a.Length1 - 1
    ensures n == InRow(g[y], x)
  {
    n := 0;
    for dx := -1 to 2
      invariant n == (if dx > -1 then One(g[y][x - 1]) else 0) + (if dx > 0 then One(g[y][x]) else 0) + if dx > 1 then One(g[y][x + 1]) else 0
    {
      if a[y, x + dx] {
        n := n + 1;
      }
    }
  }

  /** The loop over y_offset. */
  method CountWindow(a: array2<bool>, ghost g: Grid, y: int, x: int) returns (n: nat)
    requires Shows(a, g) && Interior(y, x, a.Length0, a.Length1)
    ensures n == Window(g, y, x, a.Length0, a.Length1)
  {
    n := 0;
    for dy := -1 to 2
      invariant n == (if dy > -1 then InRow(g[y - 1], x) else 0) + (if dy > 0 then InRow(g[y], x) else 0) + if dy > 1 then InRow(g[y + 1], x) else 0
    {
      var r := CountRow(a, g, y + dy, x);
      n := n + r;
    }
  }

  /** The two loops over cells that the serial and the parallel program share. */
  method StepRows(from: array2<bool>, onto: array2<bool>, lower: int, upper: int, ghost g: Grid, ghost was: Grid)
    requires from != onto && from.Length0 == onto.Length0 && from.Length1 == onto.Length1
    requires Shows(from, g) && Shows(onto, was)
    modifies onto
    ensures forall y, x {:trigger onto[y, x]} :: 0 <= y < onto.Length0 && 0 <= x < onto.Length1 ==>
      onto[y, x] == if lower <= y <= upper then NewCell(g, was, y, x, onto.Length0, onto.Length1) else was[y][x]
  {
    ghost var h, w := from.Length0, from.Length1;
    var y := lower;
    while y <= upper
      invariant lower <= y && (if lower <= upper then y <= upper + 1 else y == lower)
      invariant forall j, i {:trigger onto[j, i]} :: 0 <= j < h && 0 <= i < w ==>
        onto[j, i] == if lower <= j < y then NewCell(g, was, j, i, h, w) else was[j][i]
      decreases upper - y
    {
      if y <= 0 || y >= from.Length0 - 1 {
        y := y + 1;
        continue;
      }
      StepRow(from, onto, y, g, was);
      y := y + 1;
    }
  }

  method StepRow(from: array2<bool>, onto: array2<bool>, y: int, ghost g: Grid, ghost was: Grid)
    requires from != onto && from.Length0 == onto.Length0 && from.Length1 == onto.Length1
    requires Shows(from, g) && Rect(was, onto.Length0, onto.Length1) && 1 <= y < from.Length0 - 1
    requires forall i {:trigger onto[y, i]} :: 0 <= i < onto.Length1 ==> onto[y, i] == was[y][i]
    modifies onto
    ensures forall j, i {:trigger onto[j, i]} :: 0 <= j < onto.Length0 && 0 <= i < onto.Length1 ==>
      onto[j, i] == if j == y then NewCell(g, was, j, i, onto.Length0, onto.Length1) else old(onto[j, i])
  {
    ghost var h, w := from.Length0, from.Length1;
    var x := 1;
    while x < from.Length1 - 1
      invariant 1 <= x && (w >= 2 ==> x <= w - 1)
      invariant forall j, i {:trigger onto[j, i]} :: 0 <= j < h && 0 <= i < w ==>
        onto[j, i] == if j == y && i < x then NewCell(g, was, j, i, h, w) else old(onto[j, i])
    {
      var live := CountWindow(from, g, y, x);
      onto[y, x] := live == 3 || (live == 4 && from[y, x]);
      x := x + 1;
    }
  }

  lemma RowsAreStep(onto: array2<bool>, g: Grid, was: Grid)
    requires Rect(g, onto.Length0, onto.Length1) && Rect(was, onto.Length0, onto.Length1)
    requires forall y, x {:trigger onto[y, x]} :: 0 <= y < onto.Length0 && 0 <= x < onto.Length1 ==>
      onto[y, x] == if 1 <= y <= onto.Length0 - 2 then NewCell(g, was, y, x, onto.Length0, onto.Length1) else was[y][x]
    ensures Shows(onto, Stepped(g, was, onto.Length0, onto.Length1))
  {
  }

  method SimulateSerial(board: array2<bool>, steps: int, ghost g: Grid) returns (state: array2<bool>)
    requires Shows(board, g)
    modifies board
    ensures state.Length0 == board.Length0 && state.Length1 == board.Length1
    ensures Shows(state, Serial(g, if steps < 0 then 0 else steps, board.Length0, board.Length1))
  {
    state := board;
    var next := new bool[board.Length0, board.Length1]((y, x) => false);
    ghost var h, w := board.Length0, board.Length1;
    ghost var d := Dead(h, w);
    hide Stepped, Rule, NewCell;
    var step := 0;
    while step < steps
      invariant 0 <= step && (if steps >= 0 then step <= steps else step == 0)
      invariant state != next
      invariant state == board || fresh(state)
      invariant next == board || fresh(next)
      invariant state.Length0 == next.Length0 == h && state.Length1 == next.Length1 == w
      invariant Shows(state, After(g, d, step, h, w))
      invariant Shows(next, if step == 0 then d else After(g, d, step - 1, h, w))
    {
      ghost var s, n := After(g, d, step, h, w), if step == 0 then d else After(g, d, step - 1, h, w);
      StepRows(state, next, 1, state.Length0 - 2, s, n);
      RowsAreStep(next, s, n);
      state, next := next, state;
      step := step + 1;
    }
  }
}
