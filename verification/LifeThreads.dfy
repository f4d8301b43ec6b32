/**
  The threads of operating-systems/life/life-parallel.cc: how the rows are dealt
  out, and what every interleaving of their cell writes and barrier waits comes to.
 */
module LifeThreads {
  import opened Wrappers
  import opened Life

  // ----- Dealing out the rows

  /** The first and last row of each thread. */
  type Shares = seq<(int, int)>

  /** Every row belongs to one thread, in order. A share may be empty. */
  ghost predicate Partition(shares: Shares, rows: nat) {
    && |shares| > 0 && shares[0].0 == 0 && shares[|shares| - 1].1 == rows - 1
    && (forall i {:trigger shares[i]} :: 0 <= i < |shares| ==> shares[i].0 <= shares[i].1 + 1)
    && (forall i {:trigger Adjacent(shares, i)} :: 0 <= i < |shares| - 1 ==> Adjacent(shares, i))
  }

  ghost predicate Adjacent(shares: Shares, i: int)
    requires 0 <= i < |shares| - 1
  {
    shares[i + 1].0 == shares[i].1 + 1
  }

  /** Pairs of a first and a last row, but for the last entry, which is the number of rows. */
  ghost predicate Cut(cutoffs: seq<int>, n: nat, rows: nat) {
    && |cutoffs| == 2 * n && n > 0 && cutoffs[0] == 0 && cutoffs[2 * n - 1] == rows && cutoffs[2 * n - 2] <= rows
    && forall j {:trigger CutAt(cutoffs, j, rows)} :: 0 <= j < n - 1 ==> CutAt(cutoffs, j, rows)
  }

  ghost predicate CutAt(cutoffs: seq<int>, j: int, rows: nat)
    requires 0 <= 2 * j < |cutoffs| - 2
  {
    cutoffs[2 * j] <= cutoffs[2 * j + 1] < rows && cutoffs[2 * j + 2] == cutoffs[2 * j + 1] + 1
  }

  method Cutoffs(rows: nat, threads: int) returns (cutoffs: seq<int>, numThreads: int)
    requires threads >= 1
    ensures numThreads >= 1 && Cut(cutoffs, numThreads, rows)
  {
    var rowsPerThread := if rows / threads > 1 then rows / threads else 1;
    cutoffs, numThreads := [0], 0;
    var temp, i := 0, 1;
    while i < rows
      invariant 0 <= temp && 0 <= numThreads && |cutoffs| == 2 * numThreads + 1 && cutoffs[0] == 0
      invariant i <= rows + 1 && 0 <= cutoffs[2 * numThreads] == i - 1 - temp
      invariant forall j {:trigger CutAt(cutoffs, j, rows)} :: 0 <= j < numThreads ==> CutAt(cutoffs, j, rows)
      decreases rows - i
    {
      temp := temp + 1;
      if temp >= rowsPerThread - 1 {
        ghost var was := cutoffs;
        numThreads := numThreads + 1;
        temp := 0;
        cutoffs := cutoffs + [i];
        i := i + 1;
        cutoffs := cutoffs + [i];
        forall j {:trigger CutAt(cutoffs, j, rows)} | 0 <= j < numThreads
          ensures CutAt(cutoffs, j, rows)
        {
          assert j < numThreads - 1 ==> CutAt(was, j, rows);
        }
      }
      i := i + 1;
    }
    numThreads := numThreads + 1;
    ghost var was := cutoffs;
    cutoffs := cutoffs + [rows];
    forall j {:trigger CutAt(cutoffs, j, rows)} | 0 <= j < numThreads - 1
      ensures CutAt(cutoffs, j, rows)
    {
      assert CutAt(was, j, rows);
    }
  }

  /** The bounds given to the threads, one of which may be asked for more than there is. */
  method DealOut(rows: nat, threads: int) returns (shares: Shares)
    requires threads >= 1
    ensures Partition(shares, rows) && |shares| <= threads
  {
    var cutoffs, numThreads := Cutoffs(rows, threads);
    var n := if numThreads < threads then numThreads else threads;
    shares := [];
    var i, counter := 0, 0;
    while i < n
      invariant 0 <= i <= n && |shares| == i && counter == 2 * i
      invariant forall k {:trigger shares[k]} :: 0 <= k < i ==> shares[k] == (cutoffs[2 * k], if k == n - 1 then rows - 1 else cutoffs[2 * k + 1])
      invariant i < n || i == n
    {
      var lower := cutoffs[counter];
      assert i < numThreads - 1 ==> CutAt(cutoffs, i, rows);
      var upper := if i == n - 1 then rows - 1 else cutoffs[counter + 1];
      counter := counter + 2;
      shares := shares + [(lower, upper)];
      i := i + 1;
    }
    CutIsPartition(cutoffs, numThreads, rows, shares);
  }

  lemma CutIsPartition(cutoffs: seq<int>, m: nat, rows: nat, shares: Shares)
    requires Cut(cutoffs, m, rows) && 0 < |shares| <= m
    requires forall k {:trigger shares[k]} :: 0 <= k < |shares| ==> shares[k] == (cutoffs[2 * k], if k == |shares| - 1 then rows - 1 else cutoffs[2 * k + 1])
    ensures Partition(shares, rows)
  {
    var n := |shares|;
    forall i {:trigger shares[i]} | 0 <= i < n
      ensures shares[i].0 <= shares[i].1 + 1
    {
      if i < m - 1 {
        assert CutAt(cutoffs, i, rows);
      }
    }
    forall i {:trigger Adjacent(shares, i)} | 0 <= i < n - 1
      ensures Adjacent(shares, i)
    {
      assert CutAt(cutoffs, i, rows);
    }
  }

  ghost predicate Owns(shares: Shares, i: nat, y: int)
    requires i < |shares|
  {
    shares[i].0 <= y <= shares[i].1
  }

  lemma {:induction false} SharesOrdered(shares: Shares, rows: nat, i: nat, j: nat)
    requires Partition(shares, rows) && i < j < |shares|
    ensures shares[i].1 < shares[j].0
  {
    assert Adjacent(shares, j - 1);
    if i < j - 1 {
      SharesOrdered(shares, rows, i, j - 1);
    }
  }

  /** No two threads share a row. */
  lemma OneOwner(shares: Shares, rows: nat, i: nat, j: nat, y: int)
    requires Partition(shares, rows) && i < |shares| && j < |shares| && Owns(shares, i, y) && Owns(shares, j, y)
    ensures i == j
  {
    if i < j {
      SharesOrdered(shares, rows, i, j);
    } else if j < i {
      SharesOrdered(shares, rows, j, i);
    }
  }

  lemma {:induction false} OwnerUpTo(shares: Shares, rows: nat, n: nat, y: int) returns (i: nat)
    requires Partition(shares, rows) && 0 < n <= |shares| && 0 <= y <= shares[n - 1].1
    ensures i < |shares| && Owns(shares, i, y)
  {
    if shares[n - 1].0 <= y {
      i := n - 1;
    } else {
      assert n > 1 && Adjacent(shares, n - 2);
      i := OwnerUpTo(shares, rows, n - 1, y);
    }
  }

  /** Every row has a thread. */
  ghost function Owner(shares: Shares, rows: nat, y: int): (i: nat)
    requires Partition(shares, rows) && 0 <= y < rows
    ensures i < |shares| && Owns(shares, i, y)
  {
    OwnerExists(shares, rows, y);
    var i: nat :| i < |shares| && Owns(shares, i, y);
    i
  }

  lemma OwnerExists(shares: Shares, rows: nat, y: int)
    requires Partition(shares, rows) && 0 <= y < rows
    ensures exists i: nat :: i < |shares| && Owns(shares, i, y)
  {
    var i := OwnerUpTo(shares, rows, |shares|, y);
  }

  // ----- Interleavings

  /** step: the step the thread is in; (y, x): the cell it comes to next. */
  datatype Thread = Thread(step: int, y: int, x: int)

  /** main: the barriers that the controller, which made the threads, has left. */
  datatype Boards = Boards(even: Grid, odd: Grid, threads: seq<Thread>, main: int)

  datatype Setup = Setup(h: nat, w: nat, steps: nat, shares: Shares)

  ghost predicate SetupOk(u: Setup) { Partition(u.shares, u.h) }

  ghost predicate Shaped(u: Setup, s: Boards) {
    SetupOk(u) && |s.threads| == |u.shares| && Rect(s.even, u.h, u.w) && Rect(s.odd, u.h, u.w)
  }

  ghost function ReadBoard(s: Boards, step: int): Grid { if step % 2 == 0 then s.even else s.odd }

  ghost function WriteBoard(s: Boards, step: int): Grid { if step % 2 == 0 then s.odd else s.even }

  ghost function Onto(s: Boards, step: int, g: Grid): Boards {
    if step % 2 == 0 then s.(odd := g) else s.(even := g)
  }

  /** Past its last row, so at the barrier. */
  ghost predicate AtBarrier(u: Setup, s: Boards, p: nat)
    requires |s.threads| == |u.shares| && p < |u.shares|
  {
    s.threads[p].y > u.shares[p].1
  }

  ghost predicate Arrived(u: Setup, s: Boards, p: nat, step: int)
    requires |s.threads| == |u.shares| && p < |u.shares|
  {
    s.threads[p].step > step || (s.threads[p].step == step && AtBarrier(u, s, p))
  }

  ghost predicate AllArrived(u: Setup, s: Boards, step: int)
    requires |s.threads| == |u.shares|
  {
    forall q {:trigger Arrived(u, s, q, step)} :: 0 <= q < |s.threads| ==> Arrived(u, s, q, step)
  }

  /** The barrier counts the threads and the controller, which does nothing but wait for the next one. */
  ghost predicate BarrierOpen(u: Setup, s: Boards, step: int)
    requires |s.threads| == |u.shares|
  {
    AllArrived(u, s, step) && s.main >= step
  }

  /**
    One access of thread p: a cell, the end of a row, a row at the edge, or the
    barrier once all have come to it. Behind the threads, the controller's wait.
   */
  ghost function Next(u: Setup, s: Boards, p: nat): Option<Boards>
    requires Shaped(u, s)
  {
    if p == |s.threads| then
      if s.main < u.steps && BarrierOpen(u, s, s.main) then Some(s.(main := s.main + 1)) else None
    else if p > |s.threads| || s.threads[p].step >= u.steps then None
    else
      var t := s.threads[p];
      if AtBarrier(u, s, p) then
        if BarrierOpen(u, s, t.step) then Some(PassBarrier(u, s, p)) else None
      else if Interior(t.y, t.x, u.h, u.w) then Some(WriteCell(u, s, p))
      else Some(NextRow(s, p))
  }

  ghost function NextRow(s: Boards, p: nat): Boards
    requires p < |s.threads|
  {
    s.(threads := s.threads[p := Thread(s.threads[p].step, s.threads[p].y + 1, 1)])
  }

  ghost function PassBarrier(u: Setup, s: Boards, p: nat): Boards
    requires p < |s.threads| && p < |u.shares|
  {
    s.(threads := s.threads[p := Thread(s.threads[p].step + 1, u.shares[p].0, 1)])
  }

  ghost function WriteCell(u: Setup, s: Boards, p: nat): Boards
    requires Shaped(u, s) && p < |s.threads| && Interior(s.threads[p].y, s.threads[p].x, u.h, u.w)
  {
    var t := s.threads[p];
    var from, onto := ReadBoard(s, t.step), WriteBoard(s, t.step);
    Onto(s, t.step, onto[t.y := onto[t.y][t.x := Rule(from, t.y, t.x, u.h, u.w)]])
      .(threads := s.threads[p := Thread(t.step, t.y, t.x + 1)])
  }

  ghost function Begin(u: Setup, g: Grid): Boards
    requires SetupOk(u) && Rect(g, u.h, u.w)
  {
    Boards(g, g, seq(|u.shares|, p requires 0 <= p < |u.shares| => Thread(0, u.shares[p].0, 1)), 0)
  }

  // ----- What every interleaving keeps

  ghost predicate ThreadOk(u: Setup, s: Boards, phase: nat, p: nat)
    requires |s.threads| == |u.shares| && p < |u.shares|
  {
    var t := s.threads[p];
    && t.step <= u.steps && u.shares[p].0 <= t.y && t.x >= 1
    && (t.step == phase || (t.step == phase - 1 && AtBarrier(u, s, p)))
  }

  /** The controller is in step with the threads, or has left the barrier to which all have come. */
  ghost predicate MainOk(u: Setup, s: Boards, phase: nat)
    requires |s.threads| == |u.shares|
  {
    0 <= s.main <= u.steps && (phase - 1 <= s.main <= phase || (s.main == phase + 1 && AllArrived(u, s, phase)))
  }

  lemma InStepIsOk(u: Setup, s: Boards, phase: nat)
    requires |s.threads| == |u.shares| && 0 <= s.main <= u.steps && phase - 1 <= s.main <= phase
    ensures MainOk(u, s, phase)
  {
  }

  ghost function Previous(u: Setup, g: Grid, phase: nat): (r: Grid)
    requires Rect(g, u.h, u.w)
    ensures Rect(r, u.h, u.w)
  {
    if phase == 0 then g else After(g, g, phase - 1, u.h, u.w)
  }

  ghost predicate Passed(t: Thread, y: int, x: int) { y < t.y || (y == t.y && x < t.x) }

  /** A cell of the board being written: new if its thread has passed it in this phase. */
  ghost predicate CellOk(u: Setup, s: Boards, g: Grid, phase: nat, y: int, x: int)
    requires Shaped(u, s) && Rect(g, u.h, u.w) && 0 <= y < u.h && 0 <= x < u.w
  {
    var t := s.threads[Owner(u.shares, u.h, y)];
    WriteBoard(s, phase)[y][x] ==
      if t.step == phase && Passed(t, y, x) then NewCell(After(g, g, phase, u.h, u.w), Previous(u, g, phase), y, x, u.h, u.w)
      else Previous(u, g, phase)[y][x]
  }

  ghost predicate Inv(u: Setup, s: Boards, g: Grid, phase: nat)
    requires Rect(g, u.h, u.w)
  {
    && Shaped(u, s) && phase <= u.steps && MainOk(u, s, phase)
    && ReadBoard(s, phase) == After(g, g, phase, u.h, u.w)
    && (exists p :: 0 <= p < |s.threads| && s.threads[p].step == phase)
    && (forall p {:trigger ThreadOk(u, s, phase, p)} :: 0 <= p < |s.threads| ==> ThreadOk(u, s, phase, p))
    && (forall y, x {:trigger CellOk(u, s, g, phase, y, x)} :: 0 <= y < u.h && 0 <= x < u.w ==> CellOk(u, s, g, phase, y, x))
  }

  lemma BeginInv(u: Setup, g: Grid)
    requires SetupOk(u) && Rect(g, u.h, u.w)
    ensures Inv(u, Begin(u, g), g, 0)
  {
    var s := Begin(u, g);
    assert s.threads[0].step == 0;
    forall y, x {:trigger CellOk(u, s, g, 0, y, x)} | 0 <= y < u.h && 0 <= x < u.w
      ensures CellOk(u, s, g, 0, y, x)
    {
      assert Owns(u.shares, Owner(u.shares, u.h, y), y);
    }
  }

  /** A write by its thread makes a cell new and leaves the others alone. */
  lemma CellAfterWrite(u: Setup, s: Boards, g: Grid, phase: nat, p: nat, y: int, x: int)
    requires Rect(g, u.h, u.w) && Shaped(u, s) && ReadBoard(s, phase) == After(g, g, phase, u.h, u.w)
    requires p < |s.threads| && s.threads[p].step == phase && Interior(s.threads[p].y, s.threads[p].x, u.h, u.w)
    requires 0 <= y < u.h && 0 <= x < u.w && CellOk(u, s, g, phase, y, x)
    requires y == s.threads[p].y ==> Owner(u.shares, u.h, y) == p
    ensures CellOk(u, WriteCell(u, s, p), g, phase, y, x)
  {
    hide After, Previous;
    var o, r := Owner(u.shares, u.h, y), WriteCell(u, s, p);
    assert o != p ==> r.threads[o] == s.threads[o];
    if (y, x) == (s.threads[p].y, s.threads[p].x) {
      assert WriteBoard(r, phase)[y][x] == Rule(ReadBoard(s, phase), y, x, u.h, u.w);
    } else {
      assert WriteBoard(r, phase)[y][x] == WriteBoard(s, phase)[y][x];
    }
  }

  lemma WriteShape(u: Setup, s: Boards, phase: nat, p: nat)
    requires Shaped(u, s) && p < |s.threads| && s.threads[p].step == phase && Interior(s.threads[p].y, s.threads[p].x, u.h, u.w)
    ensures var t, r := s.threads[p], WriteCell(u, s, p);
      && Shaped(u, r) && ReadBoard(r, phase) == ReadBoard(s, phase) && r.main == s.main
      && r.threads == s.threads[p := Thread(phase, t.y, t.x + 1)]
  {
  }

  lemma WriteKeeps(u: Setup, s: Boards, g: Grid, phase: nat, p: nat)
    requires Rect(g, u.h, u.w) && Inv(u, s, g, phase) && p < |s.threads| && s.threads[p].step < u.steps
    requires !AtBarrier(u, s, p) && Interior(s.threads[p].y, s.threads[p].x, u.h, u.w)
    ensures Inv(u, WriteCell(u, s, p), g, phase)
  {
    var t, r := s.threads[p], WriteCell(u, s, p);
    assert ThreadOk(u, s, phase, p) && Owns(u.shares, p, t.y);
    MainNotAhead(u, s, phase, p);
    WriteShape(u, s, phase, p);
    hide MainOk, After, Previous, CellOk, WriteCell, ReadBoard, Rect;
    assert MainOk(u, r, phase) by {
      InStepIsOk(u, r, phase);
    }
    assert r.threads[p].step == phase;
    forall q {:trigger ThreadOk(u, r, phase, q)} | 0 <= q < |r.threads|
      ensures ThreadOk(u, r, phase, q)
    {
      assert ThreadOk(u, s, phase, q);
    }
    forall y, x {:trigger CellOk(u, r, g, phase, y, x)} | 0 <= y < u.h && 0 <= x < u.w
      ensures CellOk(u, r, g, phase, y, x)
    {
      assert CellOk(u, s, g, phase, y, x);
      if y == t.y {
        OneOwner(u.shares, u.h, Owner(u.shares, u.h, y), p, y);
      }
      CellAfterWrite(u, s, g, phase, p, y, x);
    }
  }

  lemma NextRowKeeps(u: Setup, s: Boards, g: Grid, phase: nat, p: nat)
    requires Rect(g, u.h, u.w) && Inv(u, s, g, phase) && p < |s.threads| && s.threads[p].step < u.steps
    requires !AtBarrier(u, s, p) && !Interior(s.threads[p].y, s.threads[p].x, u.h, u.w)
    ensures Inv(u, NextRow(s, p), g, phase)
  {
    var t, r := s.threads[p], NextRow(s, p);
    assert ThreadOk(u, s, phase, p) && Owns(u.shares, p, t.y);
    MainNotAhead(u, s, phase, p);
    assert MainOk(u, r, phase);
    hide AllArrived, Arrived, MainOk, After, Previous;
    forall q {:trigger ThreadOk(u, r, phase, q)} | 0 <= q < |r.threads|
      ensures ThreadOk(u, r, phase, q)
    {
      assert ThreadOk(u, s, phase, q);
    }
    assert r.threads[p].step == phase;
    forall y, x {:trigger CellOk(u, r, g, phase, y, x)} | 0 <= y < u.h && 0 <= x < u.w
      ensures CellOk(u, r, g, phase, y, x)
    {
      assert CellOk(u, s, g, phase, y, x);
      var o := Owner(u.shares, u.h, y);
      if y == t.y {
        OneOwner(u.shares, u.h, o, p, y);
      }
      assert o != p ==> r.threads[o] == s.threads[o];
    }
  }

  /** A late thread leaves the barrier of the step before. */
  lemma LatePassKeeps(u: Setup, s: Boards, g: Grid, phase: nat, p: nat)
    requires Rect(g, u.h, u.w) && Inv(u, s, g, phase) && p < |s.threads| && s.threads[p].step == phase - 1
    ensures Inv(u, PassBarrier(u, s, p), g, phase)
  {
    var r := PassBarrier(u, s, p);
    MainNotAhead(u, s, phase, p);
    forall q {:trigger ThreadOk(u, r, phase, q)} | 0 <= q < |r.threads|
      ensures ThreadOk(u, r, phase, q)
    {
      assert ThreadOk(u, s, phase, q);
    }
    assert r.threads[p].step == phase;
    forall y, x {:trigger CellOk(u, r, g, phase, y, x)} | 0 <= y < u.h && 0 <= x < u.w
      ensures CellOk(u, r, g, phase, y, x)
    {
      assert CellOk(u, s, g, phase, y, x) && Owns(u.shares, Owner(u.shares, u.h, y), y);
    }
  }

  /** When all have arrived the board written is the next one. */
  lemma PhaseDone(u: Setup, s: Boards, g: Grid, phase: nat)
    requires Rect(g, u.h, u.w) && Inv(u, s, g, phase) && AllArrived(u, s, phase)
    ensures WriteBoard(s, phase) == After(g, g, phase + 1, u.h, u.w)
    ensures forall q :: 0 <= q < |s.threads| ==> s.threads[q].step == phase && AtBarrier(u, s, q)
  {
    forall q | 0 <= q < |s.threads|
      ensures s.threads[q].step == phase && AtBarrier(u, s, q)
    {
      assert ThreadOk(u, s, phase, q) && Arrived(u, s, q, phase);
    }
    var a, b := WriteBoard(s, phase), After(g, g, phase + 1, u.h, u.w);
    forall y | 0 <= y < u.h
      ensures a[y] == b[y]
    {
      forall x | 0 <= x < u.w
        ensures a[y][x] == b[y][x]
      {
        assert CellOk(u, s, g, phase, y, x) && Owns(u.shares, Owner(u.shares, u.h, y), y);
      }
    }
  }

  /** The first thread to leave opens the next phase. */
  lemma FirstPassKeeps(u: Setup, s: Boards, g: Grid, phase: nat, p: nat)
    requires Rect(g, u.h, u.w) && Inv(u, s, g, phase) && p < |s.threads| && phase < u.steps && BarrierOpen(u, s, phase)
    ensures Inv(u, PassBarrier(u, s, p), g, phase + 1)
  {
    var r := PassBarrier(u, s, p);
    PhaseDone(u, s, g, phase);
    forall q {:trigger ThreadOk(u, r, phase + 1, q)} | 0 <= q < |r.threads|
      ensures ThreadOk(u, r, phase + 1, q)
    {
      assert ThreadOk(u, s, phase, q);
    }
    assert r.threads[p].step == phase + 1;
    forall y, x {:trigger CellOk(u, r, g, phase + 1, y, x)} | 0 <= y < u.h && 0 <= x < u.w
      ensures CellOk(u, r, g, phase + 1, y, x)
    {
      assert Owns(u.shares, Owner(u.shares, u.h, y), y);
    }
  }

  /** Nobody but the threads in the barrier is left to move once the controller is ahead. */
  lemma MainNotAhead(u: Setup, s: Boards, phase: nat, p: nat)
    requires |s.threads| == |u.shares| && p < |s.threads| && MainOk(u, s, phase)
    requires s.threads[p].step < phase || (s.threads[p].step == phase && !AtBarrier(u, s, p))
    ensures 0 <= s.main <= u.steps && phase - 1 <= s.main <= phase
  {
    assert AllArrived(u, s, phase) ==> Arrived(u, s, p, phase);
  }

  /** The controller leaves a barrier to which all have come. */
  lemma MainKeeps(u: Setup, s: Boards, g: Grid, phase: nat)
    requires Rect(g, u.h, u.w) && Inv(u, s, g, phase) && s.main < u.steps && BarrierOpen(u, s, s.main)
    ensures Inv(u, s.(main := s.main + 1), g, phase)
  {
    var r := s.(main := s.main + 1);
    var p :| 0 <= p < |s.threads| && s.threads[p].step == phase;
    assert Arrived(u, s, p, s.main);
    forall q {:trigger Arrived(u, r, q, phase)} | 0 <= q < |s.threads| && s.main == phase
      ensures Arrived(u, r, q, phase)
    {
      assert Arrived(u, s, q, phase);
    }
    forall q {:trigger ThreadOk(u, r, phase, q)} | 0 <= q < |r.threads|
      ensures ThreadOk(u, r, phase, q)
    {
      assert ThreadOk(u, s, phase, q);
    }
    assert r.threads[p].step == phase;
    forall y, x {:trigger CellOk(u, r, g, phase, y, x)} | 0 <= y < u.h && 0 <= x < u.w
      ensures CellOk(u, r, g, phase, y, x)
    {
      assert CellOk(u, s, g, phase, y, x);
    }
  }

  lemma StepKeeps(u: Setup, s: Boards, g: Grid, phase: nat, p: nat) returns (now: nat)
    requires Rect(g, u.h, u.w) && Inv(u, s, g, phase) && Next(u, s, p).Some?
    ensures Inv(u, Next(u, s, p).value, g, now)
  {
    now := phase;
    if p == |s.threads| {
      MainKeeps(u, s, g, phase);
      return;
    }
    assert ThreadOk(u, s, phase, p);
    var t := s.threads[p];
    hide Inv;
    if AtBarrier(u, s, p) {
      if t.step == phase {
        now := phase + 1;
        FirstPassKeeps(u, s, g, phase, p);
      } else {
        LatePassKeeps(u, s, g, phase, p);
      }
    } else if Interior(t.y, t.x, u.h, u.w) {
      WriteKeeps(u, s, g, phase, p);
    } else {
      NextRowKeeps(u, s, g, phase, p);
    }
  }

  ghost predicate StepAt(u: Setup, run: seq<Boards>, i: nat)
    requires 0 < i < |run|
  {
    Follows(u, run[i - 1], run[i])
  }

  ghost predicate Follows(u: Setup, s: Boards, t: Boards) {
    Shaped(u, s) && exists p :: Next(u, s, p) == Some(t)
  }

  /** Any order of the threads' steps that the barrier allows. */
  ghost predicate Interleaving(u: Setup, g: Grid, run: seq<Boards>) {
    && SetupOk(u) && Rect(g, u.h, u.w)
    && run != [] && run[0] == Begin(u, g)
    && forall i {:trigger StepAt(u, run, i)} :: 0 < i < |run| ==> StepAt(u, run, i)
  }

  lemma {:induction false} AlwaysInv(u: Setup, g: Grid, run: seq<Boards>, i: nat) returns (phase: nat)
    requires Interleaving(u, g, run) && i < |run|
    ensures Inv(u, run[i], g, phase)
  {
    if i == 0 {
      BeginInv(u, g);
      phase := 0;
    } else {
      var was := AlwaysInv(u, g, run, i - 1);
      assert StepAt(u, run, i);
      hide Inv, Next;
      var p :| Next(u, run[i - 1], p) == Some(run[i]);
      phase := StepKeeps(u, run[i - 1], g, was, p);
    }
  }

  ghost predicate Finished(u: Setup, s: Boards) {
    forall p :: 0 <= p < |s.threads| ==> s.threads[p].step >= u.steps
  }

  /**
    The controller's last barrier lets it go: every thread has come to the
    barrier of the last step, whether or not it has left it.
   */
  ghost predicate Released(u: Setup, s: Boards) {
    |s.threads| == |u.shares| && (u.steps > 0 ==> AllArrived(u, s, u.steps - 1))
  }

  /** From then on the board that it takes is the same, whatever the interleaving. */
  lemma ResultIsSteps(u: Setup, g: Grid, run: seq<Boards>, i: nat)
    requires Interleaving(u, g, run) && i < |run| && Released(u, run[i])
    ensures (if u.steps % 2 == 0 then run[i].even else run[i].odd) == Copied(g, u.steps, u.h, u.w)
  {
    var s := run[i];
    var phase := AlwaysInv(u, g, run, i);
    var p :| 0 <= p < |s.threads| && s.threads[p].step == phase;
    assert ThreadOk(u, s, phase, p);
    if u.steps > 0 {
      assert Arrived(u, s, p, u.steps - 1);
      if phase < u.steps {
        PhaseDone(u, s, g, phase);
      }
    }
  }

  /** Finished threads have let it go. */
  lemma FinishedIsReleased(u: Setup, g: Grid, run: seq<Boards>, i: nat)
    requires Interleaving(u, g, run) && i < |run| && Finished(u, run[i])
    ensures Released(u, run[i])
  {
    var phase := AlwaysInv(u, g, run, i);
  }

  /** So with a dead border the parallel program ends with the board of the serial one. */
  lemma ParallelIsSerial(u: Setup, g: Grid, run: seq<Boards>, i: nat)
    requires Interleaving(u, g, run) && i < |run| && Released(u, run[i]) && DeadBorder(g, u.h, u.w)
    ensures (if u.steps % 2 == 0 then run[i].even else run[i].odd) == Serial(g, u.steps, u.h, u.w)
  {
    ResultIsSteps(u, g, run, i);
    DeadBorderAgrees(g, u.steps, u.h, u.w);
  }

  /** When the controller has left its last barrier and takes the board, that was so. */
  lemma TakenIsReleased(u: Setup, g: Grid, run: seq<Boards>, i: nat)
    requires Interleaving(u, g, run) && i < |run| && run[i].main >= u.steps
    ensures Released(u, run[i])
  {
    var s := run[i];
    var phase := AlwaysInv(u, g, run, i);
    if u.steps > 0 {
      forall q {:trigger Arrived(u, s, q, u.steps - 1)} | 0 <= q < |s.threads|
        ensures Arrived(u, s, q, u.steps - 1)
      {
        assert ThreadOk(u, s, phase, q);
        assert s.main == phase + 1 ==> Arrived(u, s, q, phase);
      }
    }
  }

  lemma Opens(u: Setup, s: Boards, g: Grid, phase: nat, step: int)
    requires Rect(g, u.h, u.w) && Inv(u, s, g, phase) && s.main >= step
    requires step == phase - 1 || (step == phase && forall q :: 0 <= q < |s.threads| && s.threads[q].step == phase ==> AtBarrier(u, s, q))
    requires step == phase ==> forall q :: 0 <= q < |s.threads| ==> s.threads[q].step == phase
    ensures BarrierOpen(u, s, step)
  {
    forall q {:trigger Arrived(u, s, q, step)} | 0 <= q < |s.threads|
      ensures Arrived(u, s, q, step)
    {
      assert ThreadOk(u, s, phase, q);
    }
  }

  /** Until all the threads have finished and the controller has left its last barrier, some thread or the controller can go on. */
  lemma NoDeadlock(u: Setup, g: Grid, run: seq<Boards>, i: nat) returns (p: nat)
    requires Interleaving(u, g, run) && i < |run| && !(Finished(u, run[i]) && run[i].main >= u.steps)
    ensures Shaped(u, run[i]) && Next(u, run[i], p).Some?
  {
    var s := run[i];
    var phase := AlwaysInv(u, g, run, i);
    if r :| 0 <= r < |s.threads| && s.threads[r].step < u.steps && !AtBarrier(u, s, r) {
      p := r;
    } else if r :| 0 <= r < |s.threads| && s.threads[r].step + 1 == phase {
      p := r;
      assert ThreadOk(u, s, phase, r);
      Opens(u, s, g, phase, phase - 1);
    } else {
      forall q | 0 <= q < |s.threads|
        ensures s.threads[q].step == phase
      {
        assert ThreadOk(u, s, phase, q);
      }
      if s.main < phase {
        p := |s.threads|;
        Opens(u, s, g, phase, phase - 1);
      } else {
        p := 0;
        assert phase < u.steps;
        Opens(u, s, g, phase, phase);
      }
    }
  }

  ghost predicate AboutToWrite(u: Setup, s: Boards, p: nat)
    requires Shaped(u, s) && p < |s.threads|
  {
    s.threads[p].step < u.steps && !AtBarrier(u, s, p) && Interior(s.threads[p].y, s.threads[p].x, u.h, u.w)
  }

  /** Two threads about to write are in the same step and on different rows, so neither writes what the other reads or writes. */
  lemma NoRace(u: Setup, g: Grid, run: seq<Boards>, i: nat, p: nat, q: nat)
    requires Interleaving(u, g, run) && i < |run| && p < |run[i].threads| && q < |run[i].threads| && p != q
    requires Shaped(u, run[i]) && AboutToWrite(u, run[i], p) && AboutToWrite(u, run[i], q)
    ensures run[i].threads[p].step == run[i].threads[q].step && run[i].threads[p].y != run[i].threads[q].y
  {
    var phase := AlwaysInv(u, g, run, i);
    assert ThreadOk(u, run[i], phase, p) && ThreadOk(u, run[i], phase, q);
    if run[i].threads[p].y == run[i].threads[q].y {
      OneOwner(u.shares, u.h, p, q, run[i].threads[p].y);
    }
  }
}
