/** How many pages the tables of an address space take: the tables that are missing where addresses are to be mapped (walkpgdir of operating-systems/xv6-OS/vm.c). */
module PageCounts {
  import opened IntSets
  import opened PageTables

  /** One page for the table of address v, if there is none. */
  ghost function Needs(tables: Tables, d: int, v: int): int {
    if MissingTable(tables, d, v) then 1 else 0
  }

  /** The tables missing for n addresses from lo on. */
  ghost function Lacking(tables: Tables, d: int, lo: int, n: int): set<int>
    decreases n
  {
    if n <= 0 then {}
    else if MissingTable(tables, d, lo + n - 1) then Lacking(tables, d, lo, n - 1) + {Pdx(lo + n - 1)}
    else Lacking(tables, d, lo, n - 1)
  }

  /** The tables that n addresses from lo on lie in. */
  ghost function TableNumbers(lo: int, n: int): set<int>
    decreases n
  {
    if n <= 0 then {} else TableNumbers(lo, n - 1) + {Pdx(lo + n - 1)}
  }

  /** Of the missing tables of d those in s have been added. */
  ghost predicate Filled(ts0: Tables, ts1: Tables, d: int, s: set<int>) {
    forall w {:trigger MissingTable(ts1, d, w)} :: 0 <= w < PAGES ==> (MissingTable(ts1, d, w) <==> MissingTable(ts0, d, w) && Pdx(w) !in s)
  }

  /** d has exactly the tables in s. */
  ghost predicate HasTables(tables: Tables, d: int, s: set<int>) {
    forall w {:trigger MissingTable(tables, d, w)} :: 0 <= w < PAGES ==> (MissingTable(tables, d, w) <==> Pdx(w) !in s)
  }

  lemma OneNeeds(tables: Tables, d: int, v: int)
    ensures |Lacking(tables, d, v, 1)| == Needs(tables, d, v)
    ensures Lacking(tables, d, v, 1) == if MissingTable(tables, d, v) then {Pdx(v)} else {}
  {
    assert Lacking(tables, d, v, 0) == {};
  }

  lemma {:induction false} LackingGrows(tables: Tables, d: int, lo: int, n: int, all: int)
    requires 0 <= n <= all
    ensures Lacking(tables, d, lo, n) <= Lacking(tables, d, lo, all)
    ensures |Lacking(tables, d, lo, n)| <= |Lacking(tables, d, lo, all)|
    decreases all
  {
    if n < all {
      LackingGrows(tables, d, lo, n, all - 1);
    }
    SubsetSize(Lacking(tables, d, lo, n), Lacking(tables, d, lo, all));
  }

  /** From ts0 to ts1, the tables missing for n addresses from lo on have been added, as many as that number. */
  ghost predicate Spent(ts0: Tables, ts1: Tables, d: int, lo: int, n: int, spent: int) {
    spent == |Lacking(ts0, d, lo, n)| && Filled(ts0, ts1, d, Lacking(ts0, d, lo, n))
  }

  lemma SpentNothing(tables: Tables, d: int, lo: int)
    ensures Spent(tables, tables, d, lo, 0, 0)
  {
  }

  lemma SpentIs(ts0: Tables, ts1: Tables, d: int, lo: int, n: int, spent: int)
    requires Spent(ts0, ts1, d, lo, n, spent)
    ensures spent == |Lacking(ts0, d, lo, n)|
  {
  }

  /** Mapping one address after the other, each takes the table that is missing by then. */
  lemma SpentNext(ts0: Tables, ts1: Tables, d: int, lo: int, n: int, all: int, spent: int)
    requires 0 <= lo && 0 <= n < all && lo + n < PAGES && Spent(ts0, ts1, d, lo, n, spent)
    ensures |Lacking(ts0, d, lo, n + 1)| == spent + Needs(ts1, d, lo + n) <= |Lacking(ts0, d, lo, all)|
  {
    var s, i := Lacking(ts0, d, lo, n), Pdx(lo + n);
    if i in s {
      assert s + {i} == s;
    }
    LackingGrows(ts0, d, lo, n + 1, all);
  }

  lemma SpentTwice(ts0: Tables, ts1: Tables, ts2: Tables, d: int, lo: int, n: int, spent: int, more: int)
    requires 0 <= lo && 0 <= n && lo + n < PAGES
    requires Spent(ts0, ts1, d, lo, n, spent) && Spent(ts1, ts2, d, lo + n, 1, more)
    ensures Spent(ts0, ts2, d, lo, n + 1, spent + more)
  {
    OneNeeds(ts1, d, lo + n);
    SpentNext(ts0, ts1, d, lo, n, n + 1, spent);
    forall w {:trigger MissingTable(ts2, d, w)} | 0 <= w < PAGES
      ensures MissingTable(ts2, d, w) <==> MissingTable(ts0, d, w) && Pdx(w) !in Lacking(ts0, d, lo, n + 1)
    {
      assert MissingTable(ts1, d, w) <==> MissingTable(ts0, d, w) && Pdx(w) !in Lacking(ts0, d, lo, n);
      assert Pdx(w) == Pdx(lo + n) ==> (MissingTable(ts1, d, w) <==> MissingTable(ts1, d, lo + n));
    }
  }

  lemma SpentSame(ts0: Tables, ts1: Tables, ts2: Tables, d: int, lo: int, n: int, spent: int)
    requires Spent(ts0, ts1, d, lo, n, spent) && d in ts1 && d in ts2 && ts2[d] == ts1[d]
    ensures Spent(ts0, ts2, d, lo, n, spent)
  {
    forall w {:trigger MissingTable(ts2, d, w)} | 0 <= w < PAGES
      ensures MissingTable(ts2, d, w) <==> MissingTable(ts0, d, w) && Pdx(w) !in Lacking(ts0, d, lo, n)
    {
      assert MissingTable(ts1, d, w) <==> MissingTable(ts0, d, w) && Pdx(w) !in Lacking(ts0, d, lo, n);
    }
  }

  /** What is missing where d has the tables in s. */
  lemma {:induction false} LackingOutside(tables: Tables, d: int, s: set<int>, lo: int, n: int)
    requires HasTables(tables, d, s) && 0 <= lo && lo + n <= PAGES
    ensures Lacking(tables, d, lo, n) == TableNumbers(lo, n) - s
    ensures |s + TableNumbers(lo, n)| == |s| + |Lacking(tables, d, lo, n)|
    decreases n
  {
    if n > 0 {
      LackingOutside(tables, d, s, lo, n - 1);
      assert MissingTable(tables, d, lo + n - 1) <==> Pdx(lo + n - 1) !in s;
    }
    assert s + TableNumbers(lo, n) == s + (TableNumbers(lo, n) - s);
  }

  lemma SpentHas(ts0: Tables, ts1: Tables, d: int, s: set<int>, lo: int, n: int, spent: int)
    requires HasTables(ts0, d, s) && Spent(ts0, ts1, d, lo, n, spent) && 0 <= lo && lo + n <= PAGES
    ensures HasTables(ts1, d, s + TableNumbers(lo, n)) && |s + TableNumbers(lo, n)| == |s| + spent
  {
    LackingOutside(ts0, d, s, lo, n);
    forall w {:trigger MissingTable(ts1, d, w)} | 0 <= w < PAGES
      ensures MissingTable(ts1, d, w) <==> Pdx(w) !in s + TableNumbers(lo, n)
    {
      assert MissingTable(ts0, d, w) <==> Pdx(w) !in s;
    }
  }

  lemma {:induction false} TableNumbersAre(lo: int, n: int)
    requires 0 <= lo && n > 0
    ensures forall i :: i in TableNumbers(lo, n) <==> Pdx(lo) <= i <= Pdx(lo + n - 1)
    ensures |TableNumbers(lo, n)| == Pdx(lo + n - 1) - Pdx(lo) + 1
    decreases n
  {
    if n == 1 {
      assert TableNumbers(lo, 0) == {};
    } else {
      TableNumbersAre(lo, n - 1);
    }
    AtMostRange(TableNumbers(lo, n), Pdx(lo), Pdx(lo + n - 1) - Pdx(lo) + 1);
    AtLeastRange(TableNumbers(lo, n), Pdx(lo), Pdx(lo + n - 1) - Pdx(lo) + 1);
  }

  /** n pages from 0 on take n / 1024 tables, rounded up. */
  lemma TablesRoundUp(n: nat)
    ensures |TableNumbers(0, n)| == (n + ENTRIES - 1) / ENTRIES
  {
    if n != 0 {
      TableNumbersAre(0, n);
    }
  }

  lemma {:induction false} NumbersGrow(lo: int, n: int, all: int)
    requires 0 <= n <= all
    ensures TableNumbers(lo, n) <= TableNumbers(lo, all) && |TableNumbers(lo, n)| <= |TableNumbers(lo, all)|
    decreases all
  {
    if n < all {
      NumbersGrow(lo, n, all - 1);
    }
    SubsetSize(TableNumbers(lo, n), TableNumbers(lo, all));
  }
}
