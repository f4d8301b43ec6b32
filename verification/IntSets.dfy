/** Finite sets of integers. */
module IntSets {

  lemma NotEmpty(s: set<int>)
    requires s != {}
    ensures exists i :: i in s
  {
    assert (forall i :: i !in s) ==> s == {};
  }

  lemma Pick(s: set<int>) returns (i: int)
    requires |s| != 0
    ensures i in s
  {
    NotEmpty(s);
    i :| i in s;
  }

  lemma SubsetSize(a: set<int>, b: set<int>)
    requires a <= b
    ensures |a| <= |b|
  {
    assert b == a + (b - a);
  }

  /** The numbers 0..n-1. */
  function Numbers(n: nat): (s: set<int>)
    ensures forall i :: i in s <==> 0 <= i < n
  {
    if n == 0 then {} else Numbers(n - 1) + {n - 1}
  }

  /** The n numbers from lo on. */
  ghost function Interval(lo: int, n: nat): (s: set<int>)
    ensures |s| == n && forall i :: i in s <==> lo <= i < lo + n
  {
    if n == 0 then {} else Interval(lo, n - 1) + {lo + n - 1}
  }

  lemma {:induction false} AtMostRange(s: set<int>, lo: int, n: nat)
    requires forall i :: i in s ==> lo <= i < lo + n
    ensures |s| <= n
  {
    if n == 0 {
      assert forall i :: i !in s;
      assert s == {};
    } else {
      AtMostRange(s - {lo + n - 1}, lo, n - 1);
    }
  }

  /** As many numbers as the range has are all of it. */
  lemma {:induction false} AllInRange(s: set<int>, lo: int, n: nat)
    requires (forall i :: i in s ==> lo <= i < lo + n) && |s| >= n
    ensures forall i :: lo <= i < lo + n ==> i in s
  {
    if n != 0 {
      if lo + n - 1 in s {
        AllInRange(s - {lo + n - 1}, lo, n - 1);
      } else {
        AtMostRange(s, lo, n - 1);
      }
    }
  }

  lemma {:induction false} AtLeastRange(s: set<int>, lo: int, n: nat)
    requires forall i :: lo <= i < lo + n ==> i in s
    ensures n <= |s|
  {
    if n != 0 {
      AtLeastRange(s - {lo + n - 1}, lo, n - 1);
    }
  }
}
