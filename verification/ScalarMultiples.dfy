/** Double-and-add, scalar_point_multiplication of blockchain/P2/ecdsa.py. */
module ScalarMultiples {
  import opened Congruences
  import opened Fields
  import opened Curves
  import opened Wrappers

  function PowerOfTwo(i: nat): (n: nat)
    ensures n > 0
  {
    if i == 0 then 1 else 2 * PowerOfTwo(i - 1)
  }

  /** format(k, "b")[::-1] */
  function Digits(k: nat): (d: seq<bool>)
    ensures d != []
  {
    if k < 2 then [k == 1] else [k % 2 == 1] + Digits(k / 2)
  }

  /** The number that the first n digits stand for. */
  ghost function Low(d: seq<bool>, n: nat): nat
    requires n <= |d|
  {
    if n == 0 then 0 else Low(d, n - 1) + if d[n - 1] then PowerOfTwo(n - 1) else 0
  }

  lemma {:induction false} LowShifted(b: bool, d: seq<bool>, n: nat)
    requires n <= |d|
    ensures Low([b] + d, n + 1) == 2 * Low(d, n) + if b then 1 else 0
  {
    if n != 0 {
      LowShifted(b, d, n - 1);
    } else {
      assert Low([b] + d, 0) == 0;
    }
  }

  lemma {:induction false} DigitsAreBinary(k: nat)
    ensures Low(Digits(k), |Digits(k)|) == k
  {
    if k < 2 {
      assert Low(Digits(k), 0) == 0;
    } else {
      DigitsAreBinary(k / 2);
      LowShifted(k % 2 == 1, Digits(k / 2), |Digits(k / 2)|);
    }
  }

  lemma {:induction false} LowBounded(d: seq<bool>, n: nat)
    requires n <= |d|
    ensures Low(d, n) < PowerOfTwo(n)
  {
    if n != 0 {
      LowBounded(d, n - 1);
    }
  }

  /** The largest i with 2^i at most k. */
  ghost function TopBit(k: nat): (i: nat)
    requires k > 0
    ensures PowerOfTwo(i) <= k < PowerOfTwo(i + 1)
  {
    if k == 1 then 0 else TopBit(k / 2) + 1
  }

  lemma {:induction false} PowersGrow(i: nat, j: nat)
    requires i <= j
    ensures PowerOfTwo(i) <= PowerOfTwo(j)
  {
    if i < j {
      PowersGrow(i, j - 1);
    }
  }

  lemma TopBitIs(k: nat, i: nat)
    requires PowerOfTwo(i) <= k < PowerOfTwo(i + 1)
    ensures TopBit(k) == i
  {
    var j := TopBit(k);
    if j < i {
      PowersGrow(j + 1, i);
    } else if i < j {
      PowersGrow(i + 1, j);
    }
  }

  ghost function Doubled(q: Point, i: nat, p: int): Point
    requires p > 1
  {
    if i == 0 then q else AddSelf(Doubled(q, i - 1, p), p)
  }

  /** k times q: of the largest power of two in k and of what is left, added up. There is no zero times q. */
  ghost function Scaled(k: nat, q: Point, p: int): (r: Option<Point>)
    requires p > 1
    ensures r.None? <==> k == 0
  {
    if k == 0 then None
    else
      var i := TopBit(k);
      if k == PowerOfTwo(i) then Some(Doubled(q, i, p))
      else Some(AddTwoPoints(Scaled(k - PowerOfTwo(i), q, p).value, Doubled(q, i, p), p))
  }

  /** A power of two and something smaller: the sum of both multiples, the smaller one first. */
  lemma TopAdded(i: nat, m: nat, q: Point, p: int)
    requires p > 1 && 0 < m < PowerOfTwo(i)
    ensures Scaled(PowerOfTwo(i) + m, q, p) == Some(AddTwoPoints(Scaled(m, q, p).value, Scaled(PowerOfTwo(i), q, p).value, p))
  {
    hide AddTwoPoints, AddSelf, Doubled, TopBit;
    TopBitIs(PowerOfTwo(i) + m, i);
    TopBitIs(PowerOfTwo(i), i);
  }

  method ScalarPointMultiplication(k: nat, q: Point, p: int) returns (r: Option<Point>)
    requires p > 1
    ensures r == Scaled(k, q, p)
  {
    hide AddSelf, AddTwoPoints, Scaled, Low, Digits;
    var bits := Digits(k);
    NothingYet(bits, q, p);
    var nQ := [q];
    for i := 1 to |bits|
      invariant |nQ| == i
      invariant forall j :: 0 <= j < i ==> nQ[j] == Doubled(q, j, p)
    {
      nQ := nQ + [AddSelf(nQ[i - 1], p)];
    }
    r := None;
    for i := 0 to |bits|
      invariant r == Scaled(Low(bits, i), q, p)
    {
      NextSum(bits, i, q, p);
      if bits[i] && r.None? {
        r := Some(nQ[i]);
      } else if bits[i] {
        r := Some(AddTwoPoints(r.value, nQ[i], p));
      }
    }
    DigitsAreBinary(k);
  }

  lemma NextBit(d: seq<bool>, i: nat)
    requires i < |d| && d[i]
    ensures Low(d, i + 1) == Low(d, i) + PowerOfTwo(i) && TopBit(Low(d, i + 1)) == i
  {
    LowBounded(d, i);
    TopBitIs(Low(d, i + 1), i);
  }

  lemma NothingYet(d: seq<bool>, q: Point, p: int)
    requires p > 1
    ensures Scaled(Low(d, 0), q, p) == None
  {
  }

  lemma NextSum(d: seq<bool>, i: nat, q: Point, p: int)
    requires i < |d| && p > 1
    ensures Scaled(Low(d, i + 1), q, p) ==
      if !d[i] then Scaled(Low(d, i), q, p)
      else if Low(d, i) == 0 then Some(Doubled(q, i, p))
      else Some(AddTwoPoints(Scaled(Low(d, i), q, p).value, Doubled(q, i, p), p))
  {
    hide AddTwoPoints, Doubled;
    if d[i] {
      NextBit(d, i);
    }
  }

  lemma {:induction false} DoubledShifted(q: Point, i: nat, p: int)
    requires p > 1
    ensures Doubled(q, i + 1, p) == Doubled(AddSelf(q, p), i, p)
  {
    if i != 0 {
      DoubledShifted(q, i - 1, p);
    }
  }

  lemma TopBitDoubled(k: nat)
    requires k > 0
    ensures TopBit(2 * k) == TopBit(k) + 1
  {
    hide PowerOfTwo;
    assert 2 * k / 2 == k;
  }

  lemma PowerNext(i: nat)
    ensures PowerOfTwo(i + 1) == 2 * PowerOfTwo(i)
  {
  }

  lemma ScaledIs(k: nat, q: Point, p: int)
    requires p > 1 && k > 0
    ensures var i := TopBit(k);
      Scaled(k, q, p) == if k == PowerOfTwo(i) then Some(Doubled(q, i, p)) else Some(AddTwoPoints(Scaled(k - PowerOfTwo(i), q, p).value, Doubled(q, i, p), p))
  {
  }

  /** Twice as many of a point are as many of its double, whatever the point and without any condition on the slopes. */
  lemma {:induction false} EvenMultiple(k: nat, q: Point, p: int)
    requires p > 1
    ensures Scaled(2 * k, q, p) == Scaled(k, AddSelf(q, p), p)
  {
    hide *;
    if k == 0 {
    } else {
      var i := TopBit(k);
      TopBitDoubled(k);
      PowerNext(i);
      DoubledShifted(q, i, p);
      ScaledIs(k, AddSelf(q, p), p);
      ScaledIs(2 * k, q, p);
      EvenMultiple(k - PowerOfTwo(i), q, p);
      assert 2 * (k - PowerOfTwo(i)) == 2 * k - PowerOfTwo(i + 1);
    }
  }

  lemma TimesPower(j: nat, k: nat)
    ensures j > 0 ==> PowerOfTwo(j) * k == 2 * (PowerOfTwo(j - 1) * k)
    ensures j == 0 ==> PowerOfTwo(j) * k == k
  {
  }

  /** So shifted multiples are multiples of the point doubled that often. */
  lemma {:induction false} ShiftedMultiple(k: nat, j: nat, q: Point, p: int)
    requires p > 1
    ensures Scaled(PowerOfTwo(j) * k, q, p) == Scaled(k, Doubled(q, j, p), p)
    decreases j
  {
    TimesPower(j, k);
    assert j == 0 ==> Doubled(q, j, p) == q;
    hide *;
    if j != 0 {
      ShiftedMultiple(k, j - 1, AddSelf(q, p), p);
      EvenMultiple(PowerOfTwo(j - 1) * k, q, p);
      DoubledShifted(q, j - 1, p);
    }
  }

  /** No slope on the way has a vanishing denominator. */
  ghost predicate Regular(k: nat, q: Point, p: int)
    requires p > 1
  {
    k > 0 ==>
      var i := TopBit(k);
      && (forall j :: 0 <= j < i ==> !Divides(p, 2 * Doubled(q, j, p).y))
      && (k != PowerOfTwo(i) ==>
        var r := k - PowerOfTwo(i);
        Regular(r, q, p) && !Cong(p, Scaled(r, q, p).value.x, Doubled(q, i, p).x))
  }

  lemma {:induction false} DoubledStays(q: Point, i: nat, b: int, p: int)
    requires Prime(p) && OnCurve(q, b, p)
    requires forall j :: 0 <= j < i ==> !Divides(p, 2 * Doubled(q, j, p).y)
    ensures OnCurve(Doubled(q, i, p), b, p)
  {
    if i != 0 {
      DoubledStays(q, i - 1, b, p);
      TangentStays(Doubled(q, i - 1, p), b, p);
    }
  }

  /** Multiples of a point of the curve are on the curve. */
  lemma {:induction false} ScaledStays(k: nat, q: Point, b: int, p: int)
    requires Prime(p) && OnCurve(q, b, p) && k > 0 && Regular(k, q, p)
    ensures OnCurve(Scaled(k, q, p).value, b, p)
  {
    var i := TopBit(k);
    DoubledStays(q, i, b, p);
    if k != PowerOfTwo(i) {
      var r := k - PowerOfTwo(i);
      ScaledStays(r, q, b, p);
      Refl(p, Doubled(q, i, p).x);
      ChordStays(Scaled(r, q, p).value, Doubled(q, i, p), b, p);
    }
  }
}
