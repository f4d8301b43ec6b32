/** Congruence modulo a positive integer, and Euclid's lemma. */
module Congruences {

  /** p divides n. */
  ghost predicate Divides(p: int, n: int) {
    exists k :: n == p * k
  }

  ghost predicate Cong(p: int, a: int, b: int) { Divides(p, a - b) }

  ghost predicate Prime(p: int) {
    p > 1 && forall d :: 1 < d < p ==> !Divides(d, p)
  }

  lemma Multiple(p: int, k: int)
    ensures Divides(p, p * k)
  {
  }

  lemma Sum(p: int, a: int, b: int)
    requires Divides(p, a) && Divides(p, b)
    ensures Divides(p, a + b) && Divides(p, a - b)
  {
    var j :| a == p * j;
    var k :| b == p * k;
    assert a + b == p * (j + k) && a - b == p * (j - k);
  }

  lemma Times(p: int, a: int, c: int)
    requires Divides(p, a)
    ensures Divides(p, a * c) && Divides(p, c * a)
  {
    var k :| a == p * k;
    assert a * c == p * (k * c);
  }

  lemma Remainder(p: int, n: int)
    requires p > 0
    ensures Cong(p, n, n % p)
  {
    assert n - n % p == p * (n / p);
  }

  lemma AtLeast(p: int, k: int)
    requires p > 0 && k > 0
    ensures p * k >= p
  {
  }

  lemma Less(p: int, n: int)
    requires p > 0 && Divides(p, n) && -p < n < p
    ensures n == 0
  {
    var k :| n == p * k;
    if k > 0 {
      AtLeast(p, k);
    } else if k < 0 {
      AtLeast(p, -k);
    }
  }

  lemma DividesIffMod(p: int, n: int)
    requires p > 0
    ensures Divides(p, n) <==> n % p == 0
  {
    Remainder(p, n);
    if Divides(p, n) {
      Sum(p, n, n - n % p);
      Less(p, n % p);
    }
  }

  /** Reduced numbers that are congruent are equal. */
  lemma Reduced(p: int, a: int, b: int)
    requires 0 <= a < p && 0 <= b < p && Cong(p, a, b)
    ensures a == b
  {
    Less(p, a - b);
  }

  lemma CongMod(p: int, a: int, b: int)
    requires p > 0
    ensures Cong(p, a, b) <==> a % p == b % p
  {
    Remainder(p, a);
    Remainder(p, b);
    if Cong(p, a, b) {
      Sum(p, a - b, b - b % p);
      Sum(p, a - b % p, a - a % p);
      Reduced(p, a % p, b % p);
    } else if a % p == b % p {
      Sum(p, a - a % p, b - b % p);
    }
  }

  lemma Refl(p: int, a: int)
    ensures Cong(p, a, a)
  {
    Multiple(p, 0);
  }

  lemma Sym(p: int, a: int, b: int)
    requires Cong(p, a, b)
    ensures Cong(p, b, a)
  {
    Times(p, a - b, -1);
  }

  lemma Trans(p: int, a: int, b: int, c: int)
    requires Cong(p, a, b) && Cong(p, b, c)
    ensures Cong(p, a, c)
  {
    Sum(p, a - b, b - c);
  }

  lemma CongSum(p: int, a: int, b: int, c: int, d: int)
    requires Cong(p, a, b) && Cong(p, c, d)
    ensures Cong(p, a + c, b + d) && Cong(p, a - c, b - d)
  {
    Sum(p, a - b, c - d);
    assert (a - b) + (c - d) == (a + c) - (b + d) && (a - b) - (c - d) == (a - c) - (b - d);
  }

  lemma CongProduct(p: int, a: int, b: int, c: int, d: int)
    requires Cong(p, a, b) && Cong(p, c, d)
    ensures Cong(p, a * c, b * d)
  {
    Times(p, a - b, c);
    Times(p, c - d, b);
    Sum(p, (a - b) * c, b * (c - d));
    assert (a - b) * c + b * (c - d) == a * c - b * d;
  }

  lemma NoDivisor(p: int, a: int)
    requires Prime(p) && 1 < a < p
    ensures p % a != 0
  {
    DividesIffMod(a, p);
  }

  lemma RemainderTimes(p: int, a: int, b: int)
    requires a > 0
    ensures p * b - (a * b) * (p / a) == (p % a) * b
  {
    var q, r := p / a, p % a;
    assert p == a * q + r;
    assert (a * q + r) * b == a * q * b + r * b;
    assert a * q * b == (a * b) * q;
  }

  /** Euclid's lemma, by Euclid's algorithm on the smaller factor. */
  lemma {:induction false} EuclidReduced(p: int, a: int, b: int)
    requires Prime(p) && 0 < a < p && Divides(p, a * b)
    ensures Divides(p, b)
    decreases a
  {
    if a > 1 {
      NoDivisor(p, a);
      RemainderTimes(p, a, b);
      Multiple(p, b);
      Times(p, a * b, p / a);
      Sum(p, p * b, (a * b) * (p / a));
      hide Divides, Prime;
      EuclidReduced(p, p % a, b);
    }
  }

  lemma Euclid(p: int, a: int, b: int)
    requires Prime(p) && Divides(p, a * b) && !Divides(p, a)
    ensures Divides(p, b)
  {
    var r := a % p;
    DividesIffMod(p, a);
    Remainder(p, a);
    Times(p, a - r, b);
    Sum(p, a * b, (a - r) * b);
    assert a * b - (a - r) * b == r * b;
    EuclidReduced(p, r, b);
  }

  /** A factor that p does not divide can be cancelled. */
  lemma Cancel(p: int, a: int, b: int, c: int)
    requires Prime(p) && !Divides(p, c) && Cong(p, a * c, b * c)
    ensures Cong(p, a, b)
  {
    assert a * c - b * c == c * (a - b);
    Euclid(p, c, a - b);
  }
}
