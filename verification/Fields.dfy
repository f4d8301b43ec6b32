/** The prime field of blockchain/P2/ecdsa.py. */
module Fields {
  import opened Congruences
  import opened IntSets

  // ----- The operations

  function Addition(x: int, y: int, p: int): int
    requires p > 0
  {
    (x + y) % p
  }

  function Multiplication(x: int, y: int, p: int): int
    requires p > 0
  {
    (x * y) % p
  }

  function Power(x: int, n: nat): int {
    if n == 0 then 1 else x * Power(x, n - 1)
  }

  function Exponentiation(x: int, n: nat, p: int): int
    requires p > 0
  {
    Power(x, n) % p
  }

  function AdditiveInverse(x: int, p: int): int { p - x }

  function MultiplicativeInverse(x: int, p: int): int
    requires p > 1
  {
    Power(x, p - 2) % p
  }

  function Division(x: int, y: int, p: int): int
    requires p > 1
  {
    (x * MultiplicativeInverse(y, p)) % p
  }

  ghost function Subtraction(x: int, y: int, p: int): int
    requires p > 0
  {
    (x - y) % p
  }

  method Subtract(x: int, y: int, p: int) returns (ans: int)
    requires p > 0
    ensures ans == Subtraction(x, y, p)
  {
    ans := Addition(x, AdditiveInverse(y, p), p);
    Multiple(p, 1);
    CongMod(p, x + (p - y), x - y);
    ans := Raised(ans, p);
    CongMod(p, ans, ans);
  }

  /** The loop of subtraction: adds p until the number is not negative. */
  method Raised(n: int, p: int) returns (ans: int)
    requires p > 0 && n < p
    ensures 0 <= ans < p && (0 <= n ==> ans == n) && ans % p == n % p
  {
    ans := n;
    while ans < 0
      invariant ans < p && (0 <= n ==> ans == n) && ans % p == n % p
      decreases -ans
    {
      OnceMore(ans, p);
      ans := ans + p;
    }
  }

  lemma OnceMore(n: int, p: int)
    requires p > 0
    ensures (n + p) % p == n % p
  {
    Multiple(p, 1);
    CongMod(p, n + p, n);
  }

  // ----- Fermat's little theorem

  ghost function Factorial(n: nat): int {
    if n == 0 then 1 else Factorial(n - 1) * n
  }

  /** The product of the members of s below n. */
  ghost function Product(s: set<int>, n: nat): int {
    if n == 0 then 1 else Product(s, n - 1) * if n - 1 in s then n - 1 else 1
  }

  lemma Swapped(a: int, b: int, c: int)
    ensures (a * b) * c == (a * c) * b
  {
  }

  lemma {:induction false} ProductRemoved(s: set<int>, i: int, n: nat)
    requires i in s && 0 <= i < n
    ensures Product(s, n) == Product(s - {i}, n) * i
  {
    if i == n - 1 {
      ProductSame(s, s - {i}, n - 1);
    } else {
      ProductRemoved(s, i, n - 1);
      Swapped(Product(s - {i}, n - 1), i, if n - 1 in s then n - 1 else 1);
    }
  }

  lemma {:induction false} ProductSame(s: set<int>, t: set<int>, n: nat)
    requires forall i :: 0 <= i < n ==> (i in s <==> i in t)
    ensures Product(s, n) == Product(t, n)
  {
    if n != 0 {
      ProductSame(s, t, n - 1);
    }
  }

  lemma {:induction false} ProductOfAll(s: set<int>, n: nat)
    requires n > 0 && forall i :: 0 <= i < n ==> (i in s <==> i > 0)
    ensures Product(s, n) == Factorial(n - 1)
  {
    if n > 1 {
      ProductOfAll(s, n - 1);
    } else {
      assert Product(s, 0) == 1;
    }
  }

  /** x*1 .. x*k, reduced. */
  ghost function Multiples(x: int, p: int, k: nat): (s: set<int>)
    requires p > 0
    ensures forall r :: r in s <==> exists j :: 1 <= j <= k && r == (x * j) % p
  {
    if k == 0 then {} else
      var s := Multiples(x, p, k - 1);
      assert forall r :: r in s ==> exists j :: 1 <= j <= k && r == (x * j) % p;
      s + {(x * k) % p}
  }

  /** They are different, and none is 0. */
  lemma MultiplesDiffer(x: int, p: int, i: int, j: int)
    requires Prime(p) && !Divides(p, x) && 0 < i < j < p
    ensures (x * i) % p != (x * j) % p && (x * j) % p != 0
  {
    if (x * i) % p == (x * j) % p {
      CongMod(p, x * i, x * j);
      assert x * i - x * j == x * (i - j);
      Euclid(p, x, i - j);
      Less(p, i - j);
    }
    NotZero(x, p, j);
  }

  lemma NotZero(x: int, p: int, j: int)
    requires Prime(p) && !Divides(p, x) && 0 < j < p
    ensures (x * j) % p != 0
  {
    DividesIffMod(p, x * j);
    if (x * j) % p == 0 {
      Euclid(p, x, j);
      Less(p, j);
    }
  }

  lemma {:induction false} MultiplesCount(x: int, p: int, k: nat)
    requires Prime(p) && !Divides(p, x) && k < p
    ensures |Multiples(x, p, k)| == k && forall r :: r in Multiples(x, p, k) ==> 0 < r < p
  {
    if k != 0 {
      MultiplesCount(x, p, k - 1);
      NewMultiple(x, p, k);
      NotZero(x, p, k);
    }
  }

  lemma NewMultiple(x: int, p: int, k: nat)
    requires Prime(p) && !Divides(p, x) && 0 < k < p
    ensures (x * k) % p !in Multiples(x, p, k - 1)
  {
    forall j | 1 <= j <= k - 1
      ensures (x * j) % p != (x * k) % p
    {
      MultiplesDiffer(x, p, j, k);
    }
  }

  /** The product of the reduced multiples, two ways. */
  lemma {:induction false} MultiplesProduct(x: int, p: int, k: nat)
    requires Prime(p) && !Divides(p, x) && k < p
    ensures Cong(p, Product(Multiples(x, p, k), p), Power(x, k) * Factorial(k))
  {
    if k == 0 {
      EmptyProduct(p);
      Refl(p, 1);
    } else {
      var s, r := Multiples(x, p, k - 1), (x * k) % p;
      MultiplesProduct(x, p, k - 1);
      NewMultiple(x, p, k);
      NotZero(x, p, k);
      ProductRemoved(s + {r}, r, p);
      assert s + {r} - {r} == s;
      Remainder(p, x * k);
      Sym(p, x * k, r);
      CongProduct(p, Product(s, p), Power(x, k - 1) * Factorial(k - 1), r, x * k);
      Regroup(Power(x, k - 1), Factorial(k - 1), x, k);
    }
  }

  lemma Regroup(a: int, b: int, c: int, d: int)
    ensures (a * b) * (c * d) == (c * a) * (b * d)
  {
    assert (a * b) * (c * d) == a * b * c * d;
  }

  lemma {:induction false} EmptyProduct(n: nat)
    ensures Product({}, n) == 1
  {
    if n != 0 {
      EmptyProduct(n - 1);
    }
  }

  lemma {:induction false} FactorialNotDivisible(p: int, k: nat)
    requires Prime(p) && k < p
    ensures !Divides(p, Factorial(k))
  {
    if k == 0 {
      if Divides(p, 1) {
        Less(p, 1);
      }
    } else {
      FactorialNotDivisible(p, k - 1);
      if Divides(p, Factorial(k)) {
        Euclid(p, Factorial(k - 1), k);
        Less(p, k);
      }
    }
  }

  lemma Fermat(p: int, x: int)
    requires Prime(p) && !Divides(p, x)
    ensures Cong(p, Power(x, p - 1), 1)
  {
    var k := p - 1;
    var s := Multiples(x, p, k);
    MultiplesCount(x, p, k);
    AllInRange(s, 1, k);
    ProductOfAll(s, p);
    MultiplesProduct(x, p, k);
    FactorialNotDivisible(p, k);
    Sym(p, Factorial(k), Power(x, k) * Factorial(k));
    Cancel(p, Power(x, k), 1, Factorial(k));
  }

  // ----- What the operations mean

  lemma InverseTimes(x: int, p: int)
    requires Prime(p) && !Divides(p, x)
    ensures Cong(p, MultiplicativeInverse(x, p) * x, 1)
  {
    var pow, inv := Power(x, p - 2), MultiplicativeInverse(x, p);
    Fermat(p, x);
    Remainder(p, pow);
    Sym(p, pow, inv);
    Refl(p, x);
    CongProduct(p, inv, pow, x, x);
    assert x * pow == Power(x, p - 1);
    hide Divides, Power, Prime, MultiplicativeInverse;
    Trans(p, inv * x, pow * x, 1);
  }

  /** get_multiplicative_inverse inverts exactly the numbers that have an inverse. */
  lemma InverseIff(x: int, p: int)
    requires Prime(p)
    ensures (MultiplicativeInverse(x, p) * x) % p == 1 <==> x % p != 0
  {
    hide Divides, Power, MultiplicativeInverse;
    var inv := MultiplicativeInverse(x, p);
    DividesIffMod(p, x);
    if x % p != 0 {
      InverseTimes(x, p);
      CongMod(p, inv * x, 1);
    } else {
      Times(p, x, inv);
      DividesIffMod(p, inv * x);
    }
  }

  /** The quotient times the divisor is the dividend. */
  lemma DivisionTimes(x: int, y: int, p: int)
    requires Prime(p) && !Divides(p, y)
    ensures Cong(p, Division(x, y, p) * y, x) && 0 <= Division(x, y, p) < p
  {
    InverseTimes(y, p);
    hide Divides, Power, Prime, MultiplicativeInverse;
    QuotientTimes(p, x, y, MultiplicativeInverse(y, p), Division(x, y, p));
  }

  lemma QuotientTimes(p: int, x: int, y: int, inv: int, q: int)
    requires p > 0 && Cong(p, inv * y, 1) && q == (x * inv) % p
    ensures Cong(p, q * y, x)
  {
    hide Divides;
    Remainder(p, x * inv);
    Sym(p, x * inv, q);
    Refl(p, y);
    Refl(p, x);
    CongProduct(p, q, x * inv, y, y);
    CongProduct(p, x, x, inv * y, 1);
    Regrouped(x, inv, y);
    Trans(p, q * y, x * inv * y, x);
  }

  lemma Regrouped(a: int, b: int, c: int)
    ensures a * b * c == a * (b * c) && a * 1 == a
  {
  }

  /** Dividing by zero gives zero, except in the field of two elements. */
  lemma DivisionByZero(x: int, y: int, p: int)
    requires p > 2 && Divides(p, y)
    ensures Division(x, y, p) == 0
  {
    var pow := Power(y, p - 3);
    assert Power(y, p - 2) == y * pow;
    Times(p, y, pow);
    DividesIffMod(p, y * pow);
    hide Divides, Power;
    assert MultiplicativeInverse(y, p) == 0;
    assert x * 0 == 0;
  }
}
