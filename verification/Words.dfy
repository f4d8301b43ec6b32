/** 64-bit words and their bytes, least significant first (computer-architecture/Lab4/hclrs/tools/isa.c). */
module Words {

  const WORD := 0x1_0000_0000_0000_0000

  type Byte = x: int | 0 <= x < 256

  function Zeros(n: nat): (z: seq<Byte>)
    ensures |z| == n && forall i :: 0 <= i < n ==> z[i] == 0
  {
    seq(n, i => 0)
  }

  predicate IsWord(v: int) { -WORD / 2 <= v < WORD / 2 }

  /** The word that a bit pattern stands for. */
  function Signed(n: int): (v: int)
    ensures IsWord(v)
  {
    var m := n % WORD;
    if m >= WORD / 2 then m - WORD else m
  }

  function Power256(n: nat): (p: int)
    ensures p > 0
  {
    if n == 0 then 1 else 256 * Power256(n - 1)
  }

  /** The low n bytes of v. */
  function Bytes(v: int, n: nat): (bs: seq<Byte>)
    ensures |bs| == n
    decreases n
  {
    if n == 0 then [] else [v % 256] + Bytes(v / 256, n - 1)
  }

  function Value(bs: seq<Byte>): int {
    if bs == [] then 0 else bs[0] + 256 * Value(bs[1..])
  }

  lemma {:induction false} ValueBounded(bs: seq<Byte>)
    ensures 0 <= Value(bs) < Power256(|bs|)
  {
    if bs != [] {
      ValueBounded(bs[1..]);
    }
  }

  /** v differs from the value of its low bytes by a multiple of the next power. */
  lemma {:induction false} BytesValue(v: int, n: nat) returns (q: int)
    ensures v == Value(Bytes(v, n)) + Power256(n) * q
    decreases n
  {
    if n == 0 {
      q := v;
    } else {
      q := BytesValue(v / 256, n - 1);
      assert Bytes(v, n)[1..] == Bytes(v / 256, n - 1);
      Distribute(Value(Bytes(v / 256, n - 1)), Power256(n - 1), q);
    }
  }

  lemma Distribute(a: int, p: int, q: int)
    ensures 256 * (a + p * q) == 256 * a + (256 * p) * q
  {
  }

  lemma EightBytes()
    ensures Power256(8) == WORD
  {
    assert Power256(4) == 0x1_0000_0000;
    assert Power256(8) == 256 * (256 * (256 * (256 * Power256(4))));
  }

  lemma SignedShift(a: int, q: int)
    ensures Signed(a + WORD * q) == Signed(a)
  {
    assert (a + WORD * q) % WORD == a % WORD;
  }

  lemma SignedWord(v: int)
    requires IsWord(v)
    ensures Signed(v) == v
  {
    if v < 0 {
      SignedShift(v + WORD, -1);
    }
  }

  /** Eight bytes hold a word. */
  lemma WordRoundTrip(v: int)
    requires IsWord(v)
    ensures Signed(Value(Bytes(v, 8))) == v
  {
    EightBytes();
    var q := BytesValue(v, 8);
    SignedShift(Value(Bytes(v, 8)), q);
    SignedWord(v);
    hide *;
  }

  /** v >> 8i */
  function Shifted(v: int, i: nat): int
    decreases i
  {
    if i == 0 then v else Shifted(v / 256, i - 1)
  }

  lemma {:induction false} ShiftedNext(v: int, i: nat)
    ensures Shifted(v, i + 1) == Shifted(v, i) / 256
    decreases i
  {
    if i != 0 {
      ShiftedNext(v / 256, i - 1);
    }
  }

  lemma {:induction false} ByteAt(v: int, n: nat, i: nat)
    requires i < n
    ensures Bytes(v, n)[i] == Shifted(v, i) % 256
    decreases n
  {
    if i != 0 {
      ByteAt(v / 256, n - 1, i - 1);
    }
  }

  /** Adding the next more significant byte. */
  lemma {:induction false} ValueAppended(bs: seq<Byte>, b: Byte)
    ensures Value(bs + [b]) == Value(bs) + b * Power256(|bs|)
  {
    if bs == [] {
      assert bs + [b] == [b];
      assert Value([b]) == b + 256 * Value([b][1..]);
    } else {
      ValueAppended(bs[1..], b);
      assert (bs + [b])[1..] == bs[1..] + [b];
      var p := Power256(|bs| - 1);
      assert 256 * (b * p) == b * (256 * p);
    }
  }

  // ----- Words bit by bit

  /** Bit i in two's complement. */
  function Bit(v: int, i: nat): bool
    decreases i
  {
    if i == 0 then v % 2 == 1 else Bit(v / 2, i - 1)
  }

  function Power2(n: nat): (p: int)
    ensures p > 0
  {
    if n == 0 then 1 else 2 * Power2(n - 1)
  }

  function And(x: bool, y: bool): bool { x && y }
  function Xor(x: bool, y: bool): bool { x != y }

  /** The number of n bits each of which comes from those of a and b. */
  function Combined(f: (bool, bool) -> bool, a: int, b: int, n: nat): (r: nat)
    decreases n
  {
    if n == 0 then 0 else (if f(a % 2 == 1, b % 2 == 1) then 1 else 0) + 2 * Combined(f, a / 2, b / 2, n - 1)
  }

  lemma {:induction false} CombinedBit(f: (bool, bool) -> bool, a: int, b: int, n: nat, i: nat)
    requires i < n
    ensures Bit(Combined(f, a, b, n), i) == f(Bit(a, i), Bit(b, i))
    decreases n
  {
    if i > 0 {
      CombinedBit(f, a / 2, b / 2, n - 1, i - 1);
    }
  }

  lemma {:induction false} CombinedBound(f: (bool, bool) -> bool, a: int, b: int, n: nat)
    ensures Combined(f, a, b, n) < Power2(n)
    decreases n
  {
    if n > 0 {
      CombinedBound(f, a / 2, b / 2, n - 1);
    }
  }

  lemma {:induction false} EightBitsEach(n: nat)
    ensures Power2(8 * n) == Power256(n)
  {
    if n > 0 {
      EightBitsEach(n - 1);
      var m := 8 * n - 8;
      assert Power2(m + 4) == 16 * Power2(m) by {
        assert Power2(m + 2) == 4 * Power2(m);
      }
      assert Power2(m + 8) == 16 * Power2(m + 4) by {
        assert Power2(m + 6) == 4 * Power2(m + 4);
      }
    }
  }

  lemma SixtyFourBits()
    ensures Power2(64) == WORD
  {
    EightBitsEach(8);
    EightBytes();
  }

  /** Bits below n do not see multiples of the n-th power. */
  lemma {:induction false} BitShift(v: int, q: int, n: nat, i: nat)
    requires i < n
    ensures Bit(v + Power2(n) * q, i) == Bit(v, i)
    decreases n
  {
    var h := Power2(n - 1) * q;
    assert Power2(n) * q == 2 * h;
    assert (v + 2 * h) % 2 == v % 2 && (v + 2 * h) / 2 == v / 2 + h;
    if i > 0 {
      BitShift(v / 2, q, n - 1, i - 1);
    }
  }

  lemma SignedCases(c: int)
    requires 0 <= c < WORD
    ensures Signed(c) == c || Signed(c) == c + WORD * -1
  {
  }

  /** The word made of combined bits has these bits. */
  lemma WordBits(f: (bool, bool) -> bool, a: int, b: int, i: nat)
    requires i < 64
    ensures Bit(Signed(Combined(f, a, b, 64)), i) == f(Bit(a, i), Bit(b, i))
  {
    hide *;
    SixtyFourBits();
    CombinedBound(f, a, b, 64);
    CombinedBit(f, a, b, 64, i);
    BitShift(Combined(f, a, b, 64), -1, 64, i);
    SignedCases(Combined(f, a, b, 64));
  }

  lemma {:induction false} AndWithItself(a: int, n: nat)
    ensures exists q :: a == Combined(And, a, a, n) + Power2(n) * q
    decreases n
  {
    if n == 0 {
      assert a == Combined(And, a, a, 0) + Power2(0) * a;
    } else {
      AndWithItself(a / 2, n - 1);
      var q :| a / 2 == Combined(And, a / 2, a / 2, n - 1) + Power2(n - 1) * q;
      assert Power2(n) * q == 2 * (Power2(n - 1) * q);
      assert a == Combined(And, a, a, n) + Power2(n) * q;
    }
  }

  lemma {:induction false} XorWithItself(a: int, n: nat)
    ensures Combined(Xor, a, a, n) == 0
    decreases n
  {
    if n > 0 {
      XorWithItself(a / 2, n - 1);
    }
  }

  /** A word and itself. */
  lemma SelfCombined(a: int)
    requires IsWord(a)
    ensures Signed(Combined(And, a, a, 64)) == a && Signed(Combined(Xor, a, a, 64)) == 0
  {
    hide *;
    AndWithItself(a, 64);
    var q :| a == Combined(And, a, a, 64) + Power2(64) * q;
    SixtyFourBits();
    SignedShift(Combined(And, a, a, 64), q);
    SignedWord(a);
    XorWithItself(a, 64);
    SignedZero();
  }

  lemma SignedZero()
    ensures Signed(0) == 0
  {
    hide Power256;
  }
}
