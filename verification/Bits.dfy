/** Bitwise operations on natural numbers, defined one binary digit at a time.

    The source works on uint32_t and uint64_t words and on Python integers.
    Every word is modelled as a natural number; where a fixed width matters the
    wrap-around is written out at the place it happens. */
module Bits {

  /** Two to the power n. */
  function Pow2(n: nat): (r: nat)
    ensures r > 0
  {
    if n == 0 then 1 else 2 * Pow2(n - 1)
  }

  /** The value shifted left by k, without losing any bit. */
  function Shl(a: nat, k: nat): nat {
    if k == 0 then a else 2 * Shl(a, k - 1)
  }

  /** The value shifted right by k. */
  function Shr(a: nat, k: nat): nat {
    if k == 0 then a else Shr(a / 2, k - 1)
  }

  /** The bit at position i, least significant first. */
  predicate Bit(n: nat, i: nat) {
    if i == 0 then n % 2 == 1 else Bit(n / 2, i - 1)
  }

  /** Bitwise conjunction. */
  function BitAnd(a: nat, b: nat): nat {
    if a == 0 || b == 0 then 0
    else 2 * BitAnd(a / 2, b / 2) + if a % 2 == 1 && b % 2 == 1 then 1 else 0
  }

  /** Bitwise disjunction. */
  function BitOr(a: nat, b: nat): nat
    decreases a + b
  {
    if a == 0 then b
    else if b == 0 then a
    else 2 * BitOr(a / 2, b / 2) + if a % 2 == 1 || b % 2 == 1 then 1 else 0
  }

  /** Bitwise exclusive or. */
  function BitXor(a: nat, b: nat): nat
    decreases a + b
  {
    if a == 0 then b
    else if b == 0 then a
    else 2 * BitXor(a / 2, b / 2) + if a % 2 != b % 2 then 1 else 0
  }

  /** The number of set bits. */
  function PopCount(n: nat): nat {
    if n == 0 then 0 else n % 2 + PopCount(n / 2)
  }

  lemma {:induction false} ZeroBit(i: nat)
    ensures !Bit(0, i)
  {
    if i > 0 { ZeroBit(i - 1); }
  }

  lemma {:induction false} AndBit(a: nat, b: nat, i: nat)
    ensures Bit(BitAnd(a, b), i) == (Bit(a, i) && Bit(b, i))
    decreases i
  {
    ZeroBit(i);
    if i > 0 && a != 0 && b != 0 { AndBit(a / 2, b / 2, i - 1); }
  }

  lemma {:induction false} OrBit(a: nat, b: nat, i: nat)
    ensures Bit(BitOr(a, b), i) == (Bit(a, i) || Bit(b, i))
    decreases i
  {
    ZeroBit(i);
    if i > 0 && a != 0 && b != 0 { OrBit(a / 2, b / 2, i - 1); }
  }

  lemma {:induction false} XorBit(a: nat, b: nat, i: nat)
    ensures Bit(BitXor(a, b), i) == (Bit(a, i) != Bit(b, i))
    decreases i
  {
    ZeroBit(i);
    if i > 0 && a != 0 && b != 0 { XorBit(a / 2, b / 2, i - 1); }
  }

  /** A number is determined by its bits. */
  lemma {:induction false} Extensional(a: nat, b: nat)
    requires forall i: nat :: Bit(a, i) == Bit(b, i)
    ensures a == b
    decreases a + b
  {
    assert Bit(a, 0) == Bit(b, 0);
    if a != b {
      forall i: nat ensures Bit(a / 2, i) == Bit(b / 2, i) {
        assert Bit(a, i + 1) == Bit(b, i + 1);
      }
      Extensional(a / 2, b / 2);
    }
  }

  /** A nonzero number has a set bit. */
  lemma {:induction false} SomeBit(a: nat) returns (i: nat)
    requires a != 0
    ensures Bit(a, i)
    decreases a
  {
    if a % 2 == 1 {
      i := 0;
    } else {
      i := SomeBit(a / 2);
      i := i + 1;
    }
  }

  /** No bit at or above position n is set in a number below 2^n. */
  lemma {:induction false} HighBitsClear(a: nat, n: nat, i: nat)
    requires a < Pow2(n) && i >= n
    ensures !Bit(a, i)
    decreases n
  {
    if n == 0 {
      ZeroBit(i);
    } else {
      HighBitsClear(a / 2, n - 1, i - 1);
    }
  }

  /** A number with no bit set at or above position n is below 2^n. */
  lemma {:induction false} BoundedByBits(a: nat, n: nat)
    requires forall i: nat :: i >= n ==> !Bit(a, i)
    ensures a < Pow2(n)
    decreases n
  {
    if n == 0 {
      if a != 0 { var i := SomeBit(a); }
    } else {
      forall i: nat | i >= n - 1 ensures !Bit(a / 2, i) { assert !Bit(a, i + 1); }
      BoundedByBits(a / 2, n - 1);
    }
  }

  lemma {:induction false} Pow2Add(a: nat, b: nat)
    ensures Pow2(a + b) == Pow2(a) * Pow2(b)
  {
    if a > 0 {
      Pow2Add(a - 1, b);
      assert Pow2(a + b) == 2 * Pow2(a - 1 + b);
    }
  }

  lemma {:induction false} ShlIsMul(a: nat, k: nat)
    ensures Shl(a, k) == a * Pow2(k)
  {
    if k > 0 {
      ShlIsMul(a, k - 1);
      assert a * Pow2(k) == 2 * (a * Pow2(k - 1));
    }
  }

  lemma {:induction false} Pow2Monotone(a: nat, b: nat)
    requires a <= b
    ensures Pow2(a) <= Pow2(b)
    decreases b - a
  {
    if a < b { Pow2Monotone(a + 1, b); }
  }

  /** Shifting right by k moves bit i + k to position i. */
  lemma {:induction false} ShrBit(a: nat, k: nat, i: nat)
    ensures Bit(Shr(a, k), i) == Bit(a, i + k)
    decreases k
  {
    if k > 0 { ShrBit(a / 2, k - 1, i); }
  }

  lemma {:induction false} ShrIsDiv(a: nat, k: nat)
    ensures Shr(a, k) == a / Pow2(k)
    decreases k
  {
    if k > 0 {
      ShrIsDiv(a / 2, k - 1);
      DivTwice(a, Pow2(k - 1));
    }
  }

  lemma DivTwice(a: nat, d: nat)
    requires d > 0
    ensures a / 2 / d == a / (2 * d)
  {
    var q, r := a / (2 * d), a % (2 * d);
    assert a == 2 * d * q + r;
    assert a / 2 == d * q + r / 2;
    DivUnique(a / 2, d, q, r / 2);
  }

  /** Quotient and remainder are determined by their defining equation. */
  lemma DivUnique(a: int, d: int, q: int, r: int)
    requires d > 0 && 0 <= r < d && a == d * q + r
    ensures a / d == q && a % d == r
  {
    var q1, r1 := a / d, a % d;
    var k := q1 - q;
    assert d * k == r - r1 by { MulSub(d, q1, q); }
    if k > 0 { MulAtLeast(d, k); }
    if k < 0 {
      assert d * -k == -(d * k);
      MulAtLeast(d, -k);
    }
  }

  lemma MulSub(d: int, a: int, b: int)
    ensures d * (a - b) == d * a - d * b
  {
  }

  lemma {:induction false} MulAtLeast(d: int, k: int)
    requires d > 0 && k > 0
    ensures d * k >= d
  {
    if k > 1 {
      MulAtLeast(d, k - 1);
      MulSub(d, k, 1);
    }
  }

  // ----- joining and splitting at a bit position

  /** Or-ing a value below 2^k into a multiple of 2^k adds it. */
  lemma {:induction false} OrLow(a: nat, k: nat, b: nat)
    requires b < Pow2(k)
    ensures BitOr(Shl(a, k), b) == Shl(a, k) + b
    decreases k
  {
    if k > 0 { OrLow(a, k - 1, b / 2); }
  }

  /** Conjunction works on the parts above and below position k separately. */
  lemma {:induction false} AndSplit(a: nat, b: nat, c: nat, d: nat, k: nat)
    requires b < Pow2(k) && d < Pow2(k)
    ensures BitAnd(Shl(a, k) + b, Shl(c, k) + d) == Shl(BitAnd(a, c), k) + BitAnd(b, d)
    decreases k
  {
    hide BitAnd;
    if k == 0 {
      AndZeros(b, d);
    } else {
      AndSplit(a, b / 2, c, d / 2, k - 1);
      AndDouble(Shl(a, k - 1), b, Shl(c, k - 1), d, Shl(BitAnd(a, c), k - 1));
    }
  }

  lemma AndZeros(b: nat, d: nat)
    requires b == 0 && d == 0
    ensures BitAnd(b, d) == 0
  {
  }

  lemma AndDouble(u: nat, b: nat, v: nat, d: nat, w: nat)
    requires BitAnd(u + b / 2, v + d / 2) == w + BitAnd(b / 2, d / 2)
    ensures BitAnd(2 * u + b, 2 * v + d) == 2 * w + BitAnd(b, d)
  {
    hide BitAnd;
    Halve(u, b);
    Halve(v, d);
    AndStep(2 * u + b, 2 * v + d);
    AndStep(b, d);
  }

  /** Disjunction works on the parts above and below position k separately. */
  lemma {:induction false} OrSplit(a: nat, b: nat, c: nat, d: nat, k: nat)
    requires b < Pow2(k) && d < Pow2(k)
    ensures BitOr(Shl(a, k) + b, Shl(c, k) + d) == Shl(BitOr(a, c), k) + BitOr(b, d)
    decreases k
  {
    hide BitOr;
    if k == 0 {
      OrZeros(b, d);
    } else {
      OrSplit(a, b / 2, c, d / 2, k - 1);
      OrDouble(Shl(a, k - 1), b, Shl(c, k - 1), d, Shl(BitOr(a, c), k - 1));
    }
  }

  lemma OrZeros(b: nat, d: nat)
    requires b == 0 && d == 0
    ensures BitOr(b, d) == 0
  {
  }

  lemma OrDouble(u: nat, b: nat, v: nat, d: nat, w: nat)
    requires BitOr(u + b / 2, v + d / 2) == w + BitOr(b / 2, d / 2)
    ensures BitOr(2 * u + b, 2 * v + d) == 2 * w + BitOr(b, d)
  {
    hide BitOr;
    Halve(u, b);
    Halve(v, d);
    OrStep(2 * u + b, 2 * v + d);
    OrStep(b, d);
  }

  lemma Halve(u: nat, b: nat)
    ensures (2 * u + b) / 2 == u + b / 2 && (2 * u + b) % 2 == b % 2
  {
  }

  lemma OrStep(a: nat, b: nat)
    ensures BitOr(a, b) == 2 * BitOr(a / 2, b / 2) + if a % 2 == 1 || b % 2 == 1 then 1 else 0
  {
  }

  lemma AndStep(a: nat, b: nat)
    ensures BitAnd(a, b) == 2 * BitAnd(a / 2, b / 2) + if a % 2 == 1 && b % 2 == 1 then 1 else 0
  {
  }

  /** Masking with n ones keeps a value below 2^n. */
  lemma {:induction false} AndOnes(a: nat, n: nat)
    requires a < Pow2(n)
    ensures BitAnd(a, Pow2(n) - 1) == a && BitAnd(Pow2(n) - 1, a) == a
    decreases n
  {
    if n > 0 {
      assert (Pow2(n) - 1) / 2 == Pow2(n - 1) - 1;
      AndOnes(a / 2, n - 1);
    }
  }

  /** Or-ing a field into the zero bits below a multiple of 2^k adds it. */
  lemma OrField(x: nat, f: nat, k: nat, p: nat)
    requires p == Pow2(k) && f < p && x % p == 0
    ensures BitOr(x, f) == x + f
  {
    hide *;
    ShlIsMul(x / p, k);
    OrLow(x / p, k, f);
  }

  lemma AndZero(a: nat)
    ensures BitAnd(a, 0) == 0
  {
  }

  /** The signed value of the low 32 bits. */
  function AsInt32(x: int): int {
    var r := x % 0x1_0000_0000;
    if r < 0x8000_0000 then r else r - 0x1_0000_0000
  }

  /** Incrementing a counter that wraps is wrapping the incremented counter. */
  lemma WrapIncrement(a: nat, size: nat)
    requires size > 1
    ensures (a % size + 1) % size == (a + 1) % size
  {
    var q, r := a / size, a % size;
    assert a == size * q + r;
    if r + 1 < size {
      DivUnique(a + 1, size, q, r + 1);
      DivUnique(r + 1, size, 0, r + 1);
    } else {
      assert size * (q + 1) == size * q + size;
      DivUnique(a + 1, size, q + 1, 0);
      DivUnique(r + 1, size, 1, 0);
    }
  }
}
