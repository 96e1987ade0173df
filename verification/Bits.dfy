/**
  The C bit operators on natural numbers, and the facts the kernel's bit manipulation relies on.
  Every operator is defined bit by bit, so that proofs about them stay free of multiplication.
 */
module Bits {

  function Pow2(n: nat): (p: nat)
    ensures p > 0
  {
    if n == 0 then 1 else 2 * Pow2(n - 1)
  }

  function Shl(x: nat, n: nat): (r: nat)
    ensures r >= x
  {
    if n == 0 then x else 2 * Shl(x, n - 1)
  }

  function Shr(x: nat, n: nat): (r: nat)
    ensures r <= x
  {
    if n == 0 then x else Shr(x / 2, n - 1)
  }

  /** The n low bits of x. */
  function Low(x: nat, n: nat): nat {
    if n == 0 then 0 else x % 2 + 2 * Low(x / 2, n - 1)
  }

  function And(x: nat, y: nat): nat {
    if x == 0 || y == 0 then 0 else (if x % 2 == 1 && y % 2 == 1 then 1 else 0) + 2 * And(x / 2, y / 2)
  }

  function Or(x: nat, y: nat): nat {
    if x == 0 then y else if y == 0 then x
    else (if x % 2 == 1 || y % 2 == 1 then 1 else 0) + 2 * Or(x / 2, y / 2)
  }

  function Xor(x: nat, y: nat): nat {
    if x == 0 then y else if y == 0 then x
    else (if x % 2 != y % 2 then 1 else 0) + 2 * Xor(x / 2, y / 2)
  }

  /** Bit i of x, counted from the least significant end. */
  function Bit(x: nat, i: nat): (b: nat)
    ensures b < 2
  {
    if i == 0 then x % 2 else Bit(x / 2, i - 1)
  }

  /** The n low bits of v, in reverse order. */
  function Rev(v: nat, n: nat): nat {
    if n == 0 then 0 else Shl(v % 2, n - 1) + Rev(v / 2, n - 1)
  }

  // ----- Shifts and low parts -----

  lemma Pow2Values()
    ensures Pow2(4) == 0x10 && Pow2(8) == 0x100 && Pow2(9) == 0x200 && Pow2(15) == 0x8000 && Pow2(16) == 0x1_0000
    ensures Pow2(24) == 0x100_0000 && Pow2(32) == 0x1_0000_0000
  {
    assert Pow2(4) == 0x10;
    assert Pow2(8) == 0x100;
    assert Pow2(12) == 0x1000;
    assert Pow2(16) == 0x1_0000;
    assert Pow2(20) == 0x10_0000;
    assert Pow2(24) == 0x100_0000;
    assert Pow2(28) == 0x1000_0000;
  }

  lemma {:induction false} Pow2Mono(m: nat, n: nat)
    requires m <= n
    ensures Pow2(m) <= Pow2(n)
    decreases n
  {
    if m < n { Pow2Mono(m, n - 1); }
  }

  lemma {:induction false} ShlOne(n: nat)
    ensures Shl(1, n) == Pow2(n)
  {
    if n > 0 { ShlOne(n - 1); }
  }

  lemma {:induction false} ShlZero(n: nat)
    ensures Shl(0, n) == 0
  {
    if n > 0 { ShlZero(n - 1); }
  }

  lemma {:induction false} ShlAdd(x: nat, y: nat, n: nat)
    ensures Shl(x + y, n) == Shl(x, n) + Shl(y, n)
  {
    if n > 0 { ShlAdd(x, y, n - 1); }
  }

  lemma {:induction false} ShlMono(x: nat, y: nat, n: nat)
    ensures x <= y <==> Shl(x, n) <= Shl(y, n)
  {
    if n > 0 { ShlMono(x, y, n - 1); }
  }

  lemma {:induction false} ShlShl(x: nat, m: nat, n: nat)
    ensures Shl(Shl(x, m), n) == Shl(x, m + n)
  {
    if n > 0 { ShlShl(x, m, n - 1); }
  }

  /** Doubling first or last is the same. */
  lemma {:induction false} ShlDouble(x: nat, n: nat)
    ensures Shl(2 * x, n) == 2 * Shl(x, n)
  {
    if n > 0 { ShlDouble(x, n - 1); }
  }

  lemma {:induction false} ShrShr(x: nat, m: nat, n: nat)
    ensures Shr(Shr(x, m), n) == Shr(x, m + n)
  {
    if m > 0 { ShrShr(x / 2, m - 1, n); }
  }

  /** A quotient reaches q exactly when the number reaches q shifted back. */
  lemma {:induction false} ShrAtLeast(x: nat, q: nat, n: nat)
    ensures Shr(x, n) >= q <==> x >= Shl(q, n)
  {
    if n > 0 { ShrAtLeast(x / 2, q, n - 1); }
  }

  lemma {:induction false} LowBound(x: nat, n: nat)
    ensures Low(x, n) < Pow2(n)
  {
    if n > 0 { LowBound(x / 2, n - 1); }
  }

  lemma {:induction false} LowIdentity(x: nat, n: nat)
    requires x < Pow2(n)
    ensures Low(x, n) == x
  {
    if n > 0 { LowIdentity(x / 2, n - 1); }
  }

  lemma {:induction false} LowLow(x: nat, m: nat, n: nat)
    requires m <= n
    ensures Low(Low(x, n), m) == Low(x, m)
  {
    if m > 0 { LowLow(x / 2, m - 1, n - 1); }
  }

  lemma {:induction false} ShrLow(x: nat, n: nat, s: nat)
    requires s <= n
    ensures Shr(Low(x, n), s) == Low(Shr(x, s), n - s)
  {
    if s > 0 { ShrLow(x / 2, n - 1, s - 1); }
  }

  /** Gluing y above an m-bit number, and taking the two apart again. */
  lemma {:induction false} Glue(x: nat, y: nat, m: nat)
    requires x < Pow2(m)
    ensures Low(x + Shl(y, m), m) == x
    ensures Shr(x + Shl(y, m), m) == y
  {
    if m > 0 {
      assert (x + Shl(y, m)) / 2 == x / 2 + Shl(y, m - 1) && (x + Shl(y, m)) % 2 == x % 2;
      Glue(x / 2, y, m - 1);
    }
  }

  // ----- Arithmetic meaning of shifts and low parts -----

  lemma {:induction false} ShlIsProduct(x: nat, n: nat)
    ensures Shl(x, n) == x * Pow2(n)
  {
    if n > 0 {
      ShlIsProduct(x, n - 1);
      MulTwice(x, Pow2(n - 1));
    }
  }

  lemma {:induction false} LowIsRemainder(x: nat, n: nat)
    ensures Low(x, n) == x % Pow2(n)
  {
    Split(x, n);
    LowBound(x, n);
    ShlIsProduct(Shr(x, n), n);
    MulComm(Shr(x, n), Pow2(n));
    DivUnique(x, Pow2(n), Shr(x, n), Low(x, n));
  }

  lemma {:induction false} Split(x: nat, n: nat)
    ensures x == Low(x, n) + Shl(Shr(x, n), n)
  {
    if n > 0 { Split(x / 2, n - 1); }
  }

  lemma MulTwice(x: int, p: int)
    ensures x * (2 * p) == 2 * (x * p)
  {}

  lemma MulComm(x: int, p: int)
    ensures x * p == p * x
  {}

  lemma MulDistrib(a: int, b: int, c: int)
    ensures a * (b + c) == a * b + a * c
  {}

  lemma MulLe(a: nat, b: nat, c: nat)
    requires a <= b
    ensures c * a <= c * b
  {
    MulDistrib(c, a, b - a);
  }

  lemma DivUnique(x: int, d: nat, q: int, r: nat)
    requires d > 0 && x == d * q + r && r < d
    ensures x / d == q && x % d == r
  {
    var q', r' := x / d, x % d;
    assert d * (q - q') == r' - r by { MulDistrib(d, q, -q'); }
    assert d * (q' - q) == r - r' by { MulDistrib(d, q', -q); }
    if q > q' { MulLe(1, q - q', d); }
    if q < q' { MulLe(1, q' - q, d); }
  }

  // ----- Masks and disjoint unions -----

  /** x & ((1 << n) - 1) keeps the n low bits. */
  lemma {:induction false} AndMask(x: nat, n: nat)
    ensures And(x, Shl(1, n) - 1) == Low(x, n)
  {
    if n == 0 {
    } else if x == 0 {
      LowIdentity(0, n);
    } else {
      AndMask(x / 2, n - 1);
      if n == 1 { LowIdentity(0, 0); }
    }
  }

  lemma {:induction false} AndLe(x: nat, y: nat)
    ensures And(x, y) <= y && And(x, y) <= x
  {
    if x != 0 && y != 0 { AndLe(x / 2, y / 2); }
  }

  lemma {:induction false} OrBound(x: nat, y: nat, n: nat)
    requires x < Pow2(n) && y < Pow2(n)
    ensures Or(x, y) < Pow2(n)
  {
    if x != 0 && y != 0 { OrBound(x / 2, y / 2, n - 1); }
  }

  /** x | (y << n) adds, when x fits below bit n. */
  lemma {:induction false} OrDisjoint(x: nat, y: nat, n: nat)
    requires x < Pow2(n)
    ensures Or(x, Shl(y, n)) == x + Shl(y, n)
    decreases n
  {
    if n > 0 { OrDisjoint(x / 2, y, n - 1); }
  }

  lemma {:induction false} OrCommutes(x: nat, y: nat)
    ensures Or(x, y) == Or(y, x)
  {
    if x != 0 && y != 0 { OrCommutes(x / 2, y / 2); }
  }

  /** The C idiom x ^ 0xff..f is the complement within n bits. */
  lemma {:induction false} XorOnes(x: nat, n: nat)
    requires x < Pow2(n)
    ensures Xor(x, Pow2(n) - 1) == Pow2(n) - 1 - x
  {
    if n > 0 { XorOnes(x / 2, n - 1); }
  }

  // ----- Single bits -----

  lemma {:induction false} BitZero(i: nat)
    ensures Bit(0, i) == 0
  {
    if i > 0 { BitZero(i - 1); }
  }

  lemma {:induction false} BitAnd(x: nat, y: nat, i: nat)
    ensures Bit(And(x, y), i) == if Bit(x, i) == 1 && Bit(y, i) == 1 then 1 else 0
  {
    BitZero(i);
    if x != 0 && y != 0 {
      var a := And(x, y);
      assert a / 2 == And(x / 2, y / 2) && a % 2 == if x % 2 == 1 && y % 2 == 1 then 1 else 0;
      if i > 0 { BitAnd(x / 2, y / 2, i - 1); }
    }
  }

  lemma {:induction false} BitOr(x: nat, y: nat, i: nat)
    ensures Bit(Or(x, y), i) == if Bit(x, i) == 1 || Bit(y, i) == 1 then 1 else 0
  {
    BitZero(i);
    if x != 0 && y != 0 && i > 0 { BitOr(x / 2, y / 2, i - 1); }
  }

  lemma {:induction false} BitShr(x: nat, k: nat, i: nat)
    ensures Bit(Shr(x, k), i) == Bit(x, i + k)
  {
    if k > 0 { BitShr(x / 2, k - 1, i); }
  }

  /** Bits of a number glued above an m-bit one. */
  lemma {:induction false} BitGlue(x: nat, y: nat, m: nat, i: nat)
    requires x < Pow2(m)
    ensures Bit(x + Shl(y, m), i) == if i < m then Bit(x, i) else Bit(y, i - m)
  {
    if m > 0 {
      assert (x + Shl(y, m)) / 2 == x / 2 + Shl(y, m - 1) && (x + Shl(y, m)) % 2 == x % 2;
      if i > 0 { BitGlue(x / 2, y, m - 1, i - 1); }
    }
  }

  lemma BitShl(x: nat, k: nat, i: nat)
    ensures Bit(Shl(x, k), i) == if i < k then 0 else Bit(x, i - k)
  {
    BitGlue(0, x, k, i);
    BitZero(i);
  }

  lemma {:induction false} BitOnes(n: nat, i: nat)
    ensures Bit(Pow2(n) - 1, i) == if i < n then 1 else 0
  {
    if n == 0 {
      BitZero(i);
    } else {
      assert (Pow2(n) - 1) / 2 == Pow2(n - 1) - 1;
      if i > 0 { BitOnes(n - 1, i - 1); }
    }
  }

  lemma {:induction false} BitsEqual(x: nat, y: nat, n: nat)
    requires x < Pow2(n) && y < Pow2(n)
    requires forall i: nat :: i < n ==> Bit(x, i) == Bit(y, i)
    ensures x == y
  {
    if n > 0 {
      assert Bit(x, 0) == Bit(y, 0);
      forall i: nat | i < n - 1 ensures Bit(x / 2, i) == Bit(y / 2, i) {
        assert Bit(x, i + 1) == Bit(y, i + 1);
      }
      BitsEqual(x / 2, y / 2, n - 1);
    }
  }

  // ----- Bit reversal -----

  lemma {:induction false} RevBound(v: nat, n: nat)
    ensures Rev(v, n) < Pow2(n)
  {
    if n > 0 {
      RevBound(v / 2, n - 1);
      ShlOne(n - 1);
      ShlZero(n - 1);
    }
  }

  lemma {:induction false} BitRev(v: nat, n: nat, i: nat)
    requires i < n
    ensures Bit(Rev(v, n), i) == Bit(v, n - 1 - i)
  {
    RevBound(v / 2, n - 1);
    BitGlue(Rev(v / 2, n - 1), v % 2, n - 1, i);
    if i < n - 1 { BitRev(v / 2, n - 1, i); }
  }

  /** Reversing twice gives back an n-bit number. */
  lemma RevRev(v: nat, n: nat)
    requires v < Pow2(n)
    ensures Rev(Rev(v, n), n) == v
  {
    RevBound(v, n);
    RevBound(Rev(v, n), n);
    forall i: nat | i < n ensures Bit(Rev(Rev(v, n), n), i) == Bit(v, i) {
      BitRev(Rev(v, n), n, i);
      BitRev(v, n, n - 1 - i);
    }
    BitsEqual(Rev(Rev(v, n), n), v, n);
  }

  lemma {:induction false} RevLow(v: nat, s: nat)
    ensures Rev(Low(v, s), s) == Rev(v, s)
  {
    if s > 0 {
      RevLow(v / 2, s - 1);
      LowParts(v, s);
      RevStep(v, s);
      RevStep(Low(v, s), s);
      hide Rev, Low, Shl;
    }
  }

  lemma LowParts(v: nat, s: nat)
    requires s > 0
    ensures Low(v, s) % 2 == v % 2 && Low(v, s) / 2 == Low(v / 2, s - 1)
  {}

  lemma RevStep(v: nat, n: nat)
    requires n > 0
    ensures Rev(v, n) == Shl(v % 2, n - 1) + Rev(v / 2, n - 1)
  {}

  /** Reversing the s low bits gives the s high bits of the n-bit reversal. */
  lemma {:induction false} RevPrefix(v: nat, s: nat, n: nat)
    requires s <= n
    ensures Rev(v, s) == Shr(Rev(v, n), n - s)
    decreases s
  {
    if s == 0 {
      RevBound(v, n);
      Glue(Rev(v, n), 0, n);
      ShlZero(n);
    } else {
      RevPrefix(v / 2, s - 1, n - 1);
      ShlShl(v % 2, s - 1, n - s);
      ShrAdd(Rev(v / 2, n - 1), Shl(v % 2, s - 1), n - s);
    }
  }

  lemma {:induction false} ShrAdd(x: nat, y: nat, n: nat)
    ensures Shr(x + Shl(y, n), n) == Shr(x, n) + y
  {
    if n > 0 {
      assert (x + Shl(y, n)) / 2 == x / 2 + Shl(y, n - 1);
      ShrAdd(x / 2, y, n - 1);
    }
  }
}
