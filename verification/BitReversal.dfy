/**
  The decoder's bit reversal by masks (kernel/src/include/ssfn.h:466-478), and the proof that it
  reverses bits.
 */
module BitReversal {
  import opened Bits

  /** Swaps bits i and i + d by two masks: ((n & hi) >> d) | ((n & lo) << d). */
  function MaskSwap(n: nat, hi: nat, lo: nat, d: nat): nat {
    Or(Shr(And(n, hi), d), Shl(And(n, lo), d))
  }

  function BitReverse16(n: nat): nat {
    var n1 := MaskSwap(n, 0xAAAA, 0x5555, 1);
    var n2 := MaskSwap(n1, 0xCCCC, 0x3333, 2);
    var n3 := MaskSwap(n2, 0xF0F0, 0x0F0F, 4);
    MaskSwap(n3, 0xFF00, 0x00FF, 8)
  }

  function BitReverse(v: nat, bits: nat): nat
    requires bits <= 16
  {
    Shr(BitReverse16(v), 16 - bits)
  }

  lemma BitMaskSwap(n: nat, hi: nat, lo: nat, d: nat, i: nat)
    ensures Bit(MaskSwap(n, hi, lo, d), i) ==
            if (Bit(n, i + d) == 1 && Bit(hi, i + d) == 1) || (d <= i && Bit(n, i - d) == 1 && Bit(lo, i - d) == 1)
            then 1 else 0
  {
    BitOr(Shr(And(n, hi), d), Shl(And(n, lo), d), i);
    BitShr(And(n, hi), d, i);
    BitShl(And(n, lo), d, i);
    BitAnd(n, hi, i + d);
    if d <= i { BitAnd(n, lo, i - d); }
  }

  /** k copies of d ones below d zeros. */
  function OnesBlocks(d: nat, k: nat): nat {
    if k == 0 then 0 else Pow2(d) - 1 + Shl(OnesBlocks(d, k - 1), 2 * d)
  }

  lemma BlockIndexStep(d: nat, i: nat)
    requires d == 1 || d == 2 || d == 4 || d == 8
    ensures i < 2 * d ==> (i / d % 2 == 0 <==> i < d)
    ensures i >= 2 * d ==> (i - 2 * d) / d % 2 == i / d % 2
  {
    if d == 1 { StepOne(i); } else if d == 2 { StepTwo(i); } else if d == 4 { StepFour(i); } else { StepEight(i); }
  }

  lemma StepOne(i: nat)
    ensures (i < 2 ==> (i % 2 == 0 <==> i < 1)) && (i >= 2 ==> (i - 2) % 2 == i % 2)
  {}

  lemma StepTwo(i: nat)
    ensures (i < 4 ==> (i / 2 % 2 == 0 <==> i < 2)) && (i >= 4 ==> (i - 4) / 2 % 2 == i / 2 % 2)
  {}

  lemma StepFour(i: nat)
    ensures (i < 8 ==> (i / 4 % 2 == 0 <==> i < 4)) && (i >= 8 ==> (i - 8) / 4 % 2 == i / 4 % 2)
  {}

  lemma StepEight(i: nat)
    ensures (i < 16 ==> (i / 8 % 2 == 0 <==> i < 8)) && (i >= 16 ==> (i - 16) / 8 % 2 == i / 8 % 2)
  {}

  function Width(d: nat, k: nat): nat {
    if k == 0 then 0 else 2 * d + Width(d, k - 1)
  }

  lemma {:induction false} OnesBlocksBit(d: nat, k: nat, i: nat)
    requires d == 1 || d == 2 || d == 4 || d == 8
    ensures Bit(OnesBlocks(d, k), i) == if i < Width(d, k) && i / d % 2 == 0 then 1 else 0
    decreases k
  {
    hide Bit, Shl, Pow2;
    if k == 0 {
      BitZero(i);
    } else {
      Pow2Mono(d, 2 * d);
      BlockIndexStep(d, i);
      BitGlue(Pow2(d) - 1, OnesBlocks(d, k - 1), 2 * d, i);
      BitOnes(d, i);
      if i >= 2 * d { OnesBlocksBit(d, k - 1, i - 2 * d); }
    }
  }

  /** The position in the neighbouring block of d bits. */
  function Flip(i: nat, d: nat): (j: nat)
    requires d > 0
  {
    if i / d % 2 == 0 then i + d else i - d
  }

  lemma FlipOnesBlocks(i: nat, d: nat)
    requires (d == 1 || d == 2 || d == 4 || d == 8) && i < 16
    ensures Flip(i, d) < 16
    ensures (i + d) / d % 2 != i / d % 2
    ensures d <= i ==> (i - d) / d % 2 != i / d % 2
  {
    if d == 1 {} else if d == 2 {} else if d == 4 {} else {}
  }

  /** m is n with every bit moved to the neighbouring block of d bits. */
  ghost predicate Swapped(m: nat, n: nat, d: nat)
    requires d > 0
  {
    forall i: nat :: i < 16 ==> Flip(i, d) >= 0 && Bit(m, i) == Bit(n, Flip(i, d))
  }

  lemma StageMaskBits(d: nat, k: nat, i: nat)
    requires (d == 1 || d == 2 || d == 4 || d == 8) && Width(d, k) == 16 && i < 16
    ensures i / d % 2 == 0 ==> Bit(Shl(OnesBlocks(d, k), d), i + d) == 1 && (d <= i ==>
        Bit(OnesBlocks(d, k), i - d) == 0)
    ensures i / d % 2 == 1 ==> Bit(Shl(OnesBlocks(d, k), d), i + d) == 0 && d <= i && Bit(OnesBlocks(d, k), i - d) == 1
  {
    FlipOnesBlocks(i, d);
    BitShl(OnesBlocks(d, k), d, i + d);
    OnesBlocksBit(d, k, i);
    if d <= i { OnesBlocksBit(d, k, i - d); }
  }

  lemma StageSwaps(n: nat, hi: nat, lo: nat, d: nat, k: nat)
    requires (d == 1 || d == 2 || d == 4 || d == 8) && Width(d, k) == 16
    requires lo == OnesBlocks(d, k) && hi == Shl(lo, d)
    ensures Swapped(MaskSwap(n, hi, lo, d), n, d)
  {
    forall i: nat | i < 16
      ensures Flip(i, d) >= 0 && Bit(MaskSwap(n, hi, lo, d), i) == Bit(n, Flip(i, d))
    {
      StageMaskBits(d, k, i);
      BitMaskSwap(n, hi, lo, d, i);
    }
  }

  lemma Stage1(n: nat)
    ensures Swapped(MaskSwap(n, 0xAAAA, 0x5555, 1), n, 1)
  {
    assert Width(1, 8) == 16;
    assert OnesBlocks(1, 2) == 0x05 && OnesBlocks(1, 4) == 0x55 && OnesBlocks(1, 6) == 0x0555;
    StageSwaps(n, 0xAAAA, 0x5555, 1, 8);
  }

  lemma Stage2(n: nat)
    ensures Swapped(MaskSwap(n, 0xCCCC, 0x3333, 2), n, 2)
  {
    StageSwaps(n, 0xCCCC, 0x3333, 2, 4);
  }

  lemma Stage4(n: nat)
    ensures Swapped(MaskSwap(n, 0xF0F0, 0x0F0F, 4), n, 4)
  {
    StageSwaps(n, 0xF0F0, 0x0F0F, 4, 2);
  }

  lemma Stage8(n: nat)
    ensures Swapped(MaskSwap(n, 0xFF00, 0x00FF, 8), n, 8)
  {
    assert Pow2(4) == 0x10 && Pow2(8) == 0x100 && Shl(0xFF, 4) == 0x0FF0;
    ShlZero(16);
    StageSwaps(n, 0xFF00, 0x00FF, 8, 1);
  }

  lemma FourFlips(i: nat)
    requires i < 16
    ensures var f8 := Flip(i, 8); var f4 := Flip(f8, 4); var f2 := Flip(f4, 2); Flip(f2, 1) == 15 - i
  {}

  lemma ChainedStages(n: nat, n1: nat, n2: nat, n3: nat, n4: nat, i: nat)
    requires Swapped(n1, n, 1) && Swapped(n2, n1, 2) && Swapped(n3, n2, 4) && Swapped(n4, n3, 8)
    requires i < 16
    ensures Bit(n4, i) == Bit(n, 15 - i)
  {
    var f8 := Flip(i, 8);
    var f4 := Flip(f8, 4);
    var f2 := Flip(f4, 2);
    FlipOnesBlocks(i, 8);
    FlipOnesBlocks(f8, 4);
    FlipOnesBlocks(f4, 2);
    FourFlips(i);
  }

  /** The four mask stages reverse the sixteen low bits. */
  lemma BitReverse16Correct(n: nat)
    ensures BitReverse16(n) == Rev(n, 16)
  {
    var n1 := MaskSwap(n, 0xAAAA, 0x5555, 1);
    var n2 := MaskSwap(n1, 0xCCCC, 0x3333, 2);
    var n3 := MaskSwap(n2, 0xF0F0, 0x0F0F, 4);
    Stage1(n);
    Stage2(n1);
    Stage4(n2);
    Stage8(n3);
    forall i: nat | i < 16 ensures Bit(BitReverse16(n), i) == Bit(Rev(n, 16), i) {
      ChainedStages(n, n1, n2, n3, BitReverse16(n), i);
      BitRev(n, 16, i);
    }
    MaskSwap8Bound(n3);
    RevBound(n, 16);
    BitsEqual(BitReverse16(n), Rev(n, 16), 16);
  }

  lemma MaskSwap8Bound(n: nat)
    ensures MaskSwap(n, 0xFF00, 0x00FF, 8) < Pow2(16)
  {
    Pow2Values();
    assert Shl(0xFF, 4) == 0x0FF0;
    assert Shl(0xFF, 8) == 0xFF00;
    AndLe(n, 0xFF00);
    AndLe(n, 0x00FF);
    ShlMono(And(n, 0x00FF), 0xFF, 8);
    OrBound(Shr(And(n, 0xFF00), 8), Shl(And(n, 0x00FF), 8), 16);
  }

  /** The decoder's reversal gives the s low bits in reverse order. */
  lemma BitReverseCorrect(v: nat, s: nat)
    requires s <= 16
    ensures BitReverse(v, s) == Rev(v, s)
  {
    BitReverse16Correct(v);
    RevPrefix(v, s, 16);
  }
}
