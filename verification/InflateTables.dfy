/**
  What the tables of compressed blocks hold (RFC 1951, sections 3.2.5 to 3.2.7), without the tables: how each length
  and distance is said, what the codes of a fixed block are, and the order of the code-length code.
 */
module InflateTables {
  import opened Bits
  import opened BitStream
  import opened Canonical
  import opened InflateSpec

  // ----- Lengths -----

  /** Eight symbols say one length each; then every four symbols have one extra bit more. */
  lemma LengthExtras(z: nat)
    requires z < 28
    ensures LengthExtra(z) == (if z < 8 then 0 else (z - 4) / 4) && LengthExtra(28) == 0
  {}

  /** The ranges of the symbols follow one another from length 3 on; the last symbol says 258. */
  lemma LengthRanges(z: nat)
    requires z < 28
    ensures LengthBase(0) == 3 && LengthBase(28) == 258 && LengthExtra(28) == 0
    ensures z < 27 ==> LengthBase(z + 1) == LengthBase(z) + Pow2(LengthExtra(z))
    ensures z == 27 ==> LengthBase(z) + Pow2(LengthExtra(z)) == 259
  {
    hide Pow2, LengthExtra;
    SmallPowers();
    LengthExtras(z);
  }

  lemma SmallPowers()
    ensures Pow2(0) == 1 && Pow2(1) == 2 && Pow2(2) == 4 && Pow2(3) == 8 && Pow2(4) == 16 && Pow2(5) == 32
    ensures Pow2(6) == 64 && Pow2(7) == 128 && Pow2(8) == 256 && Pow2(9) == 512 && Pow2(10) == 1024
    ensures Pow2(11) == 2048 && Pow2(12) == 4096 && Pow2(13) == 8192
  {
    assert Pow2(4) == 16;
    assert Pow2(8) == 256;
    assert Pow2(12) == 4096;
  }

  lemma {:induction false} LengthFrom(z: nat)
    requires z <= 28
    ensures 3 <= LengthBase(z)
    decreases z
  {
    hide LengthBase, LengthExtra, Pow2;
    if z > 0 { LengthFrom(z - 1); }
    LengthRanges(if z > 0 then z - 1 else 0);
  }

  lemma {:induction false} LengthTo(z: nat)
    requires z <= 28
    ensures LengthBase(z) + Pow2(LengthExtra(z)) <= 259
    decreases 28 - z
  {
    hide LengthBase, LengthExtra, Pow2;
    if z < 27 { LengthTo(z + 1); }
    LengthRanges(if z < 28 then z else 27);
    SmallPowers();
  }

  /** What the symbols and their extra bits mean: lengths of 3 to 258 bytes. */
  lemma LengthMeans(z: nat, x: nat)
    requires z <= 28 && x < Pow2(LengthExtra(z))
    ensures 3 <= LengthBase(z) + x <= 258
  {
    hide LengthBase, LengthExtra, Pow2;
    LengthFrom(z);
    LengthTo(z);
  }

  /** Every length of 3 to 258 bytes is said by some symbol and its extra bits. */
  lemma EveryLength(len: nat) returns (z: nat, x: nat)
    requires 3 <= len <= 258
    ensures z <= 28 && x < Pow2(LengthExtra(z)) && LengthBase(z) + x == len
  {
    hide LengthBase, LengthExtra, Pow2;
    LengthRanges(27);
    z, x := LengthBelow(len, 27);
  }

  lemma {:induction false} LengthBelow(len: nat, y: nat) returns (z: nat, x: nat)
    requires y < 28 && 3 <= len < LengthBase(y) + Pow2(LengthExtra(y))
    ensures z <= y && x < Pow2(LengthExtra(z)) && LengthBase(z) + x == len
    decreases y
  {
    hide LengthBase, LengthExtra, Pow2;
    LengthRanges(if y > 0 then y - 1 else 0);
    if len >= LengthBase(y) { return y, len - LengthBase(y); }
    z, x := LengthBelow(len, y - 1);
  }

  // ----- Distances -----

  /** Four symbols say one distance each; then every two symbols have one extra bit more. */
  lemma DistanceExtras(d: nat)
    requires d < 30
    ensures DistExtra(d) == if d < 4 then 0 else (d - 2) / 2
  {}

  /** The ranges of the symbols follow one another from distance 1 to 32768. */
  lemma DistanceRanges(d: nat)
    requires d < 30
    ensures DistBase(0) == 1
    ensures d < 29 ==> DistBase(d + 1) == DistBase(d) + Pow2(DistExtra(d))
    ensures d == 29 ==> DistBase(d) + Pow2(DistExtra(d)) == 32769
  {
    hide Pow2, DistExtra;
    SmallPowers();
    DistanceExtras(d);
  }

  lemma {:induction false} DistanceFrom(d: nat)
    requires d < 30
    ensures 1 <= DistBase(d)
    decreases d
  {
    hide DistBase, DistExtra, Pow2;
    if d > 0 { DistanceFrom(d - 1); }
    DistanceRanges(if d > 0 then d - 1 else 0);
  }

  lemma {:induction false} DistanceTo(d: nat)
    requires d < 30
    ensures DistBase(d) + Pow2(DistExtra(d)) <= 32769
    decreases 30 - d
  {
    hide DistBase, DistExtra, Pow2;
    if d < 29 { DistanceTo(d + 1); }
    DistanceRanges(d);
  }

  /** What the symbols and their extra bits mean: distances of 1 to 32768 bytes. */
  lemma DistanceMeans(d: nat, y: nat)
    requires d < 30 && y < Pow2(DistExtra(d))
    ensures 1 <= DistBase(d) + y <= 32768
  {
    hide DistBase, DistExtra, Pow2;
    DistanceFrom(d);
    DistanceTo(d);
  }

  /** Every distance of 1 to 32768 bytes is said by some symbol and its extra bits. */
  lemma EveryDistance(dist: nat) returns (d: nat, y: nat)
    requires 1 <= dist <= 32768
    ensures d < 30 && y < Pow2(DistExtra(d)) && DistBase(d) + y == dist
  {
    hide DistBase, DistExtra, Pow2;
    DistanceRanges(29);
    d, y := DistanceBelow(dist, 29);
  }

  lemma {:induction false} DistanceBelow(dist: nat, e: nat) returns (d: nat, y: nat)
    requires e < 30 && 1 <= dist < DistBase(e) + Pow2(DistExtra(e))
    ensures d <= e && y < Pow2(DistExtra(d)) && DistBase(d) + y == dist
    decreases e
  {
    hide DistBase, DistExtra, Pow2;
    DistanceRanges(if e > 0 then e - 1 else 0);
    if dist >= DistBase(e) { return e, dist - DistBase(e); }
    d, y := DistanceBelow(dist, e - 1);
  }

  /** The reserved symbols have neither length nor distance, as in the kernel's tables. */
  lemma ReservedSymbols(z: nat, d: nat)
    requires 29 <= z < 31 && 30 <= d < 32
    ensures LengthBase(z) == 0 && LengthExtra(z) == 0 && DistBase(d) == 0 && DistExtra(d) == 0
  {}

  // ----- The fixed codes -----

  /** In a stretch of symbols with one length, that length is counted once for each. */
  lemma {:induction false} CountStretch(lens: seq<nat>, m: nat, n: nat, s: nat, t: nat)
    requires m <= n <= |lens| && forall i :: m <= i < n ==> lens[i] == t
    ensures Count(lens, n, s) == Count(lens, m, s) + if s == t then n - m else 0
    decreases n
  {
    if m < n { CountStretch(lens, m, n - 1, s, t); }
  }

  /** The literal/length code of section 3.2.6: eight bits from 00110000, nine from 110010000, seven from 0. */
  function FixedCode(i: nat): nat
    requires i < 288
  {
    if i < 144 then 48 + i else if i < 256 then 400 + (i - 144) else if i < 280 then i - 256 else 192 + (i - 280)
  }

  function FixedBits(i: nat): nat
    requires i < 288
  {
    if i < 144 then 8 else if i < 256 then 9 else if i < 280 then 7 else 8
  }

  lemma FixedCount(lens: seq<nat>, i: nat, s: nat)
    requires lens == FixedLengths() && i <= 288
    ensures Count(lens, i, s) ==
      (if s == 8 then (if i < 144 then i else 144) + (if i < 280 then 0 else i - 280)
       else if s == 9 then (if i < 144 then 0 else if i < 256 then i - 144 else 112)
       else if s == 7 then (if i < 256 then 0 else if i < 280 then i - 256 else 24)
       else 0)
  {
    hide Count;
    assert Count(lens, 0, s) == 0 by { CountNone(lens, s); }
    CountStretch(lens, 0, if i < 144 then i else 144, s, 8);
    if i > 144 { CountStretch(lens, 144, if i < 256 then i else 256, s, 9); }
    if i > 256 { CountStretch(lens, 256, if i < 280 then i else 280, s, 7); }
    if i > 280 { CountStretch(lens, 280, i, s, 8); }
  }

  lemma CountNone(lens: seq<nat>, s: nat)
    ensures Count(lens, 0, s) == 0
  {}

  lemma {:induction false} NoShortCodes(lens: seq<nat>, s: nat, t: nat)
    requires s < t && forall u :: 0 < u < t ==> Count(lens, |lens|, u) == 0
    ensures LimitCode(lens, s) == 0
  {
    hide Count;
    if s > 0 { NoShortCodes(lens, s - 1, t); }
  }

  /** The fixed literal/length code is the one the standard lists. */
  lemma FixedCodes(lens: seq<nat>, i: nat)
    requires lens == FixedLengths() && i < 288
    ensures lens[i] == FixedBits(i) && CodeOf(lens, i) == FixedCode(i)
  {
    hide Count, FixedLengths;
    FixedCount(lens, i, lens[i]);
    forall u | 0 < u < 7 ensures Count(lens, |lens|, u) == 0 { FixedCount(lens, 288, u); }
    NoShortCodes(lens, 6, 7);
    FixedCount(lens, 288, 7);
    FixedCount(lens, 288, 8);
    assert FirstCode(lens, 7) == 0 && LimitCode(lens, 7) == 24;
    assert FirstCode(lens, 8) == 48 && LimitCode(lens, 8) == 200;
    assert FirstCode(lens, 9) == 400;
  }

  /** The fixed distance code is five bits, the symbol's own. */
  lemma FixedDistanceCodes(lens: seq<nat>, d: nat)
    requires lens == FixedDistances() && d < 32
    ensures lens[d] == 5 && CodeOf(lens, d) == d
  {
    hide Count, FixedDistances;
    forall u | 0 < u < 5 ensures Count(lens, |lens|, u) == 0 {
      CountNone(lens, u);
      CountStretch(lens, 0, 32, u, 5);
    }
    NoShortCodes(lens, 4, 5);
    CountNone(lens, 5);
    CountStretch(lens, 0, d, 5, 5);
    assert FirstCode(lens, 5) == 0;
  }

  // ----- The order of the code-length code -----

  /** First the repeat symbols and 0, then outwards from 8: above it in the even places, below it in the odd ones. */
  function Place(k: nat): (i: nat)
    requires k < 19
    ensures i < 19
  {
    if k < 3 then 16 + k else if k == 3 then 0 else if k % 2 == 0 then 8 + (k - 4) / 2 else 8 - (k - 3) / 2
  }

  lemma LengthOrder(k: nat)
    requires k < 19
    ensures DEZIGZAG[k] == Place(k)
  {}

  // ----- A font's header -----

  /** A font's first three bytes are the letters S, F and N in ASCII. */
  lemma MagicBytes(s: seq<Byte>)
    requires |s| >= 8
    ensures HasMagic(s) <==> s[..3] == [0x53, 0x46, 0x4E]
  {
    assert s[..3] == [s[0], s[1], s[2]];
  }

  /** A number below 2^32 as its four bytes, lowest first. */
  function SizeBytes(size: nat): seq<nat> {
    [size % 0x100, size / 0x100 % 0x100, size / 0x100 / 0x100 % 0x100, size / 0x100 / 0x100 / 0x100]
  }

  /** The size a font declares is what its bytes 4 to 7 write, lowest first. */
  lemma SizeDeclared(s: seq<Byte>, size: nat)
    requires |s| >= 8 && size < 0x1_0000_0000
    ensures DeclaredSize(s) == size <==>
      s[4] == SizeBytes(size)[0] && s[5] == SizeBytes(size)[1] && s[6] == SizeBytes(size)[2] &&
          s[7] == SizeBytes(size)[3]
  {
    var c: int, d: int := s[6], s[7];
    FourBytes(s);
    LowByte(size, s[4], s[5] + 0x100 * (c + 0x100 * d));
    LowByte(size / 0x100, s[5], c + 0x100 * d);
    LowByte(size / 0x100 / 0x100, s[6], s[7]);
  }

  lemma FourBytes(s: seq<Byte>)
    requires |s| >= 8
    ensures var a: int, b: int, c: int, d: int := s[4], s[5], s[6], s[7];
      DeclaredSize(s) == a + 0x100 * (b + 0x100 * (c + 0x100 * d))
  {}

  lemma LowByte(n: nat, low: nat, rest: nat)
    requires low < 0x100
    ensures n == low + 0x100 * rest <==> low == n % 0x100 && rest == n / 0x100
  {}
}
