/**
  The bit order of RFC 1951, section 3.1.1, over a byte sequence: bytes are read from their least
  significant bit upwards. A field is read with its first bit least significant (Lsb), a Huffman code
  with its first bit most significant (Msb).
 */
module BitStream {
  import opened Bits

  type Byte = b: int | 0 <= b < 256

  function StreamBit(input: seq<Byte>, k: nat): (b: nat)
    requires k < 8 * |input|
    ensures b < 2
  {
    Bit(input[k / 8], k % 8)
  }

  function Lsb(input: seq<Byte>, p: nat, n: nat): nat
    requires p + n <= 8 * |input|
    decreases n
  {
    if n == 0 then 0 else StreamBit(input, p) + 2 * Lsb(input, p + 1, n - 1)
  }

  function Msb(input: seq<Byte>, p: nat, n: nat): nat
    requires p + n <= 8 * |input|
  {
    if n == 0 then 0 else 2 * Msb(input, p, n - 1) + StreamBit(input, p + n - 1)
  }

  /** The first byte boundary at or after bit p. */
  function AlignUp8(p: nat): (q: nat)
    ensures p <= q < p + 8 && q % 8 == 0
  {
    (p + 7) / 8 * 8
  }

  lemma {:induction false} LsbBound(input: seq<Byte>, p: nat, n: nat)
    requires p + n <= 8 * |input|
    ensures Lsb(input, p, n) < Pow2(n)
    decreases n
  {
    if n > 0 { LsbBound(input, p + 1, n - 1); }
  }

  lemma {:induction false} MsbBound(input: seq<Byte>, p: nat, n: nat)
    requires p + n <= 8 * |input|
    ensures Msb(input, p, n) < Pow2(n)
  {
    if n > 0 { MsbBound(input, p, n - 1); }
  }

  lemma {:induction false} LsbAppend(input: seq<Byte>, p: nat, m: nat, n: nat)
    requires p + m + n <= 8 * |input|
    ensures Lsb(input, p, m + n) == Lsb(input, p, m) + Shl(Lsb(input, p + m, n), m)
    decreases m
  {
    hide Lsb, StreamBit;
    if m > 0 {
      LsbAppend(input, p + 1, m - 1, n);
      LsbStep(input, p, m + n);
      LsbStep(input, p, m);
    } else {
      LsbNone(input, p);
    }
  }

  lemma LsbNone(input: seq<Byte>, p: nat)
    requires p <= 8 * |input|
    ensures Lsb(input, p, 0) == 0
  {}

  /** Reading m + n bits and then splitting gives the two fields read one after the other. */
  lemma LsbSplit(input: seq<Byte>, p: nat, m: nat, n: nat)
    requires p + m + n <= 8 * |input|
    ensures Low(Lsb(input, p, m + n), m) == Lsb(input, p, m)
    ensures Shr(Lsb(input, p, m + n), m) == Lsb(input, p + m, n)
  {
    LsbAppend(input, p, m, n);
    LsbBound(input, p, m);
    Glue(Lsb(input, p, m), Lsb(input, p + m, n), m);
  }

  lemma {:induction false} MsbAppend(input: seq<Byte>, p: nat, m: nat, n: nat)
    requires p + m + n <= 8 * |input|
    ensures Msb(input, p, m + n) == Shl(Msb(input, p, m), n) + Msb(input, p + m, n)
    decreases n
  {
    if n > 0 { MsbAppend(input, p, m, n - 1); }
  }

  /** The first m of m + n bits, read most significant first, are what remains after dropping n. */
  lemma MsbPrefix(input: seq<Byte>, p: nat, m: nat, n: nat)
    requires p + m + n <= 8 * |input|
    ensures Shr(Msb(input, p, m + n), n) == Msb(input, p, m)
  {
    MsbAppend(input, p, m, n);
    MsbBound(input, p + m, n);
    Glue(Msb(input, p + m, n), Msb(input, p, m), n);
  }

  /** The last n bits of byte i, from its bit k on. */
  lemma {:induction false} LsbInByte(input: seq<Byte>, i: nat, k: nat, p: nat, n: nat)
    requires i < |input| && k + n == 8 && p == 8 * i + k
    ensures Lsb(input, p, n) == Shr(input[i], k)
    decreases n
  {
    if n == 0 {
      assert Pow2(8) == 256;
      Glue(input[i], 0, 8);
      ShlZero(8);
    } else {
      LsbInByte(input, i, k + 1, p + 1, n - 1);
      assert p / 8 == i && p % 8 == k;
      BitShr(input[i], k, 0);
      ShrShr(input[i], k, 1);
    }
  }

  /** Eight aligned bits are the byte. */
  lemma LsbByte(input: seq<Byte>, i: nat, p: nat, n: nat)
    requires i < |input| && p == 8 * i && n == 8
    ensures Lsb(input, p, n) == input[i]
  {
    hide Lsb;
    LsbInByte(input, i, 0, p, n);
  }

  /** Reversing a field's bits turns one reading order into the other. */
  lemma {:induction false} RevLsb(input: seq<Byte>, p: nat, n: nat)
    requires p + n <= 8 * |input|
    ensures Rev(Lsb(input, p, n), n) == Msb(input, p, n)
    decreases n
  {
    hide Rev, Shl;
    if n > 0 {
      RevLsb(input, p + 1, n - 1);
      MsbAppend(input, p, 1, n - 1);
      assert Msb(input, p, 1) == 2 * Msb(input, p, 0) + StreamBit(input, p);
      LsbParts(input, p, n);
      hide Lsb, Msb, StreamBit;
      RevStep(Lsb(input, p, n), n);
    } else {
      RevNone(Lsb(input, p, n));
    }
  }

  lemma RevNone(v: nat)
    ensures Rev(v, 0) == 0
  {}

  lemma LsbParts(input: seq<Byte>, p: nat, n: nat)
    requires n > 0 && p + n <= 8 * |input|
    ensures Lsb(input, p, n) % 2 == StreamBit(input, p) && Lsb(input, p, n) / 2 == Lsb(input, p + 1, n - 1)
  {
    hide Lsb, StreamBit;
    LsbStep(input, p, n);
    assert StreamBit(input, p) < 2;
  }

  lemma LsbStep(input: seq<Byte>, p: nat, n: nat)
    requires n > 0 && p + n <= 8 * |input|
    ensures Lsb(input, p, n) == StreamBit(input, p) + 2 * Lsb(input, p + 1, n - 1)
  {
  }
}
