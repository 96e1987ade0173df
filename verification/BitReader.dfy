/**
  The decoder's bit reader and Huffman decoding (kernel/src/include/ssfn.h:526-588). A reader buffers
  whole bytes; its buffer always equals the next bits of the stream, so every operation is a statement
  about the stream and the position reached.
 */
module BitReader {
  import opened Bits
  import opened BitStream
  import opened BitReversal
  import opened Canonical
  import opened HuffmanTable

  class Reader {
    const input: seq<Byte>  // the memory zbuffer points into
    ghost const end: nat    // the bit after the compressed data
    var zbuffer: nat        // index of the next byte to read
    var numBits: nat
    var codeBuffer: nat

    constructor (input: seq<Byte>, ghost end: nat)
      requires end % 8 == 0 && end + 32 <= 8 * |input|
      ensures this.input == input && this.end == end && Valid() && Pos() == 0
    {
      this.input, this.end := input, end;
      zbuffer, numBits, codeBuffer := 0, 0, 0;
    }

    /** The bit position the decoder has reached. */
    ghost function Pos(): int
      reads this
    {
      8 * zbuffer - numBits
    }

    /** At least four bytes of any kind follow the compressed data; the buffer is the next numBits bits. */
    ghost predicate Valid()
      reads this
    {
      && end % 8 == 0 && end + 32 <= 8 * |input|
      && 0 <= Pos() <= end && zbuffer <= |input| && numBits <= 32
      && codeBuffer == Lsb(input, Pos(), numBits)
    }

    method FillBits()
      requires Valid() && numBits <= 24
      modifies this`zbuffer, this`numBits, this`codeBuffer
      ensures Valid() && Pos() == old(Pos()) && numBits > 24
    {
      hide Lsb, Or, Shl;
      var more := true;
      while more
        invariant Valid() && Pos() == old(Pos())
        invariant more == (numBits <= 24)
        decreases 32 - numBits
      {
        AppendByte(input, zbuffer, Pos(), numBits, 8);
        codeBuffer := Or(codeBuffer, Shl(input[zbuffer], numBits) % 0x1_0000_0000);
        zbuffer := zbuffer + 1;
        numBits := numBits + 8;
        more := numBits <= 24;
      }
    }

    /** Drops n buffered bits. */
    method Consume(n: nat)
      requires Valid() && n <= numBits && Pos() + n <= end
      modifies this`numBits, this`codeBuffer
      ensures Valid() && Pos() == old(Pos()) + n
    {
      hide Lsb, Shr, Low;
      LsbSplit(input, Pos(), n, numBits - n);
      codeBuffer := Shr(codeBuffer, n);
      numBits := numBits - n;
    }

    /** Reads an n-bit field. */
    method Receive(n: nat) returns (k: nat)
      requires Valid() && n <= 24 && Pos() + n <= end
      modifies this`zbuffer, this`numBits, this`codeBuffer
      ensures Valid() && Pos() == old(Pos()) + n && k == Lsb(input, old(Pos()), n)
      ensures old(numBits) >= n ==> zbuffer == old(zbuffer)
      ensures numBits <= 32 - n
    {
      hide Lsb, And, Shl, Shr, Low;
      if numBits < n { FillBits(); }
      AndMask(codeBuffer, n);
      LsbSplit(input, Pos(), n, numBits - n);
      k := And(codeBuffer, Shl(1, n) - 1);
      Consume(n);
    }

    /** Drops the buffered rest of the current byte. */
    method AlignToByte()
      requires Valid()
      modifies this`zbuffer, this`numBits, this`codeBuffer
      ensures Valid() && Pos() == AlignUp8(old(Pos())) && numBits % 8 == 0 && numBits <= old(numBits)
    {
      hide Lsb, And, AlignUp8;
      AndSeven(numBits);
      NextBoundary(Pos(), zbuffer, numBits);
      if And(numBits, 7) > 0 {
        var dropped := Receive(And(numBits, 7));
      }
    }

    /** Takes a whole buffered byte. */
    method TakeByte() returns (b: Byte)
      requires Valid() && 8 <= numBits && Pos() % 8 == 0 && Pos() + 8 <= end
      modifies this`numBits, this`codeBuffer
      ensures Valid() && Pos() == old(Pos()) + 8 && numBits == old(numBits) - 8
      ensures b == input[old(Pos()) / 8]
    {
      TopByte(input, Pos(), numBits, 8);
      b := And(codeBuffer, 255);
      Consume(8);
    }

    /** Reads a byte past the (empty) buffer. */
    method Get8() returns (b: Byte)
      requires Valid() && numBits == 0 && Pos() + 8 <= end
      modifies this`zbuffer
      ensures Valid() && Pos() == old(Pos()) + 8 && numBits == 0
      ensures b == input[old(Pos()) / 8]
    {
      b := input[zbuffer];
      zbuffer := zbuffer + 1;
    }

    /** Skips len bytes that were copied straight from memory. */
    method Skip(len: nat)
      requires Valid() && numBits == 0 && Pos() + 8 * len <= end
      modifies this`zbuffer
      ensures Valid() && Pos() == old(Pos()) + 8 * len && numBits == 0
    {
      zbuffer := zbuffer + len;
    }

    /**
      Codes longer than nine bits: finds the first length whose left-aligned limit is above the next
      16 bits, and the symbol there. Length 16 means that no code matches.
     */
    method FindLongCode(z: Huffman, ghost lens: seq<nat>, tried: nat) returns (s: nat, sym: nat)
      requires Valid() && z.Represents(lens) && numBits >= 16 && |lens| <= 288
      requires Decode(lens, input, end, Pos()) != NeedBits
      requires tried == FAST_BITS && Msb(input, Pos(), tried) >= LimitCode(lens, tried)
      ensures s == 16 ==> Decode(lens, input, end, Pos()) == NoCode
      ensures s != 16 ==> Decode(lens, input, end, Pos()) == Symbol(sym, s) && s < 16 && Pos() + s <= end
    {
      hide Lsb, Msb, LimitCode, Decode, BitReverse;
      var w := 16;
      ghost var p := Pos();
      var k := BitReverse(codeBuffer, 16);
      NextSixteen(input, p, numBits, w);
      s, sym := tried + 1, 0;
      while k >= z.maxcode[s]
        invariant tried < s <= 16
        invariant Msb(input, p, s - 1) >= LimitCode(lens, s - 1)
        decreases 16 - s
      {
        LimitTest(lens, input, p, s, w);
        s := s + 1;
      }
      if s == 16 {
        NoMatch(lens, input, end, p, s - 1);
      } else {
        LimitTest(lens, input, p, s, w);
        sym := SymbolAt(z, lens, k, s, w);
      }
    }

    /** The symbol of length s whose code starts the next w == 16 bits, k. */
    method SymbolAt(z: Huffman, ghost lens: seq<nat>, k: nat, s: nat, w: nat) returns (sym: nat)
      requires Valid() && z.Represents(lens) && w == 16 && 1 < s <= MAX_BITS
      requires k == Msb(input, Pos(), w) && Decode(lens, input, end, Pos()) != NeedBits
      requires Msb(input, Pos(), s - 1) >= LimitCode(lens, s - 1) && Msb(input, Pos(), s) < LimitCode(lens, s)
      ensures Decode(lens, input, end, Pos()) == Symbol(sym, s) && Pos() + s <= end
    {
      ghost var i := MatchAtLimit(lens, input, end, Pos(), s);
      MsbPrefix(input, Pos(), s, w - s);
      var b := Shr(k, w - s) - z.firstcode[s] + z.firstsymbol[s];
      assert b == Slot(lens, i) && z.SymbolRow(lens, i);
      sym := z.value[b];
    }

    method DecodeSlowly(z: Huffman, ghost lens: seq<nat>, tried: nat) returns (r: int)
      requires Valid() && z.Represents(lens) && numBits >= 16 && |lens| <= 288
      requires Decode(lens, input, end, Pos()) != NeedBits
      requires tried == FAST_BITS && Msb(input, Pos(), tried) >= LimitCode(lens, tried)
      modifies this`numBits, this`codeBuffer
      ensures Valid() && Returns(Decode(lens, input, end, old(Pos())), old(Pos()), r, Pos())
    {
      var s, sym := FindLongCode(z, lens, tried);
      if s == 16 { return -1; }
      Consume(s);
      r := sym;
    }

    /** Decodes one symbol, or returns -1 when no code matches. */
    method HuffmanDecode(z: Huffman, ghost lens: seq<nat>) returns (r: int)
      requires Valid() && z.Represents(lens) && |lens| <= 288
      requires Decode(lens, input, end, Pos()) != NeedBits
      modifies this`zbuffer, this`numBits, this`codeBuffer
      ensures Valid() && Returns(Decode(lens, input, end, old(Pos())), old(Pos()), r, Pos())
    {
      if numBits < 16 { FillBits(); }
      ghost var p := Pos();
      var j := And(codeBuffer, FAST_SIZE - 1);
      NextNine(input, p, numBits, FAST_BITS);
      var b := z.fast[j];
      assert FastValue(lens, |lens|, j, b);
      if b > 0 {
        ghost var i: nat :| i < |lens| && FastHit(lens, i, j);
        HitIffMatch(lens, input, p, j, i, FAST_BITS);
        MatchDecodes(lens, input, end, p, i);
        EntryFields(lens[i], i, b);
        var s := Shr(b, 9);
        Consume(s);
        return And(b, 511);
      }
      FastMiss(lens, input, p, j, FAST_BITS);
      r := DecodeSlowly(z, lens, FAST_BITS);
    }
  }

  /** What a decoding call returns, and where it leaves the reader. */
  predicate Returns(d: Decoded, p: int, r: int, p': int) {
    (d.Symbol? ==> r == d.sym && p' == p + d.len) && (d.NoCode? ==> r == -1 && p' == p)
  }

  // ----- The two lookups against the stream -----

  lemma NextSixteen(input: seq<Byte>, p: nat, n: nat, w: nat)
    requires w == 16 <= n && p + n <= 8 * |input|
    ensures BitReverse(Lsb(input, p, n), w) == Msb(input, p, w) < 0x1_0000
  {
    hide Lsb, Msb, BitReverse, Rev, Low, Shr;
    MsbBound(input, p, w);
    Pow2Values();
    BitReverseCorrect(Lsb(input, p, n), w);
    RevLow(Lsb(input, p, n), w);
    LsbSplit(input, p, w, n - w);
    RevLsb(input, p, w);
  }

  lemma NextNine(input: seq<Byte>, p: nat, n: nat, w: nat)
    requires w == FAST_BITS <= n && p + n <= 8 * |input|
    ensures And(Lsb(input, p, n), FAST_SIZE - 1) == Lsb(input, p, w) < FAST_SIZE
  {
    hide Lsb, And, Low, Shl;
    LsbSplit(input, p, w, n - w);
    LsbBound(input, p, w);
    assert Pow2(9) == 512;
    ShlOne(w);
    AndMask(Lsb(input, p, n), w);
  }

  /** Comparing the next w bits with a left-aligned limit compares the next s bits with the limit. */
  lemma LimitTest(lens: seq<nat>, input: seq<Byte>, p: nat, s: nat, w: nat)
    requires 0 < s <= w == 16 && p + w <= 8 * |input|
    ensures Msb(input, p, w) >= MaxCode(lens, s) <==> Msb(input, p, s) >= LimitCode(lens, s)
  {
    MsbPrefix(input, p, s, w - s);
    ShrAtLeast(Msb(input, p, w), LimitCode(lens, s), w - s);
  }

  /** A symbol matching anywhere in the readable memory is the one the specification decodes. */
  lemma MatchDecodes(lens: seq<nat>, input: seq<Byte>, end: nat, p: nat, i: nat)
    requires p <= end <= 8 * |input| && i < |lens| && CodeLengths(lens)
    requires Decode(lens, input, end, p) != NeedBits && Matches(lens, input, 8 * |input|, p, i)
    ensures Decode(lens, input, end, p) == Symbol(i, lens[i])
  {
    var d := Decode(lens, input, end, p);
    assert p + lens[i] <= end ==> Matches(lens, input, end, p, i);
    if d.Symbol? { MatchUnique(lens, input, 8 * |input|, p, i, d.sym); }
  }

  lemma NoMatch(lens: seq<nat>, input: seq<Byte>, end: nat, p: nat, t: nat)
    requires p <= end && end + 32 <= 8 * |input| && CodeLengths(lens) && t == MAX_BITS
    requires Decode(lens, input, end, p) != NeedBits && Msb(input, p, t) >= LimitCode(lens, t)
    ensures Decode(lens, input, end, p) == NoCode
  {
    MatchUpTo(lens, input, 8 * |input|, p, t);
    SymbolMatches(lens, input, end, p);
  }

  lemma SymbolMatches(lens: seq<nat>, input: seq<Byte>, end: nat, p: nat)
    requires p <= end <= 8 * |input|
    ensures var d := Decode(lens, input, end, p); d.Symbol? ==>
        d.sym < |lens| && Matches(lens, input, 8 * |input|, p, d.sym)
  {}

  /** At the first length whose limit is above the stream, some symbol of that length matches. */
  lemma MatchAtLimit(lens: seq<nat>, input: seq<Byte>, end: nat, p: nat, s: nat) returns (i: nat)
    requires p <= end && end + 32 <= 8 * |input| && CodeLengths(lens) && 1 < s <= MAX_BITS
    requires Decode(lens, input, end, p) != NeedBits
    requires Msb(input, p, s - 1) >= LimitCode(lens, s - 1) && Msb(input, p, s) < LimitCode(lens, s)
    ensures i < |lens| && Decode(lens, input, end, p) == Symbol(i, s) && p + s <= end
    ensures lens[i] == s && CodeOf(lens, i) == Msb(input, p, s)
  {
    MatchOfLength(lens, input, 8 * |input|, p, s);
    i :| i < |lens| && lens[i] == s && Matches(lens, input, 8 * |input|, p, i);
    MatchDecodes(lens, input, end, p, i);
  }

  lemma HitIffMatch(lens: seq<nat>, input: seq<Byte>, p: nat, j: nat, i: nat, w: nat)
    requires w == FAST_BITS && p + w <= 8 * |input| && j == Lsb(input, p, w)
    requires CodeLengths(lens) && Kraft(lens) && i < |lens| && 0 < lens[i] <= FAST_BITS
    ensures FastHit(lens, i, j) <==> Matches(lens, input, 8 * |input|, p, i)
  {
    var s := lens[i];
    LsbSplit(input, p, s, w - s);
    RevLsb(input, p, s);
    CodeBound(lens, i);
    RevRev(CodeOf(lens, i), s);
    LsbBound(input, p, s);
    RevRev(Lsb(input, p, s), s);
  }

  /** An empty fast entry means no code of at most nine bits matches. */
  lemma FastMiss(lens: seq<nat>, input: seq<Byte>, p: nat, j: nat, w: nat)
    requires w == FAST_BITS && p + w <= 8 * |input| && j == Lsb(input, p, w)
    requires CodeLengths(lens) && Kraft(lens) && FastValue(lens, |lens|, j, 0)
    ensures Msb(input, p, w) >= LimitCode(lens, w)
  {
    MatchUpTo(lens, input, 8 * |input|, p, w);
    if i: nat :| i < |lens| && lens[i] <= w && Matches(lens, input, 8 * |input|, p, i) {
      HitIffMatch(lens, input, p, j, i, w);
    }
  }

  /** The fast table has an entry for the next nine bits exactly when they start with a code of at most nine bits. */
  lemma FastTableExact(lens: seq<nat>, input: seq<Byte>, p: nat, j: nat, v: nat, w: nat)
    requires w == FAST_BITS && p + w <= 8 * |input| && j == Lsb(input, p, w)
    requires CodeLengths(lens) && Kraft(lens) && FastValue(lens, |lens|, j, v)
    ensures v != 0 <==> exists i: nat :: i < |lens| && lens[i] <= w && Matches(lens, input, 8 * |input|, p, i)
    ensures forall i: nat :: i < |lens| && lens[i] <= w && Matches(lens, input, 8 * |input|, p, i) ==>
        v == Entry(lens, i)
  {
    hide Lsb, Kraft, CodeLengths;
    forall i: nat | i < |lens| && 0 < lens[i] <= w
      ensures FastHit(lens, i, j) <==> Matches(lens, input, 8 * |input|, p, i)
    {
      HitIffMatch(lens, input, p, j, i, w);
    }
    if v != 0 {
      var i: nat :| i < |lens| && FastHit(lens, i, j);
      assert Matches(lens, input, 8 * |input|, p, i);
    }
  }

  lemma EntryFields(s: nat, i: nat, b: nat)
    requires i < 512 && b == s * 512 + i
    ensures Shr(b, 9) == s && And(b, 511) == i
  {
    assert Pow2(9) == 512 && Shl(1, 9) == 512;
    ShlIsProduct(s, 9);
    Glue(i, s, 9);
    AndMask(b, 9);
  }

  lemma NextBoundary(p: nat, z: nat, n: nat)
    requires p == 8 * z - n
    ensures AlignUp8(p) == p + n % 8 && (n - n % 8) % 8 == 0
  {}

  lemma AndSeven(n: nat)
    ensures And(n, 7) == n % 8
  {
    AndMask(n, 3);
    LowIsRemainder(n, 3);
  }

  lemma TopByte(input: seq<Byte>, p: nat, n: nat, w: nat)
    requires p % 8 == 0 && w == 8 <= n && p + n <= 8 * |input|
    ensures And(Lsb(input, p, n), 255) == input[p / 8]
  {
    hide Lsb, And, Low, Shl, Shr;
    assert Pow2(8) == 256;
    ShlOne(w);
    AndMask(Lsb(input, p, n), w);
    LsbSplit(input, p, w, n - w);
    LsbByte(input, p / 8, p, w);
  }

  /** code_buffer |= next_byte << num_bits loses nothing: it appends eight bits of the stream. */
  lemma AppendByte(input: seq<Byte>, z: nat, p: nat, n: nat, width: nat)
    requires z < |input| && p + n == 8 * z && n <= 24 && width == 8
    ensures Or(Lsb(input, p, n), Shl(input[z], n) % 0x1_0000_0000) == Lsb(input, p, n + width)
  {
    hide Lsb, Or, Shl;
    LsbByte(input, z, p + n, width);
    LsbAppend(input, p, n, width);
    LsbBound(input, p, n);
    OrByte(Lsb(input, p, n), input[z], n);
  }

  lemma OrByte(x: nat, b: nat, n: nat)
    requires x < Pow2(n) && b < 256 && n <= 24
    ensures Or(x, Shl(b, n) % 0x1_0000_0000) == x + Shl(b, n)
  {
    ShiftedByteFits(b, n);
    OrDisjoint(x, b, n);
  }

  lemma ShiftedByteFits(b: nat, n: nat)
    requires b < 256 && n <= 24
    ensures Shl(b, n) % 0x1_0000_0000 == Shl(b, n)
  {
    Pow2Values();
    ShlOne(8);
    ShlOne(8 + n);
    ShlShl(1, 8, n);
    ShlMono(256, b, n);
    Pow2Mono(8 + n, 32);
  }
}
