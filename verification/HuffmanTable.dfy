/**
  The decoder's Huffman tables: construction from a list of code lengths
  (kernel/src/include/ssfn.h:454-524). Build succeeds exactly on the lists that satisfy the Kraft
  inequality, and then the tables represent the canonical code.
 */
module HuffmanTable {
  import opened Bits
  import opened BitStream
  import opened BitReversal
  import opened Canonical

  const FAST_BITS := 9
  const FAST_SIZE := 512

  /** Symbol i has a short code, and the next nine stream bits j start with it. */
  ghost predicate FastHit(lens: seq<nat>, i: nat, j: nat)
    requires i < |lens|
  {
    0 < lens[i] <= FAST_BITS && Low(j, lens[i]) == Rev(CodeOf(lens, i), lens[i])
  }

  function Entry(lens: seq<nat>, i: nat): nat
    requires i < |lens|
  {
    lens[i] * 512 + i
  }

  /** v names the symbol below n whose short code starts j, or is 0 when there is none. */
  ghost predicate FastValue(lens: seq<nat>, n: nat, j: nat, v: nat)
    requires n <= |lens|
  {
    && (forall i :: 0 <= i < n && FastHit(lens, i, j) ==> v == Entry(lens, i))
    && ((forall i :: 0 <= i < n ==> !FastHit(lens, i, j)) ==> v == 0)
  }

  // ----- Facts about short codes -----

  /** Nine bits start with at most one short code. */
  lemma FastUnique(lens: seq<nat>, i: nat, i': nat, j: nat)
    requires CodeLengths(lens) && Kraft(lens) && i < |lens| && i' < |lens|
    requires FastHit(lens, i, j) && FastHit(lens, i', j)
    ensures i == i'
  {
    if i != i' {
      var (a, b) := if lens[i] <= lens[i'] then (i, i') else (i', i);
      FastHitCode(lens, a, j);
      FastHitCode(lens, b, j);
      ShrShr(Rev(j, FAST_BITS), FAST_BITS - lens[b], lens[b] - lens[a]);
      PrefixFree(lens, a, b);
    }
  }

  /** A hit means the reversed nine bits, cut to the code's length, are the code. */
  lemma FastHitCode(lens: seq<nat>, i: nat, j: nat)
    requires CodeLengths(lens) && Kraft(lens) && i < |lens| && 0 < lens[i] <= FAST_BITS
    ensures FastHit(lens, i, j) <==> Shr(Rev(j, FAST_BITS), FAST_BITS - lens[i]) == CodeOf(lens, i)
  {
    var s, c := lens[i], CodeOf(lens, i);
    CodeBound(lens, i);
    RevLow(j, s);
    RevPrefix(j, s, FAST_BITS);
    RevRev(c, s);
    LowBound(j, s);
    RevRev(Low(j, s), s);
  }

  lemma ModGap(j: nat, x: nat, d: nat)
    requires d > 0 && j <= x < j + d && j % d == x % d
    ensures x == j
  {
    var q, q' := j / d, x / d;
    assert x - j == d * (q' - q) by { MulDistrib(d, q', -q); }
    if q' > q { MulLe(1, q' - q, d); }
    if q' < q { MulLe(1, q - q', d); MulDistrib(d, q, -q'); }
  }

  // ----- The tables -----

  class Huffman {
    const fast: array<nat>
    const firstcode: array<nat>
    const maxcode: array<nat>
    const firstsymbol: array<nat>
    const size: array<nat>
    const value: array<nat>

    constructor ()
      ensures Shape()
      ensures fresh(Repr())
    {
      fast := new nat[FAST_SIZE];
      firstcode := new nat[16];
      maxcode := new nat[17];
      firstsymbol := new nat[16];
      size := new nat[288];
      value := new nat[288];
    }

    ghost function Repr(): set<object> { {fast, firstcode, maxcode, firstsymbol, size, value} }

    ghost predicate Shape() {
      && fast.Length == FAST_SIZE && firstcode.Length == firstsymbol.Length == 16 && maxcode.Length == 17
      && size.Length == value.Length == 288
      && firstcode != firstsymbol && size != value && size != fast && value != fast
      && size != firstcode && size != firstsymbol && value != firstcode && value != firstsymbol
      && size != maxcode && value != maxcode && fast != firstcode && fast != firstsymbol && fast != maxcode
    }

    /** The slow-path rows of the lengths below n. */
    ghost predicate LengthRows(lens: seq<nat>, n: nat)
      requires Shape() && n <= 16
      reads firstcode, firstsymbol, maxcode
    {
      && (forall s :: 0 < s < n ==> firstcode[s] == FirstCode(lens, s))
      && (forall s :: 0 < s < n ==> firstsymbol[s] == FirstIndex(lens, s))
      && (forall s :: 0 < s < n ==> maxcode[s] == MaxCode(lens, s))
    }

    /** Symbol i is listed at its slot. */
    ghost predicate SymbolRow(lens: seq<nat>, i: nat)
      requires Shape() && i < |lens|
      reads size, value
    {
      lens[i] > 0 ==> Slot(lens, i) < 288 && value[Slot(lens, i)] == i && size[Slot(lens, i)] == lens[i]
    }

    ghost predicate SymbolRows(lens: seq<nat>, n: nat)
      requires Shape() && n <= |lens|
      reads size, value
    {
      forall i :: 0 <= i < n ==> SymbolRow(lens, i)
    }

    ghost predicate FastRows(lens: seq<nat>, n: nat)
      requires Shape() && n <= |lens|
      reads fast
    {
      forall j :: 0 <= j < FAST_SIZE ==> FastValue(lens, n, j, fast[j])
    }

    /** The tables represent the canonical code with these lengths. */
    ghost predicate Represents(lens: seq<nat>)
      reads Repr()
    {
      && Shape() && CodeLengths(lens) && Kraft(lens)
      && LengthRows(lens, 16)
      && maxcode[16] == 0x10000
      && SymbolRows(lens, |lens|)
      && FastRows(lens, |lens|)
    }

    static method CountSizes(sizelist: seq<nat>) returns (sizes: seq<nat>)
      requires CodeLengths(sizelist)
      ensures |sizes| == 17
      ensures forall s :: 0 < s < 17 ==> sizes[s] == Count(sizelist, |sizelist|, s)
    {
      sizes := seq(17, _ => 0);
      for i := 0 to |sizelist|
        invariant |sizes| == 17
        invariant forall s :: 0 <= s < 17 ==> sizes[s] == Count(sizelist, i, s)
      {
        sizes := sizes[sizelist[i] := sizes[sizelist[i]] + 1];
      }
      sizes := sizes[0 := 0];
    }

    method StoreRow(ghost lens: seq<nat>, i: nat, first: nat, k: nat, limit: nat)
      requires Shape() && 0 < i < 16 && LengthRows(lens, i)
      requires first == FirstCode(lens, i) < 0x10000 && k == FirstIndex(lens, i) < 0x10000
      requires limit == LimitCode(lens, i)
      modifies firstcode, firstsymbol, maxcode
      ensures LengthRows(lens, i + 1)
    {
      firstcode[i] := first % 0x10000;
      firstsymbol[i] := k % 0x10000;
      maxcode[i] := Shl(limit, 16 - i);
    }

    /** The loop over lengths: fills the slow-path rows, or finds a length whose codes do not fit. */
    method FirstCodes(ghost lens: seq<nat>, sizes: seq<nat>) returns (ok: bool, nextCode: seq<nat>)
      requires Shape() && CodeLengths(lens) && |lens| <= 288
      requires |sizes| == 17 && forall s :: 0 < s < 17 ==> sizes[s] == Count(lens, |lens|, s)
      modifies firstcode, firstsymbol, maxcode
      ensures ok <==> Kraft(lens)
      ensures ok ==> LengthRows(lens, 16) && maxcode[16] == 0x10000
      ensures |nextCode| == 16
      ensures ok ==> forall s :: 0 < s < 16 ==> nextCode[s] == FirstCode(lens, s)
    {
      nextCode := seq(16, _ => 0);
      var k, code := 0, 0;
      for i := 1 to 16
        invariant code == FirstCode(lens, i) && k == FirstIndex(lens, i)
        invariant CodesFit(lens, i - 1)
        invariant |nextCode| == 16 && forall s :: 0 < s < i ==> nextCode[s] == FirstCode(lens, s)
        invariant LengthRows(lens, i)
      {
        RowFits(lens, i);
        nextCode := nextCode[i := code];
        var first := code;
        code := code + sizes[i];
        if sizes[i] > 0 {
          if code - 1 >= Shl(1, i) {
            KraftIffCodesFit(lens);
            return false, nextCode;
          }
        }
        StoreRow(lens, i, first, k, code);
        code := Shl(code, 1);
        k := k + sizes[i];
      }
      KraftIffCodesFit(lens);
      maxcode[16] := 0x10000;
      ok := true;
    }

    /** Writes v to every fast entry whose index is j0 modulo d. */
    method FillFast(j0: nat, d: nat, v: nat)
      requires Shape() && j0 < d
      modifies fast
      ensures forall j :: 0 <= j < FAST_SIZE ==> fast[j] == if j % d == j0 then v else old(fast[j])
    {
      var j := j0;
      DivUnique(j0, d, 0, j0);
      while j < FAST_SIZE
        invariant j % d == j0
        invariant forall x :: 0 <= x < FAST_SIZE ==>
          fast[x] == if x < j && x % d == j0 then v else old(fast[x])
      {
        fast[j] := v;
        forall x | j <= x < j + d && x % d == j0 ensures x == j { ModGap(j, x, d); }
        NextMultiple(j, d);
        j := j + d;
      }
    }

    /** Enters symbol i, whose code is known, into the symbol lists. */
    method PlaceSymbol(ghost lens: seq<nat>, i: nat, s: nat, code: nat)
      requires Shape() && CodeLengths(lens) && i < |lens| <= 288
      requires s == lens[i] > 0 && code == CodeOf(lens, i) && LengthRows(lens, 16) && SymbolRows(lens, i)
      modifies size, value
      ensures SymbolRows(lens, i + 1)
    {
      var c := code - firstcode[s] + firstsymbol[s];
      SlotBound(lens, i);
      size[c] := s;
      value[c] := i;
      forall j | 0 <= j < i + 1 ensures SymbolRow(lens, j) {
        if j < i {
          assert old(SymbolRow(lens, j));
          if lens[j] > 0 { SlotsDiffer(lens, i, j); }
        }
      }
    }

    /** Enters symbol i's short code into the fast table. */
    method PlaceFast(ghost lens: seq<nat>, i: nat, s: nat, code: nat)
      requires Shape() && CodeLengths(lens) && Kraft(lens) && i < |lens| <= 288
      requires 0 < s == lens[i] <= FAST_BITS && code == CodeOf(lens, i) && FastRows(lens, i)
      modifies fast
      ensures FastRows(lens, i + 1)
    {
      var fastv := Or(i, Shl(s, 9)) % 0x10000;
      FastEntry(i, s);
      CodeBound(lens, i);
      BitReverseCorrect(code, s);
      RevBound(code, s);
      ShlOne(s);
      FillFast(BitReverse(code, s), Shl(1, s), fastv);
      forall j | 0 <= j < FAST_SIZE ensures FastValue(lens, i + 1, j, fast[j]) {
        LowIsRemainder(j, s);
        FastValueStep(lens, i, j, old(fast[j]), fast[j]);
      }
    }

    /** One step of the symbol loop. */
    method EnterSymbol(ghost lens: seq<nat>, i: nat, s: nat, code: nat)
      requires Shape() && CodeLengths(lens) && Kraft(lens) && i < |lens| <= 288 && s == lens[i]
      requires s > 0 ==> code == CodeOf(lens, i)
      requires LengthRows(lens, 16) && SymbolRows(lens, i) && FastRows(lens, i)
      modifies size, value, fast
      ensures SymbolRows(lens, i + 1) && FastRows(lens, i + 1)
    {
      hide CodeLengths, Kraft, CodeOf, FastValue, LengthRows;
      if s > 0 {
        PlaceSymbol(lens, i, s, code);
      } else {
        assert SymbolRow(lens, i);
      }
      if 0 < s <= FAST_BITS {
        PlaceFast(lens, i, s, code);
      } else {
        forall j | 0 <= j < FAST_SIZE ensures FastValue(lens, i + 1, j, fast[j]) {
          FastValueStep(lens, i, j, fast[j], fast[j]);
        }
      }
    }

    /** The loop over symbols: enters every symbol's code. */
    method EnterSymbols(sizelist: seq<nat>, firsts: seq<nat>)
      requires Shape() && CodeLengths(sizelist) && Kraft(sizelist) && |sizelist| <= 288
      requires |firsts| == 16 && forall s :: 0 < s < 16 ==> firsts[s] == FirstCode(sizelist, s)
      requires LengthRows(sizelist, 16) && SymbolRows(sizelist, 0) && FastRows(sizelist, 0)
      modifies size, value, fast
      ensures SymbolRows(sizelist, |sizelist|) && FastRows(sizelist, |sizelist|)
    {
      hide Kraft, SymbolRow, LengthRows, SymbolRows, FastRows;
      var nextCode := firsts;
      for i := 0 to |sizelist|
        invariant LengthRows(sizelist, 16)
        invariant |nextCode| == 16
        invariant forall s :: 0 < s < 16 ==> nextCode[s] == FirstCode(sizelist, s) + Count(sizelist, i, s)
        invariant SymbolRows(sizelist, i) && FastRows(sizelist, i)
      {
        var s := sizelist[i];
        EnterSymbol(sizelist, i, s, nextCode[s]);
        if s > 0 {
          nextCode := nextCode[s := nextCode[s] + 1];
        }
      }
    }

    /** Builds the tables of a code given by its lengths; refuses a list that is no prefix-free code. */
    method Build(sizelist: seq<nat>) returns (ok: bool)
      requires Shape() && CodeLengths(sizelist) && |sizelist| <= 288
      modifies Repr()
      ensures ok <==> Kraft(sizelist)
      ensures ok ==> Represents(sizelist)
    {
      hide Kraft, SymbolRow;
      var sizes := CountSizes(sizelist);
      forall j | 0 <= j < FAST_SIZE { fast[j] := 0; }
      for i := 1 to 16 {
        if sizes[i] > Shl(1, i) {
          TooManyCodes(sizelist, i);
          return false;
        }
      }
      var nextCode;
      ok, nextCode := FirstCodes(sizelist, sizes);
      if !ok { return; }
      EnterSymbols(sizelist, nextCode);
    }
  }

  lemma TooManyCodes(lens: seq<nat>, s: nat)
    requires CodeLengths(lens) && 0 < s < 16 && Count(lens, |lens|, s) > Shl(1, s)
    ensures !Kraft(lens)
  {
    KraftIffCodesFit(lens);
    ShlOne(s);
    assert CodesFit(lens, MAX_BITS) ==> LimitCode(lens, s) <= Pow2(s);
  }

  lemma NextMultiple(j: nat, d: nat)
    requires d > 0
    ensures (j + d) % d == j % d
  {
    DivUnique(j + d, d, j / d + 1, j % d);
  }

  lemma FastEntry(i: nat, s: nat)
    requires i < 288 && s <= FAST_BITS
    ensures Or(i, Shl(s, 9)) % 0x10000 == s * 512 + i
  {
    assert Pow2(9) == 0x200;
    OrDisjoint(i, s, 9);
    ShlIsProduct(s, 9);
  }

  lemma FastValueStep(lens: seq<nat>, i: nat, j: nat, v: nat, v': nat)
    requires CodeLengths(lens) && Kraft(lens) && i < |lens| && FastValue(lens, i, j, v)
    requires v' == if FastHit(lens, i, j) then Entry(lens, i) else v
    ensures FastValue(lens, i + 1, j, v')
  {
    forall i' | 0 <= i' < i && FastHit(lens, i', j) && FastHit(lens, i, j) ensures false {
      FastUnique(lens, i, i', j);
    }
  }

  lemma SlotsDiffer(lens: seq<nat>, i: nat, j: nat)
    requires i < |lens| && j < |lens| && i != j && lens[i] > 0 && lens[j] > 0
    ensures Slot(lens, i) != Slot(lens, j)
  {
    if lens[i] < lens[j] || (lens[i] == lens[j] && i < j) { SlotOrder(lens, i, j); } else { SlotOrder(lens, j, i); }
  }

  /** The left-aligned limit of length s in sixteen bits. */
  function MaxCode(lens: seq<nat>, s: nat): nat
    requires s <= 16
  {
    Shl(LimitCode(lens, s), 16 - s)
  }

  /** The 16-bit fields of a row do not overflow while all shorter codes fit. */
  lemma RowFits(lens: seq<nat>, i: nat)
    requires 0 < i < 16 && |lens| <= 288
    requires CodesFit(lens, i - 1)
    ensures FirstCode(lens, i) <= Pow2(i) && FirstCode(lens, i) < 0x10000
    ensures FirstIndex(lens, i) < 0x10000
    ensures Shl(1, i) == Pow2(i)
    ensures LimitCode(lens, i) == FirstCode(lens, i) + Count(lens, |lens|, i)
    ensures FirstIndex(lens, i + 1) == FirstIndex(lens, i) + Count(lens, |lens|, i)
    ensures Shl(LimitCode(lens, i), 1) == FirstCode(lens, i + 1)
  {
    Pow2Values();
    Pow2Mono(i, 15);
    ShlOne(i);
    FirstIndexIsCount(lens, i);
    CountUpToBound(lens, |lens|, i - 1);
    if i > 1 { assert LimitCode(lens, i - 1) <= Pow2(i - 1); }
  }
}
