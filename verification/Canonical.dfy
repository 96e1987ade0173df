/**
  Canonical Huffman codes, RFC 1951 section 3.2.2: a list of code lengths determines one prefix-free
  code exactly when it satisfies the Kraft inequality. All facts here are about the lengths alone.
 */
module Canonical {
  import opened Bits
  import opened BitStream

  const MAX_BITS := 15

  predicate CodeLengths(lens: seq<nat>) {
    forall i :: 0 <= i < |lens| ==> lens[i] <= MAX_BITS
  }

  /** How many of the first n symbols have code length s. */
  function Count(lens: seq<nat>, n: nat, s: nat): nat
    requires n <= |lens|
  {
    if n == 0 then 0 else Count(lens, n - 1, s) + if lens[n - 1] == s then 1 else 0
  }

  /** The first code of length s (step 2 of section 3.2.2), and the number after its last code. */
  function FirstCode(lens: seq<nat>, s: nat): nat
    decreases s, 0
  {
    if s <= 1 then 0 else 2 * LimitCode(lens, s - 1)
  }

  function LimitCode(lens: seq<nat>, s: nat): nat
    decreases s, 1
  {
    if s == 0 then 0 else FirstCode(lens, s) + Count(lens, |lens|, s)
  }

  /** How many symbols have a code shorter than s. */
  function FirstIndex(lens: seq<nat>, s: nat): nat {
    if s <= 1 then 0 else FirstIndex(lens, s - 1) + Count(lens, |lens|, s - 1)
  }

  /** The code of symbol i (step 3 of section 3.2.2), and its place in (length, symbol) order. */
  function CodeOf(lens: seq<nat>, i: nat): nat
    requires i < |lens|
  {
    FirstCode(lens, lens[i]) + Count(lens, i, lens[i])
  }

  function Slot(lens: seq<nat>, i: nat): nat
    requires i < |lens|
  {
    FirstIndex(lens, lens[i]) + Count(lens, i, lens[i])
  }

  /** The Kraft sum of the first n symbols, in units of 2^-15. */
  function KraftSum(lens: seq<nat>, n: nat): nat
    requires n <= |lens| && CodeLengths(lens)
  {
    if n == 0 then 0
    else KraftSum(lens, n - 1) + if lens[n - 1] == 0 then 0 else Pow2(MAX_BITS - lens[n - 1])
  }

  predicate Kraft(lens: seq<nat>)
    requires CodeLengths(lens)
  {
    KraftSum(lens, |lens|) <= Pow2(MAX_BITS)
  }

  // ----- Counting -----

  lemma {:induction false} CountMono(lens: seq<nat>, m: nat, n: nat, s: nat)
    requires m <= n <= |lens|
    ensures Count(lens, m, s) <= Count(lens, n, s)
    decreases n
  {
    if m < n { CountMono(lens, m, n - 1, s); }
  }

  /** Symbols of one length are numbered consecutively, in symbol order. */
  lemma CountStep(lens: seq<nat>, i: nat, j: nat)
    requires i < j <= |lens|
    ensures Count(lens, i, lens[i]) < Count(lens, j, lens[i])
  {
    CountMono(lens, i + 1, j, lens[i]);
  }

  /** The c-th symbol of length s exists. */
  lemma {:induction false} NthSymbol(lens: seq<nat>, n: nat, s: nat, c: nat) returns (i: nat)
    requires n <= |lens| && c < Count(lens, n, s)
    ensures i < n && lens[i] == s && Count(lens, i, s) == c
  {
    if c < Count(lens, n - 1, s) {
      i := NthSymbol(lens, n - 1, s, c);
    } else {
      i := n - 1;
    }
  }

  lemma {:induction false} FirstIndexMono(lens: seq<nat>, s: nat, t: nat)
    requires s < t && s > 0
    ensures FirstIndex(lens, s) + Count(lens, |lens|, s) <= FirstIndex(lens, t)
    decreases t
  {
    if s + 1 < t { FirstIndexMono(lens, s, t - 1); }
  }

  /** Slots list the used symbols in (length, symbol) order. */
  lemma SlotOrder(lens: seq<nat>, i: nat, j: nat)
    requires i < |lens| && j < |lens|
    requires 0 < lens[i] < lens[j] || (0 < lens[i] == lens[j] && i < j)
    ensures Slot(lens, i) < Slot(lens, j)
  {
    CountStep(lens, i, |lens|);
    if lens[i] < lens[j] {
      FirstIndexMono(lens, lens[i], lens[j]);
    } else {
      CountStep(lens, i, j);
    }
  }

  /** How many of the first n symbols have a length between 1 and s. */
  function CountUpTo(lens: seq<nat>, n: nat, s: nat): nat
    requires n <= |lens|
  {
    if s == 0 then 0 else CountUpTo(lens, n, s - 1) + Count(lens, n, s)
  }

  lemma {:induction false} CountUpToStep(lens: seq<nat>, n: nat, s: nat)
    requires 0 < n <= |lens|
    ensures CountUpTo(lens, n, s) == CountUpTo(lens, n - 1, s) + if 0 < lens[n - 1] <= s then 1 else 0
  {
    if s > 0 { CountUpToStep(lens, n, s - 1); }
  }

  lemma {:induction false} CountUpToBound(lens: seq<nat>, n: nat, s: nat)
    requires n <= |lens|
    ensures CountUpTo(lens, n, s) <= n
  {
    if n == 0 {
      CountUpToNone(lens, s);
    } else {
      CountUpToStep(lens, n, s);
      CountUpToBound(lens, n - 1, s);
    }
  }

  lemma {:induction false} CountUpToNone(lens: seq<nat>, s: nat)
    ensures CountUpTo(lens, 0, s) == 0
  {
    if s > 0 { CountUpToNone(lens, s - 1); }
  }

  lemma {:induction false} FirstIndexIsCount(lens: seq<nat>, s: nat)
    requires s > 0
    ensures FirstIndex(lens, s) == CountUpTo(lens, |lens|, s - 1)
  {
    if s > 1 { FirstIndexIsCount(lens, s - 1); }
  }

  /** Every slot is an index into a list as long as the alphabet. */
  lemma SlotBound(lens: seq<nat>, i: nat)
    requires i < |lens| && lens[i] > 0
    ensures Slot(lens, i) < |lens|
  {
    CountStep(lens, i, |lens|);
    FirstIndexIsCount(lens, lens[i]);
    CountUpToBound(lens, |lens|, lens[i]);
  }

  // ----- The Kraft inequality -----

  /** The Kraft sum of the codes of length 1 to s, grouped by length. */
  function LengthSum(lens: seq<nat>, n: nat, s: nat): nat
    requires n <= |lens| && s <= MAX_BITS
  {
    if s == 0 then 0 else LengthSum(lens, n, s - 1) + Shl(Count(lens, n, s), MAX_BITS - s)
  }

  lemma {:induction false} LengthSumStep(lens: seq<nat>, n: nat, s: nat)
    requires 0 < n <= |lens| && s <= MAX_BITS
    ensures LengthSum(lens, n, s) == LengthSum(lens, n - 1, s)
            + if 0 < lens[n - 1] <= s then Pow2(MAX_BITS - lens[n - 1]) else 0
  {
    if s > 0 {
      LengthSumStep(lens, n, s - 1);
      ShlAdd(Count(lens, n - 1, s), 1, MAX_BITS - s);
      ShlOne(MAX_BITS - s);
    }
  }

  lemma {:induction false} LengthSumNone(lens: seq<nat>, s: nat)
    requires s <= MAX_BITS
    ensures LengthSum(lens, 0, s) == 0
  {
    if s > 0 {
      LengthSumNone(lens, s - 1);
      ShlZero(MAX_BITS - s);
    }
  }

  lemma {:induction false} KraftByLength(lens: seq<nat>, n: nat)
    requires n <= |lens| && CodeLengths(lens)
    ensures KraftSum(lens, n) == LengthSum(lens, n, MAX_BITS)
  {
    if n == 0 {
      LengthSumNone(lens, MAX_BITS);
    } else {
      KraftByLength(lens, n - 1);
      LengthSumStep(lens, n, MAX_BITS);
    }
  }

  lemma {:induction false} LimitIsLengthSum(lens: seq<nat>, s: nat)
    requires s <= MAX_BITS
    ensures Shl(LimitCode(lens, s), MAX_BITS - s) == LengthSum(lens, |lens|, s)
  {
    if s == 0 {
      ShlZero(MAX_BITS);
    } else {
      LimitIsLengthSum(lens, s - 1);
      assert FirstCode(lens, s) == 2 * LimitCode(lens, s - 1);
      ShlAdd(2 * LimitCode(lens, s - 1), Count(lens, |lens|, s), MAX_BITS - s);
      ShlDouble(LimitCode(lens, s - 1), MAX_BITS - s);
    }
  }

  lemma {:induction false} LimitMono(lens: seq<nat>, s: nat, t: nat)
    requires s <= t
    ensures Shl(LimitCode(lens, s), t - s) <= LimitCode(lens, t)
    decreases t
  {
    if s < t {
      LimitMono(lens, s, t - 1);
      assert FirstCode(lens, t) == 2 * LimitCode(lens, t - 1);
    }
  }

  /** The codes of every length up to n fit in that many bits. */
  ghost predicate CodesFit(lens: seq<nat>, n: nat) {
    forall s :: 0 < s <= n ==> LimitCode(lens, s) <= Pow2(s)
  }

  /** The Kraft inequality holds exactly when the codes of every length fit in that many bits. */
  lemma KraftIffCodesFit(lens: seq<nat>)
    requires CodeLengths(lens)
    ensures Kraft(lens) <==> CodesFit(lens, MAX_BITS)
  {
    KraftByLength(lens, |lens|);
    LimitIsLengthSum(lens, MAX_BITS);
    if Kraft(lens) {
      forall s | 0 < s <= MAX_BITS ensures LimitCode(lens, s) <= Pow2(s) { FitsBelow(lens, s); }
    }
  }

  lemma FitsBelow(lens: seq<nat>, s: nat)
    requires s <= MAX_BITS && LimitCode(lens, MAX_BITS) <= Pow2(MAX_BITS)
    ensures LimitCode(lens, s) <= Pow2(s)
  {
    hide LimitCode, Pow2, Shl;
    LimitMono(lens, s, MAX_BITS);
    ShlOne(s);
    ShlOne(MAX_BITS);
    ShlShl(1, s, MAX_BITS - s);
    ShlMono(LimitCode(lens, s), Pow2(s), MAX_BITS - s);
  }

  // ----- The code -----

  lemma CodeBound(lens: seq<nat>, i: nat)
    requires i < |lens| && lens[i] > 0
    ensures CodeOf(lens, i) < LimitCode(lens, lens[i])
    ensures CodeLengths(lens) && Kraft(lens) ==> CodeOf(lens, i) < Pow2(lens[i])
  {
    CountStep(lens, i, |lens|);
    if CodeLengths(lens) && Kraft(lens) {
      KraftIffCodesFit(lens);
      assert LimitCode(lens, lens[i]) <= Pow2(lens[i]);
    }
  }

  /** In (length, symbol) order each code, extended by any bits, comes before every later code. */
  lemma CodeOrder(lens: seq<nat>, i: nat, j: nat)
    requires i < |lens| && j < |lens| && 0 < lens[i] <= lens[j] && (lens[i] == lens[j] ==> i < j)
    ensures Shl(CodeOf(lens, i) + 1, lens[j] - lens[i]) <= CodeOf(lens, j)
  {
    var s, t := lens[i], lens[j];
    if s == t {
      CountStep(lens, i, j);
      return;
    }
    CodeBound(lens, i);
    LimitMono(lens, s, t - 1);
    ShlMono(CodeOf(lens, i) + 1, LimitCode(lens, s), t - s);
  }

  /** No code is a prefix of another symbol's code. */
  lemma PrefixFree(lens: seq<nat>, i: nat, j: nat)
    requires i < |lens| && j < |lens| && i != j && 0 < lens[i] <= lens[j]
    ensures Shr(CodeOf(lens, j), lens[j] - lens[i]) != CodeOf(lens, i)
  {
    if lens[i] == lens[j] {
      CountStep(lens, if i < j then i else j, if i < j then j else i);
    } else {
      CodeOrder(lens, i, j);
      ShrAtLeast(CodeOf(lens, j), CodeOf(lens, i) + 1, lens[j] - lens[i]);
    }
  }

  /** Symbol i's code is what the stream holds at bit p. */
  predicate Matches(lens: seq<nat>, input: seq<Byte>, end: nat, p: nat, i: nat)
    requires end <= 8 * |input| && i < |lens|
  {
    lens[i] > 0 && p + lens[i] <= end && Msb(input, p, lens[i]) == CodeOf(lens, i)
  }

  /** At most one symbol matches. */
  lemma MatchUnique(lens: seq<nat>, input: seq<Byte>, end: nat, p: nat, i: nat, j: nat)
    requires end <= 8 * |input| && i < |lens| && j < |lens|
    requires Matches(lens, input, end, p, i) && Matches(lens, input, end, p, j)
    ensures i == j
  {
    if i != j {
      var (a, b) := if lens[i] <= lens[j] then (i, j) else (j, i);
      MsbPrefix(input, p, lens[a], lens[b] - lens[a]);
      PrefixFree(lens, a, b);
    }
  }

  datatype Decoded = Symbol(sym: nat, len: nat) | NoCode | NeedBits

  /** What a decoder must return at bit p of a stream that has data up to bit end. */
  ghost function Decode(lens: seq<nat>, input: seq<Byte>, end: nat, p: nat): (d: Decoded)
    requires p <= end <= 8 * |input|
    ensures d.Symbol? ==> d.sym < |lens| && Matches(lens, input, end, p, d.sym) && d.len == lens[d.sym]
    ensures !d.Symbol? ==> forall i :: 0 <= i < |lens| ==> !Matches(lens, input, end, p, i)
  {
    if exists i: nat :: i < |lens| && Matches(lens, input, end, p, i) then
      var i: nat :| i < |lens| && Matches(lens, input, end, p, i);
      Symbol(i, lens[i])
    else if end - p < MAX_BITS then NeedBits else NoCode
  }

  /** The stream decodes to a symbol exactly when that symbol's code is what comes next. */
  lemma DecodeIffMatches(lens: seq<nat>, input: seq<Byte>, end: nat, p: nat, i: nat)
    requires p <= end <= 8 * |input| && i < |lens|
    ensures Decode(lens, input, end, p) == Symbol(i, lens[i]) <==> Matches(lens, input, end, p, i)
  {
    var d := Decode(lens, input, end, p);
    if d.Symbol? && Matches(lens, input, end, p, i) { MatchUnique(lens, input, end, p, i, d.sym); }
  }

  /** A code of length s matches exactly when the next s bits lie in that length's code range. */
  lemma MatchOfLength(lens: seq<nat>, input: seq<Byte>, end: nat, p: nat, s: nat)
    requires s > 0 && p + s <= end <= 8 * |input|
    ensures (exists i: nat :: i < |lens| && lens[i] == s && Matches(lens, input, end, p, i))
        <==> FirstCode(lens, s) <= Msb(input, p, s) < LimitCode(lens, s)
  {
    var m := Msb(input, p, s);
    if FirstCode(lens, s) <= m < LimitCode(lens, s) {
      var i := NthSymbol(lens, |lens|, s, m - FirstCode(lens, s));
      assert Matches(lens, input, end, p, i);
    }
    if i: nat :| i < |lens| && lens[i] == s && Matches(lens, input, end, p, i) {
      CodeBound(lens, i);
    }
  }

  /** Once the stream is below a length's limit, it stays below every longer length's limit. */
  lemma {:induction false} BelowLimitMono(lens: seq<nat>, input: seq<Byte>, p: nat, s: nat, t: nat)
    requires 0 < s <= t && p + t <= 8 * |input| && Msb(input, p, s) < LimitCode(lens, s)
    ensures Msb(input, p, t) < LimitCode(lens, t)
    decreases t
  {
    if s < t { BelowLimitMono(lens, input, p, s, t - 1); }
  }

  /** Some code of length at most t matches exactly when the stream is below length t's limit. */
  lemma {:induction false} MatchUpTo(lens: seq<nat>, input: seq<Byte>, end: nat, p: nat, t: nat)
    requires t > 0 && p + t <= end <= 8 * |input|
    ensures (exists i: nat :: i < |lens| && lens[i] <= t && Matches(lens, input, end, p, i))
        <==> Msb(input, p, t) < LimitCode(lens, t)
    decreases t
  {
    MatchOfLength(lens, input, end, p, t);
    if Msb(input, p, t) < LimitCode(lens, t) {
      if Msb(input, p, t) >= FirstCode(lens, t) {
      } else if t > 1 {
        MatchUpTo(lens, input, end, p, t - 1);
      }
    }
    if i: nat :| i < |lens| && lens[i] <= t && Matches(lens, input, end, p, i) {
      MatchOfLength(lens, input, end, p, lens[i]);
      BelowLimitMono(lens, input, p, lens[i], t);
    }
  }
}
