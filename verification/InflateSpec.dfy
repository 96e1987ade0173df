/**
  A reference inflate: what a DEFLATE stream (RFC 1951) means, as recursive functions over bit
  positions of an input. `end` is the bit after the last bit of compressed data. Nothing here mentions
  the decoder's buffers or tables.
 */
module InflateSpec {
  import opened Bits
  import opened BitStream
  import opened Canonical

  // ----- Output -----

  /**
    What the memory of the output buffer holds before it is written: byte i of the buffer. The decoder reads it
    when a match has distance 0, and when the buffer grows before its first eight bytes are written.
   */
  type Stale = nat -> Byte

  /**
    The bytes produced so far. `begun` is where the token (a literal, a match or a stored body) began that took
    the output past byte 8; 8 until then.
   */
  datatype Output = Output(bytes: seq<Byte>, begun: nat)

  const NO_OUTPUT := Output([], 8)

  function Emit(out: Output, chunk: seq<Byte>): Output {
    Output(out.bytes + chunk, if |out.bytes| < 8 < |out.bytes + chunk| then |out.bytes| else out.begun)
  }

  predicate Extends(out: Output, out': Output) {
    out.bytes <= out'.bytes && (|out.bytes| > 8 ==> out'.begun == out.begun)
  }

  /** Two bytes, least significant first. */
  function Word16(low: int, high: int): int { low + 0x100 * high }

  /** A font starts with "SFN" and holds its size in bytes 4 to 7, least significant first. */
  predicate HasMagic(s: seq<Byte>) {
    |s| >= 8 && s[0] == 'S' as int && s[1] == 'F' as int && s[2] == 'N' as int
  }

  function DeclaredSize(s: seq<Byte>): nat
    requires |s| >= 8
  {
    Word16(s[4], s[5]) + 0x1_0000 * Word16(s[6], s[7])
  }

  /** The eight bytes that the buffer holds when it must grow: the output up to the token begun, then old memory. */
  function FontHeader(out: Output, stale: Stale): (h: seq<Byte>)
    ensures |h| == 8 && forall i :: 0 <= i < 8 ==> h[i] == HeaderByte(out, stale, i)
  {
    seq(8, i requires i >= 0 => HeaderByte(out, stale, i))
  }

  function HeaderByte(out: Output, stale: Stale, i: nat): Byte {
    if i < out.begun && i < |out.bytes| then out.bytes[i] else stale(i)
  }

  /** The size that the buffer grows to covers the whole output. */
  predicate Admissible(out: Output, stale: Stale) {
    |out.bytes| > 8 && HasMagic(FontHeader(out, stale)) ==> |out.bytes| <= DeclaredSize(FontHeader(out, stale))
  }

  /** The output fits the first eight bytes, or is a font. */
  predicate Storable(out: Output, stale: Stale) {
    |out.bytes| <= 8 || HasMagic(FontHeader(out, stale))
  }

  /** A match of len bytes at a distance: the last dist bytes, repeated as often as needed. */
  function Copied(s: seq<Byte>, len: nat, dist: nat): (c: seq<Byte>)
    requires 0 < dist <= |s|
    ensures |c| == len && forall i :: 0 <= i < len ==> c[i] == s[|s| - dist + i % dist]
  {
    if len == 0 then [] else Copied(s, len - 1, dist) + [s[|s| - dist + (len - 1) % dist]]
  }

  /** Section 3.2.3: every byte of a match equals the byte dist places before it. */
  lemma CopiedFromBefore(s: seq<Byte>, len: nat, dist: nat, i: nat)
    requires 0 < dist <= |s| && i < len
    ensures (s + Copied(s, len, dist))[|s| + i] == (s + Copied(s, len, dist))[|s| + i - dist]
  {
    if i < dist {
      DivUnique(i, dist, 0, i);
    } else {
      DivUnique(i - dist, dist, i / dist - 1, i % dist);
    }
  }

  /** What the copy loop writes: at distance 0, which only the reserved distance symbols have, the old memory. */
  function MatchBytes(s: seq<Byte>, len: nat, dist: nat, stale: Stale): (c: seq<Byte>)
    requires dist <= |s|
    ensures |c| == len
  {
    if dist == 0 then seq(len, i requires i >= 0 => stale(|s| + i)) else Copied(s, len, dist)
  }

  // ----- Symbols of a compressed block, section 3.2.5 -----

  const LENGTH_BASE: seq<nat> :=
    [3, 4, 5, 6, 7, 8, 9, 10, 11, 13, 15, 17, 19, 23, 27, 31, 35, 43, 51, 59, 67, 83, 99, 115, 131, 163, 195, 227, 258,
        0, 0]
  const LENGTH_EXTRA: seq<nat> :=
    [0, 0, 0, 0, 0, 0, 0, 0, 1, 1, 1, 1, 2, 2, 2, 2, 3, 3, 3, 3, 4, 4, 4, 4, 5, 5, 5, 5, 0, 0, 0]
  const DIST_BASE: seq<nat> :=
    [1, 2, 3, 4, 5, 7, 9, 13, 17, 25, 33, 49, 65, 97, 129, 193, 257, 385, 513, 769, 1025, 1537, 2049, 3073, 4097, 6145,
        8193, 12289, 16385, 24577, 0, 0]
  const DIST_EXTRA: seq<nat> :=
    [0, 0, 0, 0, 1, 1, 2, 2, 3, 3, 4, 4, 5, 5, 6, 6, 7, 7, 8, 8, 9, 9, 10, 10, 11, 11, 12, 12, 13, 13, 0, 0]

  function LengthBase(z: nat): nat
    requires z < 31
  {
    LENGTH_BASE[z]
  }

  function LengthExtra(z: nat): (n: nat)
    requires z < 31
    ensures n <= 5
  {
    LENGTH_EXTRA[z]
  }

  function DistBase(d: nat): nat
    requires d < 32
  {
    DIST_BASE[d]
  }

  function DistExtra(d: nat): (n: nat)
    requires d < 32
    ensures n <= 13
  {
    DIST_EXTRA[d]
  }

  /**
    One item of a compressed block. The reserved length symbols 286 and 287 have length 0, the reserved distance
    symbols 30 and 31 distance 0, as in the kernel's tables.
   */
  datatype Item =
    | Literal(value: Byte, pos: nat)
    | Match(len: nat, dist: nat, pos: nat)
    | EndOfBlock(pos: nat)
    | BadItem
    | TruncatedItem

  ghost function ReadItem(ll: seq<nat>, dl: seq<nat>, input: seq<Byte>, end: nat, p: nat): (r: Item)
    requires p <= end <= 8 * |input| && |ll| <= 288 && |dl| <= 32
    ensures r.Literal? || r.Match? || r.EndOfBlock? ==> p < r.pos <= end
  {
    match Decode(ll, input, end, p)
    case NeedBits => TruncatedItem
    case NoCode => BadItem
    case Symbol(z, n) =>
      if z < 256 then Literal(z, p + n)
      else if z == 256 then EndOfBlock(p + n)
      else ReadMatch(dl, input, end, p + n, z - 257)
  }

  ghost function ReadMatch(dl: seq<nat>, input: seq<Byte>, end: nat, p: nat, z: nat): (r: Item)
    requires p <= end <= 8 * |input| && z < 31 && |dl| <= 32
    ensures !r.Literal? && !r.EndOfBlock?
    ensures r.Match? ==> p < r.pos <= end
  {
    var q := p + LengthExtra(z);
    if q > end then TruncatedItem else
    match Decode(dl, input, end, q)
    case NeedBits => TruncatedItem
    case NoCode => BadItem
    case Symbol(d, n) =>
      if q + n + DistExtra(d) > end then TruncatedItem
      else Match(LengthBase(z) + Lsb(input, p, LengthExtra(z)),
                 DistBase(d) + Lsb(input, q + n, DistExtra(d)),
                 q + n + DistExtra(d))
  }

  /** How decoding ends, with the output so far. */
  datatype Outcome =
    | Done(out: Output, pos: nat)
    | Bad(out: Output)
    | Truncated(out: Output)

  /** A compressed block's body, from bit p. */
  ghost function Body(ll: seq<nat>, dl: seq<nat>, input: seq<Byte>, end: nat, p: nat, out: Output,
      stale: Stale): (r: Outcome)
    requires p <= end <= 8 * |input| && |ll| <= 288 && |dl| <= 32
    ensures Extends(out, r.out)
    ensures r.Done? ==> p < r.pos <= end
    decreases end - p
  {
    match ReadItem(ll, dl, input, end, p)
    case Literal(b, q) => Body(ll, dl, input, end, q, Emit(out, [b]), stale)
    case Match(len, dist, q) =>
      if dist > |out.bytes| then Bad(out)
      else Body(ll, dl, input, end, q, Emit(out, MatchBytes(out.bytes, len, dist, stale)), stale)
    case EndOfBlock(q) => Done(out, q)
    case BadItem => Bad(out)
    case TruncatedItem => Truncated(out)
  }

  // ----- Stored blocks, section 3.2.4 -----

  function Stored(input: seq<Byte>, end: nat, p: nat, out: Output): (r: Outcome)
    requires p <= end <= 8 * |input|
    ensures Extends(out, r.out)
    ensures r.Done? ==> p < r.pos <= end
  {
    var q := AlignUp8(p);
    if q + 32 > end then Truncated(out) else
    var b := q / 8;
    var len := Word16(input[b], input[b + 1]);
    var nlen := Word16(input[b + 2], input[b + 3]);
    if nlen != 0xFFFF - len then Bad(out)
    else if q + 32 + 8 * len > end then Truncated(out)
    else Done(Emit(out, input[b + 4..b + 4 + len]), q + 32 + 8 * len)
  }

  // ----- Dynamic code lengths, section 3.2.7 -----

  const DEZIGZAG: seq<nat> := [16, 17, 18, 0, 8, 7, 9, 6, 10, 5, 11, 4, 12, 3, 13, 2, 14, 1, 15]

  /** The lengths of the code-length code: k three-bit fields, in the fixed order of the standard. */
  function CodeLengthCode(input: seq<Byte>, p: nat, k: nat): (c: seq<nat>)
    requires k <= 19 && p + 3 * k <= 8 * |input|
    ensures |c| == 19 && CodeLengths(c)
  {
    if k == 0 then seq(19, _ => 0)
    else
      LsbBound(input, p + 3 * (k - 1), 3);
      assert Pow2(3) == 8;
      CodeLengthCode(input, p, k - 1)[DEZIGZAG[k - 1] := Lsb(input, p + 3 * (k - 1), 3)]
  }

  datatype Lengths = LengthList(lens: seq<nat>, pos: nat) | BadLengths | TruncatedLengths

  /** How many extra bits a repeat symbol has, and the least number of repetitions. */
  function RepeatBits(c: nat): nat { if c == 16 then 2 else if c == 17 then 3 else 7 }

  function RepeatBase(c: nat): nat { if c == 18 then 11 else 3 }

  function Repeat(x: nat, times: nat): (s: seq<nat>)
    ensures |s| == times && forall i :: 0 <= i < times ==> s[i] == x
  {
    seq(times, _ => x)
  }

  /** Reads code lengths until there are exactly `total`. 16 repeats the previous length; 17 and 18 give zeros. */
  ghost function ReadLengths(cl: seq<nat>, input: seq<Byte>, end: nat, p: nat, total: nat, acc: seq<nat>): (r: Lengths)
    requires p <= end <= 8 * |input| && |acc| <= total && CodeLengths(acc) && |cl| == 19
    ensures r.LengthList? ==> |r.lens| == total && CodeLengths(r.lens) && p <= r.pos <= end && acc <= r.lens
    decreases end - p
  {
    if |acc| == total then LengthList(acc, p) else
    match Decode(cl, input, end, p)
    case NeedBits => TruncatedLengths
    case NoCode => BadLengths
    case Symbol(c, n) =>
      var q := p + n;
      if c < 16 then ReadLengths(cl, input, end, q, total, acc + [c])
      else if q + RepeatBits(c) > end then TruncatedLengths
      else
        var times := RepeatBase(c) + Lsb(input, q, RepeatBits(c));
        if (c == 16 && acc == []) || |acc| + times > total then BadLengths
        else
          var fill := if c == 16 then acc[|acc| - 1] else 0;
          ReadLengths(cl, input, end, q + RepeatBits(c), total, acc + Repeat(fill, times))
  }

  datatype Codes = Codes(ll: seq<nat>, dl: seq<nat>, pos: nat) | BadCodes | TruncatedCodes

  /** How many literal/length codes, distance codes and code-length codes a dynamic block declares. */
  datatype Counts = Counts(hlit: nat, hdist: nat, hclen: nat)

  function ReadCounts(input: seq<Byte>, p: nat): (k: Counts)
    requires p + 14 <= 8 * |input|
    ensures 257 <= k.hlit <= 288 && 1 <= k.hdist <= 32 && 4 <= k.hclen <= 19
  {
    LsbBound(input, p, 5);
    LsbBound(input, p + 5, 5);
    LsbBound(input, p + 10, 4);
    assert Pow2(4) == 16 && Pow2(5) == 32;
    Counts(Lsb(input, p, 5) + 257, Lsb(input, p + 5, 5) + 1, Lsb(input, p + 10, 4) + 4)
  }

  /** Both codes of a dynamic block from its full list of lengths. */
  ghost function SplitCodes(lens: seq<nat>, hlit: nat, p: nat): (r: Codes)
    requires hlit <= |lens| && CodeLengths(lens)
    ensures r.Codes? || r.BadCodes?
    ensures r.Codes? ==> r.pos == p && r.ll == lens[..hlit] && r.dl == lens[hlit..]
    ensures r.Codes? ==> CodeLengths(r.ll) && CodeLengths(r.dl) && Kraft(r.ll) && Kraft(r.dl)
  {
    if Kraft(lens[..hlit]) && Kraft(lens[hlit..]) then Codes(lens[..hlit], lens[hlit..], p) else BadCodes
  }

  ghost function CodesAfter(cl: seq<nat>, input: seq<Byte>, end: nat, p: nat, hlit: nat, hdist: nat): (r: Codes)
    requires p <= end <= 8 * |input| && |cl| == 19 && CodeLengths(cl)
    ensures r.Codes? ==> p <= r.pos <= end && CodeLengths(r.ll) && CodeLengths(r.dl) && Kraft(r.ll) && Kraft(r.dl)
    ensures r.Codes? ==> |r.ll| == hlit && |r.dl| == hdist
  {
    if !Kraft(cl) then BadCodes else
    match ReadLengths(cl, input, end, p, hlit + hdist, [])
    case BadLengths => BadCodes
    case TruncatedLengths => TruncatedCodes
    case LengthList(lens, q) => SplitCodes(lens, hlit, q)
  }

  ghost function DynamicCodes(input: seq<Byte>, end: nat, p: nat): (r: Codes)
    requires p <= end <= 8 * |input|
    ensures r.Codes? ==> p <= r.pos <= end && CodeLengths(r.ll) && CodeLengths(r.dl) && Kraft(r.ll) && Kraft(r.dl)
    ensures r.Codes? ==> |r.ll| <= 288 && |r.dl| <= 32
  {
    if p + 14 > end then TruncatedCodes else
    var k := ReadCounts(input, p);
    var q := p + 14 + 3 * k.hclen;
    if q > end then TruncatedCodes
    else CodesAfter(CodeLengthCode(input, p + 14, k.hclen), input, end, q, k.hlit, k.hdist)
  }

  // ----- Fixed codes, section 3.2.6 -----

  function FixedLength(i: nat): nat {
    if i <= 143 then 8 else if i <= 255 then 9 else if i <= 279 then 7 else 8
  }

  function FixedLengths(): (lens: seq<nat>)
    ensures |lens| == 288 && forall i :: 0 <= i < 288 ==> lens[i] == FixedLength(i)
  {
    seq(288, i requires 0 <= i => FixedLength(i))
  }

  function FixedDistances(): (lens: seq<nat>)
    ensures lens == Repeat(5, 32)
  {
    Repeat(5, 32)
  }

  // ----- The whole stream, section 3.2.3 -----

  ghost function Block(input: seq<Byte>, end: nat, p: nat, kind: nat, out: Output, stale: Stale): (r: Outcome)
    requires p <= end <= 8 * |input|
    ensures Extends(out, r.out)
    ensures r.Done? ==> p < r.pos <= end
  {
    if kind == 0 then Stored(input, end, p, out)
    else if kind == 3 then Bad(out)
    else if kind == 1 then Body(FixedLengths(), FixedDistances(), input, end, p, out, stale)
    else
      match DynamicCodes(input, end, p)
      case BadCodes => Bad(out)
      case TruncatedCodes => Truncated(out)
      case Codes(ll, dl, q) => Body(ll, dl, input, end, q, out, stale)
  }

  /** Blocks from bit p to the one marked final. */
  ghost function Blocks(input: seq<Byte>, end: nat, p: nat, out: Output, stale: Stale): (r: Outcome)
    requires p <= end <= 8 * |input|
    ensures Extends(out, r.out)
    decreases end - p
  {
    if p + 3 > end then Truncated(out) else
    var final := Lsb(input, p, 1);
    var r := Block(input, end, p + 3, Lsb(input, p + 1, 2), out, stale);
    if r.Done? && final == 0 then Blocks(input, end, r.pos, r.out, stale) else r
  }

  ghost function Inflate(input: seq<Byte>, end: nat, stale: Stale): Outcome
    requires end <= 8 * |input|
  {
    Blocks(input, end, 0, NO_OUTPUT, stale)
  }

  // ----- Streams that do not read old memory -----

  /** The output does not depend on old memory in what the decoder does with it. */
  predicate Whole(out: Output) { |out.bytes| > 8 ==> out.begun >= 8 }

  /** If no token straddles byte 8, the header is the output's own. */
  lemma WholeHeader(out: Output, stale: Stale)
    requires Whole(out) && |out.bytes| > 8
    ensures FontHeader(out, stale) == out.bytes[..8]
  {}

  // ----- The fixed codes are prefix-free -----

  lemma {:induction false} KraftRun(lens: seq<nat>, m: nat, n: nat, s: nat, p: nat)
    requires CodeLengths(lens) && m <= n <= |lens| && 0 < s <= MAX_BITS && p == Pow2(MAX_BITS - s)
    requires forall i :: m <= i < n ==> lens[i] == s
    ensures KraftSum(lens, n) == KraftSum(lens, m) + p * (n - m)
    decreases n
  {
    hide Pow2;
    if m < n {
      KraftRun(lens, m, n - 1, s, p);
      MulDistrib(p, n - 1 - m, 1);
    }
  }

  /** The fixed codes satisfy the Kraft inequality with equality, so a fixed block is never refused. */
  lemma FixedLengthsComplete(lens: seq<nat>)
    requires |lens| == 288 && forall i :: 0 <= i < 288 ==> lens[i] == FixedLength(i)
    ensures CodeLengths(lens) && KraftSum(lens, |lens|) == Pow2(MAX_BITS)
  {
    assert Pow2(6) == 64 && Pow2(7) == 128 && Pow2(8) == 256 && Pow2(15) == 32768;
    KraftRun(lens, 0, 144, 8, 128);
    KraftRun(lens, 144, 256, 9, 64);
    KraftRun(lens, 256, 280, 7, 256);
    KraftRun(lens, 280, |lens|, 8, 128);
  }

  lemma FixedDistancesComplete(lens: seq<nat>)
    requires |lens| == 32 && forall i :: 0 <= i < 32 ==> lens[i] == 5
    ensures CodeLengths(lens) && KraftSum(lens, |lens|) == Pow2(MAX_BITS)
  {
    assert Pow2(10) == 1024 && Pow2(15) == 32768;
    KraftRun(lens, 0, |lens|, 5, 1024);
  }
}
