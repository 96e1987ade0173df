/**
  The inverse of inflating for compressed blocks (RFC 1951, sections 3.2.5 to 3.2.7): literals and matches written
  with the fixed codes, or with any two codes that a block declares, inflate to what they stand for.
 */
module CompressedBlocks {
  import opened Bits
  import opened BitStream
  import opened Canonical
  import opened InflateSpec
  import opened InflateTables
  import Inflate
  import StoredBlocks

  type Bin = b: nat | b < 2

  /** A literal, or a match with the two symbols, from 257 and 0 on, and the extra bits that say it. */
  datatype Token = Lit(value: Byte) | Ref(len: nat, dist: nat, z: nat, x: nat, d: nat, y: nat)

  /** Part of a list of code lengths: one length, the one before it again n times, or n zeros. */
  datatype Run = One(len: nat) | Again(n: nat) | Zeros(n: nat)

  /**
    A block with the fixed codes, or one that declares its codes: by the runs that their lengths are cut into, and by
    the first few fields of a code for these.
   */
  datatype Coded =
    | FixedCoded(tokens: seq<Token>)
    | DynamicCoded(ll: seq<nat>, dl: seq<nat>, cl: seq<nat>, fields: nat, runs: seq<Run>, tokens: seq<Token>)

  // ----- Writing -----

  /** The n low bits of v, first bit least significant; and most significant. */
  function LsbBits(v: nat, n: nat): (s: seq<Bin>)
    ensures |s| == n
  {
    if n == 0 then [] else [v % 2] + LsbBits(v / 2, n - 1)
  }

  function MsbBits(v: nat, n: nat): (s: seq<Bin>)
    ensures |s| == n
  {
    if n == 0 then [] else MsbBits(v / 2, n - 1) + [v % 2]
  }

  function SymbolBits(lens: seq<nat>, i: nat): (s: seq<Bin>)
    requires i < |lens|
    ensures |s| == lens[i]
  {
    MsbBits(CodeOf(lens, i), lens[i])
  }

  /** The token's symbols have codes, its extra bits fit, and they say its length and distance. */
  predicate Sayable(ll: seq<nat>, dl: seq<nat>, t: Token)
    requires |ll| <= 288 && |dl| <= 32
  {
    match t
    case Lit(b) => b < |ll| && ll[b] > 0
    case Ref(len, dist, z, x, d, y) =>
      && z + 257 < |ll| && ll[z + 257] > 0 && x < Pow2(LengthExtra(z)) && len == LengthBase(z) + x
      && d < |dl| && dl[d] > 0 && y < Pow2(DistExtra(d)) && dist == DistBase(d) + y
  }

  /** The fixed codes can say every match: any length of 3 to 258 bytes, from any distance of 1 to 32768. */
  lemma EveryMatch(len: nat, dist: nat) returns (t: Token)
    requires 3 <= len <= 258 && 1 <= dist <= 32768
    ensures t.Ref? && t.len == len && t.dist == dist && Sayable(FixedLengths(), FixedDistances(), t)
  {
    hide LengthBase, LengthExtra, DistBase, DistExtra, Pow2;
    var z, x := EveryLength(len);
    var d, y := EveryDistance(dist);
    t := Ref(len, dist, z, x, d, y);
  }

  /** Whatever the codes, a match that is not said by a reserved symbol is such a match. */
  lemma SaidMatch(ll: seq<nat>, dl: seq<nat>, t: Token)
    requires |ll| <= 288 && |dl| <= 32 && Sayable(ll, dl, t) && t.Ref?
    ensures if t.z < 29 then 3 <= t.len <= 258 else t.len == 0
    ensures if t.d < 30 then 1 <= t.dist <= 32768 else t.dist == 0
  {
    hide LengthBase, LengthExtra, DistBase, DistExtra, Pow2;
    if t.z < 29 { LengthMeans(t.z, t.x); }
    if t.d < 30 { DistanceMeans(t.d, t.y); }
    ReservedSymbols(if t.z < 29 then 29 else t.z, if t.d < 30 then 30 else t.d);
    SmallPowers();
  }

  function RefBits(dl: seq<nat>, z: nat, x: nat, d: nat, y: nat): (s: seq<Bin>)
    requires z < 31 && |dl| <= 32 && d < |dl|
    ensures |s| == LengthExtra(z) + dl[d] + DistExtra(d)
  {
    LsbBits(x, LengthExtra(z)) + (SymbolBits(dl, d) + LsbBits(y, DistExtra(d)))
  }

  function TokenBits(ll: seq<nat>, dl: seq<nat>, t: Token): seq<Bin>
    requires |ll| <= 288 && |dl| <= 32 && Sayable(ll, dl, t)
  {
    match t
    case Lit(b) => SymbolBits(ll, b)
    case Ref(_, _, z, x, d, y) => SymbolBits(ll, z + 257) + RefBits(dl, z, x, d, y)
  }

  /** Two codes, with one for the end of a block. */
  predicate TwoCodes(ll: seq<nat>, dl: seq<nat>) {
    && CodeLengths(ll) && CodeLengths(dl) && Kraft(ll) && Kraft(dl)
    && 257 <= |ll| <= 288 && 1 <= |dl| <= 32 && ll[256] > 0
  }

  predicate AllSayable(ll: seq<nat>, dl: seq<nat>, tokens: seq<Token>)
    requires |ll| <= 288 && |dl| <= 32
  {
    forall i :: 0 <= i < |tokens| ==> Sayable(ll, dl, tokens[i])
  }

  function BodyBits(ll: seq<nat>, dl: seq<nat>, tokens: seq<Token>): seq<Bin>
    requires 257 <= |ll| <= 288 && |dl| <= 32 && AllSayable(ll, dl, tokens)
  {
    if tokens == [] then SymbolBits(ll, 256) else TokenBits(ll, dl, tokens[0]) + BodyBits(ll, dl, tokens[1..])
  }

  // ----- What tokens stand for -----

  /** No match reaches back before the output, n bytes of which are there. */
  predicate Reaches(tokens: seq<Token>, n: nat) {
    tokens == [] ||
    match tokens[0]
    case Lit(_) => Reaches(tokens[1..], n + 1)
    case Ref(len, dist, _, _, _, _) => dist <= n && Reaches(tokens[1..], n + len)
  }

  function Expanded(out: Output, tokens: seq<Token>, stale: Stale): (r: Output)
    requires Reaches(tokens, |out.bytes|)
    decreases |tokens|
  {
    if tokens == [] then out
    else
      match tokens[0]
      case Lit(b) => Expanded(Emit(out, [b]), tokens[1..], stale)
      case Ref(len, dist, _, _, _, _) =>
        Expanded(Emit(out, MatchBytes(out.bytes, len, dist, stale)), tokens[1..], stale)
  }

  // ----- Bits in a stream -----

  ghost predicate Holds(input: seq<Byte>, p: nat, bits: seq<Bin>) {
    p + |bits| <= 8 * |input| && forall k: nat :: k < |bits| ==> StreamBit(input, p + k) == bits[k]
  }

  lemma HoldsParts(input: seq<Byte>, p: nat, a: seq<Bin>, b: seq<Bin>)
    requires Holds(input, p, a + b)
    ensures Holds(input, p, a) && Holds(input, p + |a|, b)
  {
    hide StreamBit;
    forall k: nat | k < |a| ensures StreamBit(input, p + k) == a[k] { assert (a + b)[k] == a[k]; }
    forall k: nat | k < |b| ensures StreamBit(input, p + |a| + k) == b[k] { assert (a + b)[|a| + k] == b[k]; }
  }

  lemma {:induction false} LsbRead(input: seq<Byte>, p: nat, v: nat, n: nat)
    requires v < Pow2(n) && Holds(input, p, LsbBits(v, n))
    ensures Lsb(input, p, n) == v
    decreases n
  {
    hide StreamBit;
    if n > 0 {
      HoldsParts(input, p, [v % 2], LsbBits(v / 2, n - 1));
      LsbRead(input, p + 1, v / 2, n - 1);
      assert LsbBits(v, n)[0] == v % 2 && StreamBit(input, p + 0) == v % 2;
    }
  }

  lemma {:induction false} MsbRead(input: seq<Byte>, p: nat, v: nat, n: nat)
    requires v < Pow2(n) && Holds(input, p, MsbBits(v, n))
    ensures Msb(input, p, n) == v
  {
    hide StreamBit;
    if n > 0 {
      HoldsParts(input, p, MsbBits(v / 2, n - 1), [v % 2]);
      MsbRead(input, p, v / 2, n - 1);
      assert MsbBits(v, n)[n - 1] == v % 2;
    }
  }

  /** A written symbol is decoded. */
  lemma SymbolRead(lens: seq<nat>, input: seq<Byte>, end: nat, p: nat, i: nat)
    requires CodeLengths(lens) && Kraft(lens) && i < |lens| && lens[i] > 0
    requires p + lens[i] <= end <= 8 * |input| && Holds(input, p, SymbolBits(lens, i))
    ensures Decode(lens, input, end, p) == Symbol(i, lens[i])
  {
    hide Holds, MsbBits, CodeOf, Kraft, Msb;
    CodeBound(lens, i);
    MsbRead(input, p, CodeOf(lens, i), lens[i]);
    DecodeIffMatches(lens, input, end, p, i);
  }

  lemma RefRead(dl: seq<nat>, input: seq<Byte>, end: nat, p: nat, z: nat, x: nat, d: nat, y: nat)
    requires |dl| <= 32 && CodeLengths(dl) && Kraft(dl) && d < |dl| && dl[d] > 0
    requires z < 31 && x < Pow2(LengthExtra(z)) && y < Pow2(DistExtra(d))
    requires p + |RefBits(dl, z, x, d, y)| <= end <= 8 * |input| && Holds(input, p, RefBits(dl, z, x, d, y))
    ensures ReadMatch(dl, input, end, p, z) ==
        Match(LengthBase(z) + x, DistBase(d) + y, p + |RefBits(dl, z, x, d, y)|)
  {
    hide Holds, SymbolBits, LsbBits, Decode, Lsb, Kraft, LengthBase, LengthExtra, DistBase, DistExtra, Pow2;
    var b, c, e := LsbBits(x, LengthExtra(z)), SymbolBits(dl, d), LsbBits(y, DistExtra(d));
    HoldsParts(input, p, b, c + e);
    HoldsParts(input, p + |b|, c, e);
    LsbRead(input, p, x, LengthExtra(z));
    SymbolRead(dl, input, end, p + |b|, d);
    LsbRead(input, p + |b| + |c|, y, DistExtra(d));
  }

  /** A written token is read. */
  lemma TokenRead(ll: seq<nat>, dl: seq<nat>, input: seq<Byte>, end: nat, p: nat, t: Token)
    requires TwoCodes(ll, dl) && Sayable(ll, dl, t)
    requires p + |TokenBits(ll, dl, t)| <= end <= 8 * |input| && Holds(input, p, TokenBits(ll, dl, t))
    ensures ReadItem(ll, dl, input, end, p) ==
      match t
      case Lit(b) => Literal(b, p + |TokenBits(ll, dl, t)|)
      case Ref(len, dist, _, _, _, _) => Match(len, dist, p + |TokenBits(ll, dl, t)|)
  {
    hide Holds, SymbolBits, RefBits, Decode, ReadMatch, Kraft, LengthBase, LengthExtra, DistBase, DistExtra, Pow2;
    match t
    case Lit(b) => SymbolRead(ll, input, end, p, b);
    case Ref(_, _, z, x, d, y) =>
      HoldsParts(input, p, SymbolBits(ll, z + 257), RefBits(dl, z, x, d, y));
      SymbolRead(ll, input, end, p, z + 257);
      RefRead(dl, input, end, p + ll[z + 257], z, x, d, y);
  }

  lemma EndRead(ll: seq<nat>, dl: seq<nat>, input: seq<Byte>, end: nat, p: nat)
    requires TwoCodes(ll, dl) && p + ll[256] <= end <= 8 * |input| && Holds(input, p, SymbolBits(ll, 256))
    ensures ReadItem(ll, dl, input, end, p) == EndOfBlock(p + ll[256])
  {
    hide Holds, SymbolBits, Decode, Kraft;
    SymbolRead(ll, input, end, p, 256);
  }

  /** The body of a block, for any two codes: it reads back as its tokens. */
  lemma {:induction false} BodyRead(ll: seq<nat>, dl: seq<nat>, input: seq<Byte>, end: nat, p: nat, tokens: seq<Token>,
      out: Output, stale: Stale)
    requires TwoCodes(ll, dl) && AllSayable(ll, dl, tokens) && Reaches(tokens, |out.bytes|)
    requires p + |BodyBits(ll, dl, tokens)| <= end <= 8 * |input| && Holds(input, p, BodyBits(ll, dl, tokens))
    ensures Body(ll, dl, input, end, p, out, stale) ==
        Done(Expanded(out, tokens, stale), p + |BodyBits(ll, dl, tokens)|)
    decreases |tokens|
  {
    hide Holds, SymbolBits, TokenBits, ReadItem, TwoCodes, Sayable, MatchBytes;
    CodeSizes(ll, dl);
    if tokens == [] {
      EndRead(ll, dl, input, end, p);
    } else {
      var bits, rest := TokenBits(ll, dl, tokens[0]), BodyBits(ll, dl, tokens[1..]);
      HoldsParts(input, p, bits, rest);
      TokenRead(ll, dl, input, end, p, tokens[0]);
      var out' := match tokens[0]
        case Lit(b) => Emit(out, [b])
        case Ref(len, dist, _, _, _, _) => Emit(out, MatchBytes(out.bytes, len, dist, stale));
      BodyRead(ll, dl, input, end, p + |bits|, tokens[1..], out', stale);
    }
  }

  lemma CodeSizes(ll: seq<nat>, dl: seq<nat>)
    requires TwoCodes(ll, dl)
    ensures 257 <= |ll| <= 288 && 1 <= |dl| <= 32 && ll[256] > 0
  {}

  // ----- The code for code lengths -----

  /** A code for code lengths that its first fields declare, in three bits each. */
  predicate LengthCodeOk(cl: seq<nat>, fields: nat) {
    && |cl| == 19 && 4 <= fields <= 19 && (forall i :: 0 <= i < 19 ==> cl[i] < 8)
    && CodeLengths(cl) && Kraft(cl) && forall k :: fields <= k < 19 ==> cl[Place(k)] == 0
  }

  function FieldBits(cl: seq<nat>, k: nat): (s: seq<Bin>)
    requires |cl| == 19 && k <= 19
    ensures |s| == 3 * k
  {
    if k == 0 then [] else FieldBits(cl, k - 1) + LsbBits(cl[Place(k - 1)], 3)
  }

  lemma FieldRead(input: seq<Byte>, p: nat, k: nat)
    requires k < 19 && p + 3 * (k + 1) <= 8 * |input|
    ensures Lsb(input, p + 3 * k, 3) <= MAX_BITS
    ensures CodeLengthCode(input, p, k + 1) == CodeLengthCode(input, p, k)[Place(k) := Lsb(input, p + 3 * k, 3)]
  {
    hide Lsb;
    LsbBound(input, p + 3 * k, 3);
    LengthOrder(k);
    assert Pow2(3) == 8;
  }

  /** The field of each symbol. */
  function FieldOf(i: nat): (k: nat)
    requires i < 19
    ensures k < 19 && Place(k) == i
  {
    if i >= 16 then i - 16 else if i == 0 then 3 else if i >= 8 then 2 * i - 12 else 19 - 2 * i
  }

  lemma FieldsDiffer(i: nat, k: nat)
    requires i < 19 && k < 19
    ensures FieldOf(i) == k <==> Place(k) == i
  {}

  lemma {:induction false} FieldsRead(cl: seq<nat>, input: seq<Byte>, p: nat, k: nat)
    requires |cl| == 19 && k <= 19 && (forall i :: 0 <= i < 19 ==> cl[i] < 8)
    requires p + 3 * k <= 8 * |input| && Holds(input, p, FieldBits(cl, k))
    ensures forall i: nat :: i < 19 ==> CodeLengthCode(input, p, k)[i] == if FieldOf(i) < k then cl[i] else 0
  {
    hide Holds, LsbBits, Lsb, Place, FieldOf, CodeLengthCode, Pow2;
    if k > 0 {
      HoldsParts(input, p, FieldBits(cl, k - 1), LsbBits(cl[Place(k - 1)], 3));
      FieldsRead(cl, input, p, k - 1);
      SmallPowers();
      LsbRead(input, p + 3 * (k - 1), cl[Place(k - 1)], 3);
      FieldRead(input, p, k - 1);
      forall i: nat | i < 19 ensures FieldOf(i) == k - 1 <==> Place(k - 1) == i { FieldsDiffer(i, k - 1); }
    } else {
      NoFields(input, p);
    }
  }

  lemma NoFields(input: seq<Byte>, p: nat)
    requires p <= 8 * |input|
    ensures forall i: nat :: i < 19 ==> CodeLengthCode(input, p, 0)[i] == 0
  {}

  lemma LengthCodeRead(cl: seq<nat>, fields: nat, input: seq<Byte>, p: nat)
    requires LengthCodeOk(cl, fields) && p + 3 * fields <= 8 * |input| && Holds(input, p, FieldBits(cl, fields))
    ensures CodeLengthCode(input, p, fields) == cl
  {
    hide Holds, FieldBits, CodeLengthCode, Place, FieldOf, Kraft;
    FieldsRead(cl, input, p, fields);
    forall i: nat | i < 19 ensures CodeLengthCode(input, p, fields)[i] == cl[i] {
      if FieldOf(i) >= fields { assert cl[Place(FieldOf(i))] == 0; }
    }
  }

  // ----- Lists of code lengths, in runs -----

  function RunSymbol(r: Run): (c: nat)
    requires r.One? ==> r.len < 16
    ensures c < 19
  {
    match r
    case One(len) => len
    case Again(_) => 16
    case Zeros(n) => if n <= 10 then 17 else 18
  }

  /** 3 to 6 times again in two bits; 3 to 10 zeros in three bits, 11 to 138 in seven. */
  function RunExtra(r: Run): seq<Bin>
    requires r.Again? || r.Zeros? ==> r.n >= 3
  {
    match r
    case One(_) => []
    case Again(n) => LsbBits(n - 3, 2)
    case Zeros(n) => if n <= 10 then LsbBits(n - 3, 3) else LsbBits(n - 11, 7)
  }

  predicate RunOk(cl: seq<nat>, acc: seq<nat>, r: Run)
    requires |cl| == 19
  {
    match r
    case One(len) => len < 16 && cl[len] > 0
    case Again(n) => 3 <= n <= 6 && acc != [] && cl[16] > 0
    case Zeros(n) => 3 <= n <= 138 && cl[if n <= 10 then 17 else 18] > 0
  }

  function Added(acc: seq<nat>, r: Run): seq<nat>
    requires r.Again? ==> acc != []
  {
    match r
    case One(len) => acc + [len]
    case Again(n) => acc + seq(n, _ => acc[|acc| - 1])
    case Zeros(n) => acc + seq(n, _ => 0)
  }

  predicate RunsOk(cl: seq<nat>, acc: seq<nat>, runs: seq<Run>)
    requires |cl| == 19
    decreases |runs|
  {
    runs == [] || (RunOk(cl, acc, runs[0]) && RunsOk(cl, Added(acc, runs[0]), runs[1..]))
  }

  /** The list that the runs are cut from, after acc. */
  function Unrolled(cl: seq<nat>, acc: seq<nat>, runs: seq<Run>): (lens: seq<nat>)
    requires |cl| == 19 && RunsOk(cl, acc, runs)
    ensures |lens| >= |acc| + |runs|
    decreases |runs|
  {
    if runs == [] then acc else Unrolled(cl, Added(acc, runs[0]), runs[1..])
  }

  function RunBits(cl: seq<nat>, acc: seq<nat>, r: Run): seq<Bin>
    requires |cl| == 19 && RunOk(cl, acc, r)
  {
    SymbolBits(cl, RunSymbol(r)) + RunExtra(r)
  }

  function RunsBits(cl: seq<nat>, acc: seq<nat>, runs: seq<Run>): seq<Bin>
    requires |cl| == 19 && RunsOk(cl, acc, runs)
    decreases |runs|
  {
    if runs == [] then [] else RunBits(cl, acc, runs[0]) + RunsBits(cl, Added(acc, runs[0]), runs[1..])
  }

  /** A repeat symbol's extra bits are read as the number of repetitions. */
  lemma ExtraRead(input: seq<Byte>, p: nat, cl: seq<nat>, acc: seq<nat>, r: Run)
    requires |cl| == 19 && RunOk(cl, acc, r) && !r.One? && Holds(input, p, RunExtra(r))
    ensures var c := RunSymbol(r);
      && |RunExtra(r)| == RepeatBits(c) && p + RepeatBits(c) <= 8 * |input|
      && RepeatBase(c) + Lsb(input, p, RepeatBits(c)) == r.n
  {
    hide Holds, LsbBits, Lsb, Pow2;
    HoldsIn(input, p, RunExtra(r));
    SmallPowers();
    match r
    case Again(n) => LsbRead(input, p, n - 3, 2);
    case Zeros(n) => if n <= 10 { LsbRead(input, p, n - 3, 3); } else { LsbRead(input, p, n - 11, 7); }
  }

  lemma LengthMore(cl: seq<nat>, input: seq<Byte>, end: nat, p: nat, total: nat, acc: seq<nat>, c: nat, n: nat)
    requires p <= end <= 8 * |input| && |acc| < total && CodeLengths(acc) && |cl| == 19 && c < 16 && p + n <= end
    requires Decode(cl, input, end, p) == Symbol(c, n) && n > 0
    ensures ReadLengths(cl, input, end, p, total, acc) == ReadLengths(cl, input, end, p + n, total, acc + [c])
  {
    hide Decode;
  }

  lemma RepeatMore(cl: seq<nat>, input: seq<Byte>, end: nat, p: nat, total: nat, acc: seq<nat>, c: nat, n: nat,
      times: nat, acc': seq<nat>)
    requires p <= end <= 8 * |input| && |acc| < total && CodeLengths(acc) && |cl| == 19 && 16 <= c < 19 && n > 0
    requires Decode(cl, input, end, p) == Symbol(c, n) && p + n + RepeatBits(c) <= end
    requires times == RepeatBase(c) + Lsb(input, p + n, RepeatBits(c)) && |acc| + times <= total && CodeLengths(acc')
    requires (c == 16 ==> acc != []) && acc' == acc + Repeat(if c == 16 then acc[|acc| - 1] else 0, times)
    ensures ReadLengths(cl, input, end, p, total, acc) ==
        ReadLengths(cl, input, end, p + n + RepeatBits(c), total, acc')
  {
    hide Decode, RepeatBase, RepeatBits, Lsb;
  }

  /** A written run is read. */
  lemma RunRead(cl: seq<nat>, input: seq<Byte>, end: nat, p: nat, total: nat, acc: seq<nat>, r: Run)
    requires |cl| == 19 && CodeLengths(cl) && Kraft(cl) && CodeLengths(acc) && RunOk(cl, acc, r)
    requires |Added(acc, r)| <= total && p + |RunBits(cl, acc, r)| <= end <= 8 * |input|
    requires Holds(input, p, RunBits(cl, acc, r))
    ensures CodeLengths(Added(acc, r)) && |acc| < total
    ensures ReadLengths(cl, input, end, p, total, acc) ==
        ReadLengths(cl, input, end, p + |RunBits(cl, acc, r)|, total, Added(acc, r))
  {
    hide Holds, SymbolBits, Decode, Kraft, RunExtra, RepeatBits, RepeatBase, Lsb, ReadLengths;
    var c := RunSymbol(r);
    HoldsParts(input, p, SymbolBits(cl, c), RunExtra(r));
    SymbolRead(cl, input, end, p, c);
    if r.One? {
      NothingExtra(r);
      LengthMore(cl, input, end, p, total, acc, c, cl[c]);
    } else {
      ExtraRead(input, p + cl[c], cl, acc, r);
      assert Added(acc, r) == acc + Repeat(if c == 16 then acc[|acc| - 1] else 0, r.n);
      RepeatMore(cl, input, end, p, total, acc, c, cl[c], r.n, Added(acc, r));
    }
  }

  lemma NothingExtra(r: Run)
    requires r.One?
    ensures RunExtra(r) == []
  {}

  /** Runs written one after the other read back as the list they are cut from. */
  lemma {:induction false} RunsRead(cl: seq<nat>, input: seq<Byte>, end: nat, p: nat, total: nat, acc: seq<nat>,
      runs: seq<Run>)
    requires |cl| == 19 && CodeLengths(cl) && Kraft(cl) && CodeLengths(acc) && RunsOk(cl, acc, runs)
    requires |Unrolled(cl, acc, runs)| == total && p + |RunsBits(cl, acc, runs)| <= end <= 8 * |input|
    requires Holds(input, p, RunsBits(cl, acc, runs))
    ensures ReadLengths(cl, input, end, p, total, acc) ==
        LengthList(Unrolled(cl, acc, runs), p + |RunsBits(cl, acc, runs)|)
    decreases |runs|
  {
    hide Holds, RunBits, Added, Kraft, ReadLengths;
    if runs == [] {
      Inflate.LengthsEnd(cl, input, end, p, total, acc);
    } else {
      var next := Added(acc, runs[0]);
      HoldsParts(input, p, RunBits(cl, acc, runs[0]), RunsBits(cl, next, runs[1..]));
      RunRead(cl, input, end, p, total, acc, runs[0]);
      RunsRead(cl, input, end, p + |RunBits(cl, acc, runs[0])|, total, next, runs[1..]);
    }
  }

  /** Every list of code lengths can be written one length at a time. */
  function Singly(lens: seq<nat>): (runs: seq<Run>)
    ensures |runs| == |lens| && forall i :: 0 <= i < |lens| ==> runs[i] == One(lens[i])
  {
    seq(|lens|, i requires 0 <= i < |lens| => One(lens[i]))
  }

  lemma {:induction false} SinglyUnrolls(cl: seq<nat>, acc: seq<nat>, lens: seq<nat>, runs: seq<Run>)
    requires |cl| == 19 && CodeLengths(lens) && forall i :: 0 <= i < 16 ==> cl[i] > 0
    requires |runs| == |lens| && forall i :: 0 <= i < |lens| ==> runs[i] == One(lens[i])
    ensures RunsOk(cl, acc, runs) && Unrolled(cl, acc, runs) == acc + lens
    decreases |lens|
  {
    if lens == [] {
      assert acc + lens == acc;
    } else {
      SinglyUnrolls(cl, acc + [lens[0]], lens[1..], runs[1..]);
      assert acc + [lens[0]] + lens[1..] == acc + lens;
    }
  }

  // ----- Declaring the codes of a block -----

  predicate CodesOk(ll: seq<nat>, dl: seq<nat>, cl: seq<nat>, fields: nat, runs: seq<Run>) {
    TwoCodes(ll, dl) && LengthCodeOk(cl, fields) && RunsOk(cl, [], runs) && Unrolled(cl, [], runs) == ll + dl
  }

  /** How many codes of each kind there are: 257 to 288, 1 to 32, and 4 to 19 fields. */
  function CountBits(hlit: nat, hdist: nat, fields: nat): (s: seq<Bin>)
    requires hlit >= 257 && hdist >= 1 && fields >= 4
    ensures |s| == 14
  {
    LsbBits(hlit - 257, 5) + (LsbBits(hdist - 1, 5) + LsbBits(fields - 4, 4))
  }

  function CodesBits(ll: seq<nat>, dl: seq<nat>, cl: seq<nat>, fields: nat, runs: seq<Run>): seq<Bin>
    requires CodesOk(ll, dl, cl, fields, runs)
  {
    CountBits(|ll|, |dl|, fields) + (FieldBits(cl, fields) + RunsBits(cl, [], runs))
  }

  lemma CountsRead(input: seq<Byte>, p: nat, hlit: nat, hdist: nat, fields: nat)
    requires 257 <= hlit <= 288 && 1 <= hdist <= 32 && 4 <= fields <= 19 && p + 14 <= 8 * |input|
    requires Holds(input, p, CountBits(hlit, hdist, fields))
    ensures ReadCounts(input, p) == Counts(hlit, hdist, fields)
  {
    hide Holds, LsbBits, Lsb, Pow2;
    SmallPowers();
    var a, b, c := LsbBits(hlit - 257, 5), LsbBits(hdist - 1, 5), LsbBits(fields - 4, 4);
    HoldsParts(input, p, a, b + c);
    HoldsParts(input, p + 5, b, c);
    LsbRead(input, p, hlit - 257, 5);
    LsbRead(input, p + 5, hdist - 1, 5);
    LsbRead(input, p + 10, fields - 4, 4);
  }

  /** Declared codes are read, whatever they are and however their lengths are cut into runs. */
  lemma CodesRead(ll: seq<nat>, dl: seq<nat>, cl: seq<nat>, fields: nat, runs: seq<Run>, bits: seq<Bin>,
      input: seq<Byte>, end: nat, p: nat)
    requires p + |bits| <= end <= 8 * |input| && Holds(input, p, bits)
    requires CodesOk(ll, dl, cl, fields, runs) && bits == CodesBits(ll, dl, cl, fields, runs)
    ensures DynamicCodes(input, end, p) == Codes(ll, dl, p + |bits|)
  {
    hide Holds, CountBits, FieldBits, RunsBits, RunsOk, Unrolled, Kraft, ReadLengths, CodeLengthCode, ReadCounts,
      LengthCodeOk;
    LengthCodeParts(cl, fields);
    var a, b, c := CountBits(|ll|, |dl|, fields), FieldBits(cl, fields), RunsBits(cl, [], runs);
    HoldsParts(input, p, a, b + c);
    HoldsParts(input, p + 14, b, c);
    CountsRead(input, p, |ll|, |dl|, fields);
    LengthCodeRead(cl, fields, input, p + 14);
    RunsRead(cl, input, end, p + 14 + 3 * fields, |ll| + |dl|, [], runs);
    assert (ll + dl)[..|ll|] == ll && (ll + dl)[|ll|..] == dl;
  }

  lemma LengthCodeParts(cl: seq<nat>, fields: nat)
    requires LengthCodeOk(cl, fields)
    ensures |cl| == 19 && 4 <= fields <= 19 && CodeLengths(cl) && Kraft(cl)
  {}

  /** A code for code lengths that gives four bits to every length below 16, and none to the repeat symbols. */
  function FourBits(): (c: seq<nat>)
    ensures |c| == 19 && forall i :: 0 <= i < 19 ==> c[i] == if i < 16 then 4 else 0
  {
    seq(19, i => if i < 16 then 4 else 0)
  }

  /** So any two codes can be declared. */
  lemma AnyCodes(ll: seq<nat>, dl: seq<nat>, cl: seq<nat>)
    requires TwoCodes(ll, dl) && cl == FourBits()
    ensures CodesOk(ll, dl, cl, 19, Singly(ll + dl))
  {
    hide Kraft, FourBits, RunsOk, Unrolled, Singly;
    FourBitsOk(cl);
    SinglyUnrolls(cl, [], ll + dl, Singly(ll + dl));
    assert [] + (ll + dl) == ll + dl;
  }

  lemma FourBitsOk(c: seq<nat>)
    requires |c| == 19 && forall i :: 0 <= i < 19 ==> c[i] == if i < 16 then 4 else 0
    ensures LengthCodeOk(c, 19)
  {
    assert Pow2(11) == 2048 && Pow2(15) == 32768;
    KraftRun(c, 0, 16, 4, 2048);
    assert KraftSum(c, 17) == KraftSum(c, 16);
    assert KraftSum(c, 18) == KraftSum(c, 17);
    assert KraftSum(c, 19) == KraftSum(c, 18);
  }

  // ----- Blocks -----

  function LitCode(b: Coded): seq<nat> { if b.FixedCoded? then FixedLengths() else b.ll }

  function DistCode(b: Coded): seq<nat> { if b.FixedCoded? then FixedDistances() else b.dl }

  predicate BlockOk(b: Coded) {
    && TwoCodes(LitCode(b), DistCode(b)) && AllSayable(LitCode(b), DistCode(b), b.tokens)
    && (b.DynamicCoded? ==> CodesOk(b.ll, b.dl, b.cl, b.fields, b.runs))
  }

  /** The codes a block declares. */
  function DeclaredBits(b: Coded): seq<Bin>
    requires BlockOk(b)
  {
    hide TwoCodes, AllSayable;
    if b.FixedCoded? then [] else CodesBits(b.ll, b.dl, b.cl, b.fields, b.runs)
  }

  /** The bits after a block's header: the codes it declares, and its body. */
  function CodedBits(b: Coded): seq<Bin>
    requires BlockOk(b)
  {
    DeclaredBits(b) + BodyBits(LitCode(b), DistCode(b), b.tokens)
  }

  function HeaderBits(b: Coded, last: bool): (s: seq<Bin>)
    ensures |s| == 3
  {
    [if last then 1 else 0] + LsbBits(if b.FixedCoded? then 1 else 2, 2)
  }

  lemma HeaderRead(b: Coded, last: bool, input: seq<Byte>, p: nat)
    requires Holds(input, p, HeaderBits(b, last))
    ensures p + 3 <= 8 * |input|
    ensures Lsb(input, p, 1) == (if last then 1 else 0) && Lsb(input, p + 1, 2) == if b.FixedCoded? then 1 else 2
  {
    hide Holds, LsbBits, Lsb;
    HoldsParts(input, p, [if last then 1 else 0], LsbBits(if b.FixedCoded? then 1 else 2, 2));
    HoldsIn(input, p, HeaderBits(b, last));
    OneBit(input, p, if last then 1 else 0);
    assert Pow2(2) == 4;
    LsbRead(input, p + 1, if b.FixedCoded? then 1 else 2, 2);
  }

  lemma HoldsIn(input: seq<Byte>, p: nat, bits: seq<Bin>)
    requires Holds(input, p, bits)
    ensures p + |bits| <= 8 * |input|
  {}

  /** The codes of a written block are found. */
  lemma DeclaredRead(b: Coded, input: seq<Byte>, end: nat, p: nat)
    requires BlockOk(b) && b.DynamicCoded? && p + |DeclaredBits(b)| <= end <= 8 * |input|
    requires Holds(input, p, DeclaredBits(b))
    ensures DynamicCodes(input, end, p) == Codes(b.ll, b.dl, p + |DeclaredBits(b)|)
  {
    hide Holds, CodesBits, AllSayable, DynamicCodes, CodesOk, TwoCodes;
    CodesRead(b.ll, b.dl, b.cl, b.fields, b.runs, DeclaredBits(b), input, end, p);
  }

  /** The bits are those after the block's header, and its tokens make r of the output. */
  ghost predicate Writes(b: Coded, coded: seq<Bin>, out: Output, stale: Stale, r: Output) {
    hide CodedBits;
    && BlockOk(b) && coded == CodedBits(b)
    && Reaches(b.tokens, |out.bytes|) && r == Expanded(out, b.tokens, stale)
  }

  ghost predicate BlockIs(input: seq<Byte>, end: nat, p: nat, fixed: bool, out: Output, stale: Stale, r: Output,
      q: nat) {
    p <= end <= 8 * |input| && Block(input, end, p, if fixed then 1 else 2, out, stale) == Done(r, q)
  }

  /** A written block is read: its codes, its body. */
  lemma BlockRead(b: Coded, coded: seq<Bin>, input: seq<Byte>, end: nat, p: nat, out: Output, stale: Stale, r: Output)
    requires p + |coded| <= end <= 8 * |input| && Holds(input, p, coded) && Writes(b, coded, out, stale, r)
    ensures BlockIs(input, end, p, b.FixedCoded?, out, stale, r, p + |coded|)
  {
    hide Holds, DeclaredBits, BodyBits, AllSayable, Body, DynamicCodes, Expanded, FixedLengths, FixedDistances, Kraft,
      Reaches;
    HoldsParts(input, p, DeclaredBits(b), BodyBits(LitCode(b), DistCode(b), b.tokens));
    if b.DynamicCoded? { DeclaredRead(b, input, end, p); } else { NothingDeclared(b); }
    BodyRead(LitCode(b), DistCode(b), input, end, p + |DeclaredBits(b)|, b.tokens, out, stale);
  }

  lemma NothingDeclared(b: Coded)
    requires BlockOk(b) && b.FixedCoded?
    ensures DeclaredBits(b) == []
  {}

  lemma OneBit(input: seq<Byte>, p: nat, b: Bin)
    requires Holds(input, p, [b])
    ensures Lsb(input, p, 1) == b
  {
    assert StreamBit(input, p + 0) == [b][0];
    assert Lsb(input, p + 1, 0) == 0;
  }

  predicate BlocksOk(blocks: seq<Coded>) {
    |blocks| > 0 && forall i :: 0 <= i < |blocks| ==> BlockOk(blocks[i])
  }

  /** No match of any block reaches back before the output, n bytes of which are there. */
  predicate BlocksReach(blocks: seq<Coded>, n: nat) {
    blocks == [] ||
      (Reaches(blocks[0].tokens, n) && BlocksReach(blocks[1..], n + TokensLength(blocks[0].tokens)))
  }

  /** How many bytes tokens stand for. */
  function TokensLength(tokens: seq<Token>): nat {
    if tokens == [] then 0 else (if tokens[0].Ref? then tokens[0].len else 1) + TokensLength(tokens[1..])
  }

  lemma {:induction false} ExpandedLength(out: Output, tokens: seq<Token>, stale: Stale)
    requires Reaches(tokens, |out.bytes|)
    ensures |Expanded(out, tokens, stale).bytes| == |out.bytes| + TokensLength(tokens)
    decreases |tokens|
  {
    hide MatchBytes;
    if tokens != [] {
      var out' := match tokens[0]
        case Lit(b) => Emit(out, [b])
        case Ref(len, dist, _, _, _, _) => Emit(out, MatchBytes(out.bytes, len, dist, stale));
      ExpandedLength(out', tokens[1..], stale);
    }
  }

  function StreamBits(blocks: seq<Coded>): seq<Bin>
    requires BlocksOk(blocks)
  {
    HeaderBits(blocks[0], |blocks| == 1)
    + (CodedBits(blocks[0]) + if |blocks| == 1 then [] else StreamBits(blocks[1..]))
  }

  function AllExpanded(out: Output, blocks: seq<Coded>, stale: Stale): (r: Output)
    requires BlocksReach(blocks, |out.bytes|)
    decreases |blocks|
  {
    if blocks == [] then out
    else
      ExpandedLength(out, blocks[0].tokens, stale);
      AllExpanded(Expanded(out, blocks[0].tokens, stale), blocks[1..], stale)
  }

  ghost predicate WritesAll(blocks: seq<Coded>, bits: seq<Bin>, out: Output, stale: Stale, r: Output) {
    hide StreamBits, BlockOk;
    && BlocksOk(blocks) && bits == StreamBits(blocks)
    && BlocksReach(blocks, |out.bytes|) && r == AllExpanded(out, blocks, stale)
  }

  /** The first of written blocks, and the rest. */
  lemma FirstBlock(blocks: seq<Coded>, bits: seq<Bin>, out: Output, stale: Stale, r: Output)
      returns (coded: seq<Bin>, rest: seq<Bin>, next: Output)
    requires WritesAll(blocks, bits, out, stale, r)
    ensures |blocks| > 0 && bits == HeaderBits(blocks[0], |blocks| == 1) + (coded + rest)
    ensures Writes(blocks[0], coded, out, stale, next)
    ensures if |blocks| == 1 then rest == [] && next == r else WritesAll(blocks[1..], rest, next, stale, r)
  {
    hide HeaderBits, CodedBits, BlockOk, Reaches, Expanded, TokensLength;
    coded := CodedBits(blocks[0]);
    rest := if |blocks| == 1 then [] else StreamBits(blocks[1..]);
    next := Expanded(out, blocks[0].tokens, stale);
    ExpandedLength(out, blocks[0].tokens, stale);
    if |blocks| == 1 { AfterLast(next, blocks[1..], stale); }
  }

  lemma AfterLast(out: Output, blocks: seq<Coded>, stale: Stale)
    requires blocks == []
    ensures BlocksReach(blocks, |out.bytes|) && AllExpanded(out, blocks, stale) == out
  {}

  lemma {:induction false} BlocksRead(blocks: seq<Coded>, bits: seq<Bin>, input: seq<Byte>, end: nat, p: nat,
      out: Output, stale: Stale, r: Output)
    requires p + |bits| <= end <= 8 * |input| && Holds(input, p, bits) && WritesAll(blocks, bits, out, stale, r)
    ensures Blocks(input, end, p, out, stale) == Done(r, p + |bits|)
    decreases |blocks|
  {
    hide WritesAll, Writes, Holds, HeaderBits, Block, Lsb;
    var coded, rest, next := FirstBlock(blocks, bits, out, stale, r);
    var last, header := |blocks| == 1, HeaderBits(blocks[0], |blocks| == 1);
    HoldsParts(input, p, header, coded + rest);
    HoldsParts(input, p + 3, coded, rest);
    HeaderRead(blocks[0], last, input, p);
    BlockRead(blocks[0], coded, input, end, p + 3, out, stale, next);
    if !last { BlocksRead(blocks[1..], rest, input, end, p + 3 + |coded|, next, stale, r); }
  }

  // ----- Bytes -----

  function ByteOf(bits: seq<Bin>): (b: nat)
    ensures b < Pow2(|bits|)
  {
    if bits == [] then 0 else bits[0] + 2 * ByteOf(bits[1..])
  }

  /** Eight bits to a byte, first bit least significant; the last byte is filled with zeros. */
  function Pack(bits: seq<Bin>): (s: seq<Byte>)
    ensures 8 * |s| >= |bits|
  {
    if bits == [] then []
    else
      var first := if |bits| <= 8 then bits else bits[..8];
      Pow2Mono(|first|, 8);
      assert Pow2(8) == 256;
      [ByteOf(first)] + Pack(bits[|first|..])
  }

  lemma {:induction false} BitOfByte(bits: seq<Bin>, k: nat)
    requires k < |bits|
    ensures Bit(ByteOf(bits), k) == bits[k]
    decreases k
  {
    if k > 0 { BitOfByte(bits[1..], k - 1); }
  }

  lemma {:induction false} PackedBit(bits: seq<Bin>, after: seq<Byte>, k: nat)
    requires k < |bits|
    ensures StreamBit(Pack(bits) + after, k) == bits[k]
    decreases |bits|
  {
    hide ByteOf, Bit;
    var first := if |bits| <= 8 then bits else bits[..8];
    if k < |first| {
      BitOfByte(first, k);
      assert k / 8 == 0 && k % 8 == k;
    } else {
      PackedBit(bits[8..], after, k - 8);
      assert (Pack(bits) + after)[k / 8] == (Pack(bits[8..]) + after)[(k - 8) / 8];
    }
  }

  lemma PackHolds(bits: seq<Bin>, after: seq<Byte>)
    ensures Holds(Pack(bits) + after, 0, bits)
  {
    hide StreamBit, Pack;
    forall k: nat | k < |bits| ensures StreamBit(Pack(bits) + after, 0 + k) == bits[k] { PackedBit(bits, after, k); }
  }

  /** Data that ends where `after` begins inflates to r. */
  ghost predicate InflatesTo(data: seq<Byte>, after: seq<Byte>, stale: Stale, r: Outcome) {
    InflateSpec.Inflate(data + after, 8 * |data|, stale) == r
  }

  /**
    Inflating undoes compression: whatever blocks the bits are written for, with the fixed codes or any others, they
    give the output that the blocks' tokens stand for.
   */
  lemma InflateCoded(blocks: seq<Coded>, bits: seq<Bin>, after: seq<Byte>, stale: Stale, r: Output)
    requires WritesAll(blocks, bits, NO_OUTPUT, stale, r)
    ensures InflatesTo(Pack(bits), after, stale, Done(r, |bits|))
  {
    hide WritesAll, Pack, Holds, Blocks;
    PackHolds(bits, after);
    BlocksRead(blocks, bits, Pack(bits) + after, 8 * |Pack(bits)|, 0, NO_OUTPUT, stale, r);
  }

  /** Compressed data that the decoder has room for is returned, exactly when it is short or a font. */
  method RoundTrip(blocks: seq<Coded>, after: seq<Byte>, stale: Stale)
      returns (ok: bool, buffer: array<Byte>, size: nat)
    requires BlocksOk(blocks) && BlocksReach(blocks, |NO_OUTPUT.bytes|) && |after| >= 4
    requires Admissible(AllExpanded(NO_OUTPUT, blocks, stale), stale)
    ensures var data := AllExpanded(NO_OUTPUT, blocks, stale).bytes;
      && (ok <==> Storable(AllExpanded(NO_OUTPUT, blocks, stale), stale))
      && (ok ==> size == |data| <= buffer.Length && buffer[..size] == data)
  {
    hide InflateSpec.Inflate, AllExpanded, StreamBits, Pack, BlockOk, BlocksReach, Storable, Admissible;
    var bits := StreamBits(blocks);
    InflateCoded(blocks, bits, after, stale, AllExpanded(NO_OUTPUT, blocks, stale));
    ok, buffer, size := Inflate.ZlibDecode(Pack(bits) + after, |Pack(bits)|, stale);
  }

  // ----- Every font has such encodings -----

  function Literals(data: seq<Byte>): (tokens: seq<Token>)
    ensures |tokens| == |data| && forall i :: 0 <= i < |data| ==> tokens[i] == Lit(data[i])
  {
    seq(|data|, i requires 0 <= i < |data| => Lit(data[i]))
  }

  lemma {:induction false} LiteralsExpanded(out: Output, data: seq<Byte>, tokens: seq<Token>, stale: Stale)
    requires |tokens| == |data| && (forall i :: 0 <= i < |data| ==> tokens[i] == Lit(data[i])) && out.begun == 8
    ensures Reaches(tokens, |out.bytes|) && Expanded(out, tokens, stale) == Output(out.bytes + data, 8)
    decreases |data|
  {
    if data == [] {
      assert out.bytes + data == out.bytes;
    } else {
      LiteralsExpanded(Emit(out, [data[0]]), data[1..], tokens[1..], stale);
      assert out.bytes + [data[0]] + data[1..] == out.bytes + data;
    }
  }

  lemma OneBlock(b: Coded, stale: Stale)
    requires Reaches(b.tokens, 0)
    ensures BlocksReach([b], |NO_OUTPUT.bytes|)
    ensures AllExpanded(NO_OUTPUT, [b], stale) == Expanded(NO_OUTPUT, b.tokens, stale)
  {
    hide Expanded, Reaches;
    ExpandedLength(NO_OUTPUT, b.tokens, stale);
    AfterLast(Expanded(NO_OUTPUT, b.tokens, stale), [b][1..], stale);
  }

  /** The fixed codes can say any literals. */
  lemma FixedSays(data: seq<Byte>)
    ensures BlockOk(FixedCoded(Literals(data)))
  {
    hide Kraft;
    Inflate.FixedKraft(FixedLengths(), FixedDistances());
  }

  /** A font written as literals, with the fixed codes or any others that have them all, is decoded to itself. */
  method EncodeThenDecode(font: seq<Byte>, b: Coded, after: seq<Byte>, stale: Stale)
      returns (ok: bool, buffer: array<Byte>, size: nat)
    requires StoredBlocks.HasRoom(font) && BlockOk(b) && b.tokens == Literals(font) && |after| >= 4
    ensures ok && size == |font| <= buffer.Length && buffer[..size] == font
  {
    hide BlockOk, AllExpanded, Expanded, Reaches, BlocksReach, FontHeader;
    LiteralsExpanded(NO_OUTPUT, font, b.tokens, stale);
    OneBlock(b, stale);
    assert [] + font == font;
    if |font| > 8 { WholeHeader(Output(font, 8), stale); }
    ok, buffer, size := RoundTrip([b], after, stale);
  }
}
