/**
  The blocks of one heap pool, kernel/src/mm/alloc.c, as the sequence of (address, size, used) in address
  order: a chain. A header takes 48 bytes and each block's payload follows its header.
 */
module HeapBlocks {
  const HEADER := 48
  const ALIGNMENT := 16
  const WORD := 0x1_0000_0000_0000_0000  // size_t arithmetic is modulo 2^64

  datatype Blk = Blk(at: nat, size: nat, used: bool)

  function End(b: Blk): nat { b.at + HEADER + b.size }

  /** The blocks lie one after another from area to area + total, with nothing between them. */
  ghost predicate Tiles(c: seq<Blk>, area: nat, total: nat) {
    && |c| > 0 && c[0].at == area && End(c[|c| - 1]) == area + total
    && (forall i, j :: 0 <= i < j < |c| ==> Before(c, i, j))
  }

  /** Block i ends before block j starts, and exactly where it starts when they are neighbours. */
  predicate Before(c: seq<Blk>, i: nat, j: nat)
    requires i < |c| && j < |c|
  {
    if j == i + 1 then End(c[i]) == c[j].at else End(c[i]) <= c[j].at
  }

  function Bytes(c: seq<Blk>): nat {
    if c == [] then 0 else Bytes(c[..|c| - 1]) + c[|c| - 1].size + HEADER
  }

  /** Tiling accounts for every byte: the sizes and headers add up to the pool's size. */
  lemma {:induction false} TilesAddUp(c: seq<Blk>, area: nat, total: nat)
    requires Tiles(c, area, total)
    ensures Bytes(c) == total
  {
    if |c| > 1 {
      var init := c[..|c| - 1];
      assert Before(c, |c| - 2, |c| - 1);
      forall i, j | 0 <= i < j < |init| ensures Before(init, i, j) { assert Before(c, i, j); }
      InPool(c, area, total, |c| - 1);
      TilesAddUp(init, area, c[|c| - 1].at - area);
    } else {
      assert Bytes(c[..0]) == 0;
    }
  }

  lemma InPool(c: seq<Blk>, area: nat, total: nat, i: nat)
    requires Tiles(c, area, total) && i < |c|
    ensures area <= c[i].at && End(c[i]) <= area + total
  {
    assert i > 0 ==> Before(c, 0, i);
    assert i < |c| - 1 ==> Before(c, i, |c| - 1);
  }

  /** Different blocks have disjoint payloads, and no payload reaches another block's header. */
  lemma Apart(c: seq<Blk>, area: nat, total: nat, i: nat, j: nat)
    requires Tiles(c, area, total) && i < |c| && j < |c| && i != j
    ensures End(c[i]) <= c[j].at || End(c[j]) <= c[i].at
  {
    assert i < j ==> Before(c, i, j);
    assert j < i ==> Before(c, j, i);
  }

  // ----- Headers -----

  /** A block header; addresses are numbers and 0 is NULL. */
  datatype Header = Header(pool: nat, next: nat, prev: nat, size: nat, used: bool)

  type Headers = map<nat, Header>

  predicate HeaderAt(blocks: Headers, c: seq<Blk>, i: nat, pool: nat)
    requires i < |c|
  {
    var next, prev := if i + 1 < |c| then c[i + 1].at else 0, if i > 0 then c[i - 1].at else 0;
    c[i].at in blocks && blocks[c[i].at] == Header(pool, next, prev, c[i].size, c[i].used)
  }

  /** The headers in memory are those of the chain: sizes, marks, and pPrev inverting pNext. */
  ghost predicate Linked(blocks: Headers, c: seq<Blk>, pool: nat) {
    forall i :: 0 <= i < |c| ==> HeaderAt(blocks, c, i, pool)
  }

  /** Headers outside a stretch of memory are untouched. */
  ghost predicate SameOutside(blocks: Headers, blocks': Headers, area: nat, total: nat) {
    forall a :: !(area <= a < area + total) ==>
      (a in blocks' <==> a in blocks) && (a in blocks ==> blocks'[a] == blocks[a])
  }

  function Zeroed(bytes: map<nat, nat>, from: nat, n: nat): (z: map<nat, nat>)
    ensures z.Keys == bytes.Keys
    ensures forall a :: a in bytes ==> z[a] == if from <= a < from + n then 0 else bytes[a]
  {
    map a | a in bytes :: if from <= a < from + n then 0 else bytes[a]
  }

  // ----- Merging -----

  /** Blocks lo to hi - 1 as one block. */
  function Joined(c: seq<Blk>, lo: nat, hi: nat, used: bool): Blk
    requires lo < hi <= |c| && c[lo].at + HEADER <= End(c[hi - 1])
  {
    Blk(c[lo].at, End(c[hi - 1]) - c[lo].at - HEADER, used)
  }

  function Spliced(c: seq<Blk>, lo: nat, hi: nat, used: bool): seq<Blk>
    requires lo < hi <= |c| && c[lo].at + HEADER <= End(c[hi - 1])
  {
    c[..lo] + [Joined(c, lo, hi, used)] + c[hi..]
  }

  lemma CanJoin(c: seq<Blk>, area: nat, total: nat, lo: nat, hi: nat)
    requires Tiles(c, area, total) && lo < hi <= |c|
    ensures c[lo].at + HEADER <= End(c[hi - 1])
  {
    assert lo < hi - 1 ==> Before(c, lo, hi - 1);
  }

  /** Block j of the chain after joining: the joined block, or a block of before. */
  lemma SplicedBlock(c: seq<Blk>, lo: nat, hi: nat, used: bool, j: nat)
    requires lo < hi <= |c| && c[lo].at + HEADER <= End(c[hi - 1]) && j < |Spliced(c, lo, hi, used)|
    ensures |Spliced(c, lo, hi, used)| == |c| - (hi - lo) + 1
    ensures Spliced(c, lo, hi, used)[j] ==
      if j < lo then c[j] else if j == lo then Joined(c, lo, hi, used) else c[j + hi - lo - 1]
  {}

  lemma SplicedLength(c: seq<Blk>, lo: nat, hi: nat, used: bool)
    requires lo < hi <= |c| && c[lo].at + HEADER <= End(c[hi - 1])
    ensures |Spliced(c, lo, hi, used)| == |c| - (hi - lo) + 1
  {}

  lemma SplicedTiles(c: seq<Blk>, area: nat, total: nat, lo: nat, hi: nat, used: bool)
    requires Tiles(c, area, total) && lo < hi <= |c|
    ensures c[lo].at + HEADER <= End(c[hi - 1])
    ensures Tiles(Spliced(c, lo, hi, used), area, total)
  {
    CanJoin(c, area, total, lo, hi);
    hide Spliced;
    var s := Spliced(c, lo, hi, used);
    SplicedBlock(c, lo, hi, used, 0);
    SplicedBlock(c, lo, hi, used, |s| - 1);
    forall i, j | 0 <= i < j < |s|
      ensures Before(s, i, j)
    {
      SplicedBlock(c, lo, hi, used, i);
      SplicedBlock(c, lo, hi, used, j);
      assert Before(c, if i < lo then i else i + hi - lo - 1, if j <= lo then j else j + hi - lo - 1);
    }
  }

  /** The block found free around i: the run of free blocks below and above it. */
  function RunStart(c: seq<Blk>, i: nat): (lo: nat)
    requires i < |c|
    ensures lo <= i && (lo == 0 || c[lo - 1].used)
    ensures forall j :: lo <= j < i ==> !c[j].used
  {
    if i > 0 && !c[i - 1].used then RunStart(c, i - 1) else i
  }

  function RunEnd(c: seq<Blk>, i: nat): (hi: nat)
    requires i < |c|
    ensures i < hi <= |c| && (hi == |c| || c[hi].used)
    ensures forall j :: i < j < hi ==> !c[j].used
    decreases |c| - i
  {
    if i + 1 < |c| && !c[i + 1].used then RunEnd(c, i + 1) else i + 1
  }

  /** The chain after block i is freed: it and its free neighbours are one free block. */
  ghost function Freed(c: seq<Blk>, area: nat, total: nat, i: nat): (s: seq<Blk>)
    requires Tiles(c, area, total) && i < |c|
    ensures Tiles(s, area, total)
  {
    SplicedTiles(c, area, total, RunStart(c, i), RunEnd(c, i), false);
    Spliced(c, RunStart(c, i), RunEnd(c, i), false)
  }

  /** No free block is left beside the resulting free block. */
  lemma FreedBlock(c: seq<Blk>, area: nat, total: nat, i: nat)
    requires Tiles(c, area, total) && i < |c|
    ensures var s, lo, hi := Freed(c, area, total, i), RunStart(c, i), RunEnd(c, i);
      && lo < |s| && s[lo].at == c[lo].at <= c[i].at && End(s[lo]) == End(c[hi - 1]) >= End(c[i]) && !s[lo].used
      && (lo > 0 ==> s[lo - 1].used) && (lo + 1 < |s| ==> s[lo + 1].used)
  {
    var s, lo, hi := Freed(c, area, total, i), RunStart(c, i), RunEnd(c, i);
    CanJoin(c, area, total, lo, hi);
    hide Spliced, RunStart, RunEnd;
    SplicedBlock(c, lo, hi, false, lo);
    if lo > 0 { SplicedBlock(c, lo, hi, false, lo - 1); }
    if lo + 1 < |s| { SplicedBlock(c, lo, hi, false, lo + 1); }
    assert lo < i ==> Before(c, lo, i);
    assert i < hi - 1 ==> Before(c, i, hi - 1);
  }

  /** Every other used block is still there, and there is no new one. */
  lemma FreedKeepsUsed(c: seq<Blk>, area: nat, total: nat, i: nat, b: Blk)
    requires Tiles(c, area, total) && i < |c| && b.used
    ensures b in Freed(c, area, total, i) <==> b in c && b != c[i]
  {
    var s, lo, hi := Freed(c, area, total, i), RunStart(c, i), RunEnd(c, i);
    CanJoin(c, area, total, lo, hi);
    hide Spliced, RunStart, RunEnd;
    if b in s {
      var j :| 0 <= j < |s| && s[j] == b;
      SplicedBlock(c, lo, hi, false, j);
      var j' := if j < lo then j else j + hi - lo - 1;
      assert c[j'] == b;
      Apart(c, area, total, j', i);
    }
    if b in c && b != c[i] {
      var j :| 0 <= j < |c| && c[j] == b;
      SplicedBlock(c, lo, hi, false, if j < lo then j else j - (hi - lo - 1));
    }
  }

  // ----- What FreeSize is told -----

  /** The bytes of the free blocks' payloads. */
  function FreeBytes(c: seq<Blk>): nat {
    if c == [] then 0 else FreeBytes(c[..|c| - 1]) + if c[|c| - 1].used then 0 else c[|c| - 1].size
  }

  lemma {:induction false} FreeBytesSum(a: seq<Blk>, b: seq<Blk>)
    ensures FreeBytes(a + b) == FreeBytes(a) + FreeBytes(b)
  {
    if b == [] {
      assert a + b == a;
    } else {
      assert (a + b)[..|a + b| - 1] == a + b[..|b| - 1];
      FreeBytesSum(a, b[..|b| - 1]);
    }
  }

  lemma {:induction false} NoFreeBytes(c: seq<Blk>)
    requires forall i :: 0 <= i < |c| ==> c[i].used
    ensures FreeBytes(c) == 0
  {
    if c != [] { NoFreeBytes(c[..|c| - 1]); }
  }

  /** What the forward merges add: at each, the size and header of the block grown so far. */
  function ForwardCredit(c: seq<Blk>, i: nat, hi: nat): int
    requires i < hi <= |c|
  {
    if hi == i + 1 then 0 else ForwardCredit(c, i, hi - 1) + End(c[hi - 2]) - c[i].at
  }

  /** What the backward merges add: the size and header of each block before it. */
  function BackwardCredit(c: seq<Blk>, lo: nat, i: nat): nat
    requires lo <= i < |c|
    decreases i - lo
  {
    if lo == i then 0 else BackwardCredit(c, lo + 1, i) + c[lo].size + HEADER
  }

  function Credit(c: seq<Blk>, i: nat): int
    requires i < |c|
  {
    ForwardCredit(c, i, RunEnd(c, i)) + BackwardCredit(c, RunStart(c, i), i)
  }

  /**
    Freeing a used block keeps FreeSize's distance from the true free bytes exactly when: with no free block
    after it, the free blocks just before it hold as many bytes as it does; with one after it, those before it
    hold none. With more than one after it, never.
   */
  predicate CreditExact(c: seq<Blk>, i: nat)
    requires i < |c|
  {
    var before := FreeBytes(c[RunStart(c, i)..i]);
    if i + 1 == |c| || c[i + 1].used then before == c[i].size
    else before == 0 && (i + 2 == |c| || c[i + 2].used)
  }

  /** How much more FreeSize grows than the free bytes do. */
  function Drift(c: seq<Blk>, i: nat): int
    requires i < |c|
  {
    ForwardCredit(c, i, RunEnd(c, i)) - c[i].size - HEADER * (RunEnd(c, i) - i - 1) + FreeBytes(c[RunStart(c, i)..i])
  }

  /** What a free does to FreeSize and to the true free bytes, in any tiled pool. */
  lemma FreeSizeDrift(c: seq<Blk>, area: nat, total: nat, i: nat)
    requires Tiles(c, area, total) && i < |c| && c[i].used
    ensures Credit(c, i) == FreeBytes(Freed(c, area, total, i)) - FreeBytes(c) + Drift(c, i)
    ensures Drift(c, i) == 0 <==> CreditExact(c, i)
    ensures i + 1 < |c| && !c[i + 1].used ==> Drift(c, i) >= 0
  {
    hide FreeBytes, Tiles, RunStart, RunEnd, Freed, BackwardCredit, ForwardCredit;
    FreedBytes(c, area, total, i);
    RunGain(c, area, total, RunStart(c, i), i, RunEnd(c, i));
    ForwardCredits(c, area, total, i);
    BackwardFree(c, RunStart(c, i), i);
  }

  lemma BackwardFree(c: seq<Blk>, lo: nat, i: nat)
    requires lo <= i < |c| && forall j :: lo <= j < i ==> !c[j].used
    ensures BackwardCredit(c, lo, i) == FreeBytes(c[lo..i]) + HEADER * (i - lo)
  {
    hide FreeBytes, Bytes, BackwardCredit;
    BackwardBytes(c, lo, i);
    AllFreeBytes(c[lo..i]);
  }

  /** The free bytes grow by the size of the one block in use, and a header for each other block of the run. */
  lemma RunGain(c: seq<Blk>, area: nat, total: nat, lo: nat, i: nat, hi: nat)
    requires Tiles(c, area, total) && lo <= i < hi <= |c| && c[i].used && forall j :: lo <= j < hi && j != i ==>
        !c[j].used
    ensures End(c[hi - 1]) - c[lo].at - HEADER - FreeBytes(c[lo..hi]) == c[i].size + HEADER * (hi - lo - 1)
  {
    hide FreeBytes, Bytes, Tiles;
    SliceBytes(c, area, total, lo, hi);
    RunParts(c, lo, i, hi);
  }

  /** In a run of blocks of which only block i is in use, the rest of its payload bytes are free. */
  lemma RunParts(c: seq<Blk>, lo: nat, i: nat, hi: nat)
    requires lo <= i < hi <= |c| && c[i].used && forall j :: lo <= j < hi && j != i ==> !c[j].used
    ensures Bytes(c[lo..hi]) == FreeBytes(c[lo..hi]) + c[i].size + HEADER * (hi - lo)
  {
    hide FreeBytes, Bytes;
    var left, right := c[lo..i], c[i + 1..hi];
    assert c[lo..hi] == left + [c[i]] + right;
    FreeBytesThree(left, [c[i]], right);
    BytesThree(left, [c[i]], right);
    FreeOne(c[i]);
    BytesOne(c[i]);
    AllFreeBytes(left);
    AllFreeBytes(right);
  }

  lemma {:induction false} SliceBytes(c: seq<Blk>, area: nat, total: nat, lo: nat, hi: nat)
    requires Tiles(c, area, total) && lo < hi <= |c|
    ensures Bytes(c[lo..hi]) == End(c[hi - 1]) - c[lo].at
  {
    assert c[lo..hi][..hi - lo - 1] == c[lo..hi - 1];
    if lo + 1 < hi {
      SliceBytes(c, area, total, lo, hi - 1);
      assert Before(c, hi - 2, hi - 1);
    } else {
      assert c[lo..hi - 1] == [];
    }
  }

  lemma {:induction false} AllFreeBytes(c: seq<Blk>)
    requires forall i :: 0 <= i < |c| ==> !c[i].used
    ensures FreeBytes(c) + HEADER * |c| == Bytes(c)
  {
    if c != [] { AllFreeBytes(c[..|c| - 1]); }
  }

  lemma {:induction false} BytesSum(a: seq<Blk>, b: seq<Blk>)
    ensures Bytes(a + b) == Bytes(a) + Bytes(b)
  {
    if b == [] {
      assert a + b == a;
    } else {
      assert (a + b)[..|a + b| - 1] == a + b[..|b| - 1];
      BytesSum(a, b[..|b| - 1]);
    }
  }

  lemma BytesThree(a: seq<Blk>, b: seq<Blk>, d: seq<Blk>)
    ensures Bytes(a + b + d) == Bytes(a) + Bytes(b) + Bytes(d)
  {
    BytesSum(a + b, d);
    BytesSum(a, b);
  }

  lemma BytesOne(b: Blk)
    ensures Bytes([b]) == b.size + HEADER
  {
    assert [b][..0] == [];
  }

  /** The backward merges add up the blocks before. */
  lemma {:induction false} BackwardBytes(c: seq<Blk>, lo: nat, i: nat)
    requires lo <= i < |c|
    ensures BackwardCredit(c, lo, i) == Bytes(c[lo..i])
    decreases i - lo
  {
    hide Bytes;
    if lo == i {
      assert c[lo..i] == [];
      AllFreeBytes([]);
      NoFreeBytes([]);
    } else {
      BackwardBytes(c, lo + 1, i);
      assert c[lo..i] == [c[lo]] + c[lo + 1..i];
      BytesSum([c[lo]], c[lo + 1..i]);
      BytesOne(c[lo]);
    }
  }

  /** None without a free block after, the block with one, and too much with more. */
  lemma ForwardCredits(c: seq<Blk>, area: nat, total: nat, i: nat)
    requires Tiles(c, area, total) && i < |c|
    ensures var n, credit := RunEnd(c, i) - i - 1, ForwardCredit(c, i, RunEnd(c, i));
      && (n == 0 <==> i + 1 == |c| || c[i + 1].used)
      && (n == 1 <==> i + 1 < |c| && !c[i + 1].used && (i + 2 == |c| || c[i + 2].used))
      && (n == 0 ==> credit == 0) && (n == 1 ==> credit == c[i].size + HEADER)
      && (n > 1 ==> credit >= c[i].size + HEADER * n + HEADER)
  {
    hide Tiles;
    var hi := RunEnd(c, i);
    if hi == i + 2 { assert ForwardCredit(c, i, i + 1) == 0; }
    if hi > i + 2 { ForwardLarge(c, area, total, i, hi); }
  }

  lemma {:induction false} ForwardLarge(c: seq<Blk>, area: nat, total: nat, i: nat, hi: nat)
    requires Tiles(c, area, total) && i + 2 < hi <= |c|
    ensures ForwardCredit(c, i, hi) >= c[i].size + HEADER * (hi - i)
  {
    hide Tiles;
    InOrder(c, area, total, i, hi - 2);
    if hi > i + 3 {
      ForwardLarge(c, area, total, i, hi - 1);
    } else {
      assert ForwardCredit(c, i, i + 1) == 0;
      assert ForwardCredit(c, i, i + 2) == c[i].size + HEADER;
    }
  }

  lemma InOrder(c: seq<Blk>, area: nat, total: nat, i: nat, j: nat)
    requires Tiles(c, area, total) && i < |c| && j < |c|
    ensures i < j ==> End(c[i]) <= c[j].at
  {
    if i < j { assert Before(c, i, j); }
  }

  /** No two free blocks are neighbours. */
  ghost predicate Coalesced(c: seq<Blk>) {
    forall i :: 0 <= i && i + 1 < |c| ==> UsedBeside(c, i)
  }

  predicate UsedBeside(c: seq<Blk>, i: nat)
    requires i + 1 < |c|
  {
    c[i].used || c[i + 1].used
  }

  /** Where no free blocks are neighbours, only the two blocks beside the one freed matter. */
  lemma CoalescedExact(c: seq<Blk>, i: nat)
    requires Coalesced(c) && i < |c| && c[i].used
    ensures var p, n := i > 0 && !c[i - 1].used, i + 1 < |c| && !c[i + 1].used;
      CreditExact(c, i) <==>
        if p && n then c[i - 1].size == 0 else if p then c[i - 1].size == c[i].size else n || c[i].size == 0
  {
    assert i > 1 ==> UsedBeside(c, i - 2);
    assert i + 2 < |c| ==> UsedBeside(c, i + 1);
    if i > 0 && !c[i - 1].used {
      assert RunStart(c, i - 1) == i - 1;
      assert c[i - 1..i] == [c[i - 1]];
      FreeOne(c[i - 1]);
    } else {
      assert c[i..i] == [];
    }
  }

  lemma FreedBytes(c: seq<Blk>, area: nat, total: nat, i: nat)
    requires Tiles(c, area, total) && i < |c|
    ensures var lo, hi := RunStart(c, i), RunEnd(c, i);
      FreeBytes(Freed(c, area, total, i)) - FreeBytes(c) == End(c[hi - 1]) - c[lo].at - HEADER - FreeBytes(c[lo..hi])
  {
    hide FreeBytes, Tiles, RunStart, RunEnd;
    var lo, hi := RunStart(c, i), RunEnd(c, i);
    CanJoin(c, area, total, lo, hi);
    FreeBytesThree(c[..lo], [Joined(c, lo, hi, false)], c[hi..]);
    FreeOne(Joined(c, lo, hi, false));
    assert c == c[..lo] + c[lo..hi] + c[hi..];
    FreeBytesThree(c[..lo], c[lo..hi], c[hi..]);
  }

  lemma FreeBytesThree(a: seq<Blk>, b: seq<Blk>, d: seq<Blk>)
    ensures FreeBytes(a + b + d) == FreeBytes(a) + FreeBytes(b) + FreeBytes(d)
  {
    FreeBytesSum(a + b, d);
    FreeBytesSum(a, b);
  }

  lemma FreeOne(b: Blk)
    ensures FreeBytes([b]) == if b.used then 0 else b.size
  {
    assert [b][..0] == [];
  }

  // ----- Headers following the chain -----

  ghost predicate IsBlock(c: seq<Blk>, a: nat) {
    exists i :: 0 <= i < |c| && c[i].at == a
  }

  /** The headers between area and area + total are those of the chain, and no others. */
  ghost predicate Recorded(blocks: Headers, c: seq<Blk>, pool: nat, area: nat, total: nat) {
    Linked(blocks, c, pool) && forall a :: a in blocks && area <= a < area + total ==> IsBlock(c, a)
  }

  /** MmMerge on the headers: the next block is absorbed, and the one after it is linked back. */
  function MergedHeaders(blocks: Headers, a: nat): Headers
    requires a in blocks && blocks[a].next in blocks
  {
    var next := blocks[blocks[a].next];
    var merged := blocks[a := blocks[a].(size := blocks[a].size + next.size + HEADER, next := next.next)];
    var linked := if next.next != 0 && next.next in blocks then merged[next.next := merged[next.next].(prev := a)]
        else merged;
    linked - {blocks[a].next}
  }

  lemma NextHeader(blocks: Headers, c: seq<Blk>, pool: nat, area: nat, total: nat, i: nat)
    requires Tiles(c, area, total) && area > 0 && i < |c| && Linked(blocks, c, pool)
    ensures c[i].at in blocks && blocks[c[i].at].pool == pool && blocks[c[i].at].size == c[i].size &&
        blocks[c[i].at].used == c[i].used
    ensures blocks[c[i].at].next == if i + 1 < |c| then c[i + 1].at else 0
    ensures blocks[c[i].at].prev == if i > 0 then c[i - 1].at else 0
    ensures i + 1 < |c| ==> c[i + 1].at != 0 && c[i + 1].at in blocks && blocks[c[i + 1].at].used == c[i + 1].used
    ensures i > 0 ==> c[i - 1].at != 0 && c[i - 1].at in blocks && blocks[c[i - 1].at].used == c[i - 1].used
    ensures area <= c[i].at < area + total
  {
    assert HeaderAt(blocks, c, i, pool);
    InPool(c, area, total, i);
    if i + 1 < |c| { InPool(c, area, total, i + 1); assert HeaderAt(blocks, c, i + 1, pool); }
    if i > 0 { InPool(c, area, total, i - 1); assert HeaderAt(blocks, c, i - 1, pool); }
  }

  /** Joining a block with the next keeps the headers those of the chain. */
  lemma MergeRecorded(blocks: Headers, c: seq<Blk>, pool: nat, area: nat, total: nat, i: nat)
    requires Tiles(c, area, total) && area > 0 && i + 1 < |c| && Recorded(blocks, c, pool, area, total)
    ensures c[i].at in blocks && blocks[c[i].at].next in blocks && c[i].at + HEADER <= End(c[i + 1])
    ensures var blocks', c' := MergedHeaders(blocks, c[i].at), Spliced(c, i, i + 2, c[i].used);
      Recorded(blocks', c', pool, area, total) && SameOutside(blocks, blocks', area, total)
    ensures Joined(c, i, i + 2, c[i].used).size == c[i].size + c[i + 1].size + HEADER
  {
    hide Spliced, Tiles, MergedHeaders, HeaderAt;
    NextHeader(blocks, c, pool, area, total, i);
    NextHeader(blocks, c, pool, area, total, i + 1);
    CanJoin(c, area, total, i, i + 2);
    Adjacent(c, area, total, i);
    SplicedLength(c, i, i + 2, c[i].used);
    var blocks', c' := MergedHeaders(blocks, c[i].at), Spliced(c, i, i + 2, c[i].used);
    if i + 2 < |c| { NextHeader(blocks, c, pool, area, total, i + 2); }
    MergedOthers(blocks, c[i].at, c[i + 1].at, if i + 2 < |c| then c[i + 2].at else 0);
    forall j | 0 <= j < |c'| ensures HeaderAt(blocks', c', j, pool) {
      MergedHeader(blocks, c, pool, area, total, i, j);
    }
    forall a | a in blocks' && area <= a < area + total ensures IsBlock(c', a) {
      var j :| 0 <= j < |c| && c[j].at == a;
      SplicedBlock(c, i, i + 2, c[i].used, if j <= i then j else j - 1);
    }
  }

  lemma Adjacent(c: seq<Blk>, area: nat, total: nat, i: nat)
    requires Tiles(c, area, total) && i + 1 < |c|
    ensures End(c[i]) == c[i + 1].at
  {
    assert Before(c, i, i + 1);
  }

  /** A merge drops one header and touches two. */
  lemma MergedOthers(blocks: Headers, a: nat, n: nat, nn: nat)
    requires a in blocks && n == blocks[a].next && n in blocks && nn == blocks[n].next && (nn == 0 || nn in blocks)
    ensures forall x :: x in MergedHeaders(blocks, a) <==> x in blocks && x != n
    ensures forall x :: x in blocks && x != n && x != a && (x != nn || nn == 0) ==>
        MergedHeaders(blocks, a)[x] == blocks[x]
  {}

  lemma MergedHeadersAt(blocks: Headers, a: nat, n: nat, nn: nat, x: nat)
    requires a in blocks && n == blocks[a].next && n in blocks && nn == blocks[n].next
    requires a != n && n != nn && a != nn && (nn == 0 || nn in blocks)
    ensures x in MergedHeaders(blocks, a) <==> x in blocks && x != n
    ensures MergedHeaders(blocks, a)[a] == blocks[a].(size := blocks[a].size + blocks[n].size + HEADER, next := nn)
    ensures nn != 0 ==> MergedHeaders(blocks, a)[nn] == blocks[nn].(prev := a)
    ensures x in blocks && x != n && x != a && (x != nn || nn == 0) ==> MergedHeaders(blocks, a)[x] == blocks[x]
  {}

  lemma MergedHeader(blocks: Headers, c: seq<Blk>, pool: nat, area: nat, total: nat, i: nat, j: nat)
    requires Tiles(c, area, total) && area > 0 && i + 1 < |c| && Linked(blocks, c, pool)
    requires c[i].at in blocks && blocks[c[i].at].next in blocks && c[i].at + HEADER <= End(c[i + 1])
    requires j < |Spliced(c, i, i + 2, c[i].used)|
    ensures HeaderAt(MergedHeaders(blocks, c[i].at), Spliced(c, i, i + 2, c[i].used), j, pool)
  {
    assert Before(c, i, i + 1);
    hide Spliced, Tiles, Linked, MergedHeaders;
    SplicedBlock(c, i, i + 2, c[i].used, j);
    var j', nn := if j <= i then j else j + 1, if i + 2 < |c| then c[i + 2].at else 0;
    NextHeader(blocks, c, pool, area, total, i);
    NextHeader(blocks, c, pool, area, total, i + 1);
    NextHeader(blocks, c, pool, area, total, j');
    DifferentPlaces(c, area, total, i, i + 1);
    DifferentPlaces(c, area, total, j', i + 1);
    DifferentPlaces(c, area, total, j', i);
    if i + 2 < |c| {
      DifferentPlaces(c, area, total, i, i + 2);
      DifferentPlaces(c, area, total, i + 1, i + 2);
      DifferentPlaces(c, area, total, j', i + 2);
    }
    MergedHeadersAt(blocks, c[i].at, c[i + 1].at, nn, c[j'].at);
    if j > 0 { SplicedBlock(c, i, i + 2, c[i].used, j - 1); }
    if j + 1 < |c| - 1 { SplicedBlock(c, i, i + 2, c[i].used, j + 1); }
  }

  lemma DifferentPlaces(c: seq<Blk>, area: nat, total: nat, i: nat, j: nat)
    requires Tiles(c, area, total) && i < |c| && j < |c|
    ensures c[i].at == c[j].at <==> i == j
  {
    if i != j { Apart(c, area, total, i, j); }
  }

  /** Joining a joined block with its next, or with the free block before it. */
  lemma SplicedMore(c: seq<Blk>, area: nat, total: nat, lo: nat, hi: nat, used: bool)
    requires Tiles(c, area, total) && lo < hi <= |c|
    ensures c[lo].at + HEADER <= End(c[hi - 1]) && Tiles(Spliced(c, lo, hi, used), area, total)
    ensures var s := Spliced(c, lo, hi, used);
      && (hi < |c| ==> s[lo].at + HEADER <= End(s[lo + 1]) && c[lo].at + HEADER <= End(c[hi])
                       && Spliced(s, lo, lo + 2, used) == Spliced(c, lo, hi + 1, used))
      && (lo > 0 ==> s[lo - 1].at + HEADER <= End(s[lo]) && c[lo - 1].at + HEADER <= End(c[hi - 1])
                     && Spliced(s, lo - 1, lo + 1, false) == Spliced(c, lo - 1, hi, false))
  {
    SplicedTiles(c, area, total, lo, hi, used);
    var s := Spliced(c, lo, hi, used);
    SplicedBlock(c, lo, hi, used, lo);
    if hi < |c| {
      SplicedBlock(c, lo, hi, used, lo + 1);
      CanJoin(s, area, total, lo, lo + 2);
      CanJoin(c, area, total, lo, hi + 1);
      assert s[lo + 2..] == c[hi + 1..];
      assert s[..lo] == c[..lo];
    }
    if lo > 0 {
      SplicedBlock(c, lo, hi, used, lo - 1);
      CanJoin(s, area, total, lo - 1, lo + 1);
      CanJoin(c, area, total, lo - 1, hi);
      assert s[lo + 1..] == c[hi..];
      assert s[..lo - 1] == c[..lo - 1];
    }
  }

  // ----- Taking a block -----

  function Wrap(x: int): (w: nat)
    ensures 0 <= x < WORD ==> w == x
    ensures x < 0 && -WORD <= x ==> w == x + WORD
  {
    x % WORD
  }

  /** MmAllocSplitBlock on the headers: a free block is made after the first `desired` bytes. */
  function SplitHeaders(blocks: Headers, a: nat, totalSize: nat, desired: nat): Headers
    requires a in blocks
  {
    var b, n := blocks[a], a + HEADER + desired;
    blocks[n := Header(b.pool, b.next, a, Wrap(totalSize - HEADER - desired), false)]
          [a := b.(next := n, size := desired, used := false)]
  }

  /** Splitting if the block is larger than asked for, then marking it used. */
  function TakenHeaders(blocks: Headers, a: nat, pool: nat, size: nat): Headers
    requires a in blocks
  {
    var split := if blocks[a].size > size then SplitHeaders(blocks, a, blocks[a].size, size) else blocks;
    split[a := split[a].(pool := pool, used := true)]
  }

  function TakenChain(c: seq<Blk>, i: nat, size: nat): seq<Blk>
    requires i < |c|
  {
    if c[i].size > size then
      c[..i] + [Blk(c[i].at, size, true), Blk(c[i].at + HEADER + size, Wrap(c[i].size - HEADER - size),
          false)] + c[i + 1..]
    else c[..i] + [c[i].(used := true)] + c[i + 1..]
  }

  lemma TakenBlock(c: seq<Blk>, i: nat, size: nat, j: nat)
    requires i < |c| && j < |c| + if c[i].size > size then 1 else 0
    ensures |TakenChain(c, i, size)| == |c| + if c[i].size > size then 1 else 0
    ensures j < i ==> TakenChain(c, i, size)[j] == c[j]
    ensures j == i ==> TakenChain(c, i, size)[j] == Blk(c[i].at, if c[i].size > size then size else c[i].size, true)
    ensures c[i].size > size && j == i + 1 ==>
      TakenChain(c, i, size)[j] == Blk(c[i].at + HEADER + size, Wrap(c[i].size - HEADER - size), false)
    ensures c[i].size > size && j > i + 1 ==> TakenChain(c, i, size)[j] == c[j - 1]
    ensures c[i].size <= size && j > i ==> TakenChain(c, i, size)[j] == c[j]
  {}

  /** A block fits: exactly, or with room for another header. */
  predicate Fits(b: Blk, size: nat) {
    b.size == size || b.size >= size + HEADER
  }

  /**
    The guard of the split is only that the block is larger; tiling survives exactly when the block fits
    exactly or leaves room for a header.
   */
  lemma TakenTiles(c: seq<Blk>, area: nat, total: nat, i: nat, size: nat)
    requires Tiles(c, area, total) && i < |c| && size <= c[i].size < WORD
    ensures Tiles(TakenChain(c, i, size), area, total) <==> Fits(c[i], size)
  {
    hide TakenChain;
    var s := TakenChain(c, i, size);
    TakenBlock(c, i, size, i);
    if c[i].size > size { TakenBlock(c, i, size, i + 1); }
    TakenBlock(c, i, size, 0);
    TakenBlock(c, i, size, |s| - 1);
    if Fits(c[i], size) {
      forall j, k | 0 <= j < k < |s| ensures Before(s, j, k) {
        TakenBlock(c, i, size, j);
        TakenBlock(c, i, size, k);
        var d := if c[i].size > size then 1 else 0;
        var j', k' := if j <= i then j else j - d, if k <= i then k else k - d;
        if j' < k' { assert Before(c, j', k'); }
      }
    } else if i + 1 < |c| {
      TakenBlock(c, i, size, i + 2);
      assert Before(c, i, i + 1);
      assert !Before(s, i + 1, i + 2);
    }
  }

  /** The new block's header is linked into the chain, except for the back link of the old successor. */
  lemma TakenHeader(blocks: Headers, c: seq<Blk>, pool: nat, area: nat, total: nat, i: nat, size: nat, j: nat)
    requires Tiles(c, area, total) && area > 0 && i < |c| && Linked(blocks, c, pool) && c[i].size < WORD
    requires c[i].at in blocks && Fits(c[i], size) && j < |TakenChain(c, i, size)|
    ensures HeaderAt(TakenHeaders(blocks, c[i].at, pool, size), TakenChain(c, i, size), j, pool) <==>
        c[i].size == size || j != i + 2
  {
    hide TakenChain, Tiles, Linked;
    var d := if c[i].size > size then 1 else 0;
    var j' := if j <= i then j else j - d;
    TakenBlock(c, i, size, i);
    TakenBlock(c, i, size, j);
    NextHeader(blocks, c, pool, area, total, i);
    NextHeader(blocks, c, pool, area, total, j');
    DifferentPlaces(c, area, total, j', i);
    if j' != i { Apart(c, area, total, j', i); }
    if j > 0 { TakenBlock(c, i, size, j - 1); }
    if j + 1 < |c| + d { TakenBlock(c, i, size, j + 1); }
  }

  /** The links stay inverse to each other exactly when nothing is split off or the block is the last. */
  lemma TakenLinks(blocks: Headers, c: seq<Blk>, pool: nat, area: nat, total: nat, i: nat, size: nat)
    requires Tiles(c, area, total) && area > 0 && i < |c| && Recorded(blocks, c, pool, area, total) && c[i].size < WORD
    requires c[i].at in blocks && Fits(c[i], size)
    ensures var blocks', c' := TakenHeaders(blocks, c[i].at, pool, size), TakenChain(c, i, size);
      && SameOutside(blocks, blocks', area, total)
      && (Recorded(blocks', c', pool, area, total) <==> c[i].size == size || i + 1 == |c|)
  {
    hide TakenChain, Tiles;
    var blocks', c' := TakenHeaders(blocks, c[i].at, pool, size), TakenChain(c, i, size);
    InPool(c, area, total, i);
    NextHeader(blocks, c, pool, area, total, i);
    TakenBlock(c, i, size, i);
    if c[i].size > size { TakenBlock(c, i, size, i + 1); }
    forall j | 0 <= j < |c'| ensures HeaderAt(blocks', c', j, pool) <==> c[i].size == size || j != i + 2 {
      TakenHeader(blocks, c, pool, area, total, i, size, j);
    }
    assert c[i].size > size && i + 1 < |c| ==> !HeaderAt(blocks', c', i + 2, pool);
    forall a | a in blocks' && area <= a < area + total ensures IsBlock(c', a) {
      if a in blocks {
        var j :| 0 <= j < |c| && c[j].at == a;
        var j' := if c[i].size > size && j > i then j + 1 else j;
        TakenBlock(c, i, size, j');
        assert c'[j'].at == a;
      } else {
        assert c'[i + 1].at == a;
      }
    }
  }

  /** Taking a block costs its size, and a header if it is split: FreeSize is told exactly that. */
  lemma TakenBytes(c: seq<Blk>, i: nat, size: nat)
    requires i < |c| && !c[i].used && Fits(c[i], size) && c[i].size < WORD
    ensures FreeBytes(TakenChain(c, i, size)) == FreeBytes(c) - size - if c[i].size > size then HEADER else 0
  {
    hide FreeBytes;
    var mid := if c[i].size > size
      then [Blk(c[i].at, size, true), Blk(c[i].at + HEADER + size, c[i].size - HEADER - size, false)]
      else [c[i].(used := true)];
    assert TakenChain(c, i, size) == c[..i] + mid + c[i + 1..];
    FreeBytesThree(c[..i], mid, c[i + 1..]);
    MidBytes(mid);
    assert c == c[..i] + [c[i]] + c[i + 1..];
    FreeBytesThree(c[..i], [c[i]], c[i + 1..]);
    FreeOne(c[i]);
  }

  lemma MidBytes(mid: seq<Blk>)
    requires 1 <= |mid| <= 2 && mid[0].used
    ensures FreeBytes(mid) == if |mid| == 2 && !mid[1].used then mid[1].size else 0
  {
    FreeOne(mid[0]);
    if |mid| == 2 {
      FreeBytesSum([mid[0]], [mid[1]]);
      FreeOne(mid[1]);
      assert mid == [mid[0]] + [mid[1]];
    } else {
      assert mid == [mid[0]];
    }
  }

  // ----- Last in, first out -----

  /** Only the last block is free. */
  ghost predicate Lifo(c: seq<Blk>) {
    |c| > 0 && !c[|c| - 1].used && forall i :: 0 <= i < |c| - 1 ==> c[i].used
  }

  ghost predicate Aligned(c: seq<Blk>) {
    forall i :: 0 <= i < |c| ==> c[i].at % ALIGNMENT == 0 && c[i].size % ALIGNMENT == 0
  }

  lemma LifoBytes(c: seq<Blk>)
    requires Lifo(c)
    ensures FreeBytes(c) == c[|c| - 1].size
  {
    NoFreeBytes(c[..|c| - 1]);
  }

  lemma LifoTaken(c: seq<Blk>, area: nat, total: nat, size: nat)
    requires Tiles(c, area, total) && Lifo(c) && Aligned(c) && total < WORD
    requires size % ALIGNMENT == 0 && size + HEADER <= c[|c| - 1].size
    ensures var n, s := |c|, TakenChain(c, |c| - 1, size);
      && c[n - 1].size < WORD
      && s == c[..n - 1] + [Blk(c[n - 1].at, size, true),
          Blk(c[n - 1].at + HEADER + size, c[n - 1].size - HEADER - size, false)]
      && Tiles(s, area, total) && Lifo(s) && Aligned(s)
  {
    hide Tiles, TakenChain, Lifo, Aligned;
    assert |c| > 0 by { NoneEmpty(c, area, total); }
    InPool(c, area, total, |c| - 1);
    TakenTiles(c, area, total, |c| - 1, size);
    LastTaken(c, size);
  }

  lemma NoneEmpty(c: seq<Blk>, area: nat, total: nat)
    requires Tiles(c, area, total)
    ensures |c| > 0
  {}

  lemma LastTaken(c: seq<Blk>, size: nat)
    requires Lifo(c) && Aligned(c) && size % ALIGNMENT == 0 && size + HEADER <= c[|c| - 1].size < WORD
    ensures var n, s := |c|, TakenChain(c, |c| - 1, size);
      && s == c[..n - 1] + [Blk(c[n - 1].at, size, true),
          Blk(c[n - 1].at + HEADER + size, c[n - 1].size - HEADER - size, false)]
      && Lifo(s) && Aligned(s)
  {
    hide Aligned;
    LastSplit(c, size);
    var n := |c|;
    SplitShape(c, Blk(c[n - 1].at, size, true),
      Blk(c[n - 1].at + HEADER + size, c[n - 1].size - HEADER - size, false));
  }

  lemma LastSplit(c: seq<Blk>, size: nat)
    requires |c| > 0 && size + HEADER <= c[|c| - 1].size < WORD
    ensures var n := |c|;
      TakenChain(c, n - 1, size) == c[..n - 1] + [Blk(c[n - 1].at, size, true),
          Blk(c[n - 1].at + HEADER + size, c[n - 1].size - HEADER - size, false)]
  {
    assert c[|c|..] == [];
  }

  /** A used and a free block in the place of the last keep the shape. */
  lemma SplitShape(c: seq<Blk>, a: Blk, b: Blk)
    requires Lifo(c) && Aligned(c) && a.used && !b.used && a.at == c[|c| - 1].at && a.size % ALIGNMENT == 0
    requires b.at == a.at + HEADER + a.size && b.size == c[|c| - 1].size - HEADER - a.size
    ensures Lifo(c[..|c| - 1] + [a, b]) && Aligned(c[..|c| - 1] + [a, b])
  {
    var n, s := |c|, c[..|c| - 1] + [a, b];
    AlignedAfter(a.at, a.size, c[n - 1].size);
    forall i | 0 <= i <= n ensures s[i] == if i < n - 1 then c[i] else if i == n - 1 then a else b {}
  }

  lemma AlignedAfter(at: nat, size: nat, whole: nat)
    requires at % ALIGNMENT == 0 && size % ALIGNMENT == 0 && whole % ALIGNMENT == 0
    ensures (at + HEADER + size) % ALIGNMENT == 0 && (whole - HEADER - size) % ALIGNMENT == 0
  {}

  /** Freeing the last used block joins it with the free block; FreeSize is told exactly what it gains. */
  lemma LifoFreed(c: seq<Blk>, area: nat, total: nat)
    requires Tiles(c, area, total) && Lifo(c) && Aligned(c) && |c| > 1
    ensures var n, s := |c|, Freed(c, area, total, |c| - 2);
      && s == c[..n - 2] + [Blk(c[n - 2].at, c[n - 2].size + HEADER + c[n - 1].size, false)]
      && Lifo(s) && Aligned(s) && Credit(c, n - 2) == s[n - 2].size - c[n - 1].size
  {
    var n := |c|;
    assert Before(c, n - 2, n - 1);
    assert RunStart(c, n - 2) == n - 2 && RunEnd(c, n - 2) == n by { assert RunEnd(c, n - 1) == n; }
    assert ForwardCredit(c, n - 2, n) == c[n - 2].size + HEADER;
    assert c[n..] == [];
  }

  /** A free undoes the allocation before it. */
  lemma TakenThenFreed(c: seq<Blk>, area: nat, total: nat, size: nat)
    requires Tiles(c, area, total) && Lifo(c) && Aligned(c) && total < WORD
    requires size % ALIGNMENT == 0 && size + HEADER <= c[|c| - 1].size
    ensures Tiles(TakenChain(c, |c| - 1, size), area, total)
    ensures Freed(TakenChain(c, |c| - 1, size), area, total, |c| - 1) == c
  {
    LifoTaken(c, area, total, size);
    LifoFreed(TakenChain(c, |c| - 1, size), area, total);
  }
}
