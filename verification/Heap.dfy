/**
  The kernel heap, kernel/src/mm/alloc.c: a list of pools, each tiled by blocks, changed through the headers
  in memory. Structures are maps from their addresses; the chains are what the headers mean.
 */
module Heap {
  import opened HeapBlocks

  const PAGE := 4096

  datatype Pool = Pool(next: nat, area: nat, freeSize: int, totalSize: nat)

  type Pools = map<nat, Pool>

  type Chains = map<nat, seq<Blk>>

  // ----- What the headers mean -----

  ghost predicate PoolOk(pools: Pools, blocks: Headers, chains: Chains, p: nat) {
    && p in pools && p in chains && pools[p].area > 0 && pools[p].totalSize < WORD
    && Tiles(chains[p], pools[p].area, pools[p].totalSize)
    && Recorded(blocks, chains[p], p, pools[p].area, pools[p].totalSize)
  }

  /** The pool list: NULL-terminated, without repetition, holding every pool. */
  ghost predicate ListOk(mainPool: nat, pools: Pools, order: seq<nat>) {
    && |order| > 0 && order[0] == mainPool && 0 !in pools
    && (forall i, j :: 0 <= i < j < |order| ==> order[i] != order[j])
    && (forall i :: 0 <= i < |order| ==>
          order[i] in pools && pools[order[i]].next == if i + 1 < |order| then order[i + 1] else 0)
    && (forall p :: p in pools ==> p in order)
  }

  predicate InArea(q: Pool, a: nat) { q.area <= a < q.area + q.totalSize }

  predicate AreasApart(q: Pool, r: Pool) { q.area + q.totalSize <= r.area || r.area + r.totalSize <= q.area }

  ghost predicate Mapped(pools: Pools, blocks: Headers) {
    && (forall p, r :: p in pools && r in pools && p != r ==> AreasApart(pools[p], pools[r]))
    && (forall a :: a in blocks ==> exists p :: p in pools && InArea(pools[p], a))
  }

  ghost predicate HeapOk(pools: Pools, blocks: Headers, chains: Chains) {
    && chains.Keys == pools.Keys && Mapped(pools, blocks)
    && (forall p :: p in pools ==> PoolOk(pools, blocks, chains, p))
  }

  /** Changing one pool's stretch of memory does not disturb the others. */
  lemma PoolChanged(pools: Pools, blocks: Headers, chains: Chains, blocks': Headers, q: nat, c: seq<Blk>, free: int)
    requires HeapOk(pools, blocks, chains) && q in pools
    requires SameOutside(blocks, blocks', pools[q].area, pools[q].totalSize)
    requires Tiles(c, pools[q].area, pools[q].totalSize) && Recorded(blocks', c, q, pools[q].area, pools[q].totalSize)
    ensures HeapOk(pools[q := pools[q].(freeSize := free)], blocks', chains[q := c])
  {
    hide Tiles, Recorded, PoolOk;
    var pools' := pools[q := pools[q].(freeSize := free)];
    forall p | p in pools' ensures PoolOk(pools', blocks', chains[q := c], p) {
      assert PoolOk(pools, blocks, chains, p);
      PoolKept(pools, blocks, chains, blocks', q, c, free, p);
    }
    MappedKept(pools, blocks, blocks', q, free);
  }

  lemma PoolKept(pools: Pools, blocks: Headers, chains: Chains, blocks': Headers, q: nat, c: seq<Blk>, free: int,
      p: nat)
    requires PoolOk(pools, blocks, chains, p) && q in pools && (p != q ==> AreasApart(pools[p], pools[q]))
    requires SameOutside(blocks, blocks', pools[q].area, pools[q].totalSize)
    requires Tiles(c, pools[q].area, pools[q].totalSize) && Recorded(blocks', c, q, pools[q].area, pools[q].totalSize)
    ensures PoolOk(pools[q := pools[q].(freeSize := free)], blocks', chains[q := c], p)
  {
    hide Tiles;
    if p != q {
      forall i | 0 <= i < |chains[p]| ensures HeaderAt(blocks', chains[p], i, p) {
        assert HeaderAt(blocks, chains[p], i, p);
        InPool(chains[p], pools[p].area, pools[p].totalSize, i);
      }
    }
  }

  lemma MappedKept(pools: Pools, blocks: Headers, blocks': Headers, q: nat, free: int)
    requires Mapped(pools, blocks) && q in pools && SameOutside(blocks, blocks', pools[q].area, pools[q].totalSize)
    ensures Mapped(pools[q := pools[q].(freeSize := free)], blocks')
  {
    var pools' := pools[q := pools[q].(freeSize := free)];
    forall a | a in blocks' ensures exists p :: p in pools' && InArea(pools'[p], a) {
      if !InArea(pools[q], a) {
        var p :| p in pools && InArea(pools[p], a);
        assert InArea(pools'[p], a);
      } else {
        assert InArea(pools'[q], a);
      }
    }
    forall p, r | p in pools' && r in pools' && p != r ensures AreasApart(pools'[p], pools'[r]) {
      assert AreasApart(pools[p], pools[r]);
    }
  }

  /** A header in memory belongs to one block of one pool. */
  lemma BlockOf(pools: Pools, blocks: Headers, chains: Chains, a: nat) returns (i: nat)
    requires HeapOk(pools, blocks, chains) && a in blocks
    ensures var q := blocks[a].pool;
      && q in pools && q in chains && PoolOk(pools, blocks, chains, q)
      && i < |chains[q]| && chains[q][i].at == a && chains[q][i].used == blocks[a].used
  {
    hide Tiles;
    var p :| p in pools && InArea(pools[p], a);
    assert PoolOk(pools, blocks, chains, p);
    assert IsBlock(chains[p], a);
    i :| 0 <= i < |chains[p]| && chains[p][i].at == a;
    assert HeaderAt(blocks, chains[p], i, p);
  }

  // ----- Joining free neighbours -----

  /** Blocks lo to hi - 1 of chain c have been joined, and their payload cleared. */
  ghost predicate JoinedSoFar(c: seq<Blk>, p: nat, area: nat, total: nat, blocks0: Headers, bytes0: map<nat, nat>,
      blocks: Headers, bytes: map<nat, nat>, lo: nat, hi: nat, used: bool)
    requires lo < hi <= |c| && c[lo].at + HEADER <= End(c[hi - 1])
  {
    && Recorded(blocks, Spliced(c, lo, hi, used), p, area, total)
    && SameOutside(blocks0, blocks, area, total)
    && bytes == ClearedBytes(c, bytes0, lo, hi)
  }

  function ClearedBytes(c: seq<Blk>, bytes: map<nat, nat>, lo: nat, hi: nat): map<nat, nat>
    requires lo < hi <= |c| && c[lo].at + HEADER <= End(c[hi - 1])
  {
    if hi == lo + 1 then bytes else Zeroed(bytes, c[lo].at + HEADER, End(c[hi - 1]) - c[lo].at - HEADER)
  }

  lemma NothingJoined(c: seq<Blk>, p: nat, area: nat, total: nat, blocks: Headers, bytes: map<nat, nat>, i: nat)
    requires Tiles(c, area, total) && i < |c| && Recorded(blocks, c, p, area, total)
    ensures JoinedSoFar(c, p, area, total, blocks, bytes, blocks, bytes, i, i + 1, c[i].used)
  {
    assert Spliced(c, i, i + 1, c[i].used) == c;
  }

  /** What the loop guards read. */
  lemma JoinedLinks(c: seq<Blk>, p: nat, area: nat, total: nat, blocks0: Headers, bytes0: map<nat, nat>,
      blocks: Headers, bytes: map<nat, nat>, lo: nat, hi: nat, used: bool)
    requires Tiles(c, area, total) && area > 0 && lo < hi <= |c| && c[lo].at + HEADER <= End(c[hi - 1])
    requires JoinedSoFar(c, p, area, total, blocks0, bytes0, blocks, bytes, lo, hi, used)
    ensures var a := c[lo].at;
      && a in blocks && blocks[a].size == End(c[hi - 1]) - a - HEADER
      && blocks[a].next == (if hi < |c| then c[hi].at else 0) && blocks[a].prev == (if lo > 0 then c[lo - 1].at else 0)
    ensures hi < |c| ==> c[hi].at in blocks && c[hi].at != 0 && blocks[c[hi].at].used == c[hi].used
    ensures lo > 0 ==> c[lo - 1].at in blocks && c[lo - 1].at != 0 && blocks[c[lo - 1].at].used == c[lo - 1].used
    ensures lo > 0 ==> blocks[c[lo - 1].at].next == c[lo].at && blocks[c[lo - 1].at].size == c[lo - 1].size
    ensures hi < |c| ==> blocks[c[hi].at].next == 0 || blocks[c[hi].at].next in blocks
    ensures blocks[c[lo].at].next == 0 || blocks[c[lo].at].next in blocks
  {
    var s := Spliced(c, lo, hi, used);
    SplicedTiles(c, area, total, lo, hi, used);
    SplicedBlock(c, lo, hi, used, lo);
    if lo > 0 { SplicedBlock(c, lo, hi, used, lo - 1); }
    if lo + 1 < |s| { SplicedBlock(c, lo, hi, used, lo + 1); }
    hide Spliced, Tiles;
    NextHeader(blocks, s, p, area, total, lo);
    if lo > 0 { NextHeader(blocks, s, p, area, total, lo - 1); }
    if lo + 1 < |s| { NextHeader(blocks, s, p, area, total, lo + 1); }
  }

  lemma ZeroedTwice(bytes: map<nat, nat>, from: nat, n: nat, from': nat, n': nat)
    requires n == 0 || (from' <= from && from + n <= from' + n')
    ensures Zeroed(Zeroed(bytes, from, n), from', n') == Zeroed(bytes, from', n')
  {}

  /** Clearing the payload of a larger joined block covers what was cleared before. */
  lemma ClearedMore(c: seq<Blk>, area: nat, total: nat, bytes: map<nat, nat>, lo: nat, hi: nat)
    requires Tiles(c, area, total) && lo < hi <= |c|
    ensures c[lo].at + HEADER <= End(c[hi - 1])
    ensures hi < |c| ==>
      && c[lo].at + HEADER <= End(c[hi])
      && Zeroed(ClearedBytes(c, bytes, lo, hi), c[lo].at + HEADER, End(c[hi]) - c[lo].at - HEADER) ==
          ClearedBytes(c, bytes, lo, hi + 1)
    ensures lo > 0 ==>
      && c[lo - 1].at + HEADER <= End(c[hi - 1])
      && Zeroed(ClearedBytes(c, bytes, lo, hi), c[lo - 1].at + HEADER, End(c[hi - 1]) - c[lo - 1].at - HEADER) ==
          ClearedBytes(c, bytes, lo - 1, hi)
  {
    hide Zeroed;
    CanJoin(c, area, total, lo, hi);
    var n := End(c[hi - 1]) - c[lo].at - HEADER;
    if hi < |c| {
      CanJoin(c, area, total, lo, hi + 1);
      assert Before(c, hi - 1, hi);
      ZeroedTwice(bytes, c[lo].at + HEADER, n, c[lo].at + HEADER, End(c[hi]) - c[lo].at - HEADER);
    }
    if lo > 0 {
      CanJoin(c, area, total, lo - 1, hi);
      assert Before(c, lo - 1, lo);
      ZeroedTwice(bytes, c[lo].at + HEADER, n, c[lo - 1].at + HEADER, End(c[hi - 1]) - c[lo - 1].at - HEADER);
    }
  }

  /** One merge of the forward loop. */
  lemma ForwardStep(c: seq<Blk>, p: nat, area: nat, total: nat, blocks0: Headers, bytes0: map<nat, nat>,
      blocks: Headers, bytes: map<nat, nat>, lo: nat, hi: nat, used: bool)
    requires Tiles(c, area, total) && area > 0 && lo < hi < |c| && c[lo].at + HEADER <= End(c[hi - 1])
    requires JoinedSoFar(c, p, area, total, blocks0, bytes0, blocks, bytes, lo, hi, used)
    ensures c[lo].at in blocks && blocks[c[lo].at].next in blocks && c[lo].at + HEADER <= End(c[hi])
    ensures var blocks' := MergedHeaders(blocks, c[lo].at);
      && c[lo].at in blocks'
      && JoinedSoFar(c, p, area, total, blocks0, bytes0, blocks',
          Zeroed(bytes, c[lo].at + HEADER, blocks'[c[lo].at].size), lo, hi + 1, used)
  {
    hide Spliced, Tiles, MergedHeaders, Zeroed, Recorded, SameOutside, ClearedBytes;
    var s := Spliced(c, lo, hi, used);
    JoinedLinks(c, p, area, total, blocks0, bytes0, blocks, bytes, lo, hi, used);
    SplicedMore(c, area, total, lo, hi, used);
    SplicedLength(c, lo, hi, used);
    SplicedBlock(c, lo, hi, used, lo);
    SplicedBlock(c, lo, hi, used, lo + 1);
    MergeRecorded(blocks, s, p, area, total, lo);
    var blocks' := MergedHeaders(blocks, c[lo].at);
    MergedAgain(c, p, area, total, blocks0, blocks, blocks', lo, hi + 1, used);
    ClearedMore(c, area, total, bytes0, lo, hi);
  }

  lemma MergedAgain(c: seq<Blk>, p: nat, area: nat, total: nat, blocks0: Headers, blocks: Headers, blocks': Headers,
      lo: nat, hi: nat, used: bool)
    requires lo < hi <= |c| && c[lo].at + HEADER <= End(c[hi - 1])
    requires Recorded(blocks', Spliced(c, lo, hi, used), p, area, total)
    requires SameOutside(blocks0, blocks, area, total) && SameOutside(blocks, blocks', area, total)
    ensures SameOutside(blocks0, blocks', area, total)
    ensures c[lo].at in blocks' && blocks'[c[lo].at].size == End(c[hi - 1]) - c[lo].at - HEADER
  {
    SplicedBlock(c, lo, hi, used, lo);
    assert HeaderAt(blocks', Spliced(c, lo, hi, used), lo, p);
  }

  /** One merge of the backward loop: the free block before absorbs the joined one. */
  lemma BackwardStep(c: seq<Blk>, p: nat, area: nat, total: nat, blocks0: Headers, bytes0: map<nat, nat>,
      blocks: Headers, bytes: map<nat, nat>, lo: nat, hi: nat, used: bool)
    requires Tiles(c, area, total) && area > 0 && 0 < lo < hi <= |c| && c[lo].at + HEADER <= End(c[hi - 1])
    requires JoinedSoFar(c, p, area, total, blocks0, bytes0, blocks, bytes, lo, hi, used) && !c[lo - 1].used
    ensures c[lo - 1].at in blocks && blocks[c[lo - 1].at].next in blocks && c[lo - 1].at + HEADER <= End(c[hi - 1])
    ensures var a := c[lo - 1].at;
      var blocks' := MergedHeaders(blocks, a);
      && a in blocks'
      && JoinedSoFar(c, p, area, total, blocks0, bytes0, blocks', Zeroed(bytes, a + HEADER, blocks'[a].size), lo - 1,
          hi, false)
  {
    hide Spliced, Tiles, MergedHeaders, Zeroed, Recorded, SameOutside, ClearedBytes;
    var s := Spliced(c, lo, hi, used);
    JoinedLinks(c, p, area, total, blocks0, bytes0, blocks, bytes, lo, hi, used);
    SplicedMore(c, area, total, lo, hi, used);
    SplicedLength(c, lo, hi, used);
    SplicedBlock(c, lo, hi, used, lo);
    SplicedBlock(c, lo, hi, used, lo - 1);
    MergeRecorded(blocks, s, p, area, total, lo - 1);
    var blocks' := MergedHeaders(blocks, c[lo - 1].at);
    MergedAgain(c, p, area, total, blocks0, blocks, blocks', lo - 1, hi, false);
    ClearedMore(c, area, total, bytes0, lo, hi);
  }

  function MarkFree(blocks: Headers, a: nat): Headers
    requires a in blocks
  {
    blocks[a := blocks[a].(used := false)]
  }

  /** Marking the joined block free. */
  lemma MarkedFree(c: seq<Blk>, p: nat, area: nat, total: nat, blocks: Headers, lo: nat, hi: nat, used: bool)
    requires Tiles(c, area, total) && area > 0 && lo < hi <= |c| && c[lo].at + HEADER <= End(c[hi - 1])
    requires Recorded(blocks, Spliced(c, lo, hi, used), p, area, total) && c[lo].at in blocks
    ensures var blocks' := MarkFree(blocks, c[lo].at);
      && Recorded(blocks', Spliced(c, lo, hi, false), p, area, total)
      && SameOutside(blocks, blocks', area, total)
  {
    var s, s' := Spliced(c, lo, hi, used), Spliced(c, lo, hi, false);
    var blocks' := MarkFree(blocks, c[lo].at);
    SplicedTiles(c, area, total, lo, hi, used);
    SplicedBlock(c, lo, hi, used, lo);
    assert forall j :: 0 <= j < |s| ==> s'[j] == if j == lo then s[j].(used := false) else s[j];
    hide Spliced, Tiles;
    InPool(s, area, total, lo);
    forall j | 0 <= j < |s'| ensures HeaderAt(blocks', s', j, p) {
      assert HeaderAt(blocks, s, j, p);
      DifferentPlaces(s, area, total, j, lo);
    }
    forall a | a in blocks' && area <= a < area + total ensures IsBlock(s', a) {
      var j :| 0 <= j < |s| && s[j].at == a;
      assert s'[j].at == a;
    }
  }

  // ----- Choosing a block -----

  /** MmAlloc rounds sizes up to 16. */
  function Rounded(size: nat): (r: nat)
    ensures r % ALIGNMENT == 0 && size <= r < size + ALIGNMENT
  {
    if size % 16 != 0 then size - size % 16 + 16 else size
  }

  function NewPoolSize(size: nat): nat { (size + (PAGE - 1)) / PAGE * PAGE * 4 }

  /** A new pool is four times the request, in whole pages. */
  lemma NewPoolPages(size: nat)
    ensures NewPoolSize(size) % 0x4000 == 0 && 4 * size <= NewPoolSize(size) < 4 * size + 0x4000
  {}

  /** The first pool in the list, from index k on, that seems to have room. */
  function FirstPool(pools: Pools, order: seq<nat>, size: nat, k: nat): (f: nat)
    requires k <= |order| && forall i :: 0 <= i < |order| ==> order[i] in pools
    ensures k <= f <= |order| && (f < |order| ==> pools[order[f]].freeSize >= size + HEADER)
    ensures forall i :: k <= i < f ==> pools[order[i]].freeSize < size + HEADER
    decreases |order| - k
  {
    if k == |order| || pools[order[k]].freeSize >= size + HEADER then k else FirstPool(pools, order, size, k + 1)
  }

  lemma FirstPoolStep(pools: Pools, order: seq<nat>, size: nat, k: nat)
    requires k < |order| && forall i :: 0 <= i < |order| ==> order[i] in pools
    ensures pools[order[k]].freeSize >= size + HEADER ==> FirstPool(pools, order, size, k) == k
    ensures pools[order[k]].freeSize < size + HEADER ==>
        FirstPool(pools, order, size, k) == FirstPool(pools, order, size, k + 1)
    ensures FirstPool(pools, order, size, |order|) == |order|
  {}

  /** A new pool has room for what it is made for. */
  lemma NewPoolFits(size: nat)
    requires size > 0
    ensures NewPoolSize(size) >= size + 2 * HEADER
  {}

  lemma AppendedPool(pools: Pools, order: seq<nat>, at: nat, area: nat, size: nat)
    requires |order| > 0 && order[|order| - 1] in pools && Fresh(pools, at, area, size)
    ensures var last := order[|order| - 1];
      && WithPool(pools, order, at, area, size) ==
           pools[at := Pool(0, area, size - HEADER, size)][last := pools[last].(next := at)]
      && WithPool(pools, order, at, area, size)[last] == pools[last].(next := at)
  {}

  /** The first free block from index i on that is large enough. */
  function FirstBlock(c: seq<Blk>, size: nat, i: nat): (f: nat)
    requires i <= |c|
    ensures i <= f <= |c| && (f < |c| ==> !c[f].used && c[f].size >= size)
    ensures forall j :: i <= j < f ==> c[j].used || c[j].size < size
    decreases |c| - i
  {
    if i == |c| || (!c[i].used && c[i].size >= size) then i else FirstBlock(c, size, i + 1)
  }

  /** What the page allocator returns for a new pool: an unused page for the structure, and an unused area. */
  predicate Fresh(pools: Pools, at: nat, area: nat, size: nat) {
    && at != 0 && at !in pools && area > 0 && area % PAGE == 0
    && forall p :: p in pools ==> AreasApart(pools[p], Pool(0, area, 0, size))
  }

  function NewChain(area: nat, size: nat): seq<Blk>
    requires size >= HEADER
  {
    [Blk(area, size - HEADER, false)]
  }

  /** The structures with a new pool appended to the list. */
  function WithPool(pools: Pools, order: seq<nat>, at: nat, area: nat, size: nat): Pools
    requires |order| > 0 && order[|order| - 1] in pools
  {
    var last := order[|order| - 1];
    pools[last := pools[last].(next := at)][at := Pool(0, area, size - HEADER, size)]
  }

  function WithHeader(blocks: Headers, at: nat, area: nat, size: nat): Headers
    requires size >= HEADER
  {
    blocks[area := Header(at, 0, 0, size - HEADER, false)]
  }

  lemma PoolAdded(mainPool: nat, pools: Pools, blocks: Headers, chains: Chains, order: seq<nat>, at: nat, area: nat,
      size: nat)
    requires ListOk(mainPool, pools, order) && HeapOk(pools, blocks, chains) && Fresh(pools, at, area, size)
    requires HEADER <= size < WORD
    ensures var pools', blocks' := WithPool(pools, order, at, area, size), WithHeader(blocks, at, area, size);
      ListOk(mainPool, pools', order + [at]) && HeapOk(pools', blocks', chains[at := NewChain(area, size)])
    ensures area !in blocks
  {
    hide ListOk, PoolOk, Mapped, Fresh, WithPool, WithHeader, NewChain, AreasApart;
    LastInPools(mainPool, pools, order);
    var pools', blocks' := WithPool(pools, order, at, area, size), WithHeader(blocks, at, area, size);
    var chains' := chains[at := NewChain(area, size)];
    ListExtended(mainPool, pools, order, at, area, size);
    OldPoolsKept(pools, blocks, chains, order, at, area, size);
    WithPoolKeys(pools, order, at, area, size);
    NewPoolOk(pools', blocks', chains', blocks, pools, at, area, size);
    AreaAdded(pools, blocks, pools', blocks', order, at, area, size);
  }

  lemma WithPoolKeys(pools: Pools, order: seq<nat>, at: nat, area: nat, size: nat)
    requires |order| > 0 && order[|order| - 1] in pools
    ensures WithPool(pools, order, at, area, size).Keys == pools.Keys + {at}
    ensures WithPool(pools, order, at, area, size)[at] == Pool(0, area, size - HEADER, size)
  {}

  lemma OldPoolsKept(pools: Pools, blocks: Headers, chains: Chains, order: seq<nat>, at: nat, area: nat, size: nat)
    requires HeapOk(pools, blocks, chains) && Fresh(pools, at, area, size) && size > 0 && size >= HEADER
    requires |order| > 0 && order[|order| - 1] in pools
    ensures var pools', blocks' := WithPool(pools, order, at, area, size), WithHeader(blocks, at, area, size);
      forall p :: p in pools ==> PoolOk(pools', blocks', chains[at := NewChain(area, size)], p)
  {
    hide PoolOk, Mapped, AreasApart, NewChain;
    var pools', blocks' := WithPool(pools, order, at, area, size), WithHeader(blocks, at, area, size);
    forall p | p in pools ensures PoolOk(pools', blocks', chains[at := NewChain(area, size)], p) {
      assert PoolOk(pools, blocks, chains, p);
      NotInArea(pools, p, area, size);
      OldPoolKept(pools, blocks, chains, pools', blocks', chains[at := NewChain(area, size)], p, area);
    }
  }

  lemma NotInArea(pools: Pools, p: nat, area: nat, size: nat)
    requires p in pools && AreasApart(pools[p], Pool(0, area, 0, size)) && size > 0
    ensures !InArea(pools[p], area)
  {}

  lemma LastInPools(mainPool: nat, pools: Pools, order: seq<nat>)
    requires ListOk(mainPool, pools, order)
    ensures |order| > 0 && order[|order| - 1] in pools
  {}

  /** The order's entries, each leading to the next. */
  lemma LinksOf(mainPool: nat, pools: Pools, order: seq<nat>, i: nat)
    requires ListOk(mainPool, pools, order) && i < |order|
    ensures order[i] in pools && pools[order[i]].next == if i + 1 < |order| then order[i + 1] else 0
    ensures i + 1 < |order| ==> order[i] != order[|order| - 1]
  {}

  lemma ExtendedLink(mainPool: nat, pools: Pools, order: seq<nat>, at: nat, area: nat, size: nat, i: nat)
    requires ListOk(mainPool, pools, order) && at != 0 && at !in pools && size >= HEADER && i <= |order|
    ensures order[|order| - 1] in pools
    ensures var pools', order' := WithPool(pools, order, at, area, size), order + [at];
      order'[i] in pools' && pools'[order'[i]].next == if i < |order| then order'[i + 1] else 0
  {
    LinksOf(mainPool, pools, order, |order| - 1);
    if i < |order| { LinksOf(mainPool, pools, order, i); }
    hide ListOk;
  }

  lemma ListExtended(mainPool: nat, pools: Pools, order: seq<nat>, at: nat, area: nat, size: nat)
    requires ListOk(mainPool, pools, order) && Fresh(pools, at, area, size) && size >= HEADER
    ensures ListOk(mainPool, WithPool(pools, order, at, area, size), order + [at])
  {
    hide Fresh;
    FreshAt(pools, at, area, size);
    LastInPools(mainPool, pools, order);
    var pools', order', n := WithPool(pools, order, at, area, size), order + [at], |order|;
    assert pools'.Keys == pools.Keys + {at};
    hide WithPool;
    forall i | 0 <= i <= n
      ensures order'[i] in pools' && pools'[order'[i]].next == if i < n then order'[i + 1] else 0
    {
      ExtendedLink(mainPool, pools, order, at, area, size, i);
    }
    forall i, j | 0 <= i < j <= n ensures order'[i] != order'[j] {
      if j == n { LinksOf(mainPool, pools, order, i); }
    }
    forall p | p in pools' ensures p in order' {
      if p != at { assert p in order; }
    }
  }

  lemma FreshAt(pools: Pools, at: nat, area: nat, size: nat)
    requires Fresh(pools, at, area, size)
    ensures at != 0 && at !in pools
  {}

  lemma OldPoolKept(pools: Pools, blocks: Headers, chains: Chains, pools': Pools, blocks': Headers, chains': Chains,
      p: nat, area: nat)
    requires PoolOk(pools, blocks, chains, p) && p in pools' && pools'[p].area == pools[p].area &&
        pools'[p].totalSize == pools[p].totalSize
    requires p in chains' && chains'[p] == chains[p] && !InArea(pools[p], area)
    requires forall a :: a != area ==> (a in blocks' <==> a in blocks) && (a in blocks ==> blocks'[a] == blocks[a])
    ensures PoolOk(pools', blocks', chains', p)
  {
    hide Tiles;
    forall i | 0 <= i < |chains[p]| ensures HeaderAt(blocks', chains[p], i, p) {
      assert HeaderAt(blocks, chains[p], i, p);
      InPool(chains[p], pools[p].area, pools[p].totalSize, i);
    }
  }

  lemma NewPoolOk(pools': Pools, blocks': Headers, chains': Chains, blocks: Headers, pools: Pools, at: nat, area: nat,
      size: nat)
    requires HEADER <= size < WORD && at in pools' && pools'[at] == Pool(0, area, size - HEADER, size)
    requires at in chains' && chains'[at] == NewChain(area, size)
    requires blocks' == WithHeader(blocks, at, area, size)
    requires Mapped(pools, blocks) && Fresh(pools, at, area, size)
    ensures PoolOk(pools', blocks', chains', at) && area !in blocks
  {
    forall a | a in blocks ensures !(area <= a < area + size) {
      var p :| p in pools && InArea(pools[p], a);
      assert AreasApart(pools[p], Pool(0, area, 0, size));
    }
    assert chains'[at][0].at == area;
  }

  lemma AreaAdded(pools: Pools, blocks: Headers, pools': Pools, blocks': Headers, order: seq<nat>, at: nat, area: nat,
      size: nat)
    requires Mapped(pools, blocks) && Fresh(pools, at, area, size) && HEADER <= size
    requires |order| > 0 && order[|order| - 1] in pools && pools' == WithPool(pools, order, at, area, size)
    requires blocks' == WithHeader(blocks, at, area, size)
    ensures Mapped(pools', blocks')
  {
    hide AreasApart, InArea, WithHeader;
    assert forall p :: p in pools' <==> p in pools || p == at;
    forall a | a in blocks' ensures exists p :: p in pools' && InArea(pools'[p], a) {
      var p := AreaOf(pools, blocks, pools', blocks', order, at, area, size, a);
    }
    forall p, r | p in pools' && r in pools' && p != r ensures AreasApart(pools'[p], pools'[r]) {
      PairApart(pools, pools', order, at, area, size, p, r);
    }
  }

  lemma AreaOf(pools: Pools, blocks: Headers, pools': Pools, blocks': Headers, order: seq<nat>, at: nat, area: nat,
      size: nat, a: nat) returns (p: nat)
    requires forall a :: a in blocks ==> exists p :: p in pools && InArea(pools[p], a)
    requires at !in pools && HEADER <= size && |order| > 0 && order[|order| - 1] in pools
    requires pools' == WithPool(pools, order, at, area, size) && blocks' == WithHeader(blocks, at, area, size) &&
        a in blocks'
    ensures p in pools' && InArea(pools'[p], a)
  {
    if a == area { return at; }
    p :| p in pools && InArea(pools[p], a);
  }

  lemma PairApart(pools: Pools, pools': Pools, order: seq<nat>, at: nat, area: nat, size: nat, p: nat, r: nat)
    requires forall p, r :: p in pools && r in pools && p != r ==> AreasApart(pools[p], pools[r])
    requires Fresh(pools, at, area, size) && |order| > 0 && order[|order| - 1] in pools
    requires pools' == WithPool(pools, order, at, area, size) && p in pools' && r in pools' && p != r
    ensures AreasApart(pools'[p], pools'[r])
  {
    if p != at && r != at { assert AreasApart(pools[p], pools[r]); }
    if p != at { assert AreasApart(pools[p], Pool(0, area, 0, size)); }
    if r != at { assert AreasApart(pools[r], Pool(0, area, 0, size)); }
  }

  predicate InPayload(b: Blk, x: nat) { b.at + HEADER <= x < End(b) }

  /** Block j of pool r is in use, and is not block i of pool q. */
  predicate OtherUsed(chains: Chains, q: nat, i: nat, r: nat, j: nat) {
    r in chains && j < |chains[r]| && chains[r][j].used && (r, j) != (q, i)
  }

  /** The payload of every used block other than block i of pool q is as before. */
  ghost predicate PayloadsKept(chains: Chains, q: nat, i: nat, bytes: map<nat, nat>, bytes': map<nat, nat>) {
    forall r: nat, j: nat, x: nat | OtherUsed(chains, q, i, r, j) && InPayload(chains[r][j], x) && x in bytes ::
      x in bytes' && bytes'[x] == bytes[x]
  }

  /** What a free of block i leaves of the bytes: the payloads of the other used blocks, and everything outside. */
  ghost predicate OthersKept(c: seq<Blk>, i: nat, area: nat, total: nat, bytes: map<nat, nat>, bytes': map<nat, nat>) {
    forall x :: x in bytes && (!(area <= x < area + total) || InOther(c, i, x)) ==> x in bytes' && bytes'[x] == bytes[x]
  }

  /** Address x lies in the payload of a used block other than block i. */
  predicate InOther(c: seq<Blk>, i: nat, x: nat) {
    exists j :: 0 <= j < |c| && j != i && c[j].used && InPayload(c[j], x)
  }

  lemma ClearedKeeps(c: seq<Blk>, area: nat, total: nat, i: nat, bytes: map<nat, nat>)
    requires Tiles(c, area, total) && i < |c|
    ensures var lo, hi := RunStart(c, i), RunEnd(c, i);
      c[lo].at + HEADER <= End(c[hi - 1]) && OthersKept(c, i, area, total, bytes, ClearedBytes(c, bytes, lo, hi))
  {
    hide Tiles, RunStart, RunEnd;
    var lo, hi := RunStart(c, i), RunEnd(c, i);
    CanJoin(c, area, total, lo, hi);
    InPool(c, area, total, lo);
    InPool(c, area, total, hi - 1);
    forall x: nat | InOther(c, i, x) ensures !(c[lo].at <= x < End(c[hi - 1])) {
      var j :| 0 <= j < |c| && j != i && c[j].used && InPayload(c[j], x);
      assert j < lo || j >= hi;
      InOrder(c, area, total, j, lo);
      InOrder(c, area, total, hi - 1, j);
    }
  }

  lemma OtherPayloads(pools: Pools, blocks: Headers, chains: Chains, q: nat, i: nat, bytes: map<nat, nat>,
      bytes': map<nat, nat>)
    requires q in pools && q in chains && HeapOk(pools, blocks, chains) && i < |chains[q]|
    requires OthersKept(chains[q], i, pools[q].area, pools[q].totalSize, bytes, bytes')
    ensures PayloadsKept(chains, q, i, bytes, bytes')
  {
    forall r: nat, j: nat, x: nat | OtherUsed(chains, q, i, r, j) && InPayload(chains[r][j], x) && x in bytes
      ensures x in bytes' && bytes'[x] == bytes[x]
    {
      if r == q {
        assert InOther(chains[q], i, x);
      } else {
        OtherPool(pools, blocks, chains, q, r, j, x);
      }
    }
  }

  lemma OtherPool(pools: Pools, blocks: Headers, chains: Chains, q: nat, r: nat, j: nat, x: nat)
    requires q in pools && HeapOk(pools, blocks, chains) && r != q && r in chains && j < |chains[r]| &&
        InPayload(chains[r][j], x)
    ensures !(pools[q].area <= x < pools[q].area + pools[q].totalSize)
  {
    assert PoolOk(pools, blocks, chains, r);
    assert AreasApart(pools[r], pools[q]);
    InPool(chains[r], pools[r].area, pools[r].totalSize, j);
  }

  lemma OnePoolOk(at: nat, area: nat, size: nat, pools: Pools, blocks: Headers, chains: Chains)
    requires at != 0 && area > 0 && area % PAGE == 0 && HEADER <= size < WORD && size % ALIGNMENT == 0
    requires pools == map[at := Pool(0, area, size - HEADER, size)] &&
        blocks == map[area := Header(at, 0, 0, size - HEADER, false)]
    requires chains == map[at := NewChain(area, size)]
    ensures ListOk(at, pools, [at]) && HeapOk(pools, blocks, chains) && LifoHeap(State(pools, chains, [at]))
  {
    assert chains[at][0].at == area;
    assert InArea(pools[at], area);
    NewChainTiles(area, size);
    NewChainLifo(area, size);
    assert PoolOk(pools, blocks, chains, at);
  }

  // ----- The heap -----

  class Heap {
    var mainPool: nat
    var pools: Pools
    var blocks: Headers
    var bytes: map<nat, nat>
    ghost var order: seq<nat>
    ghost var chains: Chains

    ghost predicate Valid()
      reads this
    {
      ListOk(mainPool, pools, order) && HeapOk(pools, blocks, chains)
    }

    ghost function Model(): State
      reads this
    {
      State(pools, chains, order)
    }

    /** MmAllocInit: one pool of ten pages. at and area are what the page allocator returned. */
    constructor (at: nat, area: nat)
      requires at != 0 && area > 0 && area % PAGE == 0
      ensures Valid() && LifoHeap(Model()) && Model() == FirstState(at, area)
      ensures pools == map[at := Pool(0, area, 0xA000 - 48, 0xA000)] && AllZero(bytes, area, 0xA000)
    {
      hide ListOk, HeapOk, LifoHeap, NewChain, Cleared, AllZero;
      ClearedReads(map[], area, PAGE * 10);
      mainPool := at;
      pools := map[at := Pool(0, area, PAGE * 10 - HEADER, PAGE * 10)];
      blocks := map[area := Header(at, 0, 0, PAGE * 10 - HEADER, false)];
      bytes := Cleared(area, PAGE * 10);
      order := [at];
      chains := map[at := NewChain(area, PAGE * 10)];
      new;
      assert map[] + bytes == bytes;
      OnePoolOk(at, area, PAGE * 10, pools, blocks, chains);
    }

    /** MmMerge: block a absorbs its next, and the pool is credited with a's size. */
    method Merge(a: nat, pool: nat)
      requires a in blocks && blocks[a].next in blocks && pool in pools && blocks[a].next != a
      requires var nn := blocks[blocks[a].next].next; nn == 0 || (nn in blocks && nn != blocks[a].next)
      modifies this`blocks, this`bytes, this`pools
      ensures blocks == MergedHeaders(old(blocks), a) && a in blocks
      ensures bytes == Zeroed(old(bytes), a + HEADER, blocks[a].size)
      ensures pools == Credited(old(pools), pool, old(blocks)[a].size + HEADER)
    {
      hide MergedHeaders;
      var next := blocks[a].next;
      var newSize := blocks[a].size + blocks[next].size + HEADER;
      var freedSize := blocks[a].size + HEADER;
      blocks := blocks[a := blocks[a].(size := newSize)];
      if blocks[next].next != 0 {
        blocks := blocks[a := blocks[a].(next := blocks[next].next)];
        blocks := blocks[blocks[a].next := blocks[blocks[a].next].(prev := a)];
      } else {
        blocks := blocks[a := blocks[a].(next := 0)];
      }
      bytes := Zeroed(bytes, a + HEADER, newSize);
      MergedInSteps(old(blocks), a, blocks);
      blocks := blocks - {next};
      pools := pools[pool := pools[pool].(freeSize := pools[pool].freeSize + freedSize)];
    }

    /** The first loop of MmFree: joins block b with the free blocks after it. */
    method JoinForward(b: nat, pool: nat, ghost c: seq<Blk>, ghost i: nat)
      requires pool in pools && pools[pool].area > 0 && Tiles(c, pools[pool].area, pools[pool].totalSize)
      requires i < |c| && c[i].at == b && JoinedSoFar(c, pool, pools[pool].area, pools[pool].totalSize, blocks, bytes,
          blocks, bytes, i, i + 1, c[i].used)
      modifies this`pools, this`blocks, this`bytes
      ensures var hi := RunEnd(c, i);
        && c[i].at + HEADER <= End(c[hi - 1])
        && JoinedSoFar(c, pool, old(pools[pool].area), old(pools[pool].totalSize), old(blocks), old(bytes), blocks,
            bytes, i, hi, c[i].used)
        && pools == Credited(old(pools), pool, ForwardCredit(c, i, hi))
    {
      hide Tiles, JoinedSoFar, MergedHeaders, RunEnd, ForwardCredit, Zeroed;
      ghost var hi, area, total, pools0, blocks0, bytes0 := i + 1, pools[pool].area, pools[pool].totalSize, pools,
          blocks, bytes;
      NoCredit(c, i);
      JoinedLinks(c, pool, area, total, blocks0, bytes0, blocks, bytes, i, i + 1, c[i].used);
      while blocks[b].next != 0 && !blocks[blocks[b].next].used
        invariant i < hi <= |c| && c[i].at + HEADER <= End(c[hi - 1]) && RunEnd(c, i) == RunEnd(c, hi - 1)
        invariant JoinedSoFar(c, pool, area, total, blocks0, bytes0, blocks, bytes, i, hi, c[i].used)
        invariant pools == Credited(pools0, pool, ForwardCredit(c, i, hi))
        invariant b in blocks && blocks[b].size == End(c[hi - 1]) - b - HEADER
        invariant blocks[b].next == if hi < |c| then c[hi].at else 0
        invariant hi < |c| ==> c[hi].at in blocks && c[hi].at != 0 && blocks[c[hi].at].used == c[hi].used
        invariant hi < |c| ==> blocks[c[hi].at].next == 0 || blocks[c[hi].at].next in blocks
        decreases |c| - hi
      {
        MoreFree(c, hi - 1);
        MoreCredit(c, i, hi);
        NextDiffers(c, pool, area, total, blocks0, bytes0, blocks, bytes, i, hi, c[i].used);
        ForwardStep(c, pool, area, total, blocks0, bytes0, blocks, bytes, i, hi, c[i].used);
        Merge(b, pool);
        hi := hi + 1;
        JoinedLinks(c, pool, area, total, blocks0, bytes0, blocks, bytes, i, hi, c[i].used);
      }
      RunStops(c, hi - 1);
    }

    /** The second loop of MmFree: each free block before absorbs the joined block. */
    method JoinBackward(b0: nat, pool: nat, ghost c: seq<Blk>, ghost i: nat, ghost hi: nat, ghost blocks0: Headers,
        ghost bytes0: map<nat, nat>) returns (b: nat, ghost used: bool)
      requires pool in pools && pools[pool].area > 0 && Tiles(c, pools[pool].area, pools[pool].totalSize)
      requires i < hi <= |c| && c[i].at == b0 && c[i].at + HEADER <= End(c[hi - 1])
      requires JoinedSoFar(c, pool, pools[pool].area, pools[pool].totalSize, blocks0, bytes0, blocks, bytes, i, hi,
          c[i].used)
      modifies this`pools, this`blocks, this`bytes
      ensures var lo := RunStart(c, i);
        && b == c[lo].at && b in blocks && c[lo].at + HEADER <= End(c[hi - 1])
        && JoinedSoFar(c, pool, old(pools[pool].area), old(pools[pool].totalSize), blocks0, bytes0, blocks, bytes, lo,
            hi, used)
        && pools == Credited(old(pools), pool, BackwardCredit(c, lo, i))
    {
      hide Tiles, JoinedSoFar, MergedHeaders, RunStart;
      ghost var lo: nat, area, total, pools0 := i, pools[pool].area, pools[pool].totalSize, pools;
      b, used := b0, c[i].used;
      JoinedLinks(c, pool, area, total, blocks0, bytes0, blocks, bytes, i, hi, used);
      while blocks[b].prev != 0 && !blocks[blocks[b].prev].used
        invariant lo <= i && b == c[lo].at && b in blocks && c[lo].at + HEADER <= End(c[hi - 1]) &&
            RunStart(c, i) == RunStart(c, lo)
        invariant JoinedSoFar(c, pool, area, total, blocks0, bytes0, blocks, bytes, lo, hi, used)
        invariant pools == Credited(pools0, pool, BackwardCredit(c, lo, i))
        invariant blocks[b].prev == if lo > 0 then c[lo - 1].at else 0
        invariant lo > 0 ==> c[lo - 1].at in blocks && c[lo - 1].at != 0 && blocks[c[lo - 1].at].used == c[lo - 1].used
        invariant lo > 0 ==> blocks[c[lo - 1].at].next == b && blocks[c[lo - 1].at].size == c[lo - 1].size
        invariant blocks[b].next == 0 || blocks[b].next in blocks
        decreases lo
      {
        LessFree(c, lo);
        PrevDiffers(c, pool, area, total, blocks0, bytes0, blocks, bytes, lo, hi, used);
        BackwardStep(c, pool, area, total, blocks0, bytes0, blocks, bytes, lo, hi, used);
        b := blocks[b].prev;
        Merge(b, pool);
        lo, used := lo - 1, false;
        JoinedLinks(c, pool, area, total, blocks0, bytes0, blocks, bytes, lo, hi, used);
      }
      RunStarts(c, lo);
    }

    /**
      MmFree of block i of a pool whose blocks tile it with inverse links, whatever the rest of the heap looks
      like: the loops end, the block and its free neighbours become one free block, the pool stays such a pool,
      no other used payload in it changes, and nothing outside it changes.
     */
    method FreeBlock(b0: nat, pool: nat, ghost c: seq<Blk>, ghost i: nat)
      requires pool in pools && pools[pool].area > 0 && Tiles(c, pools[pool].area, pools[pool].totalSize)
      requires Recorded(blocks, c, pool, pools[pool].area, pools[pool].totalSize) && i < |c| && c[i].at == b0
      modifies this`pools, this`blocks, this`bytes
      ensures var area, total := old(pools)[pool].area, old(pools)[pool].totalSize;
        && pools == Credited(old(pools), pool, Credit(c, i))
        && Tiles(Freed(c, area, total, i), area, total)
        && Recorded(blocks, Freed(c, area, total, i), pool, area, total)
        && SameOutside(old(blocks), blocks, area, total)
        && OthersKept(c, i, area, total, old(bytes), bytes)
    {
      hide Tiles, JoinedSoFar, RunStart, RunEnd, ForwardCredit, BackwardCredit, Recorded, OthersKept, SameOutside;
      ghost var area, total, pools0, blocks0, bytes0 := pools[pool].area, pools[pool].totalSize, pools, blocks, bytes;
      var b := b0;
      NothingJoined(c, pool, area, total, blocks, bytes, i);
      JoinForward(b, pool, c, i);
      ghost var used;
      b, used := JoinBackward(b, pool, c, i, RunEnd(c, i), blocks0, bytes0);
      FreedBlocks(c, pool, area, total, blocks0, bytes0, blocks, bytes, i, used);
      ClearedKeeps(c, area, total, i, bytes0);
      blocks := blocks[b := blocks[b].(used := false)];
      assert pools == Credited(pools0, pool, Credit(c, i));
    }

    /**
      MmFree in a heap all of whose pools are well formed: it stays such a heap. Refuses, where the kernel
      asserts, a pointer that is not a block's payload.
     */
    method Free(ptr: nat) returns (ok: bool, ghost q: nat, ghost i: nat)
      requires Valid()
      modifies this`pools, this`blocks, this`bytes, this`chains
      ensures Valid() && (ok <==> ptr == 0 || (ptr >= HEADER && ptr - HEADER in old(blocks)))
      ensures ptr == 0 || !ok ==>
          pools == old(pools) && blocks == old(blocks) && bytes == old(bytes) && chains == old(chains)
      ensures ptr != 0 && ok ==> FreedFrom(old(pools), old(chains), old(bytes), pools, chains, bytes, ptr - HEADER, q,
          i)
    {
      hide Tiles, ListOk, HeapOk, PoolOk, PayloadsKept, Credit, Recorded, OthersKept, SameOutside;
      if ptr == 0 { return true, 0, 0; }
      if ptr < HEADER || ptr - HEADER !in blocks { return false, 0, 0; }
      ok := true;
      var b := ptr - HEADER;
      var pool := blocks[b].pool;
      q := pool;
      i := BlockOf(pools, blocks, chains, b);
      ghost var c, pools0, blocks0, bytes0 := chains[q], pools, blocks, bytes;
      PoolFacts(pools, blocks, chains, q);
      FreeBlock(b, pool, c, i);
      FreeDone(mainPool, pools0, blocks0, bytes0, chains, order, q, i, blocks, bytes);
      chains := chains[q := Freed(c, pools0[q].area, pools0[q].totalSize, i)];
    }

    /** MmAllocPool: one free block over the whole area, which is cleared. */
    method AllocPool(size: nat, at: nat, area: nat)
      requires HEADER <= size
      modifies this`pools, this`blocks, this`bytes
      ensures pools == old(pools)[at := Pool(0, area, size - HEADER, size)]
      ensures blocks == WithHeader(old(blocks), at, area, size)
      ensures bytes == old(bytes) + Cleared(area, size)
    {
      bytes := bytes + Cleared(area, size);
      pools := pools[at := Pool(0, area, size - HEADER, size)];
      blocks := blocks[area := Header(at, 0, 0, size - HEADER, false)];
    }

    /** Makes a new pool and links it behind the last one, p. */
    method AppendPool(p: nat, size: nat, at: nat, area: nat)
      requires Valid() && HEADER <= size < WORD && Fresh(pools, at, area, size) && |order| > 0 &&
          p == order[|order| - 1]
      modifies this
      ensures Valid() && mainPool == old(mainPool) && order == old(order) + [at] &&
          chains == old(chains)[at := NewChain(area, size)]
      ensures p in old(pools) && pools == WithPool(old(pools), old(order), at, area, size)
      ensures forall x :: x in old(bytes) && !(area <= x < area + size) ==> x in bytes && bytes[x] == old(bytes)[x]
      ensures AllZero(bytes, area, size)
    {
      hide HeapOk, ListOk, WithPool, NewChain, AllZero;
      ClearedReads(bytes, area, size);
      HeapState(mainPool, pools, blocks, chains, order);
      PoolAdded(mainPool, pools, blocks, chains, order, at, area, size);
      AppendedPool(pools, order, at, area, size);
      AllocPool(size, at, area);
      pools := pools[p := pools[p].(next := at)];
      order := order + [at];
      chains := chains[at := NewChain(area, size)];
    }

    /** The pool search of MmAlloc: the first pool that seems to have room, or a new one at the end. */
    method FindPool(size: nat, at: nat, area: nat) returns (p: nat)
      requires Valid() && size > 0 && NewPoolSize(size) < WORD && Fresh(pools, at, area, NewPoolSize(size))
      modifies this
      ensures Valid() && StateOk(old(Model())) && Model() == WithRoom(old(Model()), size, at, area) &&
          p == PoolFor(old(Model()), size, at)
      ensures forall x :: x in old(bytes) && !(area <= x < area + NewPoolSize(size)) ==>
          x in bytes && bytes[x] == old(bytes)[x]
      ensures HasRoom(old(Model()), size) ==> blocks == old(blocks)
      ensures !HasRoom(old(Model()), size) ==> AllZero(bytes, area, NewPoolSize(size))
    {
      hide HeapOk, ListOk, FirstPool, Fresh, WithPool, NewPoolSize, NewChain, AllZero;
      HeapState(mainPool, pools, blocks, chains, order);
      p := mainPool;
      ghost var k := 0;
      while pools[p].freeSize < size + HEADER
        invariant Valid() && pools == old(pools) && chains == old(chains) && order == old(order) && bytes == old(bytes)
        invariant blocks == old(blocks)
        invariant k < |order| && p == order[k] && FirstPool(pools, order, size, 0) == FirstPool(pools, order, size, k)
        decreases |order| - k
      {
        HeapState(mainPool, pools, blocks, chains, order);
        FirstPoolStep(pools, order, size, k);
        assert pools[order[k]].next == if k + 1 < |order| then order[k + 1] else 0;
        assert k + 1 < |order| ==> order[k + 1] in pools;
        if pools[p].next == 0 {
          NewPoolFits(size);
          AppendPool(p, NewPoolSize(size), at, area);
          p := at;
          return;
        }
        p := pools[p].next;
        k := k + 1;
      }
      FirstPoolStep(pools, order, size, k);
    }

    /** The block search of MmAlloc; 0 where the kernel asserts. */
    method FindBlock(p: nat, size: nat, ghost c: seq<Blk>) returns (b: nat)
      requires p in pools && pools[p].area > 0 && Tiles(c, pools[p].area, pools[p].totalSize) && Linked(blocks, c, p)
      ensures var i := FirstBlock(c, size, 0);
        if i < |c| then b == c[i].at && b != 0 else b == 0
    {
      hide Tiles, Linked;
      ghost var i := 0;
      TilesSome(c, pools[p].area, pools[p].totalSize);
      b := pools[p].area;
      NextHeader(blocks, c, p, pools[p].area, pools[p].totalSize, 0);
      while blocks[b].used || blocks[b].size < size
        invariant i < |c| && b == c[i].at && b in blocks && b != 0
        invariant blocks[b].used == c[i].used && blocks[b].size == c[i].size
        invariant blocks[b].next == if i + 1 < |c| then c[i + 1].at else 0
        invariant FirstBlock(c, size, 0) == FirstBlock(c, size, i)
        decreases |c| - i
      {
        NextHeader(blocks, c, p, pools[p].area, pools[p].totalSize, i);
        if blocks[b].next == 0 { return 0; }
        b := blocks[b].next;
        i := i + 1;
        NextHeader(blocks, c, p, pools[p].area, pools[p].totalSize, i);
      }
    }

    /** MmAllocSplitBlock. */
    method SplitBlock(b: nat, totalSize: nat, desired: nat)
      requires b in blocks
      modifies this`blocks
      ensures blocks == SplitHeaders(old(blocks), b, totalSize, desired)
    {
      var n := b + HEADER + desired;
      blocks := blocks[n := Header(blocks[b].pool, blocks[b].next, b, Wrap(totalSize - HEADER - desired), false)];
      blocks := blocks[b := blocks[b].(next := n, size := desired, used := false)];
    }

    /** The rest of MmAlloc: splits the block if it is larger, marks it used and charges the pool. */
    method Take(p: nat, b: nat, size: nat)
      requires p in pools && b in blocks
      modifies this`blocks, this`pools
      ensures blocks == TakenHeaders(old(blocks), b, p, size)
      ensures pools == Charged(old(pools), p, size, old(blocks)[b].size > size)
    {
      if blocks[b].size > size {
        SplitBlock(b, blocks[b].size, size);
        pools := pools[p := pools[p].(freeSize := Wrap(pools[p].freeSize - HEADER))];
      }
      blocks := blocks[b := blocks[b].(pool := p, used := true)];
      pools := pools[p := pools[p].(freeSize := Wrap(pools[p].freeSize - size))];
    }

    /**
      MmAlloc: the first pool that seems to have room, or a new one, and in it the first free block that is
      large enough; 0 where the kernel asserts because there is none. at and area are what the page allocator
      returns if a new pool is made.
     */
    method Alloc(bytesWanted: nat, at: nat, area: nat) returns (ptr: nat)
      requires Valid() && bytesWanted > 0 && NewPoolSize(Rounded(bytesWanted)) < WORD
      requires Fresh(pools, at, area, NewPoolSize(Rounded(bytesWanted)))
      modifies this
      ensures var size := Rounded(bytesWanted);
        && StateOk(old(Model())) && Model() == AfterAlloc(old(Model()), size, at, area) &&
            ptr == PointerFor(old(Model()), size, at, area)
        && (KeepsLinks(old(Model()), size, at, area) <==> Valid())
      ensures forall x :: x in old(bytes) && !(area <= x < area + NewPoolSize(Rounded(bytesWanted))) ==>
          x in bytes && bytes[x] == old(bytes)[x]
      ensures var s, size := old(Model()), Rounded(bytesWanted);
        var q, i := PoolFor(s, size, at), BlockFor(s, size, at, area);
        HasRoom(s, size) && i < |s.chains[q]| ==>
          s.chains[q][i].at in old(blocks) && blocks == TakenHeaders(old(blocks), s.chains[q][i].at, q, size)
      ensures !HasRoom(old(Model()), Rounded(bytesWanted)) ==>
          AllZero(bytes, area, NewPoolSize(Rounded(bytesWanted)))
    {
      hide AllZero, HeapOk, ListOk, PoolOk, Tiles, Fresh, Recorded, Linked, TakenChain, TakenHeaders, FirstPool,
        Wrap, Charged, AfterAlloc, PointerFor, BlockFor, PoolFor, WithRoom, HasRoom, KeepsLinks, FirstBlock,
        NewPoolSize;
      var size := bytesWanted;
      if size % 0x10 != 0 {
        size := size - size % 0x10;
        size := size + 0x10;
      }
      HeapState(mainPool, pools, blocks, chains, order);
      AllocParts(Model(), size, at, area);
      var q := FindPool(size, at, area);
      ghost var pools1, chains1, blocks1 := pools, chains, blocks;
      PoolInHeap(pools, blocks, chains, q);
      ghost var c := chains[q];
      ghost var i := FirstBlock(c, size, 0);
      var b := FindBlock(q, size, c);
      if b == 0 { return 0; }
      BlockHeader(blocks, c, q, pools[q].area, pools[q].totalSize, i);
      Take(q, b, size);
      ptr := b + HEADER;
      chains := chains[q := TakenChain(c, i, size)];
      if Fits(c[i], size) && (c[i].size == size || i + 1 == |c|) {
        BlockTaken(mainPool, pools1, blocks1, chains1, order, q, i, size);
      } else {
        BlockSpoils(pools1, blocks1, chains1, q, i, size);
      }
    }
  }

  /** The assignments of a merge, one after the other. */
  lemma MergedInSteps(blocks: Headers, a: nat, blocks': Headers)
    requires a in blocks && blocks[a].next in blocks && blocks[a].next != a
    requires var next := blocks[blocks[a].next];
      var sized := blocks[a := blocks[a].(size := blocks[a].size + next.size + HEADER)];
      var merged := sized[a := sized[a].(next := next.next)];
      && (next.next == 0 || (next.next in blocks && next.next != blocks[a].next))
      && blocks' == if next.next != 0 then merged[next.next := merged[next.next].(prev := a)] else merged
    ensures blocks' - {blocks[a].next} == MergedHeaders(blocks, a) && a in MergedHeaders(blocks, a)
  {}

  function Charged(pools: Pools, p: nat, size: nat, split: bool): Pools
    requires p in pools
  {
    var f := if split then Wrap(pools[p].freeSize - HEADER) else pools[p].freeSize;
    pools[p := pools[p].(freeSize := Wrap(f - size))]
  }

  function Cleared(area: nat, size: nat): map<nat, nat> {
    map x: nat | area <= x < area + size && InRun(x, area, size) :: 0
  }

  predicate InRun(x: nat, area: nat, size: nat) { area <= x < area + size }

  /** The n bytes from an address on are in memory and read 0. */
  ghost predicate AllZero(bytes: map<nat, nat>, from: nat, n: nat) {
    forall x :: from <= x < from + n ==> x in bytes && bytes[x] == 0
  }

  lemma ClearedReads(bytes: map<nat, nat>, area: nat, size: nat)
    ensures AllZero(bytes + Cleared(area, size), area, size)
    ensures forall x :: x in bytes && !(area <= x < area + size) ==> (bytes + Cleared(area, size))[x] == bytes[x]
  {
    forall x | area <= x < area + size
      ensures x in bytes + Cleared(area, size) && (bytes + Cleared(area, size))[x] == 0
    {
      assert InRun(x, area, size);
    }
  }

  // ----- What an allocation does -----

  /** The heap as pools, chains and list order. */
  datatype State = State(pools: Pools, chains: Chains, order: seq<nat>)

  predicate StateOk(s: State) {
    |s.order| > 0 && forall i :: 0 <= i < |s.order| ==> s.order[i] in s.pools && s.order[i] in s.chains
  }

  /** Some pool in the list seems to have room. */
  predicate HasRoom(s: State, size: nat)
    requires StateOk(s)
  {
    FirstPool(s.pools, s.order, size, 0) < |s.order|
  }

  /** The heap with its first pool: ten pages, one free block. */
  function FirstState(at: nat, area: nat): State {
    State(map[at := Pool(0, area, PAGE * 10 - HEADER, PAGE * 10)], map[at := NewChain(area, PAGE * 10)], [at])
  }

  /** A new pool is appended when no pool in the list seems to have room. */
  function WithRoom(s: State, size: nat, at: nat, area: nat): (s': State)
    requires StateOk(s) && size > 0
  {
    if FirstPool(s.pools, s.order, size, 0) < |s.order| then s
    else State(WithPool(s.pools, s.order, at, area, NewPoolSize(size)),
        s.chains[at := NewChain(area, NewPoolSize(size))], s.order + [at])
  }

  function PoolFor(s: State, size: nat, at: nat): nat
    requires StateOk(s)
  {
    var k := FirstPool(s.pools, s.order, size, 0);
    if k < |s.order| then s.order[k] else at
  }

  /** The block taken, or the length of the chain. */
  function BlockFor(s: State, size: nat, at: nat, area: nat): nat
    requires StateOk(s) && size > 0
  {
    FirstBlock(WithRoom(s, size, at, area).chains[PoolFor(s, size, at)], size, 0)
  }

  function PointerFor(s: State, size: nat, at: nat, area: nat): nat
    requires StateOk(s) && size > 0
  {
    var c, i := WithRoom(s, size, at, area).chains[PoolFor(s, size, at)], BlockFor(s, size, at, area);
    if i < |c| then c[i].at + HEADER else 0
  }

  function AfterAlloc(s: State, size: nat, at: nat, area: nat): State
    requires StateOk(s) && size > 0
  {
    var s1, q, i := WithRoom(s, size, at, area), PoolFor(s, size, at), BlockFor(s, size, at, area);
    var c := s1.chains[q];
    if i < |c| then State(Charged(s1.pools, q, size, c[i].size > size), s1.chains[q := TakenChain(c, i, size)],
        s1.order) else s1
  }

  /** The block taken fits exactly, or leaves room for a header and is its pool's last. */
  predicate KeepsLinks(s: State, size: nat, at: nat, area: nat)
    requires StateOk(s) && size > 0
  {
    var c, i := WithRoom(s, size, at, area).chains[PoolFor(s, size, at)], BlockFor(s, size, at, area);
    i == |c| || (Fits(c[i], size) && (c[i].size == size || i + 1 == |c|))
  }

  /** What the functions above say of the pool and the block found. */
  lemma AllocParts(s: State, size: nat, at: nat, area: nat)
    requires StateOk(s) && size > 0
    ensures HasRoom(s, size) ==> WithRoom(s, size, at, area) == s
    ensures var s1, q := WithRoom(s, size, at, area), PoolFor(s, size, at);
      && q in s1.pools && q in s1.chains
      && var c := s1.chains[q];
         var i := FirstBlock(c, size, 0);
         && BlockFor(s, size, at, area) == i
         && (KeepsLinks(s, size, at, area) <==> i == |c| || (Fits(c[i], size) && (c[i].size == size || i + 1 == |c|)))
         && PointerFor(s, size, at, area) == (if i < |c| then c[i].at + HEADER else 0)
         && AfterAlloc(s, size, at, area) ==
              if i < |c| then State(Charged(s1.pools, q, size, c[i].size > size),
                  s1.chains[q := TakenChain(c, i, size)], s1.order)
              else s1
  {
    hide FirstPool, FirstBlock, TakenChain, NewPoolSize, NewChain;
  }

  lemma BlockTaken(mainPool: nat, pools: Pools, blocks: Headers, chains: Chains, order: seq<nat>, q: nat, i: nat,
      size: nat)
    requires ListOk(mainPool, pools, order) && q in pools && q in chains && HeapOk(pools, blocks, chains) &&
        i < |chains[q]|
    requires chains[q][i].at in blocks && chains[q][i].size >= size
    requires Fits(chains[q][i], size) && (chains[q][i].size == size || i + 1 == |chains[q]|)
    ensures var c := chains[q];
      var pools', blocks' := Charged(pools, q, size, c[i].size > size), TakenHeaders(blocks, c[i].at, q, size);
      ListOk(mainPool, pools', order) && HeapOk(pools', blocks', chains[q := TakenChain(c, i, size)])
  {
    PoolInHeap(pools, blocks, chains, q);
    var c := chains[q];
    InPool(c, pools[q].area, pools[q].totalSize, i);
    hide Tiles, HeapOk, ListOk, TakenChain, TakenHeaders, Recorded, SameOutside;
    var pools' := Charged(pools, q, size, c[i].size > size);
    TakenTiles(c, pools[q].area, pools[q].totalSize, i, size);
    TakenLinks(blocks, c, q, pools[q].area, pools[q].totalSize, i, size);
    PoolChanged(pools, blocks, chains, TakenHeaders(blocks, c[i].at, q, size), q, TakenChain(c, i, size),
        pools'[q].freeSize);
    ListKept(mainPool, pools, order, q, pools'[q].freeSize);
  }

  /** After any other split the headers no longer tell the blocks, or the blocks do not tile their pool. */
  lemma BlockSpoils(pools: Pools, blocks: Headers, chains: Chains, q: nat, i: nat, size: nat)
    requires q in pools && q in chains && HeapOk(pools, blocks, chains) && i < |chains[q]|
    requires chains[q][i].at in blocks && chains[q][i].size >= size
    requires !(Fits(chains[q][i], size) && (chains[q][i].size == size || i + 1 == |chains[q]|))
    ensures var c := chains[q];
      !HeapOk(Charged(pools, q, size, c[i].size > size), TakenHeaders(blocks, c[i].at, q, size),
        chains[q := TakenChain(c, i, size)])
  {
    PoolInHeap(pools, blocks, chains, q);
    var c := chains[q];
    InPool(c, pools[q].area, pools[q].totalSize, i);
    hide Tiles, HeapOk, TakenChain, TakenHeaders, Recorded;
    TakenTiles(c, pools[q].area, pools[q].totalSize, i, size);
    if Fits(c[i], size) { TakenLinks(blocks, c, q, pools[q].area, pools[q].totalSize, i, size); }
    var pools' := Charged(pools, q, size, c[i].size > size);
    if HeapOk(pools', TakenHeaders(blocks, c[i].at, q, size), chains[q := TakenChain(c, i, size)]) {
      PoolInHeap(pools', TakenHeaders(blocks, c[i].at, q, size), chains[q := TakenChain(c, i, size)], q);
    }
  }

  lemma PoolInHeap(pools: Pools, blocks: Headers, chains: Chains, q: nat)
    requires HeapOk(pools, blocks, chains) && q in pools
    ensures q in chains && pools[q].area > 0 && pools[q].totalSize < WORD
    ensures Tiles(chains[q], pools[q].area, pools[q].totalSize)
    ensures Recorded(blocks, chains[q], q, pools[q].area, pools[q].totalSize)
  {
    assert PoolOk(pools, blocks, chains, q);
  }

  lemma BlockHeader(blocks: Headers, c: seq<Blk>, p: nat, area: nat, total: nat, i: nat)
    requires Tiles(c, area, total) && area > 0 && i < |c| && Recorded(blocks, c, p, area, total)
    ensures c[i].at in blocks && blocks[c[i].at].size == c[i].size && c[i].at != 0
  {
    hide Tiles;
    NextHeader(blocks, c, p, area, total, i);
  }

  lemma TilesSome(c: seq<Blk>, area: nat, total: nat)
    requires Tiles(c, area, total)
    ensures |c| > 0 && c[0].at == area
  {}

  lemma HeapState(mainPool: nat, pools: Pools, blocks: Headers, chains: Chains, order: seq<nat>)
    requires ListOk(mainPool, pools, order) && HeapOk(pools, blocks, chains)
    ensures StateOk(State(pools, chains, order)) && mainPool == order[0]
    ensures forall i :: 0 <= i < |order| ==> order[i] in pools
    ensures forall i :: 0 <= i < |order| ==> pools[order[i]].next == if i + 1 < |order| then order[i + 1] else 0
    ensures 0 !in pools
  {}


  function Credited(pools: Pools, p: nat, credit: int): Pools
    requires p in pools
  {
    pools[p := pools[p].(freeSize := pools[p].freeSize + credit)]
  }

  /** What MmFree of the block at a, block i of pool q, does. */
  ghost predicate FreedFrom(pools: Pools, chains: Chains, bytes: map<nat, nat>, pools': Pools, chains': Chains,
      bytes': map<nat, nat>, a: nat, q: nat, i: nat) {
    && q in pools && q in chains && i < |chains[q]| && chains[q][i].at == a
    && Tiles(chains[q], pools[q].area, pools[q].totalSize)
    && chains' == chains[q := Freed(chains[q], pools[q].area, pools[q].totalSize, i)]
    && pools' == Credited(pools, q, Credit(chains[q], i))
    && PayloadsKept(chains, q, i, bytes, bytes')
  }

  lemma PoolFacts(pools: Pools, blocks: Headers, chains: Chains, q: nat)
    requires PoolOk(pools, blocks, chains, q)
    ensures q in pools && q in chains && pools[q].area > 0 && Tiles(chains[q], pools[q].area, pools[q].totalSize)
    ensures Recorded(blocks, chains[q], q, pools[q].area, pools[q].totalSize)
  {}

  lemma MoreFree(c: seq<Blk>, i: nat)
    requires i + 1 < |c| && !c[i + 1].used
    ensures RunEnd(c, i) == RunEnd(c, i + 1)
  {}

  lemma MoreCredit(c: seq<Blk>, i: nat, hi: nat)
    requires i < hi < |c|
    ensures ForwardCredit(c, i, hi + 1) == ForwardCredit(c, i, hi) + End(c[hi - 1]) - c[i].at
  {}

  lemma NoCredit(c: seq<Blk>, i: nat)
    requires i < |c|
    ensures ForwardCredit(c, i, i + 1) == 0
  {}

  lemma RunStops(c: seq<Blk>, i: nat)
    requires i < |c| && (i + 1 < |c| ==> c[i + 1].used)
    ensures RunEnd(c, i) == i + 1
  {}

  lemma LessFree(c: seq<Blk>, i: nat)
    requires 0 < i < |c| && !c[i - 1].used
    ensures RunStart(c, i) == RunStart(c, i - 1)
  {}

  lemma RunStarts(c: seq<Blk>, i: nat)
    requires i < |c| && (i > 0 ==> c[i - 1].used)
    ensures RunStart(c, i) == i
  {}

  lemma NextDiffers(c: seq<Blk>, p: nat, area: nat, total: nat, blocks0: Headers, bytes0: map<nat, nat>,
      blocks: Headers, bytes: map<nat, nat>, lo: nat, hi: nat, used: bool)
    requires Tiles(c, area, total) && area > 0 && lo < hi < |c| && c[lo].at + HEADER <= End(c[hi - 1])
    requires JoinedSoFar(c, p, area, total, blocks0, bytes0, blocks, bytes, lo, hi, used)
    ensures c[hi].at in blocks && c[hi].at != c[lo].at && blocks[c[hi].at].next != c[hi].at
  {
    var s := Spliced(c, lo, hi, used);
    SplicedTiles(c, area, total, lo, hi, used);
    SplicedBlock(c, lo, hi, used, lo + 1);
    hide Spliced, Tiles;
    NextHeader(blocks, s, p, area, total, lo + 1);
    DifferentPlaces(c, area, total, lo, hi);
    if lo + 2 < |s| { DifferentPlaces(s, area, total, lo + 1, lo + 2); }
  }

  lemma PrevDiffers(c: seq<Blk>, p: nat, area: nat, total: nat, blocks0: Headers, bytes0: map<nat, nat>,
      blocks: Headers, bytes: map<nat, nat>, lo: nat, hi: nat, used: bool)
    requires Tiles(c, area, total) && area > 0 && 0 < lo < hi <= |c| && c[lo].at + HEADER <= End(c[hi - 1])
    requires JoinedSoFar(c, p, area, total, blocks0, bytes0, blocks, bytes, lo, hi, used)
    ensures c[lo].at in blocks && c[lo].at != c[lo - 1].at && blocks[c[lo].at].next != c[lo].at
  {
    var s := Spliced(c, lo, hi, used);
    SplicedTiles(c, area, total, lo, hi, used);
    SplicedBlock(c, lo, hi, used, lo);
    hide Spliced, Tiles;
    NextHeader(blocks, s, p, area, total, lo);
    DifferentPlaces(c, area, total, lo, lo - 1);
    if lo + 1 < |s| { DifferentPlaces(s, area, total, lo, lo + 1); }
  }

  lemma FreeDone(mainPool: nat, pools: Pools, blocks: Headers, bytes: map<nat, nat>, chains: Chains,
      order: seq<nat>, q: nat, i: nat, blocks': Headers, bytes': map<nat, nat>)
    requires ListOk(mainPool, pools, order) && q in pools && q in chains && HeapOk(pools, blocks, chains) &&
        i < |chains[q]|
    requires Tiles(chains[q], pools[q].area, pools[q].totalSize) && pools[q].area > 0
    requires var c, area, total := chains[q], pools[q].area, pools[q].totalSize;
      && Tiles(Freed(c, area, total, i), area, total) && Recorded(blocks', Freed(c, area, total, i), q, area, total)
      && SameOutside(blocks, blocks', area, total) && OthersKept(c, i, area, total, bytes, bytes')
    ensures var pools', chains' := Credited(pools, q, Credit(chains[q], i)),
        chains[q := Freed(chains[q], pools[q].area, pools[q].totalSize, i)];
      && ListOk(mainPool, pools', order) && HeapOk(pools', blocks', chains')
      && PayloadsKept(chains, q, i, bytes, bytes')
  {
    hide Tiles, HeapOk, Recorded, ListOk, Freed, Credit, SameOutside, OthersKept;
    var c := chains[q];
    OtherPayloads(pools, blocks, chains, q, i, bytes, bytes');
    PoolChanged(pools, blocks, chains, blocks', q, Freed(c, pools[q].area, pools[q].totalSize, i),
        pools[q].freeSize + Credit(c, i));
    ListKept(mainPool, pools, order, q, pools[q].freeSize + Credit(c, i));
  }

  lemma FreedBlocks(c: seq<Blk>, p: nat, area: nat, total: nat, blocks: Headers, bytes: map<nat, nat>,
      blocks1: Headers, bytes': map<nat, nat>, i: nat, used: bool)
    requires Tiles(c, area, total) && area > 0 && i < |c|
    requires var lo, hi := RunStart(c, i), RunEnd(c, i);
      && c[lo].at + HEADER <= End(c[hi - 1]) && c[lo].at in blocks1
      && JoinedSoFar(c, p, area, total, blocks, bytes, blocks1, bytes', lo, hi, used)
    ensures var lo, hi := RunStart(c, i), RunEnd(c, i);
      var blocks' := MarkFree(blocks1, c[lo].at);
      && Tiles(Freed(c, area, total, i), area, total)
      && Recorded(blocks', Freed(c, area, total, i), p, area, total) && SameOutside(blocks, blocks', area, total)
      && bytes' == ClearedBytes(c, bytes, lo, hi)
  {
    var lo, hi := RunStart(c, i), RunEnd(c, i);
    hide Tiles, RunStart, RunEnd, Recorded;
    MarkedFree(c, p, area, total, blocks1, lo, hi, used);
    SameTwice(blocks, blocks1, MarkFree(blocks1, c[lo].at), area, total);
  }

  lemma SameTwice(blocks: Headers, blocks1: Headers, blocks2: Headers, area: nat, total: nat)
    requires SameOutside(blocks, blocks1, area, total) && SameOutside(blocks1, blocks2, area, total)
    ensures SameOutside(blocks, blocks2, area, total)
  {}

  lemma ListKept(mainPool: nat, pools: Pools, order: seq<nat>, q: nat, free: int)
    requires ListOk(mainPool, pools, order) && q in pools
    ensures ListOk(mainPool, pools[q := pools[q].(freeSize := free)], order)
  {}

  // ----- Last-in-first-out runs -----

  /** Only the pool's last block is free, FreeSize is its size, and everything is 16-aligned. */
  ghost predicate LifoPool(s: State, p: nat) {
    && p in s.pools && p in s.chains && Lifo(s.chains[p]) && Aligned(s.chains[p])
    && s.pools[p].freeSize == s.chains[p][|s.chains[p]| - 1].size
  }

  ghost predicate LifoHeap(s: State) {
    forall p :: p in s.pools ==> LifoPool(s, p)
  }

  /**
    In such a heap the pool found has room in its last block, so the search never fails, nothing underflows,
    the split leaves room for a header, and the heap stays such a heap.
   */
  lemma LifoAllocated(mainPool: nat, blocks: Headers, s: State, size: nat, at: nat, area: nat)
    requires ListOk(mainPool, s.pools, s.order) && HeapOk(s.pools, blocks, s.chains) && LifoHeap(s)
    requires size > 0 && size % ALIGNMENT == 0 && NewPoolSize(size) < WORD &&
        Fresh(s.pools, at, area, NewPoolSize(size))
    ensures StateOk(s) && KeepsLinks(s, size, at, area) && LifoHeap(AfterAlloc(s, size, at, area))
    ensures PointerFor(s, size, at, area) != 0 && PointerFor(s, size, at, area) % ALIGNMENT == 0
    ensures BlockFor(s, size, at, area) + 1 == |WithRoom(s, size, at, area).chains[PoolFor(s, size, at)]|
  {
    hide HeapOk, ListOk, Tiles, FirstPool, FirstBlock, Fresh, NewPoolSize, TakenChain, Charged;
    HeapState(mainPool, s.pools, blocks, s.chains, s.order);
    AllocParts(s, size, at, area);
    var total, base := RoomInPool(blocks, s, size, at, area);
    LifoParts(WithRoom(s, size, at, area), PoolFor(s, size, at), base, total, size);
  }

  lemma LifoParts(s: State, q: nat, base: nat, total: nat, size: nat)
    requires LifoHeap(s) && q in s.pools && q in s.chains && total < WORD && Tiles(s.chains[q], base, total)
    requires s.pools[q].freeSize >= size + HEADER && size % ALIGNMENT == 0
    ensures var c, i := s.chains[q], FirstBlock(s.chains[q], size, 0);
      && i + 1 == |c| && Fits(c[i], size) && (c[i].at + HEADER) % ALIGNMENT == 0
      && LifoHeap(State(Charged(s.pools, q, size, c[i].size > size), s.chains[q := TakenChain(c, i, size)], s.order))
  {
    hide Tiles, FirstBlock, TakenChain;
    var c := s.chains[q];
    assert LifoPool(s, q);
    OnlyLastFits(c, size);
    LifoTaken(c, base, total, size);
    LastAt(c, base, total);
    ChargeExact(s.pools, q, size, total);
    var s' := State(Charged(s.pools, q, size, true), s.chains[q := TakenChain(c, |c| - 1, size)], s.order);
    forall p | p in s'.pools ensures LifoPool(s', p) {
      assert LifoPool(s, p);
    }
  }

  /** The pool found, new or old, is tiled, and its last block has room for the size and a header. */
  lemma RoomInPool(blocks: Headers, s: State, size: nat, at: nat, area: nat) returns (total: nat, base: nat)
    requires StateOk(s) && HeapOk(s.pools, blocks, s.chains) && LifoHeap(s)
    requires size > 0 && NewPoolSize(size) < WORD && Fresh(s.pools, at, area, NewPoolSize(size))
    ensures var s1, q := WithRoom(s, size, at, area), PoolFor(s, size, at);
      && LifoHeap(s1) && q in s1.pools && q in s1.chains && total < WORD
      && Tiles(s1.chains[q], base, total) && s1.pools[q].freeSize >= size + HEADER
  {
    hide Tiles, FirstPool;
    var k := FirstPool(s.pools, s.order, size, 0);
    if k < |s.order| {
      var q := s.order[k];
      assert PoolOk(s.pools, blocks, s.chains, q);
      return s.pools[q].totalSize, s.pools[q].area;
    }
    NewPoolFits(size);
    NewChainTiles(area, NewPoolSize(size));
    LifoWithPool(s, size, at, area);
    return NewPoolSize(size), area;
  }

  lemma LifoWithPool(s: State, size: nat, at: nat, area: nat)
    requires StateOk(s) && LifoHeap(s) && size > 0 && Fresh(s.pools, at, area, NewPoolSize(size))
    requires FirstPool(s.pools, s.order, size, 0) == |s.order|
    ensures LifoHeap(WithRoom(s, size, at, area))
  {
    var s1 := WithRoom(s, size, at, area);
    NewPoolFits(size);
    NewPoolAligned(size);
    AppendedPool(s.pools, s.order, at, area, NewPoolSize(size));
    hide NewPoolSize, Lifo, Aligned, FirstPool;
    NewChainLifo(area, NewPoolSize(size));
    forall p | p in s1.pools ensures LifoPool(s1, p) {
      if p != at {
        assert LifoPool(s, p);
        assert s1.pools[p].freeSize == s.pools[p].freeSize;
      }
    }
  }

  lemma NewChainLifo(area: nat, size: nat)
    requires size >= HEADER && area % PAGE == 0 && size % ALIGNMENT == 0
    ensures Lifo(NewChain(area, size)) && Aligned(NewChain(area, size))
  {
    PageAligned(area);
    HeaderAligned(size);
  }

  lemma PageAligned(a: nat)
    requires a % PAGE == 0
    ensures a % ALIGNMENT == 0
  {
    assert a == 16 * (256 * (a / 4096));
  }

  lemma HeaderAligned(size: nat)
    requires size >= HEADER && size % ALIGNMENT == 0
    ensures (size - HEADER) % ALIGNMENT == 0
  {}

  lemma NewChainTiles(area: nat, size: nat)
    requires size >= HEADER
    ensures Tiles(NewChain(area, size), area, size)
  {}

  lemma NewPoolAligned(size: nat)
    ensures NewPoolSize(size) % ALIGNMENT == 0
  {}

  lemma OnlyLastFits(c: seq<Blk>, size: nat)
    requires Lifo(c) && c[|c| - 1].size >= size
    ensures FirstBlock(c, size, 0) == |c| - 1
  {}

  lemma LastAt(c: seq<Blk>, area: nat, total: nat)
    requires Tiles(c, area, total) && Aligned(c)
    ensures c[|c| - 1].at % ALIGNMENT == 0 && c[|c| - 1].size < total
  {
    InPool(c, area, total, |c| - 1);
  }

  lemma ChargeExact(pools: Pools, q: nat, size: nat, total: nat)
    requires q in pools && size + HEADER <= pools[q].freeSize < total < WORD
    ensures Charged(pools, q, size, true) == pools[q := pools[q].(freeSize := pools[q].freeSize - HEADER - size)]
  {}

  /** Freeing a pool's most recent allocation keeps such a heap. */
  lemma LifoReleased(s: State, bytes: map<nat, nat>, s': State, bytes': map<nat, nat>, a: nat, q: nat, i: nat)
    requires LifoHeap(s) && FreedFrom(s.pools, s.chains, bytes, s'.pools, s'.chains, bytes', a, q, i)
    requires i + 2 == |s.chains[q]|
    ensures LifoHeap(s')
  {
    hide Tiles, Credit, Freed, PayloadsKept;
    var c := s.chains[q];
    assert LifoPool(s, q);
    LifoFreed(c, s.pools[q].area, s.pools[q].totalSize);
    forall p | p in s'.pools ensures LifoPool(s', p) {
      assert LifoPool(s, p);
    }
  }

  /** An allocation writes only the area of a new pool, which holds no payload. */
  lemma AllocKeepsPayloads(mainPool: nat, order: seq<nat>, pools: Pools, blocks: Headers, chains: Chains,
      at: nat, area: nat, size: nat, bytes: map<nat, nat>, bytes': map<nat, nat>)
    requires ListOk(mainPool, pools, order) && HeapOk(pools, blocks, chains) && Fresh(pools, at, area, size)
    requires forall x :: x in bytes && !(area <= x < area + size) ==> x in bytes' && bytes'[x] == bytes[x]
    ensures PayloadsKept(chains, 0, 0, bytes, bytes') && 0 !in chains
  {
    hide Tiles, Recorded;
    forall r: nat, j: nat, x: nat | OtherUsed(chains, 0, 0, r, j) && InPayload(chains[r][j], x) && x in bytes
      ensures x in bytes' && bytes'[x] == bytes[x]
    {
      assert PoolOk(pools, blocks, chains, r);
      InPool(chains[r], pools[r].area, pools[r].totalSize, j);
      assert AreasApart(pools[r], Pool(0, area, 0, size));
    }
  }

  lemma NullIsNoPool(mainPool: nat, pools: Pools, blocks: Headers, chains: Chains, order: seq<nat>,
      bytes: map<nat, nat>)
    requires ListOk(mainPool, pools, order) && HeapOk(pools, blocks, chains)
    ensures 0 !in chains && PayloadsKept(chains, 0, 0, bytes, bytes)
  {}

  lemma FreedWhere(pools: Pools, chains: Chains, bytes: map<nat, nat>, pools': Pools, chains': Chains,
      bytes': map<nat, nat>, a: nat, q: nat, i: nat)
    requires FreedFrom(pools, chains, bytes, pools', chains', bytes', a, q, i)
    ensures q in pools && q in chains && i < |chains[q]| && chains[q][i].at == a &&
        PayloadsKept(chains, q, i, bytes, bytes')
  {}

  /** Two live payloads never overlap, and payloads are 16-aligned; the pool's bytes are all accounted for. */
  lemma LivePayloads(mainPool: nat, blocks: Headers, s: State, p: nat, i: nat, r: nat, j: nat)
    requires ListOk(mainPool, s.pools, s.order) && HeapOk(s.pools, blocks, s.chains) && LifoHeap(s)
    requires p in s.pools && p in s.chains && i < |s.chains[p]| && r in s.pools && r in s.chains && j < |s.chains[r]|
    ensures (s.chains[p][i].at + HEADER) % ALIGNMENT == 0
    ensures (p, i) != (r, j) ==> End(s.chains[p][i]) <= s.chains[r][j].at || End(s.chains[r][j]) <= s.chains[p][i].at
    ensures Bytes(s.chains[p]) == s.pools[p].totalSize && FreeBytes(s.chains[p]) == s.pools[p].freeSize
  {
    hide Tiles, Bytes, FreeBytes, Recorded, HeapOk, ListOk, LifoHeap, LifoPool;
    PoolInHeap(s.pools, blocks, s.chains, p);
    PoolInHeap(s.pools, blocks, s.chains, r);
    LifoFacts(s, p, i);
    TilesAddUp(s.chains[p], s.pools[p].area, s.pools[p].totalSize);
    if p == r {
      if i != j { Apart(s.chains[p], s.pools[p].area, s.pools[p].totalSize, i, j); }
    } else {
      InPool(s.chains[p], s.pools[p].area, s.pools[p].totalSize, i);
      InPool(s.chains[r], s.pools[r].area, s.pools[r].totalSize, j);
      PoolsApart(s.pools, blocks, s.chains, p, r);
    }
  }

  lemma LifoFacts(s: State, p: nat, i: nat)
    requires LifoHeap(s) && p in s.pools && p in s.chains && i < |s.chains[p]|
    ensures (s.chains[p][i].at + HEADER) % ALIGNMENT == 0 && FreeBytes(s.chains[p]) == s.pools[p].freeSize
  {
    hide FreeBytes;
    assert LifoPool(s, p);
    LifoBytes(s.chains[p]);
  }

  lemma PoolsApart(pools: Pools, blocks: Headers, chains: Chains, p: nat, r: nat)
    requires HeapOk(pools, blocks, chains) && p in pools && r in pools && p != r
    ensures AreasApart(pools[p], pools[r])
  {}
}
