/**
  Runs of the kernel heap, kernel/src/mm/alloc.c: what every request and release of a run does, what its pointers
  are, and that payloads in use together are apart and keep their contents. Runs may release blocks in any order, as
  long as no request splits a block in a way that spoils the headers; if only most recent allocations are released
  none does.
 */
module HeapRuns {
  import opened HeapBlocks
  import opened Heap

  /** A request, a release, or a caller's store of a byte. */
  datatype HeapOp = Request(size: nat, at: nat, area: nat) | Release(ptr: nat) | Store(a: nat, v: nat)

  // ----- What a run does -----

  /** A positive size, and memory for a new pool if one is needed. */
  predicate CanServe(pools: Pools, op: HeapOp)
    requires op.Request?
  {
    op.size > 0 && NewPoolSize(Rounded(op.size)) < WORD && Fresh(pools, op.at, op.area, NewPoolSize(Rounded(op.size)))
  }

  /** The first block in use, from index i on, whose payload is at ptr. */
  function HeldIndex(c: seq<Blk>, ptr: nat, i: nat): (k: nat)
    requires i <= |c|
    ensures i <= k <= |c| && (k < |c| ==> c[k].used && c[k].at + HEADER == ptr)
    ensures forall j :: i <= j < k ==> !(c[j].used && c[j].at + HEADER == ptr)
    decreases |c| - i
  {
    if i == |c| || (c[i].used && c[i].at + HEADER == ptr) then i else HeldIndex(c, ptr, i + 1)
  }

  /** The first pool in the list, from index k on, with such a block. */
  function HolderPool(s: State, ptr: nat, k: nat): (f: nat)
    requires StateOk(s) && k <= |s.order|
    ensures k <= f <= |s.order|
    ensures f < |s.order| ==> HeldIndex(s.chains[s.order[f]], ptr, 0) < |s.chains[s.order[f]]|
    ensures forall i :: k <= i < f ==>
        HeldIndex(s.chains[s.order[i]], ptr, 0) == |s.chains[s.order[i]]|
    decreases |s.order| - k
  {
    if k == |s.order| || HeldIndex(s.chains[s.order[k]], ptr, 0) < |s.chains[s.order[k]]| then k
    else HolderPool(s, ptr, k + 1)
  }

  /** The heap once block i of pool q is freed. */
  ghost function Released(s: State, q: nat, i: nat): State
    requires q in s.pools && q in s.chains && i < |s.chains[q]|
  {
    var c := s.chains[q];
    if Tiles(c, s.pools[q].area, s.pools[q].totalSize) then
      State(Credited(s.pools, q, Credit(c, i)), s.chains[q := Freed(c, s.pools[q].area, s.pools[q].totalSize, i)],
        s.order)
    else s
  }

  /** One operation: a release of anything but a block in use is not made, and a store changes no block. */
  ghost function Applied(s: State, op: HeapOp): (s': State)
    requires StateOk(s)
    ensures StateOk(s')
  {
    match op
    case Request(size, at, area) => if CanServe(s.pools, op) then AfterAlloc(s, Rounded(size), at, area) else s
    case Release(ptr) =>
      var k := HolderPool(s, ptr, 0);
      if k == |s.order| then s else Released(s, s.order[k], HeldIndex(s.chains[s.order[k]], ptr, 0))
    case Store(a, v) => s
  }

  /** What the caller of an operation gets. */
  function Returned(s: State, op: HeapOp): nat
    requires StateOk(s)
  {
    if op.Request? && CanServe(s.pools, op) then PointerFor(s, Rounded(op.size), op.at, op.area) else 0
  }

  /** The request does not split a block in a way that spoils the headers. */
  predicate Keeps(s: State, op: HeapOp)
    requires StateOk(s)
  {
    op.Request? && CanServe(s.pools, op) ==> KeepsLinks(s, Rounded(op.size), op.at, op.area)
  }

  ghost function ApplyAll(s: State, ops: seq<HeapOp>): (s': State)
    requires StateOk(s)
    ensures StateOk(s')
  {
    if ops == [] then s else Applied(ApplyAll(s, ops[..|ops| - 1]), ops[|ops| - 1])
  }

  lemma ApplyStep(s: State, ops: seq<HeapOp>, k: nat)
    requires StateOk(s) && k < |ops|
    ensures ApplyAll(s, ops[..k + 1]) == Applied(ApplyAll(s, ops[..k]), ops[k])
  {
    hide Applied;
    assert ops[..k + 1][..k] == ops[..k];
  }

  lemma ApplyNone(s: State, ops: seq<HeapOp>)
    requires StateOk(s)
    ensures ApplyAll(s, ops[..0]) == s
  {}

  // ----- Well-formed states -----

  /** Well formed, with every block 16-aligned. */
  ghost predicate Good(s: State) {
    && StateOk(s) && ListOk(s.order[0], s.pools, s.order) && AllAligned(s.chains)
    && exists blocks :: HeapOk(s.pools, blocks, s.chains)
  }

  ghost predicate AllAligned(chains: Chains) {
    forall p :: p in chains ==> Aligned(chains[p])
  }

  lemma GoodIsOk(s: State)
    requires Good(s)
    ensures StateOk(s) && s.chains.Keys == s.pools.Keys
  {
    var blocks :| HeapOk(s.pools, blocks, s.chains);
    HeapState(s.order[0], s.pools, blocks, s.chains, s.order);
  }

  lemma AlignedTaken(c: seq<Blk>, i: nat, size: nat)
    requires Aligned(c) && i < |c| && size % ALIGNMENT == 0 && Fits(c[i], size) && c[i].size < WORD
    ensures Aligned(TakenChain(c, i, size))
  {
    hide TakenChain;
    var s := TakenChain(c, i, size);
    TakenBlock(c, i, size, 0);
    forall j | 0 <= j < |s| ensures s[j].at % ALIGNMENT == 0 &&
        s[j].size % ALIGNMENT == 0 { TakenBlock(c, i, size, j); }
  }

  lemma AlignedFreed(c: seq<Blk>, area: nat, total: nat, i: nat)
    requires Aligned(c) && Tiles(c, area, total) && i < |c|
    ensures Aligned(Freed(c, area, total, i))
  {
    var lo, hi := RunStart(c, i), RunEnd(c, i);
    CanJoin(c, area, total, lo, hi);
    hide Tiles, Spliced, RunStart, RunEnd;
    var s := Spliced(c, lo, hi, false);
    forall j | 0 <= j < |s| ensures s[j].at % ALIGNMENT == 0 && s[j].size % ALIGNMENT == 0 {
      SplicedBlock(c, lo, hi, false, j);
    }
  }

  // ----- Blocks in use -----

  predicate UsedIn(s: State, b: Blk) {
    b.used && exists q :: q in s.chains && b in s.chains[q]
  }

  ghost predicate InUse(s: State, a: nat) {
    exists b :: UsedIn(s, b) && InPayload(b, a)
  }

  /** The block that a served request gets. */
  function BlockOfPointer(ptr: nat, op: HeapOp): Blk
    requires op.Request? && ptr >= HEADER
  {
    Blk(ptr - HEADER, Rounded(op.size), true)
  }

  /** The pool found, old or new, is tiled and aligned, and its area is where only its own blocks are. */
  lemma FoundPool(s: State, op: HeapOp, blocks: Headers) returns (base: nat, total: nat)
    requires Good(s) && HeapOk(s.pools, blocks, s.chains) && op.Request? && CanServe(s.pools, op)
    ensures var size := Rounded(op.size);
      var s1, q := WithRoom(s, size, op.at, op.area), PoolFor(s, size, op.at);
      && q in s1.chains && Tiles(s1.chains[q], base, total) && total < WORD && Aligned(s1.chains[q])
      && s1.chains == (if q in s.chains then s.chains else s.chains[q := s1.chains[q]])
      && (forall r :: r in s.chains && r != q ==>
            r in s.pools && Tiles(s.chains[r], s.pools[r].area, s.pools[r].totalSize)
            && AreasApart(s.pools[r], Pool(0, base, 0, total)))
  {
    hide ListOk, Tiles, Recorded, Aligned, FirstPool, NewPoolSize, NewChain, WithPool;
    GoodIsOk(s);
    var size := Rounded(op.size);
    forall r | r in s.chains ensures Tiles(s.chains[r], s.pools[r].area, s.pools[r].totalSize) {
      PoolInHeap(s.pools, blocks, s.chains, r);
    }
    if HasRoom(s, size) {
      var q := PoolFor(s, size, op.at);
      PoolInHeap(s.pools, blocks, s.chains, q);
      forall r | r in s.chains && r != q ensures AreasApart(s.pools[r], s.pools[q]) {
        PoolsApart(s.pools, blocks, s.chains, r, q);
      }
      return s.pools[q].area, s.pools[q].totalSize;
    }
    NewPoolFits(size);
    NewPoolAligned(size);
    NewChainTiles(op.area, NewPoolSize(size));
    NewChainLifo(op.area, NewPoolSize(size));
    return op.area, NewPoolSize(size);
  }

  /** What a request with memory finds: a free block that is large enough, or none. */
  lemma ServedChain(s: State, op: HeapOp)
    requires Good(s) && StateOk(s) && op.Request? && CanServe(s.pools, op) && Keeps(s, op)
    ensures var size := Rounded(op.size);
      var s1, q := WithRoom(s, size, op.at, op.area), PoolFor(s, size, op.at);
      && size > 0 && q in s1.chains && Aligned(s1.chains[q])
      && var c, i := s1.chains[q], BlockFor(s, size, op.at, op.area);
         && i <= |c| && (i == |c| <==> Returned(s, op) == 0)
         && Applied(s, op).chains == (if i < |c| then s1.chains[q := TakenChain(c, i, size)] else s1.chains)
         && (i < |c| ==> !c[i].used && Fits(c[i], size) && c[i].size < WORD && Returned(s, op) == c[i].at + HEADER)
  {
    hide HeapOk, ListOk, AfterAlloc, PointerFor, WithRoom, PoolFor, BlockFor, KeepsLinks, TakenChain, Fresh,
      NewPoolSize, Aligned, AllAligned, Tiles;
    var blocks :| HeapOk(s.pools, blocks, s.chains);
    var size := Rounded(op.size);
    AllocParts(s, size, op.at, op.area);
    var base, total := FoundPool(s, op, blocks);
    var s1, q := WithRoom(s, size, op.at, op.area), PoolFor(s, size, op.at);
    var i := FirstBlock(s1.chains[q], size, 0);
    if i < |s1.chains[q]| { InPool(s1.chains[q], base, total, i); }
  }

  /** The block served is in use afterwards, and was not in use before. */
  lemma ServedBlock(s: State, op: HeapOp)
    requires Good(s) && StateOk(s) && op.Request? && CanServe(s.pools, op) && Keeps(s, op) && Returned(s, op) != 0
    ensures Returned(s, op) >= HEADER && Returned(s, op) % ALIGNMENT == 0
    ensures UsedIn(Applied(s, op), BlockOfPointer(Returned(s, op), op))
    ensures forall b :: UsedIn(s, b) ==> b.at + HEADER != Returned(s, op)
  {
    hide Good, Applied, Returned, WithRoom, PoolFor, BlockFor, Keeps, CanServe, TakenChain, UsedIn;
    ServedChain(s, op);
    var size := Rounded(op.size);
    var s1, q, i := WithRoom(s, size, op.at, op.area), PoolFor(s, size, op.at), BlockFor(s, size, op.at, op.area);
    TakenBlock(s1.chains[q], i, size, i);
    InChain(Applied(s, op), q, i);
    forall b | UsedIn(s, b) ensures b.at + HEADER != Returned(s, op) {
      NotTheFree(s, op, b);
    }
  }

  lemma InChain(s: State, q: nat, i: nat)
    requires q in s.chains && i < |s.chains[q]| && s.chains[q][i].used
    ensures UsedIn(s, s.chains[q][i])
  {}

  /** A block in use is not where the free block found is. */
  lemma NotTheFree(s: State, op: HeapOp, b: Blk)
    requires Good(s) && StateOk(s) && op.Request? && CanServe(s.pools, op) && Keeps(s, op) && Returned(s, op) != 0
    requires UsedIn(s, b)
    ensures b.at + HEADER != Returned(s, op)
  {
    hide ListOk, Tiles, AllAligned, Aligned, Applied, Returned, WithRoom, PoolFor, BlockFor, Keeps, CanServe, HeapOk;
    ServedChain(s, op);
    var blocks :| HeapOk(s.pools, blocks, s.chains);
    var r :| r in s.chains && b in s.chains[r];
    var j :| 0 <= j < |s.chains[r]| && s.chains[r][j] == b;
    var size := Rounded(op.size);
    var s1, q, i := WithRoom(s, size, op.at, op.area), PoolFor(s, size, op.at), BlockFor(s, size, op.at, op.area);
    var base, total := FoundPool(s, op, blocks);
    if r == q {
      DifferentPlaces(s.chains[q], base, total, j, i);
    } else {
      InPool(s.chains[r], s.pools[r].area, s.pools[r].totalSize, j);
      InPool(s1.chains[q], base, total, i);
    }
  }

  /** A block in use stays in use until its pointer is released. */
  lemma StaysUsed(s: State, op: HeapOp, b: Blk)
    requires Good(s) && StateOk(s) && Keeps(s, op) && UsedIn(s, b) && op != Release(b.at + HEADER)
    ensures UsedIn(Applied(s, op), b)
  {
    hide Good, Applied, Keeps;
    var r :| r in s.chains && b in s.chains[r];
    var j :| 0 <= j < |s.chains[r]| && s.chains[r][j] == b;
    match op
    case Request(size, at, area) =>
      if CanServe(s.pools, op) { StaysInRequest(s, op, r, j); } else { NotServed(s, op); }
    case Release(ptr) => StaysInRelease(s, ptr, r, j);
    case Store(a, v) => NotServed(s, op);
  }

  lemma NotServed(s: State, op: HeapOp)
    requires StateOk(s) && !op.Release? && (op.Request? ==> !CanServe(s.pools, op))
    ensures Applied(s, op) == s
  {}

  lemma StaysInRequest(s: State, op: HeapOp, r: nat, j: nat)
    requires Good(s) && StateOk(s) && op.Request? && CanServe(s.pools, op) && Keeps(s, op)
    requires r in s.chains && j < |s.chains[r]| && s.chains[r][j].used
    ensures UsedIn(Applied(s, op), s.chains[r][j])
  {
    hide ListOk, Tiles, AllAligned, Aligned, Applied, Returned, WithRoom, PoolFor, BlockFor, Keeps, CanServe, HeapOk,
      TakenChain, UsedIn;
    ServedChain(s, op);
    var blocks :| HeapOk(s.pools, blocks, s.chains);
    var base, total := FoundPool(s, op, blocks);
    var size := Rounded(op.size);
    var s1, q, i := WithRoom(s, size, op.at, op.area), PoolFor(s, size, op.at), BlockFor(s, size, op.at, op.area);
    var s', j' := Applied(s, op), j;
    if r == q && i < |s1.chains[q]| {
      if j > i && s1.chains[q][i].size > size { j' := j + 1; }
      TakenBlock(s1.chains[q], i, size, j');
    }
    InChain(s', r, j');
  }

  lemma StaysInRelease(s: State, ptr: nat, r: nat, j: nat)
    requires Good(s) && StateOk(s) && r in s.chains && j < |s.chains[r]| && s.chains[r][j].used
    requires s.chains[r][j].at + HEADER != ptr
    ensures UsedIn(Applied(s, Release(ptr)), s.chains[r][j])
  {
    hide ListOk, HolderPool, HeldIndex, HeapOk, Tiles, AllAligned, Freed, Credit;
    GoodIsOk(s);
    var k, b := HolderPool(s, ptr, 0), s.chains[r][j];
    if k < |s.order| && s.order[k] == r && Tiles(s.chains[r], s.pools[r].area, s.pools[r].totalSize) {
      FreedKeepsUsed(s.chains[r], s.pools[r].area, s.pools[r].totalSize, HeldIndex(s.chains[r], ptr, 0), b);
    }
    assert b in Applied(s, Release(ptr)).chains[r];
  }

  /** Blocks in use together lie apart. */
  lemma UsedApart(s: State, a: Blk, b: Blk)
    requires Good(s) && UsedIn(s, a) && UsedIn(s, b) && a.at != b.at
    ensures End(a) <= b.at || End(b) <= a.at
  {
    hide ListOk, AllAligned, HeapOk, Tiles, Recorded;
    GoodIsOk(s);
    var blocks :| HeapOk(s.pools, blocks, s.chains);
    var p :| p in s.chains && a in s.chains[p];
    var i :| 0 <= i < |s.chains[p]| && s.chains[p][i] == a;
    var r :| r in s.chains && b in s.chains[r];
    var j :| 0 <= j < |s.chains[r]| && s.chains[r][j] == b;
    PoolInHeap(s.pools, blocks, s.chains, p);
    PoolInHeap(s.pools, blocks, s.chains, r);
    if p == r {
      Apart(s.chains[p], s.pools[p].area, s.pools[p].totalSize, i, j);
    } else {
      InPool(s.chains[p], s.pools[p].area, s.pools[p].totalSize, i);
      InPool(s.chains[r], s.pools[r].area, s.pools[r].totalSize, j);
      PoolsApart(s.pools, blocks, s.chains, p, r);
    }
  }

  // ----- One operation -----

  ghost predicate ByteKept(x: nat, bytes: map<nat, nat>, bytes': map<nat, nat>) {
    x in bytes ==> x in bytes' && bytes'[x] == bytes[x]
  }

  /** The operation releases the block, or stores to the address. */
  predicate Touches(op: HeapOp, b: Blk, x: nat) {
    op == Release(b.at + HEADER) || (op.Store? && op.a == x)
  }

  /** Payloads in use are kept, but the one released and the byte stored. */
  ghost predicate StepKeeps(s: State, op: HeapOp, bytes: map<nat, nat>, bytes': map<nat, nat>) {
    && (op.Store? ==> bytes' == bytes[op.a := op.v])
    && forall b, x: nat :: UsedIn(s, b) && InPayload(b, x) && !Touches(op, b, x) ==> ByteKept(x, bytes, bytes')
  }

  lemma KeptIsKept(s: State, op: HeapOp, q: nat, i: nat, bytes: map<nat, nat>, bytes': map<nat, nat>)
    requires PayloadsKept(s.chains, q, i, bytes, bytes') && !op.Store?
    requires q in s.chains ==> op.Release? && i < |s.chains[q]| && s.chains[q][i].at + HEADER == op.ptr
    ensures StepKeeps(s, op, bytes, bytes')
  {
    forall b, x: nat | UsedIn(s, b) && InPayload(b, x) && !Touches(op, b, x) ensures ByteKept(x, bytes, bytes') {
      var r :| r in s.chains && b in s.chains[r];
      var j :| 0 <= j < |s.chains[r]| && s.chains[r][j] == b;
      assert OtherUsed(s.chains, q, i, r, j);
    }
  }

  lemma StoreKeeps(s: State, a: nat, v: nat, bytes: map<nat, nat>)
    ensures StepKeeps(s, Store(a, v), bytes, bytes[a := v])
  {
    hide UsedIn, InPayload;
  }

  /** The headers tell which pointers are of blocks in use. */
  predicate HeldPointer(blocks: Headers, ptr: nat) {
    ptr >= HEADER && ptr - HEADER in blocks && blocks[ptr - HEADER].used
  }

  lemma HeldFound(s: State, blocks: Headers, ptr: nat)
    requires |s.order| > 0 && ListOk(s.order[0], s.pools, s.order) && HeapOk(s.pools, blocks, s.chains) && StateOk(s)
    ensures HeldPointer(blocks, ptr) <==> HolderPool(s, ptr, 0) < |s.order|
  {
    hide HeapOk, ListOk, Tiles, HolderPool, HeldIndex, Recorded;
    var k := HolderPool(s, ptr, 0);
    if k < |s.order| {
      var q := s.order[k];
      KeysOfHeap(s.pools, blocks, s.chains);
      var i := HeldIndex(s.chains[q], ptr, 0);
      PoolInHeap(s.pools, blocks, s.chains, q);
      UsedHeader(blocks, s.chains[q], q, s.pools[q].area, s.pools[q].totalSize, i);
    }
    if HeldPointer(blocks, ptr) {
      var i := BlockOf(s.pools, blocks, s.chains, ptr - HEADER);
      InOrderOfList(s, blocks[ptr - HEADER].pool);
    }
  }

  lemma KeysOfHeap(pools: Pools, blocks: Headers, chains: Chains)
    requires HeapOk(pools, blocks, chains)
    ensures chains.Keys == pools.Keys
  {}

  lemma UsedHeader(blocks: Headers, c: seq<Blk>, q: nat, area: nat, total: nat, i: nat)
    requires Tiles(c, area, total) && area > 0 && Recorded(blocks, c, q, area, total) && i < |c|
    ensures c[i].at in blocks && blocks[c[i].at].used == c[i].used
  {
    hide Tiles;
    NextHeader(blocks, c, q, area, total, i);
  }

  lemma InOrderOfList(s: State, q: nat)
    requires |s.order| > 0 && ListOk(s.order[0], s.pools, s.order) && q in s.pools
    ensures q in s.order
  {}

  /** Only one block is at an address. */
  lemma OneHolder(s: State, blocks: Headers, ptr: nat, q: nat, i: nat)
    requires HeapOk(s.pools, blocks, s.chains) && StateOk(s) && s.order[0] in s.pools
    requires q in s.pools && q in s.chains && i < |s.chains[q]| && s.chains[q][i].at + HEADER == ptr
    requires HolderPool(s, ptr, 0) < |s.order|
    ensures var k := HolderPool(s, ptr, 0); s.order[k] == q && HeldIndex(s.chains[q], ptr, 0) == i
  {
    hide HeapOk, Tiles, HolderPool, HeldIndex, Recorded;
    var r := s.order[HolderPool(s, ptr, 0)];
    var j := HeldIndex(s.chains[r], ptr, 0);
    KeysOfHeap(s.pools, blocks, s.chains);
    PoolInHeap(s.pools, blocks, s.chains, q);
    PoolInHeap(s.pools, blocks, s.chains, r);
    InPool(s.chains[q], s.pools[q].area, s.pools[q].totalSize, i);
    InPool(s.chains[r], s.pools[r].area, s.pools[r].totalSize, j);
    if q == r {
      DifferentPlaces(s.chains[q], s.pools[q].area, s.pools[q].totalSize, i, j);
    } else {
      PoolsApart(s.pools, blocks, s.chains, q, r);
    }
  }

  /** Freeing a block in use leads to the state of the run. */
  lemma ReleasedHere(s: State, blocks: Headers, bytes: map<nat, nat>, s': State, bytes': map<nat, nat>, ptr: nat,
      q: nat, i: nat)
    requires Good(s) && StateOk(s) && HeapOk(s.pools, blocks, s.chains) && HeldPointer(blocks, ptr)
    requires FreedFrom(s.pools, s.chains, bytes, s'.pools, s'.chains, bytes', ptr - HEADER, q, i) &&
        s'.order == s.order
    ensures s' == Applied(s, Release(ptr)) && AllAligned(s'.chains)
  {
    hide HeapOk, ListOk, Tiles, Credit, Freed, PayloadsKept, HolderPool, HeldIndex, Aligned;
    HeldFound(s, blocks, ptr);
    OneHolder(s, blocks, ptr, q, i);
    AlignedFreed(s.chains[q], s.pools[q].area, s.pools[q].totalSize, i);
  }

  /** A request leaves every block aligned. */
  lemma RequestAligned(s: State, op: HeapOp)
    requires Good(s) && StateOk(s) && op.Request? && CanServe(s.pools, op) && Keeps(s, op)
    ensures AllAligned(Applied(s, op).chains)
  {
    hide ListOk, Tiles, Aligned, Applied, Returned, WithRoom, PoolFor, BlockFor, Keeps, CanServe, HeapOk, TakenChain;
    ServedChain(s, op);
    var blocks :| HeapOk(s.pools, blocks, s.chains);
    var base, total := FoundPool(s, op, blocks);
    var size := Rounded(op.size);
    var s1, q, i := WithRoom(s, size, op.at, op.area), PoolFor(s, size, op.at), BlockFor(s, size, op.at, op.area);
    if i < |s1.chains[q]| { AlignedTaken(s1.chains[q], i, size); }
  }

  /**
    One operation of a run: a request that does not spoil the headers, a release, which is only made of a block in
    use, or a store to a payload in use. The new state is the one Applied says, and payloads in use keep their
    contents.
   */
  method Step(heap: Heap, op: HeapOp) returns (ptr: nat)
    requires heap.Valid() && Good(heap.Model()) && Keeps(heap.Model(), op)
    requires op.Store? ==> InUse(heap.Model(), op.a)
    modifies heap
    ensures StateOk(old(heap.Model()))
    ensures heap.Valid() && Good(heap.Model()) && heap.Model() == Applied(old(heap.Model()), op)
    ensures ptr == Returned(old(heap.Model()), op)
    ensures StepKeeps(old(heap.Model()), op, old(heap.bytes), heap.bytes)
  {
    hide HeapOk, ListOk, AllAligned, Fresh, KeepsLinks, AfterAlloc, PointerFor, FreedFrom, PayloadsKept, StepKeeps,
      NewPoolSize, HolderPool, HeldIndex, Released, UsedIn;
    ghost var s, blocks, bytes := heap.Model(), heap.blocks, heap.bytes;
    GoodIsOk(s);
    HeapState(heap.mainPool, s.pools, blocks, s.chains, s.order);
    NullIsNoPool(heap.mainPool, s.pools, blocks, s.chains, s.order, bytes);
    if !op.Store? { KeptIsKept(s, op, 0, 0, bytes, bytes); }
    HeldFound(s, blocks, if op.Release? then op.ptr else 0);
    ptr := 0;
    match op
    case Request(size, at, area) =>
      if CanServe(heap.pools, op) {
        RequestAligned(s, op);
        ptr := heap.Alloc(size, at, area);
        AllocKeepsPayloads(s.order[0], s.order, s.pools, blocks, s.chains, at, area, NewPoolSize(Rounded(size)), bytes,
          heap.bytes);
        KeptIsKept(s, op, 0, 0, bytes, heap.bytes);
        ListHead(heap);
      }
    case Release(p) =>
      if HeldPointer(heap.blocks, p) {
        var ok, q, i := heap.Free(p);
        FreedWhere(s.pools, s.chains, bytes, heap.pools, heap.chains, heap.bytes, p - HEADER, q, i);
        ReleasedHere(s, blocks, bytes, heap.Model(), heap.bytes, p, q, i);
        KeptIsKept(s, op, q, i, bytes, heap.bytes);
        ListHead(heap);
      }
    case Store(a, v) =>
      StoreKeeps(s, a, v, bytes);
      heap.bytes := heap.bytes[a := v];
  }

  lemma ListHead(heap: Heap)
    requires heap.Valid() && AllAligned(heap.chains)
    ensures Good(heap.Model())
  {
    hide HeapOk, AllAligned;
    HeapState(heap.mainPool, heap.pools, heap.blocks, heap.chains, heap.order);
  }

  // ----- Runs that only release the most recent allocation -----

  /** The block released, if any, is the one before its pool's last. */
  predicate TopRelease(s: State, ptr: nat)
    requires StateOk(s)
  {
    var k := HolderPool(s, ptr, 0);
    k < |s.order| ==> HeldIndex(s.chains[s.order[k]], ptr, 0) + 2 == |s.chains[s.order[k]]|
  }

  /** Where only last blocks are free, such operations keep it so, spoil no header, and find memory. */
  lemma LifoStep(s: State, op: HeapOp)
    requires Good(s) && StateOk(s) && LifoHeap(s) && (op.Release? ==> TopRelease(s, op.ptr))
    ensures Keeps(s, op) && LifoHeap(Applied(s, op))
    ensures op.Request? && CanServe(s.pools, op) ==> Returned(s, op) != 0
  {
    hide HeapOk, ListOk, LifoHeap, Fresh, NewPoolSize, AfterAlloc, PointerFor, KeepsLinks, HolderPool, HeldIndex,
      Released;
    var blocks :| HeapOk(s.pools, blocks, s.chains);
    match op
    case Request(size, at, area) =>
      if CanServe(s.pools, op) { LifoAllocated(s.order[0], blocks, s, Rounded(size), at, area); }
    case Release(ptr) =>
      var k := HolderPool(s, ptr, 0);
      if k < |s.order| { LifoPopped(s, s.order[k], HeldIndex(s.chains[s.order[k]], ptr, 0)); }
    case Store(a, v) =>
  }

  lemma LifoPopped(s: State, q: nat, i: nat)
    requires LifoHeap(s) && q in s.pools && q in s.chains && i + 2 == |s.chains[q]|
    ensures LifoHeap(Released(s, q, i))
  {
    hide LifoHeap, Tiles, Credit, Freed;
    if Tiles(s.chains[q], s.pools[q].area, s.pools[q].totalSize) {
      LifoReleased(s, map[], Released(s, q, i), map[], s.chains[q][i].at, q, i);
    }
  }

  // ----- Whole runs -----

  /** Every state of the run is well formed, and no request spoils the headers. */
  ghost predicate GoodRun(s: State, ops: seq<HeapOp>)
    requires StateOk(s)
  {
    RunKeeps(s, ops) && forall k :: 0 <= k <= |ops| ==> Good(ApplyAll(s, ops[..k]))
  }

  ghost predicate RunKeeps(s: State, ops: seq<HeapOp>)
    requires StateOk(s)
  {
    forall k :: 0 <= k < |ops| ==> Keeps(ApplyAll(s, ops[..k]), ops[k])
  }

  /** Only last blocks are free to begin with, and only most recent allocations are released. */
  ghost predicate LifoRun(s: State, ops: seq<HeapOp>)
    requires StateOk(s)
  {
    LifoHeap(s) && forall k :: 0 <= k < |ops| && ops[k].Release? ==> TopRelease(ApplyAll(s, ops[..k]), ops[k].ptr)
  }

  /** Callers store only to payloads in use. */
  ghost predicate StoresOwned(s: State, ops: seq<HeapOp>)
    requires StateOk(s)
  {
    forall k :: 0 <= k < |ops| && ops[k].Store? ==> InUse(ApplyAll(s, ops[..k]), ops[k].a)
  }

  /** Operation k is a request with memory for it. */
  ghost predicate Servable(s: State, ops: seq<HeapOp>, k: nat)
    requires StateOk(s)
  {
    k < |ops| && ops[k].Request? && CanServe(ApplyAll(s, ops[..k]).pools, ops[k])
  }

  /** It gets a pointer. */
  ghost predicate Served(s: State, ops: seq<HeapOp>, k: nat)
    requires StateOk(s)
  {
    Servable(s, ops, k) && Pointer(s, ops, k) != 0
  }

  ghost function Pointer(s: State, ops: seq<HeapOp>, k: nat): nat
    requires StateOk(s) && k < |ops|
  {
    Returned(ApplyAll(s, ops[..k]), ops[k])
  }

  predicate Held(ops: seq<HeapOp>, ptr: nat, from: nat, to: nat)
    requires to <= |ops|
  {
    forall i :: from <= i < to ==> ops[i] != Release(ptr)
  }

  /** The pointer of a served request is that of a block in use from then until its release. */
  lemma {:induction false} StillUsed(s: State, ops: seq<HeapOp>, k: nat, m: nat)
    requires StateOk(s) && GoodRun(s, ops) && Served(s, ops, k) && k < m <= |ops|
    requires Held(ops, Pointer(s, ops, k), k + 1, m)
    ensures Pointer(s, ops, k) >= HEADER && Pointer(s, ops, k) % ALIGNMENT == 0
    ensures UsedIn(ApplyAll(s, ops[..m]), BlockOfPointer(Pointer(s, ops, k), ops[k]))
    decreases m
  {
    hide Good, Applied, ApplyAll, Returned, UsedIn, CanServe, Keeps;
    ApplyStep(s, ops, m - 1);
    if m == k + 1 {
      ServedBlock(ApplyAll(s, ops[..k]), ops[k]);
    } else {
      StillUsed(s, ops, k, m - 1);
      StaysUsed(ApplyAll(s, ops[..m - 1]), ops[m - 1], BlockOfPointer(Pointer(s, ops, k), ops[k]));
    }
  }

  /** Two pointers in use together, the older one first: their blocks, headers and all, are apart. */
  ghost predicate PointersApart(s: State, ops: seq<HeapOp>, j: nat, k: nat)
    requires StateOk(s) && j < |ops| && k < |ops| && ops[j].Request? && ops[k].Request?
  {
    var p, r := Pointer(s, ops, j), Pointer(s, ops, k);
    p + Rounded(ops[j].size) + HEADER <= r || r + Rounded(ops[k].size) + HEADER <= p
  }

  lemma LiveTogether(s: State, ops: seq<HeapOp>, j: nat, k: nat)
    requires StateOk(s) && GoodRun(s, ops) && Served(s, ops, j) && Served(s, ops, k) && j < k
    requires Held(ops, Pointer(s, ops, j), j + 1, k)
    ensures PointersApart(s, ops, j, k)
  {
    hide Good, Applied, ApplyAll, Returned, UsedIn, CanServe, Keeps;
    StillUsed(s, ops, j, k);
    StillUsed(s, ops, j, k + 1);
    StillUsed(s, ops, k, k + 1);
    ServedBlock(ApplyAll(s, ops[..k]), ops[k]);
    UsedApart(ApplyAll(s, ops[..k + 1]), BlockOfPointer(Pointer(s, ops, j), ops[j]),
      BlockOfPointer(Pointer(s, ops, k), ops[k]));
  }

  /** The memory before each operation, and at the end. */
  ghost predicate Memory(s: State, ops: seq<HeapOp>, memory: seq<map<nat, nat>>)
    requires StateOk(s)
  {
    && |memory| == |ops| + 1
    && forall k :: 0 <= k < |ops| ==> StepKeeps(ApplyAll(s, ops[..k]), ops[k], memory[k], memory[k + 1])
  }

  predicate NotStored(ops: seq<HeapOp>, x: nat, from: nat, to: nat)
    requires to <= |ops|
  {
    forall i :: from <= i < to ==> !(ops[i].Store? && ops[i].a == x)
  }

  /** A byte of a payload only changes when its caller stores to it. */
  lemma {:induction false} ContentsKept(s: State, ops: seq<HeapOp>, memory: seq<map<nat, nat>>, k: nat, i: nat, j: nat,
      x: nat)
    requires StateOk(s) && GoodRun(s, ops) && Memory(s, ops, memory) && Served(s, ops, k) && k < i <= j <= |ops|
    requires Held(ops, Pointer(s, ops, k), k + 1, j) && NotStored(ops, x, i, j)
    requires Pointer(s, ops, k) <= x < Pointer(s, ops, k) + Rounded(ops[k].size)
    ensures ByteKept(x, memory[i], memory[j])
    decreases j
  {
    hide GoodRun, Applied, ApplyAll, Returned, UsedIn, CanServe;
    if i < j {
      ContentsKept(s, ops, memory, k, i, j - 1, x);
      StillUsed(s, ops, k, j - 1);
      var b := BlockOfPointer(Pointer(s, ops, k), ops[k]);
      assert InPayload(b, x) && !Touches(ops[j - 1], b, x);
      assert StepKeeps(ApplyAll(s, ops[..j - 1]), ops[j - 1], memory[j - 1], memory[j]);
    }
  }

  /** What a caller stores to memory it holds is what it reads, until it stores there again or releases it. */
  ghost predicate ReadsBack(s: State, ops: seq<HeapOp>, memory: seq<map<nat, nat>>)
    requires StateOk(s) && |memory| == |ops| + 1
  {
    forall k: nat, i: nat, j: nat | Served(s, ops, k) && k < i < j <= |ops| && ops[i].Store? &&
      Held(ops, Pointer(s, ops, k), k + 1, j) && NotStored(ops, ops[i].a, i + 1, j) &&
      Pointer(s, ops, k) <= ops[i].a < Pointer(s, ops, k) + Rounded(ops[k].size) ::
      ops[i].a in memory[j] && memory[j][ops[i].a] == ops[i].v
  }

  lemma StoredIsRead(s: State, ops: seq<HeapOp>, memory: seq<map<nat, nat>>)
    requires StateOk(s) && GoodRun(s, ops) && Memory(s, ops, memory)
    ensures ReadsBack(s, ops, memory)
  {
    hide GoodRun, ApplyAll, Pointer, UsedIn, CanServe;
    forall k: nat, i: nat, j: nat | Served(s, ops, k) && k < i < j <= |ops| && ops[i].Store? &&
      Held(ops, Pointer(s, ops, k), k + 1, j) && NotStored(ops, ops[i].a, i + 1, j) &&
      Pointer(s, ops, k) <= ops[i].a < Pointer(s, ops, k) + Rounded(ops[k].size)
      ensures ops[i].a in memory[j] && memory[j][ops[i].a] == ops[i].v
    {
      ContentsKept(s, ops, memory, k, i + 1, j, ops[i].a);
      assert StepKeeps(ApplyAll(s, ops[..i]), ops[i], memory[i], memory[i + 1]);
    }
  }

  /** Pointers are 16-aligned, and apart from all others in use. */
  ghost predicate Distinct(s: State, ops: seq<HeapOp>)
    requires StateOk(s)
  {
    && (forall k: nat | Served(s, ops, k) :: Pointer(s, ops, k) % ALIGNMENT == 0)
    && forall j: nat, k: nat | Served(s, ops, j) && Served(s, ops, k) && j < k &&
         Held(ops, Pointer(s, ops, j), j + 1, k) :: PointersApart(s, ops, j, k)
  }

  lemma AllDistinct(s: State, ops: seq<HeapOp>)
    requires StateOk(s) && GoodRun(s, ops)
    ensures Distinct(s, ops)
  {
    hide GoodRun, ApplyAll, Pointer, CanServe;
    forall k: nat | Served(s, ops, k)
      ensures k < |ops| && Pointer(s, ops, k) % ALIGNMENT == 0
    {
      StillUsed(s, ops, k, k + 1);
    }
    forall j: nat, k: nat | Served(s, ops, j) && Served(s, ops, k) && j < k && Held(ops, Pointer(s, ops, j), j + 1, k)
      ensures PointersApart(s, ops, j, k)
    {
      LiveTogether(s, ops, j, k);
    }
  }

  ghost predicate AllServed(s: State, ops: seq<HeapOp>)
    requires StateOk(s)
  {
    forall k: nat :: Servable(s, ops, k) ==> Pointer(s, ops, k) != 0
  }

  /**
    A run of requests, releases of any blocks, and stores, as long as no request spoils the headers: the heap goes
    through exactly the states of Applied, and the pointers and the memory are those of the run. If only most recent
    allocations are released no request ever does, and every request with memory for it is served.
   */
  method Run(heap: Heap, ops: seq<HeapOp>) returns (ptrs: seq<nat>, ghost memory: seq<map<nat, nat>>)
    requires heap.Valid() && Good(heap.Model()) && StoresOwned(heap.Model(), ops)
    requires RunKeeps(heap.Model(), ops) || LifoRun(heap.Model(), ops)
    modifies heap
    ensures heap.Valid() && GoodRun(old(heap.Model()), ops) && heap.Model() == ApplyAll(old(heap.Model()), ops)
    ensures |ptrs| == |ops| && forall k :: 0 <= k < |ops| ==> ptrs[k] == Pointer(old(heap.Model()), ops, k)
    ensures Distinct(old(heap.Model()), ops)
    ensures Memory(old(heap.Model()), ops, memory) && memory[0] == old(heap.bytes) && memory[|ops|] == heap.bytes
    ensures ReadsBack(old(heap.Model()), ops, memory)
    ensures LifoRun(old(heap.Model()), ops) ==> LifoHeap(heap.Model()) && AllServed(old(heap.Model()), ops)
  {
    hide Good, Applied, ApplyAll, Returned, StepKeeps, InUse, Distinct, ReadsBack, HeapOk, ListOk, Keeps, LifoHeap,
      TopRelease, CanServe;
    ghost var s := heap.Model();
    GoodIsOk(s);
    ptrs, memory := [], [heap.bytes];
    ApplyNone(s, ops);
    for k := 0 to |ops|
      invariant heap.Valid() && heap.Model() == ApplyAll(s, ops[..k])
      invariant forall i :: 0 <= i <= k ==> Good(ApplyAll(s, ops[..i]))
      invariant forall i :: 0 <= i < k ==> Keeps(ApplyAll(s, ops[..i]), ops[i])
      invariant LifoRun(s, ops) ==> LifoHeap(heap.Model())
      invariant LifoRun(s, ops) ==> forall i: nat :: i < k && Servable(s, ops, i) ==> Pointer(s, ops, i) != 0
      invariant |ptrs| == k && forall i :: 0 <= i < k ==> ptrs[i] == Pointer(s, ops, i)
      invariant |memory| == k + 1 && memory[0] == old(heap.bytes) && memory[k] == heap.bytes
      invariant forall i :: 0 <= i < k ==> StepKeeps(ApplyAll(s, ops[..i]), ops[i], memory[i], memory[i + 1])
    {
      ApplyStep(s, ops, k);
      if LifoRun(s, ops) { LifoStep(ApplyAll(s, ops[..k]), ops[k]); }
      var ptr := Step(heap, ops[k]);
      ptrs, memory := ptrs + [ptr], memory + [heap.bytes];
    }
    assert ops[..|ops|] == ops;
    AllDistinct(s, ops);
    StoredIsRead(s, ops, memory);
  }
}
