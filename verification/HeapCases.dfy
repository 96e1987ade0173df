/**
  Requests after which the kernel heap is no longer what its operations expect: kernel/src/mm/alloc.c driven to
  the inputs where a split does not leave room for a header, a split forgets a back link, and a free does not
  credit FreeSize.
 */
module HeapCases {
  import opened HeapBlocks
  import opened Heap

  const TOTAL := PAGE * 10

  /** The heap has only its first pool, with this FreeSize and these blocks. */
  ghost predicate OnePool(s: State, at: nat, area: nat, free: int, c: seq<Blk>) {
    s == State(map[at := Pool(0, area, free, TOTAL)], map[at := c], [at])
  }

  /** What the page allocator would return for another pool: nothing the first one has. */
  predicate Elsewhere(at: nat, area: nat, newAt: nat, newArea: nat) {
    newAt != 0 && newAt != at && newArea % PAGE == 0 && newArea >= area + TOTAL && area > 0
  }

  lemma InFirstPool(s: State, at: nat, area: nat, free: int, c: seq<Blk>, size: nat, newAt: nat, newArea: nat)
    requires OnePool(s, at, area, free, c) && Elsewhere(at, area, newAt, newArea)
    requires 0 < size && size + HEADER <= free < WORD && FirstBlock(c, size, 0) < |c|
    ensures StateOk(s) && HasRoom(s, size) && PoolFor(s, size, newAt) == at && WithRoom(s, size, newAt, newArea) == s
    ensures var i := FirstBlock(c, size, 0);
      && BlockFor(s, size, newAt, newArea) == i
      && OnePool(AfterAlloc(s, size, newAt, newArea), at, area, free - size - (if c[i].size > size then HEADER else 0),
          TakenChain(c, i, size))
      && (KeepsLinks(s, size, newAt, newArea) <==> Fits(c[i], size) && (c[i].size == size || i + 1 == |c|))
  {
    hide TakenChain, FirstBlock;
    FirstPoolStep(s.pools, s.order, size, 0);
  }

  /** A request for a multiple of 16 that the first pool can serve. */
  method AllocIn(heap: Heap, size: nat, at: nat, area: nat, newAt: nat, newArea: nat, ghost free: int,
      ghost c: seq<Blk>, ghost i: nat)
    returns (ptr: nat)
    requires heap.Valid() && OnePool(heap.Model(), at, area, free, c) && Elsewhere(at, area, newAt, newArea)
    requires 0 < size <= PAGE && size % ALIGNMENT == 0 && size + HEADER <= free < WORD
    requires i == FirstBlock(c, size, 0) < |c|
    modifies heap
    ensures OnePool(heap.Model(), at, area, free - size - (if c[i].size > size then HEADER else 0),
        TakenChain(c, i, size))
    ensures c[i].at in old(heap.blocks) && heap.blocks == TakenHeaders(old(heap.blocks), c[i].at, at, size)
    ensures ptr == c[i].at + HEADER
    ensures Fits(c[i], size) && (c[i].size == size || i + 1 == |c|) ==> heap.Valid()
  {
    hide HeapOk, ListOk, TakenChain, TakenHeaders, AfterAlloc, WithRoom, BlockFor, PoolFor, FirstBlock, KeepsLinks,
        HasRoom;
    InFirstPool(heap.Model(), at, area, free, c, size, newAt, newArea);
    assert Rounded(size) == size;
    assert Fresh(heap.pools, newAt, newArea, NewPoolSize(size));
    ptr := heap.Alloc(size, newAt, newArea);
  }

  /** Freeing block i of the first pool. */
  method FreeIn(heap: Heap, ptr: nat, at: nat, area: nat, ghost free: int, ghost c: seq<Blk>, ghost i: nat)
    requires heap.Valid() && OnePool(heap.Model(), at, area, free, c)
    requires i < |c| && ptr == c[i].at + HEADER
    modifies heap
    ensures heap.Valid() && Tiles(c, area, TOTAL)
    ensures OnePool(heap.Model(), at, area, free + Credit(c, i), Freed(c, area, TOTAL, i))
  {
    hide HeapOk, ListOk, Tiles, Freed, Credit;
    PoolInHeap(heap.pools, heap.blocks, heap.chains, at);
    BlockHeader(heap.blocks, c, at, area, TOTAL, i);
    var ok, q, j := heap.Free(ptr);
    DifferentPlaces(c, area, TOTAL, j, i);
  }

  // ----- Small chains -----

  lemma {:induction false} FirstIs(c: seq<Blk>, size: nat, k: nat, i: nat)
    requires k <= i < |c| && !c[i].used && c[i].size >= size
    requires forall j :: k <= j < i ==> c[j].used || c[j].size < size
    ensures FirstBlock(c, size, k) == i
    decreases i - k
  {
    if k < i { FirstIs(c, size, k + 1, i); }
  }

  /** A block with no free neighbour is only marked when it is freed, and FreeSize is told nothing. */
  lemma FreedAlone(c: seq<Blk>, area: nat, total: nat, i: nat)
    requires Tiles(c, area, total) && i < |c| && (i > 0 ==> c[i - 1].used) && (i + 1 < |c| ==> c[i + 1].used)
    ensures Freed(c, area, total, i) == c[..i] + [c[i].(used := false)] + c[i + 1..] && Credit(c, i) == 0
  {
    hide Tiles;
    CanJoin(c, area, total, i, i + 1);
  }

  function OneTaken(area: nat): seq<Blk> { [Blk(area, 64, true), Blk(area + 112, 40800, false)] }

  function TwoTaken(area: nat, second: nat): seq<Blk>
    requires second <= 256
  {
    [Blk(area, 64, true), Blk(area + 112, second, true), Blk(area + 160 + second, 40752 - second, false)]
  }

  function ThreeTaken(area: nat, used: bool): seq<Blk> {
    [Blk(area, 64, true), Blk(area + 112, 256, used), Blk(area + 416, 64, true), Blk(area + 528, 40384, false)]
  }

  lemma FirstTaken(area: nat)
    ensures FirstBlock(NewChain(area, TOTAL), 64, 0) == 0 && TakenChain(NewChain(area, TOTAL), 0, 64) == OneTaken(area)
    ensures Fits(NewChain(area, TOTAL)[0], 64) && NewChain(area, TOTAL)[0].size > 64
  {}

  lemma SecondTaken(area: nat, size: nat)
    requires 0 < size <= 256
    ensures FirstBlock(OneTaken(area), size, 0) == 1 && TakenChain(OneTaken(area), 1, size) == TwoTaken(area, size)
  {
    FirstIs(OneTaken(area), size, 0, 1);
  }

  lemma ThirdTaken(area: nat)
    ensures FirstBlock(TwoTaken(area, 256), 64, 0) == 2 &&
        TakenChain(TwoTaken(area, 256), 2, 64) == ThreeTaken(area, true)
  {
    FirstIs(TwoTaken(area, 256), 64, 0, 2);
  }

  // ----- FreeSize -----

  /**
    Two requests, then the first is freed: 64 bytes more are free, and FreeSize has not changed.
   */
  method FreesUncredited(at: nat, area: nat, newAt: nat, newArea: nat) returns (heap: Heap)
    requires at != 0 && area % PAGE == 0 && Elsewhere(at, area, newAt, newArea)
    ensures fresh(heap) && heap.Valid()
    ensures OnePool(heap.Model(), at, area, 40736, TwoTaken(area, 16)[0 := Blk(area, 64, false)])
    ensures at in heap.pools && at in heap.chains && FreeBytes(heap.chains[at]) == heap.pools[at].freeSize + 64
  {
    hide HeapOk, ListOk, Tiles, Freed, Credit, TakenChain, FirstBlock, FreeBytes;
    heap := new Heap(at, area);
    FirstTaken(area);
    var a := AllocIn(heap, 64, at, area, newAt, newArea, 40912, NewChain(area, TOTAL), 0);
    SecondTaken(area, 16);
    var b := AllocIn(heap, 16, at, area, newAt, newArea, 40800, OneTaken(area), 1);
    FreeIn(heap, a, at, area, 40736, TwoTaken(area, 16), 0);
    FreedAlone(TwoTaken(area, 16), area, TOTAL, 0);
    FreeOfThree(area);
  }

  lemma FreeOfThree(area: nat)
    ensures var c := TwoTaken(area, 16)[0 := Blk(area, 64, false)];
      FreeBytes(c) == 40800 && TwoTaken(area, 16)[..0] + [Blk(area, 64, false)] + TwoTaken(area, 16)[1..] == c
  {
    hide FreeBytes;
    var c := TwoTaken(area, 16)[0 := Blk(area, 64, false)];
    assert c == [c[0]] + [c[1]] + [c[2]];
    FreeBytesThree([c[0]], [c[1]], [c[2]]);
    FreeOne(c[0]);
    FreeOne(c[1]);
    FreeOne(c[2]);
  }

  // ----- Tiling -----

  /**
    After that, 48 bytes are taken from the 64: the rest has no room for a header, and the blocks no longer tile
    the pool.
   */
  method LosesTiling(at: nat, area: nat, newAt: nat, newArea: nat) returns (heap: Heap)
    requires at != 0 && area % PAGE == 0 && Elsewhere(at, area, newAt, newArea)
    ensures fresh(heap) && at in heap.chains && !Tiles(heap.chains[at], area, TOTAL) && !heap.Valid()
  {
    hide ListOk, Tiles, TakenChain, FirstBlock, Recorded;
    heap := FreesUncredited(at, area, newAt, newArea);
    ghost var c := TwoTaken(area, 16)[0 := Blk(area, 64, false)];
    FirstIs(c, 48, 0, 0);
    PoolInHeap(heap.pools, heap.blocks, heap.chains, at);
    TakenTiles(c, area, TOTAL, 0, 48);
    var b := AllocIn(heap, 48, at, area, newAt, newArea, 40736, c, 0);
    assert !PoolOk(heap.pools, heap.blocks, heap.chains, at);
  }

  // ----- Back links -----

  /** Three requests, and the second is freed. */
  method MiddleFreed(at: nat, area: nat, newAt: nat, newArea: nat) returns (heap: Heap)
    requires at != 0 && area % PAGE == 0 && Elsewhere(at, area, newAt, newArea)
    ensures fresh(heap) && heap.Valid() && OnePool(heap.Model(), at, area, 40384, ThreeTaken(area, false))
  {
    hide HeapOk, ListOk, Tiles, TakenChain, TakenHeaders, FirstBlock, Freed, Credit;
    heap := new Heap(at, area);
    FirstTaken(area);
    var a := AllocIn(heap, 64, at, area, newAt, newArea, 40912, NewChain(area, TOTAL), 0);
    SecondTaken(area, 256);
    var b := AllocIn(heap, 256, at, area, newAt, newArea, 40800, OneTaken(area), 1);
    ThirdTaken(area);
    var c := AllocIn(heap, 64, at, area, newAt, newArea, 40496, TwoTaken(area, 256), 2);
    FreeIn(heap, b, at, area, 40384, ThreeTaken(area, true), 1);
    FreedAlone(ThreeTaken(area, true), area, TOTAL, 1);
    assert ThreeTaken(area, true)[..1] + [Blk(area + 112, 256, false)] + ThreeTaken(area, true)[2..] ==
        ThreeTaken(area, false);
  }

  /**
    Then its block is split for a fourth request: the third block's back link still names the second block, not
    the one split off between them.
   */
  method LosesBackLink(at: nat, area: nat, newAt: nat, newArea: nat) returns (heap: Heap)
    requires at != 0 && area % PAGE == 0 && Elsewhere(at, area, newAt, newArea)
    ensures fresh(heap) && at in heap.chains && Tiles(heap.chains[at], area, TOTAL) && |heap.chains[at]| == 5
    ensures heap.chains[at][3] == Blk(area + 416, 64, true) && !HeaderAt(heap.blocks, heap.chains[at], 3, at)
    ensures !heap.Valid()
  {
    hide ListOk, Tiles, TakenChain, TakenHeaders, FirstBlock, HeaderAt;
    heap := MiddleFreed(at, area, newAt, newArea);
    ghost var chain := ThreeTaken(area, false);
    FirstIs(chain, 64, 0, 1);
    PoolInHeap(heap.pools, heap.blocks, heap.chains, at);
    TakenTiles(chain, area, TOTAL, 1, 64);
    TakenBlock(chain, 1, 64, 3);
    BlockHeader(heap.blocks, chain, at, area, TOTAL, 1);
    TakenHeader(heap.blocks, chain, at, area, TOTAL, 1, 64, 3);
    var d := AllocIn(heap, 64, at, area, newAt, newArea, 40384, chain, 1);
    assert !PoolOk(heap.pools, heap.blocks, heap.chains, at);
  }
}
