/**
  The memory manager as a machine: free stack, page-table memory and address spaces, changed in place by the
  operations of kernel/src/arch/x86/mmu.c and kernel/src/mm/vmm.c.
 */
module VirtMem {
  import opened Bits
  import opened PageTable
  import opened PhysPages
  import opened Regions
  import opened Ownership

  class Machine {
    const pmm: AddressStack
    const kernel: nat        // the frame of the kernel's top-level table
    var mem: Memory
    var spaces: Spaces
    ghost var owner: Owners

    /** Frames, free stack and trees are consistent. */
    ghost predicate Base()
      reads this, pmm, pmm.addressStack
    {
      && pmm.Valid()
      && FreeOk(pmm.Contents(), owner)
      && FramesOk(owner, pmm.addressStack.Length)
      && WellFormed(mem, owner, kernel)
      && SpacesOk(mem, owner, kernel, spaces)
    }

    /** The whole invariant: also, exactly the pages of the regions are translated. */
    ghost predicate Inv()
      reads this, pmm, pmm.addressStack
    {
      Base() && PagesOk(mem, owner, spaces, LivePages(spaces))
    }

    ghost function FreeCount(): nat
      requires pmm.Valid()
      reads this, pmm, pmm.addressStack
    {
      |pmm.Contents()|
    }

    /**
      The kernel's page map right after the stack is filled: three frames, an empty tree and an empty ring.
      storage is where the stack itself lives.
     */
    constructor (pmm: AddressStack, base: nat, limit: nat, ghost storage: set<nat>)
      requires pmm.Valid() && |pmm.Contents()| >= 3 && Distinct(pmm.Contents())
      requires forall f :: f in pmm.Contents() ==> IsFrame(f) && f !in storage
      requires forall f :: f in storage ==> IsFrame(f)
      requires |pmm.Contents()| + |storage| <= pmm.addressStack.Length
      requires base % PAGE_SIZE == 0 && KERNEL_FLOOR <= base && limit <= ADDRESS_LIMIT
      modifies pmm
      ensures this.pmm == pmm && Inv()
      ensures spaces.Keys == {kernel} && spaces[kernel].base == base && spaces[kernel].limit == limit
      ensures spaces[kernel].regions == [] && FreeCount() == old(|pmm.Contents()|) - 3
      ensures owner.Keys == storage + Elements(old(pmm.Contents()))
      ensures forall f :: f in owner && owner[f].Storage? <==> f in storage
    {
      hide WellFormed, SpacesOk, PagesOk, FreeOk, FramesOk, LivePages, FirstOwners, ZeroTable;
      ghost var free := pmm.Contents();
      var mapFrame := pmm.Pop();
      var top := pmm.Pop();
      var headFrame := pmm.Pop();
      assert free == pmm.Contents() + [headFrame, top, mapFrame];
      this.pmm := pmm;
      kernel := top;
      mem := map[top := ZeroTable()];
      spaces := map[top := Space(mapFrame, headFrame, base, limit, [])];
      owner := FirstOwners(free, storage, mapFrame, top, headFrame);
      new;
      FirstOwnersOk(free, storage, mapFrame, top, headFrame, pmm.Contents(), pmm.addressStack.Length);
      FirstInvariant(mem, owner, top, spaces, mapFrame, headFrame, base, limit);
    }

    // ----- Frames -----

    /** Pops a frame for the given use. */
    method TakeFrame(ghost use: Owner) returns (f: nat)
      requires pmm.Valid() && FreeOk(pmm.Contents(), owner) && FramesOk(owner, pmm.addressStack.Length)
      requires FreeCount() > 0 && !use.Free?
      modifies this`owner, pmm
      ensures pmm.Valid() && FreeOk(pmm.Contents(), owner) && FramesOk(owner, pmm.addressStack.Length)
      ensures f in old(owner) && old(owner)[f].Free? && owner == old(owner)[f := use]
      ensures FreeCount() == old(FreeCount()) - 1
    {
      ghost var free := pmm.Contents();
      f := pmm.Pop();
      assert free[|free| - 1] == f;
      assert forall g :: g in free <==> g in pmm.Contents() || g == f;
      owner := owner[f := use];
    }

    /** Pushes a frame that was in use; the stack always has room for it. */
    method GiveFrame(f: nat)
      requires pmm.Valid() && FreeOk(pmm.Contents(), owner) && FramesOk(owner, pmm.addressStack.Length)
      requires f in owner && !owner[f].Free?
      modifies this`owner, pmm, pmm.addressStack
      ensures pmm.Valid() && FreeOk(pmm.Contents(), owner) && FramesOk(owner, pmm.addressStack.Length)
      ensures owner == old(owner)[f := Free] && FreeCount() == old(FreeCount()) + 1
    {
      RoomToPush(pmm.Contents(), owner, pmm.addressStack.Length, f);
      ghost var free := pmm.Contents();
      var ok := pmm.Push(f);
      assert f !in free;
      owner := owner[f := Free];
    }

    // ----- The page-table walk -----

    /** MmArchGetNextLevel: follows entry e of table t, making the next table if asked to. */
    method GetNextLevel(t: nat, e: nat, allocate: bool, ghost k: nat) returns (c: nat)
      requires Base() && t in mem && Leads(mem, owner, t, e, k)
      requires allocate && Child(mem, t, e) == 0 ==> FreeCount() > 0
      modifies this`mem, this`owner, pmm
      ensures Base()
      ensures !allocate || Child(old(mem), t, e) != 0 ==>
        mem == old(mem) && owner == old(owner) && FreeCount() == old(FreeCount()) && c == Child(mem, t, e)
      ensures allocate && Child(old(mem), t, e) == 0 ==>
        && TableAdded(old(mem), mem, old(owner), owner, t, e, c) && old(owner)[c].Free?
        && FreeCount() == old(FreeCount()) - 1
    {
      hide FreeOk, FramesOk, WellFormed, SpacesOk, Leads, Present, Addr, TableWord;
      EntryLeads(mem, owner, kernel, spaces, t, e, k);
      if Present(mem[t][e]) { return Addr(mem[t][e]); }
      if !allocate { return 0; }
      ghost var mem0, owner0 := mem, owner;
      c := TakeFrame(Table(owner[t].root, owner[t].level - 1, owner[t].prefix * ENTRIES + e));
      NewTableFrame(mem, owner0, kernel, pmm.addressStack.Length, owner, c);
      mem := mem[c := ZeroTable()];
      mem := mem[t := Updated(mem[t], e, TableWord(c))];
      assert TableAdded(mem0, mem, owner0, owner, t, e, c);
      AddTableKeepsTree(mem0, mem, owner0, owner, kernel, t, e, c, k);
      TableKeepsSpaces(mem0, mem, owner0, owner, kernel, spaces, t, e, c);
    }

    /** One level of the walk towards va. */
    method Descend(root: nat, va: nat, ghost level: nat, t: nat, e: nat, allocate: bool) returns (c: nat)
      requires Base() && root in spaces && 1 <= level < 4 && e == Digit(KeyOf(va), level + 1)
      requires t != 0 && t == TableAt(mem, root, KeyOf(va), level + 1)
      requires allocate && TableAt(mem, root, KeyOf(va), level) == 0 ==> FreeCount() > 0
      modifies this`mem, this`owner, pmm
      ensures Base() && c == TableAt(mem, root, KeyOf(va), level) && Extended(old(mem), old(owner), mem, owner)
      ensures FreeCount() >= old(FreeCount()) - if TableAt(old(mem), root, KeyOf(va), level) == 0 then 1 else 0
      ensures TableAt(old(mem), root, KeyOf(va), level) != 0 ==> mem == old(mem) && owner == old(owner)
      ensures allocate ==> c != 0
      ensures !allocate ==> mem == old(mem) && owner == old(owner) && FreeCount() == old(FreeCount())
      ensures LeafTables(owner) == LeafTables(old(owner))
           || (level == 1 && TableAt(old(mem), root, KeyOf(va), 1) == 0 &&
               LeafTables(owner) == LeafTables(old(owner)) + {c})
    {
      hide FreeOk, FramesOk, WellFormed, SpacesOk, Extended, Digit, Present, Addr;
      ghost var mem0, owner0, k := mem, owner, KeyOf(va);
      SpaceRoot(mem, owner, kernel, spaces, root);
      NoChange(mem, owner);
      PathOwner(mem, owner, kernel, root, k, level + 1);
      PathLeads(mem, owner, kernel, root, k, level + 1);
      c := GetNextLevel(t, e, allocate, k);
      if mem != mem0 || owner != owner0 {
        NextStep(mem0, mem, owner0, owner, kernel, root, k, level, t, c);
        TableAddedExtends(mem0, owner0, mem, owner, kernel, t, e, c);
        LeafTableAdded(mem0, mem, owner0, owner, t, e, c);
      }
    }

    /** MmArchTraverseLevels: the level-1 table on the way to va, or 0. */
    method TraverseLevels(root: nat, va: nat, allocate: bool) returns (t: nat)
      requires Base() && root in spaces && (allocate ==> FreeCount() >= Missing(mem, root, KeyOf(va)))
      modifies this`mem, this`owner, pmm
      ensures Base() && t == TableAt(mem, root, KeyOf(va), 1)
      ensures Extended(old(mem), old(owner), mem, owner)
      ensures FreeCount() >= old(FreeCount()) - Missing(old(mem), root, KeyOf(va))
      ensures allocate ==> t != 0
      ensures !allocate ==> mem == old(mem) && owner == old(owner) && FreeCount() == old(FreeCount())
      ensures |LeafTables(owner)| <= |LeafTables(old(owner))| + if TableAt(old(mem), root, KeyOf(va), 1) == 0 then 1
          else 0
    {
      hide FreeOk, FramesOk, WellFormed, SpacesOk, Extended, KeyOf, Digit, And, Shr, LeafTables, TableAt;
      SpaceRoot(mem, owner, kernel, spaces, root);
      NoChange(mem, owner);
      WalkFromRoot(mem, root, KeyOf(va));
      var e2 := And(Shr(va, 21), 0x1ff);
      var e3 := And(Shr(va, 30), 0x1ff);
      var e4 := And(Shr(va, 39), 0x1ff);
      IndexIsDigit(va, 2, 21, 9);
      IndexIsDigit(va, 3, 30, 9);
      IndexIsDigit(va, 4, 39, 9);
      ghost var mem0, owner0 := mem, owner;
      var t3 := Descend(root, va, 3, root, e4, allocate);
      if t3 == 0 { return 0; }
      ghost var mem1, owner1 := mem, owner;
      var t2 := Descend(root, va, 2, t3, e3, allocate);
      ExtendedTwice(mem0, owner0, mem1, owner1, mem, owner);
      if t2 == 0 { return 0; }
      ghost var mem2, owner2 := mem, owner;
      WalkKept(mem0, owner0, mem2, owner2, root, KeyOf(va));
      t := Descend(root, va, 1, t2, e2, allocate);
      ExtendedTwice(mem0, owner0, mem2, owner2, mem, owner);
    }

    // ----- Mapping, unmapping, looking up -----

    /** MmArchVirtMap: makes the missing tables and writes the leaf. */
    method VirtMap(root: nat, va: nat, pa: nat, flags: nat)
      requires Base() && root in spaces && FreeCount() >= Missing(mem, root, KeyOf(va))
      modifies this`mem, this`owner, pmm
      ensures Base() && FreeCount() >= old(FreeCount()) - Missing(old(mem), root, KeyOf(va))
      ensures KeyWritten(old(mem), mem, old(owner), kernel, root, KeyOf(va), Or(pa, flags))
      ensures OnlyTables(old(owner), owner) && Kept(old(mem), old(owner), mem, owner) &&
          WalksKept(old(mem), mem, old(owner))
      ensures TableAt(mem, root, KeyOf(va), 1) != 0
      ensures |LeafTables(owner)| <= |LeafTables(old(owner))| + if TableAt(old(mem), root, KeyOf(va), 1) == 0 then 1
          else 0
    {
      hide FreeOk, FramesOk, WellFormed, SpacesOk, KeyOf, Digit, And, Shr, Or, KeyWritten, Kept, WalksKept, LeafTables,
          TableAt, Missing;
      ghost var mem0, owner0, k := mem, owner, KeyOf(va);
      SpaceRoot(mem, owner, kernel, spaces, root);
      var e1 := And(Shr(va, 12), 0x1ff);
      IndexIsDigit(va, 1, 12, 9);
      var t := TraverseLevels(root, va, true);
      SpaceRoot(mem, owner, kernel, spaces, root);
      PathOwner(mem, owner, kernel, root, k, 1);
      WholeTable(mem, owner, kernel, t);
      ghost var mem1 := mem;
      mem := mem[t := Updated(mem[t], e1, Or(pa, flags))];
      LeafWriteDone(mem0, owner0, mem1, owner, mem, kernel, root, k, Or(pa, flags));
      LeafKeepsSpaces(mem1, mem, owner, kernel, spaces, t, e1, Or(pa, flags));
    }

    /** MmArchVirtUnmap: clears the leaf, if its table exists. */
    method VirtUnmap(root: nat, va: nat)
      requires Base() && root in spaces
      modifies this`mem, this`owner, pmm
      ensures Base() && owner == old(owner) && FreeCount() == old(FreeCount())
      ensures KeyWritten(old(mem), mem, owner, kernel, root, KeyOf(va), 0) && Kept(old(mem), owner, mem, owner)
    {
      hide FreeOk, FramesOk, WellFormed, SpacesOk, KeyOf, Digit, And, Shr, KeyWritten, Kept, TableAt, Missing;
      ghost var mem0, k := mem, KeyOf(va);
      SpaceRoot(mem, owner, kernel, spaces, root);
      var e1 := And(Shr(va, 12), 0x1ff);
      IndexIsDigit(va, 1, 12, 9);
      var t := TraverseLevels(root, va, false);
      if t == 0 {
        NothingToUnmap(mem, owner, kernel, root, k);
        return;
      }
      NoChange(mem, owner);
      PathOwner(mem, owner, kernel, root, k, 1);
      WholeTable(mem, owner, kernel, t);
      mem := mem[t := Updated(mem[t], e1, 0)];
      LeafWriteDone(mem0, owner, mem0, owner, mem, kernel, root, k, 0);
      LeafKeepsSpaces(mem0, mem, owner, kernel, spaces, t, e1, 0);
    }

    /** MmArchGetPagePhysicalAddress: the leaf word without its twelve low bits, or 0. */
    method GetPhysicalAddress(root: nat, va: nat) returns (pa: nat)
      requires Base() && root in spaces
      modifies this`mem, this`owner, pmm
      ensures mem == old(mem) && owner == old(owner) && Base() && FreeCount() == old(FreeCount())
      ensures pa == FrameOf(Leaf(mem, root, KeyOf(va)))
    {
      hide FreeOk, FramesOk, WellFormed, SpacesOk, KeyOf, Digit, And, Shr;
      SpaceRoot(mem, owner, kernel, spaces, root);
      var e1 := And(Shr(va, 12), 0x1ff);
      IndexIsDigit(va, 1, 12, 9);
      var t := TraverseLevels(root, va, false);
      PathOwner(mem, owner, kernel, root, KeyOf(va), 1);
      if t == 0 {
        NothingToUnmap(mem, owner, kernel, root, KeyOf(va));
        NoLeafAtNull(mem, owner, kernel, root, KeyOf(va));
        return 0;
      }
      WholeTable(mem, owner, kernel, t);
      pa := mem[t][e1] / PAGE_SIZE * PAGE_SIZE;
    }

    // ----- Pages of a region -----

    /** One step of the allocation loop: a fresh frame, mapped at va. */
    method MapNewPage(root: nat, va: nat, flags: nat, ghost p: nat, ghost live: iset<(nat, nat)>)
      requires Base() && FreeCount() >= 1 + Missing(mem, root, KeyOfPage(p))
      requires root in spaces && va == p * PAGE_SIZE && InWindow(spaces[root], p) && flags < PAGE_SIZE
      modifies this`mem, this`owner, pmm
      ensures Base() && NewPage(mem, old(owner), owner, root, p, flags)
      ensures old(PagesOk(mem, owner, spaces, live)) && (root, p) !in live ==>
        PagesOk(mem, owner, spaces, live + iset{(root, p)})
      ensures FreeCount() >= old(FreeCount()) - 1 - Missing(old(mem), root, KeyOfPage(p))
      ensures TakenForPages(old(owner), owner, root, p, 1) && Kept(old(mem), old(owner), mem, owner)
      ensures KeyWritten(old(mem), mem, old(owner), kernel, root, KeyOfPage(p), Leaf(mem, root, KeyOfPage(p)))
      ensures TableAt(mem, root, KeyOfPage(p), 1) != 0
      ensures |LeafTables(owner)| <= |LeafTables(old(owner))| + if TableAt(old(mem), root, KeyOfPage(p), 1) == 0 then 1
          else 0
    {
      hide FreeOk, FramesOk, WellFormed, SpacesOk, PagesOk, Leaf, KeyOfPage, Or, FrameOf, KeyWritten, Kept, WalksKept,
        TableAt, Missing, LeafTables, IsRoot, NewPage;
      LeafTablesKept(owner, Page(root, p));
      ghost var mem0, owner0 := mem, owner;
      SpaceRoot(mem, owner, kernel, spaces, root);
      var f := TakeFrame(Page(root, p));
      FrameReused(mem0, owner0, kernel, spaces, f, Page(root, p));
      FrameAligned(owner0, pmm.addressStack.Length, f);
      TranslationRoundTrip(f, flags);
      FlagBits(f, flags);
      assert va / PAGE_SIZE == p;
      VirtMap(root, va, f, flags);
      KeyWrittenOwner(mem0, mem, owner0, f, Page(root, p), kernel, root, KeyOfPage(p), Or(f, flags));
      if PagesOk(mem0, owner0, spaces, live) && (root, p) !in live {
        PageMapped(mem0, owner0, mem, owner, kernel, spaces, live, root, p, f, Or(f, flags));
      }
      KeyValue(mem0, mem, owner0, kernel, root, KeyOfPage(p), Or(f, flags));
      IsNewPage(mem, owner0, owner, root, p, f, Or(f, flags), flags);
      KeptOwner(mem0, owner0, mem, owner, f, Page(root, p), Page(root, p));
      assert owner[f := Page(root, p)] == owner;
    }

    /**
      MmVirtFindRegion: a new region, in a gap or at the end, whose structure takes a frame of its own. On the gap
      path the address returned is that of the old region before the gap.
     */
    method FindRegion(root: nat, pages: nat, ghost live: iset<(nat, nat)>) returns (va: nat, f: nat)
      requires Base() && root in spaces && pages > 0 && FreeCount() > 0 && RegionFits(spaces[root], pages)
      modifies this`spaces, this`owner, pmm
      ensures var s := old(spaces)[root];
        && va == ReturnedAddress(s.base, s.regions, pages)
        && f in old(owner) && old(owner)[f].Free?
        && owner == old(owner)[f := Header(root, NewAddress(s.base, s.regions, pages))]
      ensures spaces == Linked(old(spaces), root, f, pages)
      ensures Base() && FreeCount() == old(FreeCount()) - 1
      ensures old(PagesOk(mem, owner, spaces, live)) ==> PagesOk(mem, owner, spaces, live)
    {
      hide FreeOk, FramesOk, WellFormed, SpacesOk, PagesOk, FirstFit, Appends, NewAddress, ReturnedAddress, Placed;
      var s := spaces[root];
      va := ReturnedAddress(s.base, s.regions, pages);
      ghost var owner0, spaces0, at := owner, spaces, NewAddress(s.base, s.regions, pages);
      f := TakeFrame(Header(root, at));
      RegionLinked(mem, owner0, kernel, spaces0, root, f, pages);
      spaces := spaces[root := s.(regions := Placed(s.base, s.regions, f, pages))];
      if PagesOk(mem, owner0, spaces0, live) { PagesKeptByRegions(mem, owner0, owner, spaces0, spaces, live); }
      assert spaces == Linked(spaces0, root, f, pages);
    }

    /**
      MmVirtAllocatePages: a region, and `pages` fresh frames mapped from the address found. When the region was
      appended its pages are live and the whole invariant is kept; when it filled a gap the pages mapped are those
      of an older region. Returns the address, and the frame of the region's structure.
     */
    method AllocatePages(root: nat, pages: nat, flags: nat) returns (va: nat, f: nat)
      requires Inv() && root in spaces && pages > 0 && flags < PAGE_SIZE && RegionFits(spaces[root], pages)
      requires FreeCount() >=
          1 + FramesFor(ReturnedAddress(spaces[root].base, spaces[root].regions, pages) / PAGE_SIZE, pages)
      modifies this`spaces, this`mem, this`owner, pmm
      ensures Base() && (Appends(old(spaces)[root].regions, pages) ==> Inv())
      ensures FreeCount() >= old(FreeCount()) - 1 - FramesFor(va / PAGE_SIZE, pages)
      ensures var s := old(spaces)[root];
        var owner1 := old(owner)[f := Header(root, NewAddress(s.base, s.regions, pages))];
        && va == ReturnedAddress(s.base, s.regions, pages)
        && f in old(owner) && old(owner)[f].Free? && spaces == Linked(old(spaces), root, f, pages)
        && MappedSoFar(old(mem), owner1, mem, owner, kernel, root, va / PAGE_SIZE, pages)
      ensures NewPages(mem, old(owner), owner, root, va / PAGE_SIZE, pages, flags)
      ensures |LeafTables(owner)| <= |LeafTables(old(owner))| + (pages + 510) / ENTRIES + 1
    {
      hide FreeOk, FramesOk, WellFormed, SpacesOk, PagesOk, NewPages, NewPage, FirstFit, Appends, NewAddress,
        ReturnedAddress, RegionFits, Placed, MappedSoFar, Missing, LivePages, PageRange, KeyWritten, TakenForPages,
        Kept, LeafTables, KeyOfPage, TablesSpanned, FramesFor, TableAt, IsRoot, InWindow;
      LeafTablesKept(owner, Header(root, NewAddress(spaces[root].base, spaces[root].regions, pages)));
      ghost var owner0, spaces0, mem0, live := owner, spaces, mem, LivePages(spaces);
      ghost var appends := Appends(spaces[root].regions, pages);
      RegionFacts(mem, owner, kernel, spaces, root, pages);
      va, f := FindRegion(root, pages, live);
      ghost var owner1, spaces1, p := owner, spaces, va / PAGE_SIZE;
      SpaceRoot(mem, owner, kernel, spaces, root);
      NothingMapped(mem0, owner1, kernel, root, p);
      PageRangeGrows(live, root, p, 0);
      NoSpan(p);
      NoNewPages(mem, owner0, owner, root, p, flags);
      for i := 0 to pages
        invariant spaces == spaces1 && Base() && FreeCount() + FramesFor(p, i) + 1 >= old(FreeCount())
        invariant appends ==> PagesOk(mem, owner, spaces, live + PageRange(root, p, i))
        invariant MappedSoFar(mem0, owner1, mem, owner, kernel, root, p, i)
        invariant NewPages(mem, owner0, owner, root, p, i, flags)
        invariant |LeafTables(owner)| <= |LeafTables(owner0)| + TablesSpanned(p, i, 1)
        invariant i > 0 ==> TableAt(mem, root, KeyOfPage(p + i - 1), 1) != 0
      {
        ghost var mem1, owner2, q := mem, owner, p + i;
        FramesStep(mem, root, p, i, pages);
        NewPageInside(spaces0, spaces, root, f, pages, p, i);
        if appends { NewPageOutside(spaces0, spaces, root, f, pages, q, p, i); }
        PageRangeGrows(live, root, p, i);
        MapNewPage(root, va + i * PAGE_SIZE, flags, q, live + PageRange(root, p, i));
        MappedMore(mem0, owner1, mem1, owner2, mem, owner, kernel, root, p, i, q, Leaf(mem, root, KeyOfPage(q)));
        TakenSoFar(mem0, owner1, mem1, owner2, kernel, root, p, i);
        NewPagesMore(mem1, owner0, owner1, owner2, mem, owner, kernel, spaces, root, f, p, i, flags);
      }
      if appends {
        AppendedAddress(spaces0[root].base, spaces0[root].regions, pages);
        LivePlaced(spaces0, root, f, pages);
      }
      SpannedBound(p, pages);
    }

    /** One step of the freeing loop: the frame mapped at va goes back to the stack, and va is unmapped. */
    method FreePage(root: nat, va: nat, ghost p: nat, ghost live: iset<(nat, nat)>) returns (f: nat)
      requires Base() && PagesOk(mem, owner, spaces, live)
      requires root in spaces && va == p * PAGE_SIZE && InWindow(spaces[root], p) && (root, p) in live
      modifies this`mem, this`owner, pmm, pmm.addressStack
      ensures Base() && PagesOk(mem, owner, spaces, live - iset{(root, p)}) && FreeCount() == old(FreeCount()) + 1
      ensures f in old(owner) && old(owner)[f] == Page(root, p) && owner == old(owner)[f := Free]
      ensures forall g :: g in old(owner) && old(owner)[g] == Page(root, p) ==> g == f
      ensures KeyWritten(old(mem), mem, old(owner), kernel, root, KeyOfPage(p), 0) &&
          Kept(old(mem), old(owner), mem, owner)
    {
      hide FreeOk, FramesOk, WellFormed, SpacesOk, PagesOk, Leaf, KeyOfPage, FrameOf, KeyWritten, Kept;
      ghost var mem0, owner0 := mem, owner;
      assert va / PAGE_SIZE == p;
      f := GetPhysicalAddress(root, va);
      LivePageFrame(mem, owner, spaces, live, root, p, f);
      FrameReused(mem, owner, kernel, spaces, f, Free);
      GiveFrame(f);
      VirtUnmap(root, va);
      KeyWrittenOwner(mem0, mem, owner0, f, Free, kernel, root, KeyOfPage(p), 0);
      PageUnmapped(mem0, owner0, mem, kernel, spaces, live, root, p, f);
      KeptOwner(mem0, owner0, mem, owner, f, Free, Free);
      assert owner[f := Free] == owner;
    }

    /** The page loop of MmVirtFreePages. */
    method FreeRegionPages(root: nat, va: nat, pages: nat, ghost live: iset<(nat, nat)>)
      requires Base() && PagesOk(mem, owner, spaces, live) && root in spaces && va % PAGE_SIZE == 0
      requires PageRange(root, va / PAGE_SIZE, pages) <= live
      requires spaces[root].base <= va && va + pages * PAGE_SIZE <= spaces[root].limit
      modifies this`mem, this`owner, pmm, pmm.addressStack
      ensures Base() && PagesOk(mem, owner, spaces, live - PageRange(root, va / PAGE_SIZE, pages))
      ensures FreedSoFar(old(mem), old(owner), mem, owner, kernel, root, va / PAGE_SIZE, pages)
      ensures FreeCount() == old(FreeCount()) + pages
    {
      hide FreeOk, FramesOk, WellFormed, SpacesOk, PagesOk, FreedSoFar, KeyWritten, Kept, PageRange, KeyOfPage, IsRoot;
      ghost var mem0, owner0, p := mem, owner, va / PAGE_SIZE;
      SpaceRoot(mem, owner, kernel, spaces, root);
      NothingFreed(mem, owner, kernel, root, p);
      PageRangeGrows(live, root, p, 0);
      for i := 0 to pages
        invariant Base() && FreeCount() == old(FreeCount()) + i
        invariant PagesOk(mem, owner, spaces, live - PageRange(root, p, i))
        invariant FreedSoFar(mem0, owner0, mem, owner, kernel, root, p, i)
      {
        ghost var mem1, owner1, q := mem, owner, p + i;
        PageRangeGrows(live, root, p, i);
        InPageRange(root, p, pages, q);
        var f := FreePage(root, va + i * PAGE_SIZE, q, live - PageRange(root, p, i));
        FreedMore(mem0, owner0, mem1, owner1, mem, kernel, root, p, i, q, f);
      }
    }

    /**
      MmVirtFreePages: frees the pages and the region at va. A misaligned address panics and an address
      without a region is ignored; both change nothing.
     */
    method FreePages(root: nat, va: nat) returns (found: bool)
      requires Inv() && root in spaces
      modifies this`spaces, this`mem, this`owner, pmm, pmm.addressStack
      ensures Inv()
      ensures found <==> va % PAGE_SIZE == 0 && IndexOf(old(spaces)[root].regions, va, 0) < |old(spaces)[root].regions|
      ensures !found ==>
        mem == old(mem) && owner == old(owner) && spaces == old(spaces) && pmm.Contents() == old(pmm.Contents())
      ensures found ==>
        var s := old(spaces)[root];
        var i := IndexOf(s.regions, va, 0);
        var f := s.regions[i].frame;
        && spaces == old(spaces)[root := s.(regions := Removed(s.regions, i))]
        && f in old(owner) && old(owner)[f] == Header(root, va)
        && f in owner && owner[f].Free?
        && FreedSoFar(old(mem), old(owner), mem, owner[f := Header(root, va)], kernel, root, va / PAGE_SIZE,
            s.regions[i].pages)
        && FreeCount() == old(FreeCount()) + s.regions[i].pages + 1
    {
      hide FreeOk, FramesOk, WellFormed, SpacesOk, PagesOk, FreedSoFar, PageRange, LivePages, Removed;
      if va % PAGE_SIZE != 0 { return false; }
      var s := spaces[root];
      var i := 0;
      while i < |s.regions| && s.regions[i].va != va
        invariant i <= |s.regions| && IndexOf(s.regions, va, 0) == IndexOf(s.regions, va, i)
      {
        i := i + 1;
      }
      if i == |s.regions| { return false; }
      found := true;
      ghost var spaces0, live := spaces, LivePages(spaces);
      RegionIsLive(mem, owner, kernel, spaces, root, i);
      FreeRegionPages(root, va, s.regions[i].pages, live);
      RegionUnlinked(mem, owner, kernel, spaces, root, i);
      ghost var owner1 := owner;
      var f := s.regions[i].frame;
      GiveFrame(f);
      spaces := spaces[root := s.(regions := Removed(s.regions, i))];
      LiveRemoved(spaces0, root, i);
      PagesKeptByRegions(mem, owner1, owner, spaces0, spaces,
          live - PageRange(root, va / PAGE_SIZE, s.regions[i].pages));
      assert owner[f := Header(root, va)] == owner1;
    }

    // ----- Address spaces and fixed mappings -----

    /** The copy loop of MmNewPageMap: the kernel's upper-half entries. */
    method CopyUpperHalf() returns (words: seq<nat>)
      requires kernel in mem && |mem[kernel]| == ENTRIES
      ensures words == CopiedTop(mem[kernel])
    {
      words := ZeroTable();
      for i := 256 to ENTRIES
        invariant |words| == ENTRIES && words == ZeroTable()[..256] + mem[kernel][256..i] + ZeroTable()[i..]
      {
        words := Updated(words, i, mem[kernel][i]);
      }
    }

    /** The three frames of a new page map; their final owners depend on the second. */
    method TakeSpaceFrames() returns (m: nat, r: nat, h: nat)
      requires Base() && FreeCount() >= 3
      modifies this`owner, pmm
      ensures pmm.Valid() && FreeCount() == old(FreeCount()) - 3 && owner == SpaceOwners(old(owner), m, r, h)
      ensures FreeOk(pmm.Contents(), owner) && FramesOk(owner, pmm.addressStack.Length)
      ensures m in old(owner) && r in old(owner) && h in old(owner) && m != r && m != h && r != h && r != 0
      ensures old(owner)[m].Free? && old(owner)[r].Free? && old(owner)[h].Free?
    {
      hide FreeOk, FramesOk, WellFormed, SpacesOk, SpaceOwners;
      ghost var owner0 := owner;
      m := TakeFrame(Storage);
      r := TakeFrame(Storage);
      h := TakeFrame(Storage);
      FramesRelabelled(pmm.Contents(), owner0, pmm.addressStack.Length, m, r, h);
      owner := SpaceOwners(owner0, m, r, h);
    }

    /** MmNewPageMap: a new space with an empty lower half, an empty ring, and the kernel's upper half. */
    method NewPageMap() returns (root: nat)
      requires Base() && FreeCount() >= 3
      modifies this`spaces, this`mem, this`owner, pmm
      ensures Base() && FreeCount() == old(FreeCount()) - 3 && (old(Inv()) ==> Inv())
      ensures root !in old(spaces) && root in spaces
      ensures var s := spaces[root];
        && spaces == WithSpace(old(spaces), s.mapFrame, root, s.headFrame)
        && owner == SpaceOwners(old(owner), s.mapFrame, root, s.headFrame)
        && s.base == 0x1000 && s.regions == []
      ensures Kept(old(mem), old(owner), mem, owner) && SameLeaves(old(mem), mem, old(owner))
      ensures IsRoot(mem, owner, root) && SeesKernel(mem, kernel, root)
    {
      hide FreeOk, FramesOk, SpacesOk, PagesOk, LivePages, CopiedTop, WellFormed, Kept, SameLeaves, SeesKernel;
      ghost var owner0 := owner;
      KernelTable(mem, owner, kernel);
      var m, r, h := TakeSpaceFrames();
      var words := CopyUpperHalf();
      NewSpaceInvariant(mem, owner0, kernel, spaces, m, r, h);
      mem := mem[r := words];
      spaces := WithSpace(spaces, m, r, h);
      root := r;
    }

    /** A mapping of anything but a live region page, such as the identity mappings made at boot. */
    method MapFixed(root: nat, va: nat, pa: nat, flags: nat)
      requires Inv() && root in spaces && FreeCount() >= Missing(mem, root, KeyOf(va))
      requires OutsideLive(spaces, LivePages(spaces), root, KeyOf(va))
      modifies this`mem, this`owner, pmm
      ensures Inv() && OnlyTables(old(owner), owner) && Kept(old(mem), old(owner), mem, owner)
      ensures KeyWritten(old(mem), mem, old(owner), kernel, root, KeyOf(va), Or(pa, flags))
    {
      hide FreeOk, FramesOk, WellFormed, SpacesOk, PagesOk, LivePages, KeyWritten, Kept, OutsideLive, OnlyTables, Or,
          Missing;
      ghost var mem0, owner0 := mem, owner;
      VirtMap(root, va, pa, flags);
      PagesKeptOutside(mem0, owner0, mem, owner, kernel, spaces, LivePages(spaces), root, KeyOf(va), Or(pa, flags));
    }

    /** Removing such a mapping. */
    method UnmapFixed(root: nat, va: nat)
      requires Inv() && root in spaces && OutsideLive(spaces, LivePages(spaces), root, KeyOf(va))
      modifies this`mem, this`owner, pmm
      ensures Inv() && owner == old(owner) && Kept(old(mem), owner, mem, owner)
      ensures KeyWritten(old(mem), mem, owner, kernel, root, KeyOf(va), 0)
    {
      hide FreeOk, FramesOk, WellFormed, SpacesOk, PagesOk, LivePages, KeyWritten, Kept, OutsideLive;
      ghost var mem0 := mem;
      VirtUnmap(root, va);
      OwnersSame(owner);
      PagesKeptOutside(mem0, owner, mem, owner, kernel, spaces, LivePages(spaces), root, KeyOf(va), 0);
    }
  }

  lemma EntryLeads(mem: Memory, owner: Owners, kernel: nat, spaces: Spaces, t: nat, e: nat, k: nat)
    requires WellFormed(mem, owner, kernel) && SpacesOk(mem, owner, kernel, spaces) && t in mem &&
        Leads(mem, owner, t, e, k)
    ensures |mem[t]| == ENTRIES && e < ENTRIES && t in owner && owner[t].Table? && owner[t].level >= 2 &&
        owner[t].root in spaces
    ensures Child(mem, t, e) == if Present(mem[t][e]) then Addr(mem[t][e]) else 0
    ensures Present(mem[t][e]) ==> Child(mem, t, e) != 0
  {
    hide Reached;
    assert TableOk(mem, owner, kernel, t);
    assert EntryOk(mem, owner, kernel, t, e);
    assert OwnerUsed(owner, spaces, t);
  }

  lemma NewTableFrame(mem: Memory, owner: Owners, kernel: nat, capacity: nat, owner': Owners, c: nat)
    requires WellFormed(mem, owner, kernel) && FramesOk(owner', capacity) && c in owner && owner[c].Free? && c in owner'
    ensures c !in mem && IsFrame(c)
  {
    hide Reached;
    assert c in mem ==> TableOk(mem, owner, kernel, c);
  }

  /** The walk leads to its next entry from the root of the tree its table belongs to. */
  lemma PathLeads(mem: Memory, owner: Owners, kernel: nat, root: nat, k: nat, level: nat)
    requires WellFormed(mem, owner, kernel) && IsRoot(mem, owner, root) && IsKey(k) && 2 <= level <= 4
    requires TableAt(mem, root, k, level) != 0
    ensures Leads(mem, owner, TableAt(mem, root, k, level), Digit(k, level), k)
  {
    PathOwner(mem, owner, kernel, root, k, level);
  }

  lemma OwnersSame(owner: Owners)
    ensures OnlyTables(owner, owner)
  {}

  lemma KernelTable(mem: Memory, owner: Owners, kernel: nat)
    requires WellFormed(mem, owner, kernel)
    ensures kernel in mem && |mem[kernel]| == ENTRIES
  {
    assert TableOk(mem, owner, kernel, kernel);
  }

  /** Three frames just taken get their final owners. */
  lemma FramesRelabelled(free: seq<nat>, owner: Owners, capacity: nat, m: nat, r: nat, h: nat)
    requires m in owner && r in owner && h in owner && m != r && m != h && r != h
    requires var taken := owner[m := Storage][r := Storage][h := Storage];
      FreeOk(free, taken) && FramesOk(taken, capacity)
    ensures FreeOk(free, SpaceOwners(owner, m, r, h)) && FramesOk(SpaceOwners(owner, m, r, h), capacity) && r != 0
  {
    var taken, owner' := owner[m := Storage][r := Storage][h := Storage], SpaceOwners(owner, m, r, h);
    assert taken.Keys == owner.Keys && owner'.Keys == owner.Keys;
    assert |owner'| == |owner'.Keys| && |taken| == |taken.Keys|;
    assert IsFrame(r) by { assert r in taken; }
  }

  lemma LivePageFrame(mem: Memory, owner: Owners, spaces: Spaces, live: iset<(nat, nat)>, root: nat, p: nat, f: nat)
    requires PagesOk(mem, owner, spaces, live) && root in spaces && InWindow(spaces[root], p) && (root, p) in live
    requires f == FrameOf(Leaf(mem, root, KeyOfPage(p)))
    ensures f in owner && owner[f] == Page(root, p)
    ensures forall g :: g in owner && owner[g] == Page(root, p) ==> g == f
  {
    assert PageOk(mem, owner, live, root, p);
    forall g | g in owner && owner[g] == Page(root, p) ensures g == f {
      assert HolderOk(mem, spaces, live, g, root, p);
    }
  }

  lemma InPageRange(root: nat, p: nat, n: nat, q: nat)
    requires InRange(q, p, n)
    ensures (root, q) in PageRange(root, p, n)
  {}

  /** The pages of a region are live, and the region lies in the window. */
  lemma RegionIsLive(mem: Memory, owner: Owners, kernel: nat, spaces: Spaces, root: nat, i: nat)
    requires SpacesOk(mem, owner, kernel, spaces) && root in spaces && i < |spaces[root].regions|
    ensures var s := spaces[root];
      var r := s.regions[i];
      && PageRange(root, r.va / PAGE_SIZE, r.pages) <= LivePages(spaces)
      && s.base <= r.va && r.va + r.pages * PAGE_SIZE <= s.limit && RingOk(s.base, s.regions)
      && r.frame in owner && owner[r.frame] == Header(root, r.va)
  {
    assert SpaceOk(mem, owner, kernel, root, spaces[root]);
    var r := spaces[root].regions[i];
    forall q: nat | InRange(q, r.va / PAGE_SIZE, r.pages) ensures (root, q) in LivePages(spaces) {
      assert Holds(r, q);
      assert RegionPage(spaces[root].regions, q);
    }
  }

  /** Page p is translated, with the flags, to a frame of its own that was free. */
  ghost predicate NewPage(mem: Memory, owner: Owners, owner': Owners, root: nat, p: nat, flags: nat) {
    var w := Leaf(mem, root, KeyOfPage(p));
    && w % PAGE_SIZE == flags && FrameOf(w) in owner && owner[FrameOf(w)].Free?
    && FrameOf(w) in owner' && owner'[FrameOf(w)] == Page(root, p)
  }

  ghost predicate NewPages(mem: Memory, owner: Owners, owner': Owners, root: nat, p: nat, n: nat, flags: nat) {
    forall q: nat :: InRange(q, p, n) ==> NewPage(mem, owner, owner', root, q, flags)
  }

  lemma NoNewPages(mem: Memory, owner: Owners, owner': Owners, root: nat, p: nat, flags: nat)
    ensures NewPages(mem, owner, owner', root, p, 0, flags)
  {}

  lemma FlagBits(f: nat, flags: nat)
    requires f % PAGE_SIZE == 0 && flags < PAGE_SIZE
    ensures Or(f, flags) % PAGE_SIZE == flags
  {
    hide Or, Shl;
    var n := 12;
    PowerOfPage(n);
    ShlIsProduct(f / PAGE_SIZE, n);
    OrDisjoint(flags, f / PAGE_SIZE, n);
    OrCommutes(f, flags);
  }

  lemma PowerOfPage(n: nat)
    requires n == 12
    ensures Pow2(n) == PAGE_SIZE
  {}

  lemma IsNewPage(mem: Memory, owner: Owners, owner': Owners, root: nat, p: nat, f: nat, w: nat, flags: nat)
    requires f in owner && owner[f].Free? && OnlyTables(owner[f := Page(root, p)], owner')
    requires Leaf(mem, root, KeyOfPage(p)) == w && FrameOf(w) == f && w % PAGE_SIZE == flags
    ensures NewPage(mem, owner, owner', root, p, flags)
  {}

  lemma TakenSoFar(mem: Memory, owner: Owners, mem': Memory, owner': Owners, kernel: nat, root: nat, p: nat, n: nat)
    requires MappedSoFar(mem, owner, mem', owner', kernel, root, p, n)
    ensures TakenForPages(owner, owner', root, p, n)
  {}

  lemma NewPagesMore(mem: Memory, owner0: Owners, owner1: Owners, owner: Owners, mem': Memory, owner': Owners,
      kernel: nat, spaces: Spaces, root: nat, f: nat, p: nat, n: nat, flags: nat)
    requires root in spaces && forall q: nat :: InRange(q, p, n + 1) ==> InWindow(spaces[root], q)
    requires f in owner1 && owner1 == owner0[f := owner1[f]] && !owner1[f].Free?
    requires WellFormed(mem, owner, kernel) && SpacesOk(mem, owner, kernel, spaces)
    requires NewPages(mem, owner0, owner, root, p, n, flags) && NewPage(mem', owner, owner', root, p + n, flags)
    requires KeyWritten(mem, mem', owner, kernel, root, KeyOfPage(p + n), Leaf(mem', root, KeyOfPage(p + n)))
    requires TakenForPages(owner1, owner, root, p, n) && TakenForPages(owner, owner', root, p + n, 1)
    ensures NewPages(mem', owner0, owner', root, p, n + 1, flags)
  {
    hide WellFormed, SpacesOk, InWindow, Leaf, KeyOfPage, FrameOf, KeyWritten, NewPage, TakenForPages;
    forall q: nat | InRange(q, p, n + 1) ensures NewPage(mem', owner0, owner', root, q, flags) {
      if q == p + n {
        NewPageSince(mem', owner0, owner1, owner, owner', root, f, p, n, flags);
      } else {
        OneWindowPage(mem, mem', owner, kernel, spaces, root, p + n, Leaf(mem', root, KeyOfPage(p + n)), root, q);
        NewPageStays(mem, owner0, owner, mem', owner', root, q, p + n, flags);
      }
    }
  }

  lemma NewPageSince(mem: Memory, owner0: Owners, owner1: Owners, owner: Owners, owner': Owners, root: nat, f: nat,
      p: nat, n: nat, flags: nat)
    requires f in owner1 && owner1 == owner0[f := owner1[f]] && !owner1[f].Free?
    requires TakenForPages(owner1, owner, root, p, n) && NewPage(mem, owner, owner', root, p + n, flags)
    ensures NewPage(mem, owner0, owner', root, p + n, flags)
  {
    hide Leaf, KeyOfPage, FrameOf;
    var g := FrameOf(Leaf(mem, root, KeyOfPage(p + n)));
    assert TakenFrom(owner1[g], owner[g], root, p, n);
  }

  lemma NewPageStays(mem: Memory, owner0: Owners, owner: Owners, mem': Memory, owner': Owners, root: nat, q: nat,
      p: nat, flags: nat)
    requires NewPage(mem, owner0, owner, root, q, flags) && TakenForPages(owner, owner', root, p, 1)
    requires Leaf(mem', root, KeyOfPage(q)) == Leaf(mem, root, KeyOfPage(q))
    ensures NewPage(mem', owner0, owner', root, q, flags)
  {
    hide Leaf, KeyOfPage, FrameOf;
    var g := FrameOf(Leaf(mem, root, KeyOfPage(q)));
    assert TakenFrom(owner[g], owner'[g], root, p, 1);
  }

  /** A region at the end of the ring stays below the limit; one that fills a gap always does. */
  predicate RegionFits(s: Space, n: nat) {
    Appends(s.regions, n) ==> NewAddress(s.base, s.regions, n) + n * PAGE_SIZE <= s.limit
  }

  lemma NoSpan(p: nat)
    ensures TablesSpanned(p, 0, 1) == 0 && FramesFor(p, 0) == 0
  {}

  /** The spaces once root has a new last region whose structure lives in frame f. */
  ghost function Linked(spaces: Spaces, root: nat, f: nat, pages: nat): Spaces
    requires root in spaces
  {
    var s := spaces[root];
    spaces[root := s.(regions := Placed(s.base, s.regions, f, pages))]
  }

  lemma RegionFacts(mem: Memory, owner: Owners, kernel: nat, spaces: Spaces, root: nat, pages: nat)
    requires SpacesOk(mem, owner, kernel, spaces) && root in spaces && pages > 0 && RegionFits(spaces[root], pages)
    ensures RingOk(spaces[root].base, spaces[root].regions)
    ensures var s := spaces[root];
      var va := ReturnedAddress(s.base, s.regions, pages);
      va % PAGE_SIZE == 0 && s.base <= va && va + pages * PAGE_SIZE <= s.limit
  {
    hide WindowOk, FirstFit, RingOk, End;
    var s := spaces[root];
    assert SpaceOk(mem, owner, kernel, root, s);
    if Appends(s.regions, pages) {
      NewAddressOk(s.base, s.regions, pages);
    } else {
      var i := FirstFit(s.regions, pages, 0);
      RegionAt(s.base, s.regions, i);
      RegionAt(s.base, s.regions, i + 1);
      FitHolds(s.base, s.regions, pages, i);
    }
  }

  lemma RegionAt(base: nat, regs: seq<Region>, i: nat)
    requires RingOk(base, regs) && i < |regs|
    ensures regs[i].va % PAGE_SIZE == 0 && base <= regs[i].va <= End(regs[i])
  {}

  /** The pages mapped lie in the window. */
  lemma NewPageInside(spaces: Spaces, spaces': Spaces, root: nat, f: nat, pages: nat, p: nat, i: nat)
    requires root in spaces && spaces' == Linked(spaces, root, f, pages) && i < pages
    requires var s := spaces[root];
      var va := ReturnedAddress(s.base, s.regions, pages);
      va % PAGE_SIZE == 0 && p == va / PAGE_SIZE && s.base <= va && va + pages * PAGE_SIZE <= s.limit
    ensures root in spaces' && forall q: nat :: InRange(q, p, i + 1) ==> InWindow(spaces'[root], q)
  {
    hide ReturnedAddress, Placed;
  }

  /** The i-th page of a region being appended is not live yet. */
  lemma NewPageOutside(spaces: Spaces, spaces': Spaces, root: nat, f: nat, pages: nat, q: nat, p: nat, i: nat)
    requires root in spaces && spaces' == Linked(spaces, root, f, pages) && pages > 0 && i < pages
    requires RingOk(spaces[root].base, spaces[root].regions) && Appends(spaces[root].regions, pages)
    requires var va := ReturnedAddress(spaces[root].base, spaces[root].regions, pages);
      va % PAGE_SIZE == 0 && p == va / PAGE_SIZE && q == p + i
      && spaces[root].base <= va && va + pages * PAGE_SIZE <= spaces[root].limit
    ensures (root, q) !in LivePages(spaces) + PageRange(root, p, i)
  {
    AppendedAddress(spaces[root].base, spaces[root].regions, pages);
    NewPageApart(spaces[root], pages, q);
  }

  lemma FrameAligned(owner: Owners, capacity: nat, f: nat)
    requires FramesOk(owner, capacity) && f in owner
    ensures IsFrame(f)
  {}

  lemma WholeTable(mem: Memory, owner: Owners, kernel: nat, t: nat)
    requires WellFormed(mem, owner, kernel) && t in mem
    ensures |mem[t]| == ENTRIES && t != 0
  {
    assert TableOk(mem, owner, kernel, t);
  }

  lemma NoLeafAtNull(mem: Memory, owner: Owners, kernel: nat, root: nat, k: nat)
    requires WellFormed(mem, owner, kernel) && TableAt(mem, root, k, 1) == 0
    ensures Leaf(mem, root, k) == 0
  {}

  lemma LeafTablesKept(owner: Owners, use: Owner)
    requires !use.Table?
    ensures forall f {:trigger owner[f := use]} :: f in owner && !owner[f].Table? ==>
        LeafTables(owner[f := use]) == LeafTables(owner)
  {}

  lemma WalkKept(mem: Memory, owner: Owners, mem': Memory, owner': Owners, root: nat, k: nat)
    requires Extended(mem, owner, mem', owner') && IsRoot(mem, owner, root) && IsKey(k)
    ensures TableAt(mem, root, k, 1) != 0 ==> TableAt(mem', root, k, 1) != 0
  {}

  lemma LeafTableAdded(mem: Memory, mem': Memory, owner: Owners, owner': Owners, t: nat, e: nat, c: nat)
    requires TableAdded(mem, mem', owner, owner', t, e, c)
    ensures LeafTables(owner') == LeafTables(owner) + if owner[t].level == 2 then {c} else {}
  {}

  lemma NoChange(mem: Memory, owner: Owners)
    ensures Extended(mem, owner, mem, owner)
  {}

  lemma WalkFromRoot(mem: Memory, root: nat, k: nat)
    ensures TableAt(mem, root, k, 4) == root
    ensures TableAt(mem, root, k, 3) == 0 ==> TableAt(mem, root, k, 2) == 0
    ensures TableAt(mem, root, k, 2) == 0 ==> TableAt(mem, root, k, 1) == 0
  {}

  /** A new table is the next step of the walk that asked for it. */
  lemma NextStep(mem: Memory, mem': Memory, owner: Owners, owner': Owners, kernel: nat, root: nat, k: nat, level: nat,
      t: nat, c: nat)
    requires WellFormed(mem, owner, kernel) && IsRoot(mem, owner, root) && IsKey(k) && 1 <= level < 4
    requires t == TableAt(mem, root, k, level + 1) && t != 0
    requires TableAdded(mem, mem', owner, owner', t, Digit(k, level + 1), c)
    ensures TableAt(mem', root, k, level) == c
  {
    hide Reached;
    AddTableKeepsWalk(mem, mem', owner, owner', kernel, t, Digit(k, level + 1), c, root, k, level + 1);
    TableWordFields(c);
  }

  /** The owners once the first three frames are taken. */
  ghost function FirstOwners(free: seq<nat>, storage: set<nat>, mapFrame: nat, top: nat, headFrame: nat): Owners {
    map f | f in storage + Elements(free) ::
      if f in storage then Storage
      else if f == mapFrame then MapNode(top)
      else if f == top then Table(top, 4, 0)
      else if f == headFrame then HeadNode(top)
      else Free
  }

  lemma FirstOwnersOk(free: seq<nat>, storage: set<nat>, mapFrame: nat, top: nat, headFrame: nat, rest: seq<nat>,
      capacity: nat)
    requires Distinct(free) && free == rest + [headFrame, top, mapFrame]
    requires forall f :: f in free ==> IsFrame(f) && f !in storage
    requires forall f :: f in storage ==> IsFrame(f)
    requires |free| + |storage| <= capacity
    ensures var owner := FirstOwners(free, storage, mapFrame, top, headFrame);
      && FreeOk(rest, owner) && FramesOk(owner, capacity)
      && top in owner && owner[top] == Table(top, 4, 0) && top != 0
      && mapFrame in owner && owner[mapFrame] == MapNode(top)
      && headFrame in owner && owner[headFrame] == HeadNode(top)
      && (forall f :: f in owner && f != top && f != mapFrame && f != headFrame ==> owner[f].Storage? || owner[f].Free?)
      && (forall f :: f in owner && owner[f].Storage? <==> f in storage)
      && owner.Keys == storage + Elements(free)
  {
    LastThree(free, rest, headFrame, top, mapFrame);
    FirstOwnersCount(free, storage, mapFrame, top, headFrame);
    hide Distinct;
    assert IsFrame(top);
  }

  lemma LastThree(free: seq<nat>, rest: seq<nat>, a: nat, b: nat, c: nat)
    requires Distinct(free) && free == rest + [a, b, c]
    ensures Distinct(rest) && a !in rest && b !in rest && c !in rest && a != b && a != c && b != c
    ensures a in free && b in free && c in free
    ensures forall f :: f in free <==> f in rest || f == a || f == b || f == c
  {
    var n := |rest|;
    assert free[n] == a && free[n + 1] == b && free[n + 2] == c;
    assert forall i :: 0 <= i < n ==> free[i] == rest[i];
  }

  lemma FirstOwnersCount(free: seq<nat>, storage: set<nat>, mapFrame: nat, top: nat, headFrame: nat)
    ensures |FirstOwners(free, storage, mapFrame, top, headFrame)| <= |free| + |storage|
  {
    var owner := FirstOwners(free, storage, mapFrame, top, headFrame);
    ElementsCount(free);
    assert owner.Keys == storage + Elements(free);
  }

  function Elements(s: seq<nat>): set<nat> { set x | x in s }

  lemma {:induction false} ElementsCount(s: seq<nat>)
    ensures |Elements(s)| <= |s|
  {
    if s != [] {
      ElementsCount(s[1..]);
      assert Elements(s) == {s[0]} + Elements(s[1..]);
    }
  }

  lemma FirstInvariant(mem: Memory, owner: Owners, kernel: nat, spaces: Spaces, mapFrame: nat, headFrame: nat,
      base: nat, limit: nat)
    requires kernel != 0 && mem == map[kernel := ZeroTable()]
    requires spaces == map[kernel := Space(mapFrame, headFrame, base, limit, [])]
    requires base % PAGE_SIZE == 0 && KERNEL_FLOOR <= base && limit <= ADDRESS_LIMIT
    requires kernel in owner && owner[kernel] == Table(kernel, 4, 0)
    requires mapFrame in owner && owner[mapFrame] == MapNode(kernel)
    requires headFrame in owner && owner[headFrame] == HeadNode(kernel)
    requires forall f :: f in owner && f != kernel && f != mapFrame && f != headFrame ==>
        owner[f].Storage? || owner[f].Free?
    ensures WellFormed(mem, owner, kernel) && SpacesOk(mem, owner, kernel, spaces)
    ensures PagesOk(mem, owner, spaces, LivePages(spaces))
  {
    assert TableOk(mem, owner, kernel, kernel);
    StillReached(mem, owner, kernel, 0);
    assert SpaceOk(mem, owner, kernel, kernel, spaces[kernel]);
    forall r, p: nat | r in spaces && InWindow(spaces[r], p) ensures PageOk(mem, owner, LivePages(spaces), r, p) {
      EmptyTreeLeaf(mem, kernel, KeyOfPage(p));
    }
  }

  lemma EmptyTreeLeaf(mem: Memory, root: nat, k: nat)
    requires root != 0 && mem == map[root := ZeroTable()]
    ensures Leaf(mem, root, k) == 0
  {
    assert TableAt(mem, root, k, 4) == root;
    assert TableAt(mem, root, k, 3) == 0;
    assert TableAt(mem, root, k, 2) == 0;
    assert TableAt(mem, root, k, 1) == 0;
  }

  lemma TableKeepsSpaces(mem: Memory, mem': Memory, owner: Owners, owner': Owners, kernel: nat, spaces: Spaces, t: nat,
      e: nat, f: nat)
    requires SpacesOk(mem, owner, kernel, spaces) && TableAdded(mem, mem', owner, owner', t, e, f)
    requires owner[f].Free? && owner[t].root in spaces
    ensures SpacesOk(mem', owner', kernel, spaces)
  {
    hide WindowOk, RingOk, HasRegion, End, Present, IsFrame, TableWord, SpaceOk, ZeroTable;
    forall r | r in spaces ensures SpaceOk(mem', owner', kernel, r, spaces[r]) {
      TableKeepsSpace(mem, mem', owner, owner', kernel, r, spaces[r], t, e, f);
    }
    forall g | g in owner' ensures OwnerUsed(owner', spaces, g) {
      assert OwnerUsed(owner, spaces, g);
    }
  }

  lemma TableKeepsSpace(mem: Memory, mem': Memory, owner: Owners, owner': Owners, kernel: nat, r: nat, s: Space,
      t: nat, e: nat, f: nat)
    requires SpaceOk(mem, owner, kernel, r, s) && TableAdded(mem, mem', owner, owner', t, e, f) && owner[f].Free?
    ensures SpaceOk(mem', owner', kernel, r, s)
  {
    hide WindowOk, RingOk, End, Present, IsFrame, TableWord, ZeroTable;
  }
}
