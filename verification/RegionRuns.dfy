/**
  Runs of a space's regions, kernel/src/mm/vmm.c:146-234: the linked ring follows every run of the machine, and
  what becomes of the frame that MmVirtAllocatePages maps over when it fills a gap.
 */
module RegionRuns {
  import opened PageTable
  import opened PhysPages
  import opened Regions
  import opened Ownership
  import opened VirtMem
  import opened Runs

  // ----- The ring of a space -----

  /** The linked ring shows the space's regions, each node with the frame its structure lives in. */
  ghost predicate Shows(ring: Ring, s: Space)
    reads ring, ring.nodes
  {
    ring.Linked() && ring.Represents(s.regions) && ring.head.virtualAddress == s.base && ring.head.frame == s.headFrame
  }

  lemma SpaceRing(m: Machine, root: nat)
    requires m.Inv() && root in m.spaces
    ensures RingOk(m.spaces[root].base, m.spaces[root].regions)
  {
    assert SpaceOk(m.mem, m.owner, m.kernel, root, m.spaces[root]);
  }

  /** What a step of the machine does to the regions of one space. */
  lemma RegionsStepped(op: Op, done: bool, f: nat, kernel: nat, s: Snapshot, s': Snapshot, root: nat)
    requires Took(op, done, f, kernel, s, s') && root in s.spaces
    ensures root in s'.spaces && s'.spaces[root].base == s.spaces[root].base
    ensures s'.spaces[root].headFrame == s.spaces[root].headFrame
    ensures var regs, regs' := s.spaces[root].regions, s'.spaces[root].regions;
      if done && op.AllocateRange? && op.root == root then
        op.pages > 0 && regs' == Placed(s.spaces[root].base, regs, f, op.pages)
      else if done && op.FreeRange? && op.root == root then
        var i := IndexOf(regs, op.va, 0);
        i < |regs| && regs[i].frame == f && regs' == Removed(regs, i)
      else regs' == regs
  {
    hide Appends, NewAddress, Placed, Removed, IndexOf, FramesFor, MappedSoFar, FreedSoFar, KeyWritten, OnlyTables,
      SameLeaves, SeesKernel, FixedOk, Missing, NewPages, SpaceOwners;
  }

  /** What MmVirtFindRegion and MmDestroyRegion do to the links, for the operations of a space that are done. */
  method Relink(ring: Ring, op: Op, f: nat, ghost regs: seq<Region>)
    requires ring.Linked() && ring.Represents(regs) && RingOk(ring.head.virtualAddress, regs)
    requires op.AllocateRange? ==> op.pages > 0
    requires op.FreeRange? ==> IndexOf(regs, op.va, 0) < |regs| && regs[IndexOf(regs, op.va, 0)].frame == f
    modifies ring`nodes, ring.nodes`pNext, ring.nodes`pPrev
    ensures ring.Linked()
    ensures match op
      case AllocateRange(_, pages, _) => ring.Represents(Placed(ring.head.virtualAddress, regs, f, pages))
      case FreeRange(_, va) =>
        IndexOf(regs, va, 0) < |regs| && ring.Represents(Removed(regs, IndexOf(regs, va, 0)))
      case _ => ring.Represents(regs)
    ensures forall n :: n in ring.nodes ==> n in old(ring.nodes) || fresh(n)
  {
    hide RingOk, Placed, Removed, IndexOf;
    if op.AllocateRange? {
      var r := ring.FindRegion(op.pages, f, regs);
    } else if op.FreeRange? {
      var found, frame := ring.FreeRegion(op.va, regs);
      assert found && frame == f;
    }
  }

  /** A step of the machine, and of the links of one space's ring. */
  method StepRing(m: Machine, ring: Ring, root: nat, op: Op) returns (done: bool, f: nat)
    requires m.Inv() && root in m.spaces && Shows(ring, m.spaces[root])
    modifies m`spaces, m`mem, m`owner, m.pmm, m.pmm.addressStack
    modifies ring`nodes, ring.nodes`pNext, ring.nodes`pPrev
    ensures m.Inv() && Took(op, done, f, m.kernel, old(Now(m)), Now(m))
    ensures root in m.spaces && Shows(ring, m.spaces[root])
    ensures forall n :: n in ring.nodes ==> n in old(ring.nodes) || fresh(n)
  {
    hide Took, FreeOk, FramesOk, WellFormed, SpacesOk, PagesOk, LivePages, RingOk, Placed, Removed, IndexOf, Stepped;
    ghost var s, regs := Now(m), m.spaces[root].regions;
    SpaceRing(m, root);
    done, f := Step(m, op);
    RegionsStepped(op, done, f, m.kernel, s, Now(m), root);
    if done && (op.AllocateRange? || op.FreeRange?) && op.root == root { Relink(ring, op, f, regs); }
  }

  /**
    Over every run of the machine the linked ring of a space stays a well-linked cycle of exactly its regions, each
    node in the frame that its region's header owns.
   */
  method RunRings(m: Machine, ring: Ring, root: nat, ops: seq<Op>)
    returns (dones: seq<bool>, frames: seq<nat>, ghost trace: seq<Snapshot>)
    requires m.Inv() && root in m.spaces && Shows(ring, m.spaces[root])
    modifies m`spaces, m`mem, m`owner, m.pmm, m.pmm.addressStack
    modifies ring`nodes, ring.nodes`pNext, ring.nodes`pPrev
    ensures m.Inv() && root in m.spaces && Shows(ring, m.spaces[root])
    ensures Traces(m.kernel, ops, dones, frames, trace) && trace[0] == old(Now(m)) && trace[|ops|] == Now(m)
    ensures forall i :: 0 < i < |ring.nodes| ==>
      var n := ring.nodes[i];
      n.frame in m.owner && m.owner[n.frame] == Header(root, n.virtualAddress)
  {
    hide Took, FreeOk, FramesOk, WellFormed, SpacesOk, PagesOk, LivePages, Shows;
    dones, frames, trace := [], [], [Now(m)];
    for i := 0 to |ops|
      invariant m.Inv() && root in m.spaces && Shows(ring, m.spaces[root])
      invariant forall n :: n in ring.nodes ==> n in old(ring.nodes) || fresh(n)
      invariant |dones| == i && |frames| == i && |trace| == i + 1 && trace[0] == old(Now(m)) && trace[i] == Now(m)
      invariant forall j :: 0 <= j < i ==> Took(ops[j], dones[j], frames[j], m.kernel, trace[j], trace[j + 1])
    {
      forall j | 0 <= j < |ring.nodes| ensures ring.nodes[j] in old(ring.nodes) || fresh(ring.nodes[j]) {
        assert ring.nodes[j] in ring.nodes;
      }
      var done, f := StepRing(m, ring, root, ops[i]);
      dones, frames, trace := dones + [done], frames + [f], trace + [Now(m)];
    }
    HeadersOwned(m, ring, root);
  }

  lemma HeadersOwned(m: Machine, ring: Ring, root: nat)
    requires m.Inv() && root in m.spaces && Shows(ring, m.spaces[root])
    ensures forall i :: 0 < i < |ring.nodes| ==>
      var n := ring.nodes[i];
      n.frame in m.owner && m.owner[n.frame] == Header(root, n.virtualAddress)
  {
    var regs := m.spaces[root].regions;
    assert SpaceOk(m.mem, m.owner, m.kernel, root, m.spaces[root]);
    forall i | 0 < i < |ring.nodes|
      ensures var n := ring.nodes[i]; n.frame in m.owner && m.owner[n.frame] == Header(root, n.virtualAddress)
    {
      assert regs[i - 1] == Region(ring.nodes[i].frame, ring.nodes[i].virtualAddress, ring.nodes[i].pages);
    }
  }

  // ----- The gap path -----

  /** Pages outside the range mapped are translated as before. */
  lemma MappedElsewhere(mem: Memory, owner: Owners, mem': Memory, kernel: nat, spaces: Spaces, root: nat, p: nat,
      n: nat, r: nat, q: nat)
    requires root in spaces && r in spaces && IsRoot(mem, owner, r)
    requires WindowOk(kernel, root, spaces[root]) && WindowOk(kernel, r, spaces[r])
    requires forall x: nat :: InRange(x, p, n) ==> InWindow(spaces[root], x)
    requires InWindow(spaces[r], q) && !(r == root && InRange(q, p, n))
    requires RangeWritten(mem, mem', owner, kernel, root, p, n)
    ensures Leaf(mem', r, KeyOfPage(q)) == Leaf(mem, r, KeyOfPage(q))
  {
    hide WindowOk, InWindow, IsRoot, Leaf, KeyOfPage;
    var k := KeyOfPage(q);
    if KeyInRange(k, p, n) && Together(mem, kernel, r, root, k) {
      var x: nat :| InRange(x, p, n) && k == KeyOfPage(x);
      WindowKeys(kernel, root, spaces[root], x);
      WindowKeys(kernel, r, spaces[r], q);
      if r == root { WindowKey(kernel, r, spaces[r], x, q); }
    }
  }

  /** The page of a gap region that was translated to the frame before. */
  ghost predicate GapLedTo(mem: Memory, s: Space, root: nat, n: nat, q: nat, lost: nat) {
    && InRange(q, NewAddress(s.base, s.regions, n) / PAGE_SIZE, n)
    && !InRange(q, ReturnedAddress(s.base, s.regions, n) / PAGE_SIZE, n)
    && FrameOf(Leaf(mem, root, KeyOfPage(q))) == lost
  }

  /** The frame of the page mapped first: it was that of an older region's page. */
  lemma FirstPageOver(mem: Memory, owner: Owners, kernel: nat, spaces: Spaces, root: nat, n: nat)
    requires SpacesOk(mem, owner, kernel, spaces) && PagesOk(mem, owner, spaces, LivePages(spaces))
    requires root in spaces && n > 0 && !Appends(spaces[root].regions, n)
    ensures var p := ReturnedAddress(spaces[root].base, spaces[root].regions, n) / PAGE_SIZE;
      var lost := FrameOf(Leaf(mem, root, KeyOfPage(p)));
      (root, p) in LivePages(spaces) && lost in owner && owner[lost] == Page(root, p)
  {
    hide Leaf, KeyOfPage, FrameOf, FirstFit, AllUsed;
    var s := spaces[root];
    var i := FirstFit(s.regions, n, 0);
    assert SpaceOk(mem, owner, kernel, root, s);
    assert Holds(s.regions[i], s.regions[i].va / PAGE_SIZE);
    PageInWindow(mem, owner, kernel, root, s, s.regions[i].va / PAGE_SIZE);
    assert PageOk(mem, owner, LivePages(spaces), root, s.regions[i].va / PAGE_SIZE);
  }

  /** After it, the only live pages that lead to that frame are those of the gap that did before. */
  lemma LeadsToLost(mem: Memory, owner: Owners, mem': Memory, owner': Owners, kernel: nat, spaces: Spaces, root: nat,
      n: nat, f: nat, flags: nat, r: nat, q: nat)
    requires WellFormed(mem, owner, kernel) && SpacesOk(mem, owner, kernel, spaces)
    requires PagesOk(mem, owner, spaces, LivePages(spaces))
    requires root in spaces && n > 0 && !Appends(spaces[root].regions, n) && f in owner && owner[f].Free?
    requires SpacesOk(mem', owner', kernel, Linked(spaces, root, f, n))
    requires var s := spaces[root];
      var p := ReturnedAddress(s.base, s.regions, n) / PAGE_SIZE;
      && MappedSoFar(mem, owner[f := Header(root, NewAddress(s.base, s.regions, n))], mem', owner', kernel, root, p, n)
      && NewPages(mem', owner, owner', root, p, n, flags)
    ensures var s := spaces[root];
      var lost := FrameOf(Leaf(mem, root, KeyOfPage(ReturnedAddress(s.base, s.regions, n) / PAGE_SIZE)));
      (r, q) in LivePages(Linked(spaces, root, f, n)) && FrameOf(Leaf(mem', r, KeyOfPage(q))) == lost <==>
        r == root && GapLedTo(mem, s, root, n, q, lost)
  {
    hide WellFormed, SpacesOk, PagesOk, Leaf, KeyOfPage, FrameOf, Appends, NewAddress, ReturnedAddress, RegionPage,
      RangeWritten, InWindow, WindowOk, Placed;
    var s := spaces[root];
    var p := ReturnedAddress(s.base, s.regions, n) / PAGE_SIZE;
    var owner1 := owner[f := Header(root, NewAddress(s.base, s.regions, n))];
    FirstPageOver(mem, owner, kernel, spaces, root, n);
    LivePlaced(spaces, root, f, n);
    RegionFacts(mem, owner, kernel, spaces, root, n);
    NewPageInside(spaces, Linked(spaces, root, f, n), root, f, n, p, n - 1);
    if r == root && InRange(q, p, n) {
      assert NewPage(mem', owner, owner', root, q, flags);
    } else if (r, q) in LivePages(Linked(spaces, root, f, n)) {
      LiveInWindow(mem', owner', kernel, Linked(spaces, root, f, n), r, q);
      LiveInWindow(mem', owner', kernel, Linked(spaces, root, f, n), root, q);
      SpaceRoot(mem, owner, kernel, spaces, r);
      assert IsRoot(mem, owner1, r);
      MappedElsewhere(mem, owner1, mem', kernel, Linked(spaces, root, f, n), root, p, n, r, q);
      if (r, q) in LivePages(spaces) {
        LivePageBacked(mem, owner, kernel, spaces, r, q);
        if r == root && InRange(q, NewAddress(s.base, s.regions, n) / PAGE_SIZE, n) { NewPageApart(s, n, q); }
      }
    }
  }

  lemma LiveInWindow(mem: Memory, owner: Owners, kernel: nat, spaces: Spaces, r: nat, q: nat)
    requires SpacesOk(mem, owner, kernel, spaces) && r in spaces
    ensures WindowOk(kernel, r, spaces[r]) && ((r, q) in LivePages(spaces) ==> InWindow(spaces[r], q))
  {
    hide WindowOk, InWindow, RegionPage;
    assert SpaceOk(mem, owner, kernel, r, spaces[r]);
    if (r, q) in LivePages(spaces) { PageInWindow(mem, owner, kernel, r, spaces[r], q); }
  }

  lemma LivePageBacked(mem: Memory, owner: Owners, kernel: nat, spaces: Spaces, r: nat, q: nat)
    requires SpacesOk(mem, owner, kernel, spaces) && PagesOk(mem, owner, spaces, LivePages(spaces))
    requires (r, q) in LivePages(spaces)
    ensures var g := FrameOf(Leaf(mem, r, KeyOfPage(q))); g in owner && owner[g] == Page(r, q)
  {
    hide WindowOk, RegionPage, Leaf, KeyOfPage, FrameOf;
    LiveInWindow(mem, owner, kernel, spaces, r, q);
    assert PageOk(mem, owner, LivePages(spaces), r, q);
  }

  /** The frame can be found nowhere by looking at the machine. */
  ghost predicate InNoPlace(m: Machine, f: nat)
    requires m.pmm.Valid()
    reads m, m.pmm, m.pmm.addressStack
  {
    forall place :: !FoundAt(m, f, place)
  }

  lemma LostPlaces(m: Machine, f: nat, root: nat, p: nat)
    requires m.Base() && f in m.owner && m.owner[f] == Page(root, p)
    ensures InNoPlace(m, f) <==>
      forall r: nat, q: nat :: !((r, q) in LivePages(m.spaces) && FrameOf(Leaf(m.mem, r, KeyOfPage(q))) == f)
  {
    hide FreeOk, FramesOk, WellFormed, SpacesOk, Leaf, KeyOfPage, FrameOf, RegionPage;
    forall place: Place | !place.PageOf? ensures !FoundAt(m, f, place) { PlaceBesidePages(m, f, place); }
    forall r: nat, q: nat
      ensures FoundAt(m, f, PageOf(r, q)) <==>
        (r, q) in LivePages(m.spaces) && FrameOf(Leaf(m.mem, r, KeyOfPage(q))) == f
    {}
  }

  lemma FrameStays(mem: Memory, owner: Owners, mem': Memory, owner': Owners, kernel: nat, root: nat, p: nat, n: nat,
      f: nat, use: Owner, g: nat)
    requires MappedSoFar(mem, owner[f := use], mem', owner', kernel, root, p, n)
    requires f in owner && owner[f].Free? && g in owner && owner[g].Page?
    ensures g in owner' && owner'[g] == owner[g]
  {
    hide RangeWritten, Kept;
    assert TakenFrom(owner[f := use][g], owner'[g], root, p, n);
  }

  /** A page's frame that the page no longer leads to breaks the invariant. */
  lemma NotHeld(mem: Memory, owner: Owners, owner': Owners, spaces: Spaces, live: iset<(nat, nat)>, root: nat, p: nat,
      n: nat, flags: nat, lost: nat)
    requires n > 0 && NewPages(mem, owner, owner', root, p, n, flags)
    requires lost in owner && owner[lost].Page? && lost in owner' && owner'[lost] == Page(root, p)
    ensures !PagesOk(mem, owner', spaces, live)
  {
    hide Leaf, KeyOfPage, FrameOf, InWindow;
    assert NewPage(mem, owner, owner', root, p, flags);
    if PagesOk(mem, owner', spaces, live) { HeldPage(mem, owner', spaces, live, root, p, lost); }
  }

  lemma HeldPage(mem: Memory, owner: Owners, spaces: Spaces, live: iset<(nat, nat)>, root: nat, p: nat, f: nat)
    requires PagesOk(mem, owner, spaces, live) && f in owner && owner[f] == Page(root, p)
    ensures FrameOf(Leaf(mem, root, KeyOfPage(p))) == f
  {
    assert HolderOk(mem, spaces, live, f, root, p);
  }

  /**
    MmVirtAllocatePages on the gap path. The page mapped first is a live page of an older region. Its frame keeps
    its owner, so it is not free, but the invariant is lost: the frame is in no place exactly when no page of the
    gap led to it.
   */
  method AllocateInGap(m: Machine, root: nat, pages: nat, flags: nat) returns (va: nat, f: nat, ghost lost: nat)
    requires m.Inv() && root in m.spaces && pages > 0 && flags < PAGE_SIZE && !Appends(m.spaces[root].regions, pages)
    requires m.FreeCount() >=
        1 + FramesFor(ReturnedAddress(m.spaces[root].base, m.spaces[root].regions, pages) / PAGE_SIZE, pages)
    modifies m`spaces, m`mem, m`owner, m.pmm
    ensures m.Base() && !m.Inv() && m.spaces == Linked(old(m.spaces), root, f, pages)
    ensures va == ReturnedAddress(old(m.spaces)[root].base, old(m.spaces)[root].regions, pages)
    ensures lost == FrameOf(Leaf(old(m.mem), root, KeyOfPage(va / PAGE_SIZE)))
    ensures (root, va / PAGE_SIZE) in LivePages(old(m.spaces))
    ensures lost in m.owner && m.owner[lost] == Page(root, va / PAGE_SIZE)
    ensures InNoPlace(m, lost) <==>
      forall q: nat :: !GapLedTo(old(m.mem), old(m.spaces)[root], root, pages, q, lost)
  {
    hide FreeOk, FramesOk, WellFormed, SpacesOk, PagesOk, LivePages, Leaf, KeyOfPage, FrameOf, Appends, NewAddress,
      ReturnedAddress, Placed, MappedSoFar, NewPages, FramesFor, GapLedTo, InNoPlace, Linked;
    ghost var mem, owner, spaces := m.mem, m.owner, m.spaces;
    FirstPageOver(mem, owner, m.kernel, spaces, root, pages);
    va, f := m.AllocatePages(root, pages, flags);
    lost := FrameOf(Leaf(mem, root, KeyOfPage(va / PAGE_SIZE)));
    FrameStays(mem, owner, m.mem, m.owner, m.kernel, root, va / PAGE_SIZE, pages, f,
      Header(root, NewAddress(spaces[root].base, spaces[root].regions, pages)), lost);
    NotHeld(m.mem, owner, m.owner, m.spaces, LivePages(m.spaces), root, va / PAGE_SIZE, pages, flags, lost);
    forall r: nat, q: nat
      ensures (r, q) in LivePages(m.spaces) && FrameOf(Leaf(m.mem, r, KeyOfPage(q))) == lost <==>
        r == root && GapLedTo(mem, spaces[root], root, pages, q, lost)
    {
      LeadsToLost(mem, owner, m.mem, m.owner, m.kernel, spaces, root, pages, f, flags, r, q);
    }
    LostPlaces(m, lost, root, va / PAGE_SIZE);
    assert forall q: nat :: GapLedTo(mem, spaces[root], root, pages, q, lost) <==>
      (root, q) in LivePages(m.spaces) && FrameOf(Leaf(m.mem, root, KeyOfPage(q))) == lost;
  }

  lemma FewFrames(p: nat, n: nat)
    requires 0 < n <= 2
    ensures FramesFor(p, n) <= n + 6
  {}

  /** No page of the gap that the release left leads to any frame. */
  lemma NothingLeads(mem: Memory, s: Space, root: nat, base: nat, f: nat, h: nat, lost: nat)
    requires s.base == base && s.regions == TwoRegions(base, f, h) && lost != 0
    requires Leaf(mem, root, KeyOfPage((base + PAGE_SIZE) / PAGE_SIZE)) == 0
    ensures forall q: nat :: !GapLedTo(mem, s, root, 1, q, lost)
  {
    hide Leaf, KeyOfPage, NewAddress, ReturnedAddress;
    GapFilled(base, f, h);
  }

  /** An allocation of one or two pages at the end of the ring. */
  method AllocateNext(m: Machine, root: nat, n: nat) returns (f: nat)
    requires m.Inv() && root in m.spaces && 0 < n <= 2 && m.FreeCount() >= 9
    requires var s := m.spaces[root];
      Appends(s.regions, n) && NewAddress(s.base, s.regions, n) + n * PAGE_SIZE <= s.limit
    modifies m`spaces, m`mem, m`owner, m.pmm
    ensures root in m.spaces && m.spaces == Linked(old(m.spaces), root, f, n)
    ensures m.Inv() && m.FreeCount() >= old(m.FreeCount()) - 9
  {
    hide FreeOk, FramesOk, WellFormed, SpacesOk, PagesOk, LivePages, Appends, NewAddress, ReturnedAddress, Placed,
      MappedSoFar, NewPages, FramesFor;
    FewFrames(ReturnedAddress(m.spaces[root].base, m.spaces[root].regions, n) / PAGE_SIZE, n);
    var va;
    va, f := m.AllocatePages(root, n, 0);
  }

  /** Three allocations, and the second freed. */
  method MakeGap(m: Machine, root: nat, base: nat) returns (f: nat, h: nat)
    requires m.Inv() && root in m.spaces && m.spaces[root].regions == [] && m.spaces[root].base == base
    requires m.FreeCount() >= 36 && base + 4 * PAGE_SIZE <= m.spaces[root].limit && base % PAGE_SIZE == 0
    modifies m`spaces, m`mem, m`owner, m.pmm, m.pmm.addressStack
    ensures root in m.spaces && m.spaces[root].base == base && m.spaces[root].regions == TwoRegions(base, f, h)
    ensures m.Inv() && m.FreeCount() >= 9 && Leaf(m.mem, root, KeyOfPage((base + PAGE_SIZE) / PAGE_SIZE)) == 0
  {
    hide FreeOk, FramesOk, WellFormed, SpacesOk, PagesOk, LivePages, Leaf, KeyOfPage, Appends, NewAddress, Placed,
      IndexOf, Removed, RangeWritten, ReleasedPages, Kept;
    ThreePlaced(base, 0, 0, 0);
    f := AllocateNext(m, root, 1);
    ThreePlaced(base, f, 0, 0);
    var g := AllocateNext(m, root, 2);
    ThreePlaced(base, f, g, 0);
    h := AllocateNext(m, root, 1);
    ThreePlaced(base, f, g, h);
    MiddleReleased(base, f, g, h);
    var found := m.FreePages(root, base + PAGE_SIZE);
    assert InRange((base + PAGE_SIZE) / PAGE_SIZE, (base + PAGE_SIZE) / PAGE_SIZE, 2);
  }

  /**
    A run of the machine that loses a frame: three allocations, the second freed, and one more. The last is handed
    the first region's page; the frame that was mapped there is neither free nor found anywhere.
   */
  method LoseFrame(m: Machine, root: nat, base: nat) returns (ghost lost: nat)
    requires m.Inv() && root in m.spaces && m.spaces[root].regions == [] && m.spaces[root].base == base
    requires m.FreeCount() >= 36 && base + 4 * PAGE_SIZE <= m.spaces[root].limit
    modifies m`spaces, m`mem, m`owner, m.pmm, m.pmm.addressStack
    ensures m.Base() && !m.Inv()
    ensures lost in m.owner && m.owner[lost] == Page(root, base / PAGE_SIZE) && InNoPlace(m, lost)
  {
    hide FreeOk, FramesOk, WellFormed, SpacesOk, PagesOk, LivePages, Leaf, KeyOfPage, FrameOf, Appends, NewAddress,
      ReturnedAddress, FramesFor, GapLedTo, InNoPlace, Linked, RingOk;
    SpaceRing(m, root);
    BaseAligned(base, m.spaces[root].regions);
    var f, h := MakeGap(m, root, base);
    GapFilled(base, f, h);
    FewFrames(base / PAGE_SIZE, 1);
    ghost var mem, s := m.mem, m.spaces[root];
    var va, g;
    va, g, lost := AllocateInGap(m, root, 1, 0);
    FrameAligned(m.owner, m.pmm.addressStack.Length, lost);
    NothingLeads(mem, s, root, base, f, h, lost);
  }

  lemma BaseAligned(base: nat, regs: seq<Region>)
    requires RingOk(base, regs)
    ensures base % PAGE_SIZE == 0
  {}
}
