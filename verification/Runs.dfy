/**
  Whole runs of the memory manager. Over any maps and unmaps through any spaces the trees read as flat maps;
  and from the boot memory map through any sequence of new spaces, region allocations and frees, and fixed
  mappings, each usable frame keeps exactly one owner.
 */
module Runs {
  import opened PageTable
  import opened PhysPages
  import opened Regions
  import opened Ownership
  import opened VirtMem

  datatype Op =
    | NewSpace
    | AllocateRange(root: nat, pages: nat, flags: nat)
    | FreeRange(root: nat, va: nat)
    | MapPage(root: nat, va: nat, pa: nat, flags: nat)
    | UnmapPage(root: nat, va: nat)

  /** The space an operation goes through; a new space goes through none. */
  function OpRoot(op: Op): nat {
    if op.NewSpace? then 0 else op.root
  }

  /** A fixed mapping is of no live region page: in the lower half of its own space, in the upper half of the kernel. */
  predicate FixedOk(spaces: Spaces, kernel: nat, root: nat, k: nat)
    requires kernel in spaces && root in spaces
  {
    if Digit(k, 4) < 256 then !RegionPage(spaces[root].regions, k)
        else !RegionPage(spaces[kernel].regions, KEY_SPAN + k)
  }

  lemma FixedIsOutside(m: Machine, root: nat, k: nat)
    requires m.Inv() && IsKey(k) && m.kernel in m.spaces && root in m.spaces && FixedOk(m.spaces, m.kernel, root, k)
    ensures OutsideLive(m.spaces, LivePages(m.spaces), root, k)
  {
    hide WellFormed, PagesOk, FreeOk, FramesOk, RegionPage, KeyOfPage, Digit, SpacesOk;
    forall r, p: nat | r in m.spaces && (r, p) in LivePages(m.spaces) && (r == root || Digit(k, 4) >= 256)
      ensures KeyOfPage(p) != k
    {
      LivePageKey(m.mem, m.owner, m.kernel, m.spaces, r, p);
      UpperDigit(k);
    }
  }

  lemma LivePageKey(mem: Memory, owner: Owners, kernel: nat, spaces: Spaces, r: nat, p: nat)
    requires SpacesOk(mem, owner, kernel, spaces) && r in spaces && RegionPage(spaces[r].regions, p)
    ensures p == KeyOfPage(p) + if r == kernel then KEY_SPAN else 0
    ensures KeyOfPage(p) >= 0x8_0000_0000 <==> r == kernel
  {
    hide RegionPage, KeyOfPage, AllUsed, RingOk;
    assert SpaceOk(mem, owner, kernel, r, spaces[r]);
    PageInWindow(mem, owner, kernel, r, spaces[r], p);
    PageOfKey(kernel, r, spaces[r], p);
  }

  // ----- Boot -----

  /** The frames behind the address stack. */
  function StackFrames(es: seq<Entry>, k: nat): set<nat>
    requires k < |es|
  {
    Elements(PageRun(es[k].base, StackBytes(es) / PAGE_SIZE))
  }

  lemma BootFrames(es: seq<Entry>, k: nat)
    requires MapOk(es) && HoldsStack(es, k, StackBytes(es))
    ensures var free := PagesOf(Shrunk(es, k, StackBytes(es)));
      && Distinct(free)
      && (forall f :: f in PagesOf(es) ==> IsFrame(f))
      && (forall f :: f in PagesOf(es) <==> f in free || f in StackFrames(es, k))
      && (forall f :: f in free ==> f !in StackFrames(es, k))
      && |free| + |StackFrames(es, k)| <= |PagesOf(es)|
  {
    hide MapOk, HoldsStack, Shrunk, PagesOf;
    HolderInRange(es, k);
    var cb := StackBytes(es);
    var es' := Shrunk(es, k, cb);
    forall f: nat
      ensures f in PagesOf(es) <==> f in PagesOf(es') || f in PageRun(es[k].base, cb / PAGE_SIZE)
      ensures !(f in PagesOf(es') && f in PageRun(es[k].base, cb / PAGE_SIZE))
      ensures f in PagesOf(es) ==> IsFrame(f)
    {
      ShrunkPages(es, k, cb, f);
      PagesOfCovered(es, f);
      if f in PagesOf(es) { CoveredIsFrame(es, f); }
    }
    ShrunkPages(es, k, cb, 0);
    PagesOfDistinct(es');
    StackCount(es, k, cb);
    ElementsCount(PageRun(es[k].base, cb / PAGE_SIZE));
  }

  lemma CoveredIsFrame(es: seq<Entry>, f: nat)
    requires MapOk(es) && exists i :: 0 <= i < |es| && Covers(es[i], f)
    ensures IsFrame(f)
  {
    var i :| 0 <= i < |es| && Covers(es[i], f);
    assert UsableOk(es[i]);
  }

  /** One of the frames holds slot i, eight bytes, of the stack at base. */
  ghost predicate SlotStored(frames: set<nat>, base: nat, i: nat) {
    exists f :: f in frames && SlotInside(base, i, f)
  }

  /** Each slot of the stack's array lies in one storage frame. */
  ghost predicate SlotsStored(es: seq<Entry>, k: nat, n: nat) {
    k < |es| && forall i :: 0 <= i < n ==> SlotStored(StackFrames(es, k), es[k].base, i)
  }

  lemma SlotsInStorage(es: seq<Entry>, k: nat)
    requires MapOk(es) && HoldsStack(es, k, StackBytes(es))
    ensures SlotsStored(es, k, |PagesOf(es)|)
  {
    hide MapOk, PagesOf, SlotInside, StackBytes;
    HolderInRange(es, k);
    forall i: nat | i < |PagesOf(es)| ensures SlotStored(StackFrames(es, k), es[k].base, i) {
      SlotsOutside(es, k, i);
    }
  }

  /** A usable page that is not storage holds no byte of a slot. */
  lemma SlotsElsewhere(es: seq<Entry>, k: nat)
    requires MapOk(es) && HoldsStack(es, k, StackBytes(es)) && k < |es|
    ensures forall i, f :: 0 <= i < |PagesOf(es)| && f in PagesOf(es) && f !in StackFrames(es, k) ==>
        SlotOutside(es[k].base, i, f)
  {
    BootFrames(es, k);
    hide MapOk, PagesOf, SlotOutside, StackBytes, StackFrames, Shrunk;
    forall i: nat, f: nat | i < |PagesOf(es)| && f in PagesOf(es) && f !in StackFrames(es, k)
      ensures SlotOutside(es[k].base, i, f)
    {
      SlotsOutside(es, k, i);
    }
  }

  /**
    MmPhysInit and the kernel's page map: every usable page of the memory map gets an owner, the stack's own
    pages first. The kernel's regions start at base; limit is where the append path is not followed further.
   */
  method Boot(entries: array<Entry>, base: nat, limit: nat) returns (m: Machine, k: nat)
    requires MapOk(entries[..]) && exists k: nat :: HoldsStack(entries[..], k, StackBytes(entries[..]))
    requires |PagesOf(entries[..])| >= StackBytes(entries[..]) / PAGE_SIZE + 3
    requires base % PAGE_SIZE == 0 && KERNEL_FLOOR <= base && limit <= ADDRESS_LIMIT
    modifies entries
    ensures fresh(m) && fresh(m.pmm) && fresh(m.pmm.addressStack) && m.Inv()
    ensures forall f :: f in m.owner <==> f in PagesOf(old(entries[..]))
    ensures HoldsStack(old(entries[..]), k, StackBytes(old(entries[..])))
    ensures forall f :: f in m.owner && m.owner[f].Storage? <==> f in StackFrames(old(entries[..]), k)
    ensures SlotsStored(old(entries[..]), k, m.pmm.addressStack.Length)
    ensures m.pmm.addressStack.Length == |PagesOf(old(entries[..]))|
    ensures m.spaces.Keys == {m.kernel} && m.spaces[m.kernel].regions == []
    ensures m.spaces[m.kernel].base == base && m.spaces[m.kernel].limit == limit
  {
    hide MapOk, HoldsStack, PagesOf, Shrunk, StackFrames, SlotsStored, SlotOutside;
    ghost var es := entries[..];
    var stack: AddressStack;
    stack, k := PhysInit(entries);
    BootFrames(es, k);
    HolderInRange(es, k);
    StackCount(es, k, StackBytes(es));
    SlotsInStorage(es, k);
    m := new Machine(stack, base, limit, StackFrames(es, k));
  }

  lemma HolderInRange(es: seq<Entry>, k: nat)
    requires HoldsStack(es, k, StackBytes(es))
    ensures k < |es| && StackBytes(es) <= es[k].length && es[k].usable
  {}

  // ----- The flat maps -----

  datatype MapOp = Put(root: nat, va: nat, pa: nat, flags: nat) | Clear(root: nat, va: nat)

  function WordOf(op: MapOp): nat {
    if op.Put? then Bits.Or(op.pa, op.flags) else 0
  }

  /**
    The leaf word of key k in space r after the operations, if it was w before: what the last operation on k
    left, among those through r and through the spaces that had the kernel's upper-half entry for k as r had.
   */
  ghost function Flat(mem: Memory, kernel: nat, ops: seq<MapOp>, r: nat, k: nat, w: nat): nat {
    if ops == [] then w
    else
      var op := ops[|ops| - 1];
      if KeyOf(op.va) == k && Together(mem, kernel, r, op.root, k) then WordOf(op)
      else Flat(mem, kernel, ops[..|ops| - 1], r, k, w)
  }

  /** Every space reads as its flat map. */
  ghost predicate ReadsFlat(mem: Memory, owner: Owners, mem': Memory, kernel: nat, ops: seq<MapOp>) {
    forall r, k :: IsRoot(mem, owner, r) && IsKey(k) ==>
        Leaf(mem', r, k) == Flat(mem, kernel, ops, r, k, Leaf(mem, r, k))
  }

  lemma FlatStep(mem: Memory, owner: Owners, mem1: Memory, owner1: Owners, mem2: Memory, kernel: nat, ops: seq<MapOp>,
      i: nat)
    requires WellFormed(mem, owner, kernel) && WellFormed(mem1, owner1, kernel) && Kept(mem, owner, mem1, owner1)
    requires i < |ops| && IsRoot(mem, owner, ops[i].root) && ReadsFlat(mem, owner, mem1, kernel, ops[..i])
    requires KeyWritten(mem1, mem2, owner1, kernel, ops[i].root, KeyOf(ops[i].va), WordOf(ops[i]))
    ensures ReadsFlat(mem, owner, mem2, kernel, ops[..i + 1])
  {
    hide WellFormed, Leaf, KeyOf, Together, Kept, WordOf;
    assert ops[..i + 1][..i] == ops[..i];
    forall r, k | IsRoot(mem, owner, r) && IsKey(k)
      ensures Leaf(mem2, r, k) == Flat(mem, kernel, ops[..i + 1], r, k, Leaf(mem, r, k))
    {
      StillRoot(mem, owner, mem1, owner1, r);
      TogetherStays(mem, owner, mem1, owner1, kernel, r, ops[i].root, k);
    }
  }

  lemma FlatNone(mem: Memory, owner: Owners, kernel: nat, ops: seq<MapOp>)
    ensures ReadsFlat(mem, owner, mem, kernel, ops[..0])
  {}

  /** Spaces that share a kernel entry have one flat map for its keys. */
  lemma {:induction false} FlatShared(mem: Memory, kernel: nat, ops: seq<MapOp>, r: nat, k: nat, w: nat)
    requires Digit(k, 4) >= 256 && Shares(mem, kernel, r, k)
    ensures Flat(mem, kernel, ops, r, k, w) == Flat(mem, kernel, ops, kernel, k, w)
  {
    hide Digit, Shares, KeyOf;
    if ops != [] {
      assert Shares(mem, kernel, kernel, k) by { KernelShares(mem, kernel, r, k); }
      FlatShared(mem, kernel, ops[..|ops| - 1], r, k, w);
    }
  }

  lemma KernelShares(mem: Memory, kernel: nat, r: nat, k: nat)
    requires Shares(mem, kernel, r, k)
    ensures Shares(mem, kernel, kernel, k)
  {}

  /** In the lower half a space's flat map only follows the operations through that space. */
  lemma {:induction false} FlatPrivate(mem: Memory, kernel: nat, ops: seq<MapOp>, r: nat, k: nat, w: nat)
    requires Digit(k, 4) < 256 && forall i :: 0 <= i < |ops| ==> ops[i].root != r
    ensures Flat(mem, kernel, ops, r, k, w) == w
  {
    hide Digit, KeyOf;
    if ops != [] { FlatPrivate(mem, kernel, ops[..|ops| - 1], r, k, w); }
  }

  /** Key k is in the upper half, and space r shares the kernel's entry for it. */
  ghost predicate SharedKey(mem: Memory, owner: Owners, kernel: nat, r: nat, k: nat) {
    IsRoot(mem, owner, r) && IsKey(k) && Digit(k, 4) >= 256 && Shares(mem, kernel, r, k)
  }

  /** Key k is in the lower half of space r, and no operation goes through r. */
  ghost predicate PrivateKey(mem: Memory, owner: Owners, ops: seq<MapOp>, r: nat, k: nat) {
    IsRoot(mem, owner, r) && IsKey(k) && Digit(k, 4) < 256 && forall i :: 0 <= i < |ops| ==> ops[i].root != r
  }

  /**
    The radix trees refine flat maps: after any maps and unmaps, through any spaces, at any addresses, each key
    of each space reads what the last operation on it left. So spaces that share a kernel entry still translate
    its keys alike, and the lower half of a space no operation went through is unchanged.
   */
  method RunMaps(m: Machine, ops: seq<MapOp>)
    requires m.Base() && m.FreeCount() >= 3 * |ops| && forall i :: 0 <= i < |ops| ==> ops[i].root in m.spaces
    modifies m`mem, m`owner, m.pmm
    ensures m.Base() && Kept(old(m.mem), old(m.owner), m.mem, m.owner)
    ensures ReadsFlat(old(m.mem), old(m.owner), m.mem, m.kernel, ops)
    ensures forall r, k :: SharedKey(old(m.mem), old(m.owner), m.kernel, r, k) ==>
        Leaf(m.mem, r, k) == Leaf(m.mem, m.kernel, k)
    ensures forall r, k :: PrivateKey(old(m.mem), old(m.owner), ops, r, k) ==>
        Leaf(m.mem, r, k) == Leaf(old(m.mem), r, k)
  {
    hide FreeOk, FramesOk, WellFormed, SpacesOk, KeyOf, Leaf, ReadsFlat, KeyWritten, Kept, WalksKept, LeafTables,
        OnlyTables, Missing,
      Shares, Digit, IsRoot;
    ghost var mem, owner := m.mem, m.owner;
    KernelIsRoot(mem, owner, m.kernel);
    FlatNone(mem, owner, m.kernel, ops);
    NothingMoved(mem, owner);
    for i := 0 to |ops|
      invariant m.Base() && m.FreeCount() >= 3 * (|ops| - i) && Kept(mem, owner, m.mem, m.owner)
      invariant ReadsFlat(mem, owner, m.mem, m.kernel, ops[..i])
    {
      ghost var mem1, owner1 := m.mem, m.owner;
      SpaceRoot(mem, owner, m.kernel, m.spaces, ops[i].root);
      match ops[i] {
        case Put(root, va, pa, flags) =>
          MissingAtMost(m.mem, root, KeyOf(va));
          m.VirtMap(root, va, pa, flags);
        case Clear(root, va) =>
          m.VirtUnmap(root, va);
      }
      FlatStep(mem, owner, mem1, owner1, m.mem, m.kernel, ops, i);
      KeptTwice(mem, owner, mem1, owner1, m.mem, m.owner);
    }
    assert ops[..|ops|] == ops;
    SharedAlike(mem, owner, m.mem, m.kernel, ops);
    LowerPrivate(mem, owner, m.mem, m.kernel, ops);
  }

  lemma MissingAtMost(mem: Memory, root: nat, k: nat)
    ensures Missing(mem, root, k) <= 3
  {}

  lemma SharedAlike(mem: Memory, owner: Owners, mem': Memory, kernel: nat, ops: seq<MapOp>)
    requires WellFormed(mem, owner, kernel) && IsRoot(mem, owner, kernel) && ReadsFlat(mem, owner, mem', kernel, ops)
    ensures forall r, k :: SharedKey(mem, owner, kernel, r, k) ==> Leaf(mem', r, k) == Leaf(mem', kernel, k)
  {
    forall r, k | SharedKey(mem, owner, kernel, r, k) ensures Leaf(mem', r, k) == Leaf(mem', kernel, k) {
      NoNullRoot(mem, owner, kernel, r, kernel);
      hide Leaf, WellFormed, Flat, Shares, Digit;
      SharedTranslation(mem, kernel, r, k);
      FlatShared(mem, kernel, ops, r, k, Leaf(mem, r, k));
    }
  }

  lemma LowerPrivate(mem: Memory, owner: Owners, mem': Memory, kernel: nat, ops: seq<MapOp>)
    requires ReadsFlat(mem, owner, mem', kernel, ops)
    ensures forall r, k :: PrivateKey(mem, owner, ops, r, k) ==> Leaf(mem', r, k) == Leaf(mem, r, k)
  {
    hide Leaf, Flat, Digit;
    forall r, k | PrivateKey(mem, owner, ops, r, k) ensures Leaf(mem', r, k) == Leaf(mem, r, k) {
      FlatPrivate(mem, kernel, ops, r, k, Leaf(mem, r, k));
    }
  }

  /**
    MmNewPageMap, then any maps and unmaps through any spaces: an upper-half key whose kernel entry was present
    is translated alike by the new space and the kernel, and the lower half of a space that no operation went
    through, empty for the new one, is unchanged.
   */
  method NewSpaceThenMaps(m: Machine, ops: seq<MapOp>) returns (root: nat, mapped: bool)
    requires m.Base() && m.FreeCount() >= 3 + 3 * |ops|
    modifies m`spaces, m`mem, m`owner, m.pmm
    ensures m.Base() && root !in old(m.spaces) && root in m.spaces
    ensures mapped <==> forall i :: 0 <= i < |ops| ==> ops[i].root in m.spaces
    ensures forall k :: IsKey(k) && KernelEntry(old(m.mem), m.kernel, k) ==>
        Leaf(m.mem, root, k) == Leaf(m.mem, m.kernel, k)
    ensures (forall i :: 0 <= i < |ops| ==> ops[i].root != root) ==>
      forall k :: IsKey(k) && Digit(k, 4) < 256 ==> Leaf(m.mem, root, k) == 0
    ensures forall r, k :: PrivateKey(old(m.mem), old(m.owner), ops, r, k) ==>
        Leaf(m.mem, r, k) == Leaf(old(m.mem), r, k)
  {
    hide FreeOk, FramesOk, SpacesOk, PagesOk, LivePages, Leaf, Shares, Kept, ReadsFlat, Digit, KernelEntry, SeesKernel,
        WellFormed, IsRoot;
    ghost var mem0, owner0 := m.mem, m.owner;
    KernelIsRoot(mem0, owner0, m.kernel);
    root := m.NewPageMap();
    ghost var mem1, owner1 := m.mem, m.owner;
    SharedAtCreation(mem0, owner0, mem1, owner1, m.kernel, root);
    RootsKept(mem0, owner0, mem1, owner1);
    mapped := forall i :: 0 <= i < |ops| ==> ops[i].root in m.spaces;
    if mapped { RunMaps(m, ops); }
  }

  lemma RootsKept(mem: Memory, owner: Owners, mem': Memory, owner': Owners)
    requires Kept(mem, owner, mem', owner')
    ensures forall r :: IsRoot(mem, owner, r) ==> IsRoot(mem', owner', r)
  {}

  /**
    A mapping is looked up again exactly when its flags leave the address bits alone; a walk to it permits writing and
    user access exactly when they say so.
   */
  method MapThenLookup(m: Machine, root: nat, va: nat, pa: nat, flags: nat) returns (found: nat)
    requires m.Base() && root in m.spaces && m.FreeCount() >= Missing(m.mem, root, KeyOf(va)) && pa % PAGE_SIZE == 0
    modifies m`mem, m`owner, m.pmm
    ensures m.Base() && (found == pa <==> Bits.And(pa / PAGE_SIZE, flags / PAGE_SIZE) == flags / PAGE_SIZE)
    ensures flags < PAGE_SIZE ==> found == pa
    ensures WalkWritable(m.mem, root, KeyOf(va)) <==> flags / 2 % 2 == 1
    ensures WalkForUser(m.mem, root, KeyOf(va)) <==> flags / 4 % 2 == 1
  {
    hide FreeOk, FramesOk, WellFormed, SpacesOk, KeyOf, Leaf, KeyWritten, Kept, WalksKept, LeafTables, OnlyTables,
        FrameOf, Missing, IsRoot, WalkWritable, WalkForUser, Writable, ForUser, Present;
    ghost var mem0, owner0 := m.mem, m.owner;
    SpaceRoot(mem0, owner0, m.kernel, m.spaces, root);
    m.VirtMap(root, va, pa, flags);
    KeyValue(mem0, m.mem, owner0, m.kernel, root, KeyOf(va), Bits.Or(pa, flags));
    TranslationRoundTrip(pa, flags);
    MappingPermits(pa, flags);
    SpaceRoot(m.mem, m.owner, m.kernel, m.spaces, root);
    LeafPermits(m.mem, m.owner, m.kernel, root, KeyOf(va));
    found := m.GetPhysicalAddress(root, va);
  }

  // ----- Steps -----

  /** Tables keep their place and their present entries; nothing in the lower half changes outside space root. */
  ghost predicate Stepped(mem: Memory, owner: Owners, mem': Memory, owner': Owners, root: nat) {
    && Kept(mem, owner, mem', owner')
    && (forall r, k :: IsRoot(mem, owner, r) && r != root && IsKey(k) && Digit(k, 4) < 256 ==>
        Leaf(mem', r, k) == Leaf(mem, r, k))
  }

  lemma NotStepped(mem: Memory, owner: Owners, root: nat)
    ensures Stepped(mem, owner, mem, owner, root)
  {}

  lemma SpaceStepped(mem: Memory, owner: Owners, mem': Memory, owner': Owners, root: nat)
    requires Kept(mem, owner, mem', owner') && SameLeaves(mem, mem', owner)
    ensures Stepped(mem, owner, mem', owner', root)
  {}

  lemma AllocationStepped(mem: Memory, owner: Owners, mem': Memory, owner': Owners, kernel: nat, root: nat, f: nat,
      va: nat, n: nat)
    requires f in owner && owner[f].Free?
    requires MappedSoFar(mem, owner[f := Header(root, va)], mem', owner', kernel, root, va / PAGE_SIZE, n)
    ensures Stepped(mem, owner, mem', owner', root)
  {
    hide Leaf, Kept, KeyInRange, Digit;
    var owner1 := owner[f := Header(root, va)];
    assert owner'[f] == owner1[f] by { assert TakenFrom(owner1[f], owner'[f], root, va / PAGE_SIZE, n); }
    KeptOwner(mem, owner, mem', owner', f, Header(root, va), Header(root, va));
    assert owner'[f := Header(root, va)] == owner';
    forall r, k | IsRoot(mem, owner, r) && r != root && IsKey(k) && Digit(k, 4) < 256
      ensures Leaf(mem', r, k) == Leaf(mem, r, k)
    {
      assert IsRoot(mem, owner1, r);
    }
  }

  lemma ReleaseStepped(mem: Memory, owner: Owners, mem': Memory, owner': Owners, kernel: nat, root: nat, f: nat,
      va: nat, n: nat)
    requires f in owner && owner[f] == Header(root, va) && f in owner' && owner'[f].Free?
    requires FreedSoFar(mem, owner, mem', owner'[f := Header(root, va)], kernel, root, va / PAGE_SIZE, n)
    ensures Stepped(mem, owner, mem', owner', root)
  {
    hide Leaf, Kept, KeyInRange, Digit, ReleasedPages;
    var owner1 := owner'[f := Header(root, va)];
    assert owner[f := Header(root, va)] == owner && owner1[f := Free] == owner';
    KeptOwner(mem, owner, mem', owner1, f, Header(root, va), Free);
  }

  lemma LeafStepped(mem: Memory, owner: Owners, mem': Memory, owner': Owners, kernel: nat, root: nat, k: nat, w: nat)
    requires Kept(mem, owner, mem', owner') && KeyWritten(mem, mem', owner, kernel, root, k, w)
    ensures Stepped(mem, owner, mem', owner', root)
  {}

  /** The machine as values. */
  datatype Snapshot = Snapshot(mem: Memory, owner: Owners, spaces: Spaces, free: seq<nat>)

  ghost function Now(m: Machine): Snapshot
    requires m.pmm.Valid()
    reads m, m.pmm, m.pmm.addressStack
  {
    Snapshot(m.mem, m.owner, m.spaces, m.pmm.Contents())
  }

  /** The operations that are carried out. */
  ghost predicate Ready(op: Op, kernel: nat, s: Snapshot)
    requires kernel in s.spaces
  {
    match op
    case NewSpace => |s.free| >= 3
    case AllocateRange(root, pages, flags) =>
      && root in s.spaces && pages > 0 && flags < PAGE_SIZE
      && var at := NewAddress(s.spaces[root].base, s.spaces[root].regions, pages);
         && Appends(s.spaces[root].regions, pages) && at + pages * PAGE_SIZE <= s.spaces[root].limit
         && |s.free| >= 1 + FramesFor(at / PAGE_SIZE, pages)
    case FreeRange(root, va) =>
      root in s.spaces && va % PAGE_SIZE == 0 && IndexOf(s.spaces[root].regions, va, 0) < |s.spaces[root].regions|
    case MapPage(root, va, _, _) =>
      && root in s.spaces && |s.free| >= Missing(s.mem, root, KeyOf(va))
      && FixedOk(s.spaces, kernel, root, KeyOf(va))
    case UnmapPage(root, va) => root in s.spaces && FixedOk(s.spaces, kernel, root, KeyOf(va))
  }

  /** A new space, empty below and the kernel's above. */
  ghost predicate SpaceMade(kernel: nat, r: nat, s: Snapshot, s': Snapshot) {
    && r !in s.spaces && r in s'.spaces && SameLeaves(s.mem, s'.mem, s.owner) && SeesKernel(s'.mem, kernel, r)
    && var m, h := s'.spaces[r].mapFrame, s'.spaces[r].headFrame;
       s'.spaces == WithSpace(s.spaces, m, r, h) && s'.owner == SpaceOwners(s.owner, m, r, h)
  }

  /** A new last region in frame f; its pages are mapped, with the flags, to frames of their own, and nothing else. */
  ghost predicate RangeMade(kernel: nat, root: nat, pages: nat, flags: nat, f: nat, s: Snapshot, s': Snapshot)
    requires root in s.spaces
  {
    var va := NewAddress(s.spaces[root].base, s.spaces[root].regions, pages);
    && f in s.owner && s.owner[f].Free? && s'.spaces == Linked(s.spaces, root, f, pages)
    && MappedSoFar(s.mem, s.owner[f := Header(root, va)], s'.mem, s'.owner, kernel, root, va / PAGE_SIZE, pages)
    && NewPages(s'.mem, s.owner, s'.owner, root, va / PAGE_SIZE, pages, flags)
  }

  /** The region at va is gone, its pages are unmapped, and nothing else; its frame f and theirs are free. */
  ghost predicate RangeFreed(kernel: nat, root: nat, va: nat, f: nat, s: Snapshot, s': Snapshot)
    requires root in s.spaces && IndexOf(s.spaces[root].regions, va, 0) < |s.spaces[root].regions|
  {
    var sp := s.spaces[root];
    var i := IndexOf(sp.regions, va, 0);
    && f == sp.regions[i].frame && s'.spaces == s.spaces[root := sp.(regions := Removed(sp.regions, i))]
    && f in s.owner && s.owner[f] == Header(root, va) && f in s'.owner && s'.owner[f].Free?
    && FreedSoFar(s.mem, s.owner, s'.mem, s'.owner[f := Header(root, va)], kernel, root, va / PAGE_SIZE,
         sp.regions[i].pages)
  }

  /** What an operation does when it is carried out; f is the frame of a new space or of a region's structure. */
  ghost predicate Did(op: Op, f: nat, kernel: nat, s: Snapshot, s': Snapshot)
    requires kernel in s.spaces && Ready(op, kernel, s)
  {
    match op
    case NewSpace => SpaceMade(kernel, f, s, s')
    case AllocateRange(root, pages, flags) => RangeMade(kernel, root, pages, flags, f, s, s')
    case FreeRange(root, va) => RangeFreed(kernel, root, va, f, s, s')
    case MapPage(root, va, pa, flags) =>
      && s'.spaces == s.spaces && OnlyTables(s.owner, s'.owner)
      && KeyWritten(s.mem, s'.mem, s.owner, kernel, root, KeyOf(va), Bits.Or(pa, flags))
    case UnmapPage(root, va) =>
      && s'.spaces == s.spaces && s'.owner == s.owner
      && KeyWritten(s.mem, s'.mem, s.owner, kernel, root, KeyOf(va), 0)
  }

  /** One step of a run: an operation that is not ready changes nothing. */
  ghost predicate Took(op: Op, done: bool, f: nat, kernel: nat, s: Snapshot, s': Snapshot) {
    && kernel in s.spaces && (done <==> Ready(op, kernel, s))
    && if done then Did(op, f, kernel, s, s') else s' == s
  }

  /** Carries out one operation if its conditions hold; otherwise nothing happens. */
  method Step(m: Machine, op: Op) returns (done: bool, f: nat)
    requires m.Inv()
    modifies m`spaces, m`mem, m`owner, m.pmm, m.pmm.addressStack
    ensures m.Inv() && Took(op, done, f, m.kernel, old(Now(m)), Now(m))
    ensures Stepped(old(m.mem), old(m.owner), m.mem, m.owner, OpRoot(op))
  {
    hide Stepped, FreeOk, FramesOk, WellFormed, SpacesOk, PagesOk, LivePages, MappedSoFar, FreedSoFar, KeyWritten,
      Kept, FramesFor, OnlyTables, SameLeaves, SeesKernel, Appends, NewAddress, ReturnedAddress, Placed, Removed,
          FixedOk,
      OutsideLive, Missing, NewPages, WithSpace, SpaceOwners, Linked;
    ghost var mem0, owner0 := m.mem, m.owner;
    NotStepped(mem0, owner0, OpRoot(op));
    KernelSpace(m);
    match op
    case NewSpace =>
      if m.pmm.index < 3 { return false, 0; }
      f := m.NewPageMap();
      SpaceStepped(mem0, owner0, m.mem, m.owner, OpRoot(op));
      return true, f;
    case AllocateRange(root, pages, flags) =>
      if root !in m.spaces || pages == 0 || flags >= PAGE_SIZE { return false, 0; }
      var s := m.spaces[root];
      var at := NewAddress(s.base, s.regions, pages);
      if !Appends(s.regions, pages) || at + pages * PAGE_SIZE > s.limit { return false, 0; }
      if m.pmm.index < 1 + FramesFor(at / PAGE_SIZE, pages) { return false, 0; }
      AppendedAddress(s.base, s.regions, pages);
      var va;
      va, f := m.AllocatePages(root, pages, flags);
      AllocationStepped(mem0, owner0, m.mem, m.owner, m.kernel, root, f, va, pages);
      return true, f;
    case FreeRange(root, va) =>
      if root !in m.spaces { return false, 0; }
      var regs := m.spaces[root].regions;
      var i := IndexOf(regs, va, 0);
      done := m.FreePages(root, va);
      f := 0;
      if done {
        f := regs[i].frame;
        ReleaseStepped(mem0, owner0, m.mem, m.owner, m.kernel, root, f, va, regs[i].pages);
      }
    case MapPage(root, va, pa, flags) =>
      if root !in m.spaces || m.pmm.index < Missing(m.mem, root, KeyOf(va)) { return false, 0; }
      if !FixedOk(m.spaces, m.kernel, root, KeyOf(va)) { return false, 0; }
      FixedIsOutside(m, root, KeyOf(va));
      m.MapFixed(root, va, pa, flags);
      LeafStepped(mem0, owner0, m.mem, m.owner, m.kernel, root, KeyOf(va), Bits.Or(pa, flags));
      return true, 0;
    case UnmapPage(root, va) =>
      if root !in m.spaces || !FixedOk(m.spaces, m.kernel, root, KeyOf(va)) { return false, 0; }
      FixedIsOutside(m, root, KeyOf(va));
      m.UnmapFixed(root, va);
      LeafStepped(mem0, owner0, m.mem, m.owner, m.kernel, root, KeyOf(va), 0);
      return true, 0;
  }

  lemma KernelSpace(m: Machine)
    requires m.Inv()
    ensures m.kernel in m.spaces
  {}

  // ----- Runs -----

  /** No operation of the run goes through space r. */
  predicate Untouched(ops: seq<Op>, r: nat) {
    forall i :: 0 <= i < |ops| ==> OpRoot(ops[i]) != r
  }

  /** What a run does to the trees: lower halves only change through their own space. */
  ghost predicate Ran(mem: Memory, owner: Owners, mem': Memory, owner': Owners, ops: seq<Op>) {
    && Kept(mem, owner, mem', owner')
    && (forall r, k :: IsRoot(mem, owner, r) && Untouched(ops, r) && IsKey(k) && Digit(k, 4) < 256 ==>
          Leaf(mem', r, k) == Leaf(mem, r, k))
  }

  lemma RanMore(mem: Memory, owner: Owners, mem1: Memory, owner1: Owners, mem2: Memory, owner2: Owners, ops: seq<Op>,
      op: Op)
    requires Ran(mem, owner, mem1, owner1, ops) && Stepped(mem1, owner1, mem2, owner2, OpRoot(op))
    ensures Ran(mem, owner, mem2, owner2, ops + [op])
  {
    KeptTwice(mem, owner, mem1, owner1, mem2, owner2);
    RootsKept(mem, owner, mem1, owner1);
    hide Kept, Leaf, Digit;
    forall r, k | IsRoot(mem, owner, r) && Untouched(ops + [op], r) && IsKey(k) && Digit(k, 4) < 256
      ensures Leaf(mem2, r, k) == Leaf(mem, r, k)
    {
      assert (ops + [op])[|ops|] == op;
      assert forall i :: 0 <= i < |ops| ==> (ops + [op])[i] == ops[i];
    }
  }

  lemma NotRun(mem: Memory, owner: Owners)
    ensures Ran(mem, owner, mem, owner, [])
  {}

  /** The states a run goes through, which operations it carries out, and the frames they return. */
  ghost predicate Traces(kernel: nat, ops: seq<Op>, dones: seq<bool>, frames: seq<nat>, trace: seq<Snapshot>) {
    && |dones| == |ops| && |frames| == |ops| && |trace| == |ops| + 1
    && forall i :: 0 <= i < |ops| ==> Took(ops[i], dones[i], frames[i], kernel, trace[i], trace[i + 1])
  }

  /**
    Any run carries out exactly the operations that are ready, keeps the invariant, and the stack's storage stays
    what it is. Spaces that shared a top-level entry with the kernel still translate its addresses as the kernel
    does; the lower half of a space no operation went through is unchanged.
   */
  method Run(m: Machine, ops: seq<Op>) returns (dones: seq<bool>, frames: seq<nat>, ghost trace: seq<Snapshot>)
    requires m.Inv()
    modifies m`spaces, m`mem, m`owner, m.pmm, m.pmm.addressStack
    ensures m.Inv()
    ensures Traces(m.kernel, ops, dones, frames, trace) && trace[0] == old(Now(m)) && trace[|ops|] == Now(m)
    ensures TablesStay(old(m.owner), m.owner)
    ensures forall r, k :: IsRoot(old(m.mem), old(m.owner), r) && Shares(old(m.mem), m.kernel, r, k) ==>
      Leaf(m.mem, r, k) == Leaf(m.mem, m.kernel, k)
    ensures forall r, k :: IsRoot(old(m.mem), old(m.owner), r) && Untouched(ops, r) && IsKey(k) && Digit(k, 4) < 256 ==>
      Leaf(m.mem, r, k) == Leaf(old(m.mem), r, k)
  {
    hide Ran, Stepped, Took, Leaf, FreeOk, FramesOk, WellFormed, SpacesOk, PagesOk, LivePages, Shares, Untouched, Digit;
    ghost var mem0, owner0 := m.mem, m.owner;
    NotRun(mem0, owner0);
    dones, frames, trace := [], [], [Now(m)];
    for i := 0 to |ops|
      invariant m.Inv() && Ran(mem0, owner0, m.mem, m.owner, ops[..i])
      invariant |dones| == i && |frames| == i && |trace| == i + 1 && trace[0] == old(Now(m)) && trace[i] == Now(m)
      invariant forall j :: 0 <= j < i ==> Took(ops[j], dones[j], frames[j], m.kernel, trace[j], trace[j + 1])
    {
      ghost var mem1, owner1 := m.mem, m.owner;
      var done, f := Step(m, ops[i]);
      dones, frames, trace := dones + [done], frames + [f], trace + [Now(m)];
      RanMore(mem0, owner0, mem1, owner1, m.mem, m.owner, ops[..i], ops[i]);
      assert ops[..i] + [ops[i]] == ops[..i + 1];
    }
    assert ops[..|ops|] == ops;
    RanShares(mem0, owner0, m.mem, m.owner, m.kernel, ops);
  }

  /**
    From boot through any run: every usable page of the memory map is in exactly one place, except for the
    pages of the stack itself, which are in none; no other frame is anywhere, and none is on the stack twice.
    No frame in any place holds a byte of the stack's own array.
   */
  method BootAndRun(entries: array<Entry>, base: nat, limit: nat, ops: seq<Op>)
    returns (m: Machine, k: nat, dones: seq<bool>, frames: seq<nat>, ghost trace: seq<Snapshot>)
    requires MapOk(entries[..]) && exists k: nat :: HoldsStack(entries[..], k, StackBytes(entries[..]))
    requires |PagesOf(entries[..])| >= StackBytes(entries[..]) / PAGE_SIZE + 3
    requires base % PAGE_SIZE == 0 && KERNEL_FLOOR <= base && limit <= ADDRESS_LIMIT
    modifies entries
    ensures m.Inv() && HoldsStack(old(entries[..]), k, StackBytes(old(entries[..])))
    ensures forall f :: InOnePlace(m, f) <==> f in PagesOf(old(entries[..])) && f !in StackFrames(old(entries[..]), k)
    ensures forall f, place :: FoundAt(m, f, place) ==> InOnePlace(m, f)
    ensures m.pmm.addressStack.Length == |PagesOf(old(entries[..]))|
    ensures forall i, f :: 0 <= i < m.pmm.addressStack.Length && InOnePlace(m, f) ==>
        SlotOutside(old(entries[..])[k].base, i, f)
    ensures Distinct(m.pmm.Contents())
    ensures Traces(m.kernel, ops, dones, frames, trace) && trace[|ops|] == Now(m)
    ensures trace[0].spaces.Keys == {m.kernel} && trace[0].spaces[m.kernel].regions == []
    ensures trace[0].owner.Keys == Elements(PagesOf(old(entries[..])))
  {
    hide MapOk, HoldsStack, PagesOf, StackFrames, FreeOk, FramesOk, WellFormed, SpacesOk, PagesOk, LivePages, Leaf,
      Shares, Untouched, Digit, FoundAt, InOnePlace, Took;
    ghost var es := entries[..];
    m, k := Boot(entries, base, limit);
    HolderInRange(es, k);
    SlotsElsewhere(es, k);
    assert m.owner.Keys == Elements(PagesOf(es));
    dones, frames, trace := Run(m, ops);
    OnePlaceEach(m);
  }

  lemma RanShares(mem: Memory, owner: Owners, mem': Memory, owner': Owners, kernel: nat, ops: seq<Op>)
    requires Ran(mem, owner, mem', owner', ops) && WellFormed(mem, owner, kernel)
    ensures TablesStay(owner, owner')
    ensures forall r, k :: IsRoot(mem, owner, r) && Shares(mem, kernel, r, k) ==>
        Leaf(mem', r, k) == Leaf(mem', kernel, k)
    ensures forall r, k :: IsRoot(mem, owner, r) && Untouched(ops, r) && IsKey(k) && Digit(k, 4) < 256 ==>
        Leaf(mem', r, k) == Leaf(mem, r, k)
  {
    hide Leaf;
    forall r, k | IsRoot(mem, owner, r) && Shares(mem, kernel, r, k)
      ensures Leaf(mem', r, k) == Leaf(mem', kernel, k)
    {
      assert TableOk(mem, owner, kernel, r) && TableOk(mem, owner, kernel, kernel);
      SharingLasts(mem, owner, mem', kernel, r, k);
      SharedTranslation(mem', kernel, r, k);
    }
  }

  lemma KernelIsRoot(mem: Memory, owner: Owners, kernel: nat)
    requires WellFormed(mem, owner, kernel)
    ensures IsRoot(mem, owner, kernel)
  {}

  lemma SharedAtCreation(mem: Memory, owner: Owners, mem': Memory, owner': Owners, kernel: nat, r: nat)
    requires IsRoot(mem, owner, kernel) && Kept(mem, owner, mem', owner') && SeesKernel(mem', kernel, r)
    ensures forall k :: KernelEntry(mem, kernel, k) ==> Digit(k, 4) >= 256 && Shares(mem', kernel, r, k)
    ensures forall k :: IsKey(k) && Digit(k, 4) < 256 ==> Leaf(mem', r, k) == 0
    ensures forall k :: IsKey(k) && Digit(k, 4) >= 256 ==> Leaf(mem', r, k) == Leaf(mem', kernel, k)
  {
    hide Leaf;
    forall k | KernelEntry(mem, kernel, k) ensures Shares(mem', kernel, r, k) {
      assert mem'[kernel][Digit(k, 4)] == mem[kernel][Digit(k, 4)];
    }
  }

  /** A new space, then any run, region allocations and further new spaces included: it keeps translating every
      kernel entry that was present when it was made. */
  method RunWithNewSpace(m: Machine, ops: seq<Op>)
    returns (root: nat, dones: seq<bool>, frames: seq<nat>, ghost trace: seq<Snapshot>)
    requires m.Inv() && m.FreeCount() >= 3
    modifies m`spaces, m`mem, m`owner, m.pmm, m.pmm.addressStack
    ensures m.Inv()
    ensures Traces(m.kernel, ops, dones, frames, trace) && trace[|ops|] == Now(m)
    ensures SpaceMade(m.kernel, root, old(Now(m)), trace[0])
    ensures forall k :: IsKey(k) && KernelEntry(old(m.mem), m.kernel, k) ==>
        Leaf(m.mem, root, k) == Leaf(m.mem, m.kernel, k)
    ensures Untouched(ops, root) ==> forall k :: IsKey(k) && Digit(k, 4) < 256 ==> Leaf(m.mem, root, k) == 0
  {
    hide FreeOk, FramesOk, SpacesOk, PagesOk, LivePages, Leaf, Shares, Kept, TablesStay, SameLeaves, Untouched, Digit,
        KernelEntry, SeesKernel, Took, WithSpace, SpaceOwners;
    ghost var mem0, owner0 := m.mem, m.owner;
    KernelIsRoot(mem0, owner0, m.kernel);
    root := m.NewPageMap();
    ghost var mem1 := m.mem;
    SharedAtCreation(mem0, owner0, mem1, m.owner, m.kernel, root);
    dones, frames, trace := Run(m, ops);
  }

  // ----- One place for each frame -----

  /** Where a frame can be found by looking at the machine. */
  datatype Place =
    | OnStack
    | InTree
    | MapOf(root: nat)
    | HeadOf(root: nat)
    | HeaderOf(root: nat, va: nat)
    | PageOf(root: nat, page: nat)

  /** Some walk of some space passes through f. */
  ghost predicate InTreeOf(mem: Memory, spaces: Spaces, f: nat) {
    exists r, k, level :: r in spaces && IsKey(k) && 1 <= level <= 4 && f != 0 && f == TableAt(mem, r, k, level)
  }

  ghost predicate FoundAt(m: Machine, f: nat, place: Place)
    requires m.pmm.Valid()
    reads m, m.pmm, m.pmm.addressStack
  {
    match place
    case OnStack => f in m.pmm.Contents()
    case InTree => InTreeOf(m.mem, m.spaces, f)
    case MapOf(r) => r in m.spaces && m.spaces[r].mapFrame == f
    case HeadOf(r) => r in m.spaces && m.spaces[r].headFrame == f
    case HeaderOf(r, va) => r in m.spaces && HasRegion(m.spaces[r].regions, va, f)
    case PageOf(r, p) =>
      r in m.spaces && RegionPage(m.spaces[r].regions, p) && f == FrameOf(Leaf(m.mem, r, KeyOfPage(p)))
  }

  function PlaceOf(use: Owner): Place
    requires !use.Storage?
  {
    match use
    case Free => OnStack
    case Table(_, _, _) => InTree
    case MapNode(r) => MapOf(r)
    case HeadNode(r) => HeadOf(r)
    case Header(r, va) => HeaderOf(r, va)
    case Page(r, p) => PageOf(r, p)
  }

  /**
    Every usable frame outside the stack's storage is found in exactly one place, no frame of the storage is
    found anywhere, and no frame is on the free stack twice.
   */
  lemma OnePlace(m: Machine, f: nat, place: Place)
    requires m.Inv()
    ensures FoundAt(m, f, place) <==> f in m.owner && !m.owner[f].Storage? && place == PlaceOf(m.owner[f])
    ensures Distinct(m.pmm.Contents())
  {
    hide FreeOk, FramesOk, WellFormed, SpacesOk, PagesOk, LivePages, TableAt, InTreeOf, HasRegion, RegionPage, Leaf,
        KeyOfPage;
    PlaceBesidePages(m, f, place);
    if place.PageOf? { PagePlace(m.mem, m.owner, m.kernel, m.spaces, place.root, place.page, f); }
  }

  /** For places other than the pages of regions it is enough that frames and spaces are consistent. */
  lemma PlaceBesidePages(m: Machine, f: nat, place: Place)
    requires m.Base()
    ensures !place.PageOf? ==>
      (FoundAt(m, f, place) <==> f in m.owner && !m.owner[f].Storage? && place == PlaceOf(m.owner[f]))
    ensures Distinct(m.pmm.Contents())
  {
    hide FreeOk, FramesOk, WellFormed, SpacesOk, TableAt, InTreeOf, HasRegion, RegionPage, Leaf, KeyOfPage;
    assert Distinct(m.pmm.Contents()) && (f in m.pmm.Contents() <==> f in m.owner && m.owner[f].Free?) by {
      StackPlace(m.pmm.Contents(), m.owner, f);
    }
    if f in m.owner { assert OwnerUsed(m.owner, m.spaces, f) by { UsedPlace(m.mem, m.owner, m.kernel, m.spaces, f); } }
    match place
    case OnStack =>
    case InTree => TreePlace(m.mem, m.owner, m.kernel, m.spaces, f);
    case MapOf(r) => if r in m.spaces { NodePlaces(m.mem, m.owner, m.kernel, m.spaces, r); }
    case HeadOf(r) => if r in m.spaces { NodePlaces(m.mem, m.owner, m.kernel, m.spaces, r); }
    case HeaderOf(r, va) => if r in m.spaces { HeaderPlace(m.mem, m.owner, m.kernel, m.spaces, r, va, f); }
    case PageOf(r, p) =>
  }

  /** The frame is found in one place and no other. */
  ghost predicate InOnePlace(m: Machine, f: nat)
    requires m.pmm.Valid()
    reads m, m.pmm, m.pmm.addressStack
  {
    exists place :: FoundAt(m, f, place) && forall other :: FoundAt(m, f, other) ==> other == place
  }

  lemma OnePlaceEach(m: Machine)
    requires m.Inv()
    ensures forall f :: InOnePlace(m, f) <==> f in m.owner && !m.owner[f].Storage?
    ensures forall f, place :: FoundAt(m, f, place) ==> InOnePlace(m, f)
    ensures Distinct(m.pmm.Contents())
  {
    hide FreeOk, FramesOk, WellFormed, SpacesOk, PagesOk, LivePages, FoundAt;
    OnePlace(m, 0, OnStack);
    forall f, place ensures FoundAt(m, f, place) <==>
        f in m.owner && !m.owner[f].Storage? && place == PlaceOf(m.owner[f]) {
      OnePlace(m, f, place);
    }
    forall f | f in m.owner && !m.owner[f].Storage? ensures InOnePlace(m, f) {
      assert FoundAt(m, f, PlaceOf(m.owner[f]));
    }
  }

  lemma StackPlace(free: seq<nat>, owner: Owners, f: nat)
    requires FreeOk(free, owner)
    ensures Distinct(free) && (f in free <==> f in owner && owner[f].Free?)
  {}

  lemma UsedPlace(mem: Memory, owner: Owners, kernel: nat, spaces: Spaces, f: nat)
    requires SpacesOk(mem, owner, kernel, spaces) && f in owner
    ensures OwnerUsed(owner, spaces, f)
  {}

  lemma TreePlace(mem: Memory, owner: Owners, kernel: nat, spaces: Spaces, f: nat)
    requires WellFormed(mem, owner, kernel) && SpacesOk(mem, owner, kernel, spaces)
    ensures InTreeOf(mem, spaces, f) <==> f in owner && owner[f].Table?
  {
    hide Reached, TableAt;
    if InTreeOf(mem, spaces, f) {
      var r, k, level :| r in spaces && IsKey(k) && 1 <= level <= 4 && f != 0 && f == TableAt(mem, r, k, level);
      SpaceRoot(mem, owner, kernel, spaces, r);
      PathOwner(mem, owner, kernel, r, k, level);
    }
    if f in owner && owner[f].Table? {
      var k := KeyOfTable(mem, owner, f);
      assert OwnerUsed(owner, spaces, f);
      assert TableOk(mem, owner, kernel, f);
    }
  }

  lemma NodePlaces(mem: Memory, owner: Owners, kernel: nat, spaces: Spaces, r: nat)
    requires SpacesOk(mem, owner, kernel, spaces) && r in spaces
    ensures var s := spaces[r];
      && s.mapFrame in owner && owner[s.mapFrame] == MapNode(r)
      && s.headFrame in owner && owner[s.headFrame] == HeadNode(r)
  {
    assert SpaceOk(mem, owner, kernel, r, spaces[r]);
  }

  lemma HeaderPlace(mem: Memory, owner: Owners, kernel: nat, spaces: Spaces, r: nat, va: nat, f: nat)
    requires SpacesOk(mem, owner, kernel, spaces) && r in spaces
    ensures HasRegion(spaces[r].regions, va, f) <==> f in owner && owner[f] == Header(r, va)
  {
    assert SpaceOk(mem, owner, kernel, r, spaces[r]);
    if f in owner && owner[f] == Header(r, va) { assert OwnerUsed(owner, spaces, f); }
  }

  lemma PagePlace(mem: Memory, owner: Owners, kernel: nat, spaces: Spaces, r: nat, p: nat, f: nat)
    requires SpacesOk(mem, owner, kernel, spaces) && PagesOk(mem, owner, spaces, LivePages(spaces))
    ensures r in spaces && RegionPage(spaces[r].regions, p) && f == FrameOf(Leaf(mem, r, KeyOfPage(p)))
       <==> f in owner && owner[f] == Page(r, p)
  {
    hide Leaf, KeyOfPage, AllUsed;
    if r in spaces && RegionPage(spaces[r].regions, p) {
      assert (r, p) in LivePages(spaces);
      assert InWindow(spaces[r], p) by { PageInWindow(mem, owner, kernel, r, spaces[r], p); }
      assert PageOk(mem, owner, LivePages(spaces), r, p);
    }
    if f in owner && owner[f] == Page(r, p) { assert HolderOk(mem, spaces, LivePages(spaces), f, r, p); }
  }

  lemma PageInWindow(mem: Memory, owner: Owners, kernel: nat, r: nat, s: Space, p: nat)
    requires SpaceOk(mem, owner, kernel, r, s) && RegionPage(s.regions, p)
    ensures InWindow(s, p)
  {
    hide WindowOk;
    var i :| 0 <= i < |s.regions| && Holds(s.regions[i], p);
    assert s.base <= s.regions[i].va && End(s.regions[i]) <= s.limit;
  }

  // ----- Allocate, then free -----

  /** The keys of n pages from p are unmapped, in root and in the spaces together with it; nothing else changes. */
  ghost predicate RangeCleared(mem: Memory, mem': Memory, owner: Owners, kernel: nat, root: nat, p: nat, n: nat) {
    forall r, k :: IsRoot(mem, owner, r) && IsKey(k) ==>
      Leaf(mem', r, k) == if KeyInRange(k, p, n) && Together(mem, kernel, r, root, k) then 0 else Leaf(mem, r, k)
  }

  /** Where nothing was mapped, clearing changes nothing. */
  lemma NothingCleared(mem: Memory, mem': Memory, owner: Owners, kernel: nat, root: nat, p: nat, n: nat)
    requires WellFormed(mem, owner, kernel) && IsRoot(mem, owner, root)
    requires RangeCleared(mem, mem', owner, kernel, root, p, n)
    requires forall q: nat :: InRange(q, p, n) ==> Leaf(mem, root, KeyOfPage(q)) == 0
    ensures SameLeaves(mem, mem', owner)
  {
    hide Leaf, KeyOfPage, Together;
    forall r, k | IsRoot(mem, owner, r) && IsKey(k) ensures Leaf(mem', r, k) == Leaf(mem, r, k) {
      if KeyInRange(k, p, n) && Together(mem, kernel, r, root, k) {
        NoNullRoot(mem, owner, kernel, r, root);
        TogetherAlike(mem, kernel, r, root, k);
      }
    }
  }

  lemma RestoredOwners(mem: Memory, owner: Owners, owner1: Owners, owner2: Owners, live: iset<(nat, nat)>,
      spaces: Spaces, root: nat, f: nat, va: nat, n: nat)
    requires f in owner && owner[f].Free? && PagesOk(mem, owner, spaces, live)
    requires TakenForPages(owner[f := Header(root, va)], owner1, root, va / PAGE_SIZE, n)
    requires f in owner2 && owner2[f].Free?
    requires ReleasedPages(owner1, owner2[f := Header(root, va)], root, va / PAGE_SIZE, n)
    requires forall q: nat :: InRange(q, va / PAGE_SIZE, n) ==> (root, q) !in live
    ensures OnlyTables(owner, owner2)
  {
    var p := va / PAGE_SIZE;
    var ownerA, ownerB := owner[f := Header(root, va)], owner2[f := Header(root, va)];
    assert ownerB.Keys == owner2.Keys + {f} && ownerA.Keys == owner.Keys + {f};
    forall g | g in owner ensures owner2[g] == owner[g] || (owner[g].Free? && owner2[g].Table? && owner2[g].level < 4) {
      if g != f {
        assert TakenFrom(ownerA[g], owner1[g], root, p, n);
        assert ownerB[g] == if IsPageIn(owner1[g], root, p, n) then Free else owner1[g];
        if owner[g].Page? { assert HolderOk(mem, spaces, live, g, owner[g].root, owner[g].page); }
      }
    }
  }

  lemma RestoredLeaves(mem: Memory, owner: Owners, mem1: Memory, owner1: Owners, mem2: Memory, owner2: Owners,
      kernel: nat,
      root: nat, p: nat, n: nat)
    requires WellFormed(mem, owner, kernel) && WellFormed(mem1, owner1, kernel) && IsRoot(mem, owner, root)
    requires MappedSoFar(mem, owner, mem1, owner1, kernel, root, p, n)
    requires FreedSoFar(mem1, owner1, mem2, owner2, kernel, root, p, n)
    ensures RangeCleared(mem, mem2, owner, kernel, root, p, n)
  {
    RootsKept(mem, owner, mem1, owner1);
    hide WellFormed, Leaf, KeyOfPage, Kept, Together;
    forall r, k | IsRoot(mem, owner, r) && IsKey(k)
      ensures Leaf(mem2, r, k) == if KeyInRange(k, p, n) && Together(mem, kernel, r, root, k) then 0
          else Leaf(mem, r, k)
    {
      TogetherStays(mem, owner, mem1, owner1, kernel, r, root, k);
    }
  }

  /** Which frame holds the region's structure does not matter for what is translated. */
  lemma ClearedOwner(mem: Memory, mem': Memory, owner: Owners, f: nat, use: Owner, kernel: nat, root: nat, p: nat,
      n: nat)
    requires f in owner && !owner[f].Table? && RangeCleared(mem, mem', owner[f := use], kernel, root, p, n)
    ensures RangeCleared(mem, mem', owner, kernel, root, p, n)
  {
    hide Leaf, KeyInRange, Together;
    forall r, k | IsRoot(mem, owner, r) && IsKey(k)
      ensures Leaf(mem', r, k) == if KeyInRange(k, p, n) && Together(mem, kernel, r, root, k) then 0
          else Leaf(mem, r, k)
    {
      assert IsRoot(mem, owner[f := use], r);
    }
  }

  /** The appended region is found again at its address, and removing it restores the ring. */
  lemma AppendedFound(base: nat, regs: seq<Region>, f: nat, n: nat)
    requires RingOk(base, regs) && Appends(regs, n) && n > 0
    ensures var regs', va := Placed(base, regs, f, n), NewAddress(base, regs, n);
      && IndexOf(regs', va, 0) == |regs| < |regs'| && regs'[|regs|] == Region(f, va, n) &&
          Removed(regs', |regs|) == regs
      && va % PAGE_SIZE == 0
  {
    hide Appends, NewAddress, FirstFit, RingOk;
    PlacedAtEnd(base, regs, f, n);
    NewAddressOk(base, regs, n);
    PlacedOk(base, regs, f, n);
    var regs' := Placed(base, regs, f, n);
    DistinctAddresses(base, regs');
    assert regs'[|regs|].va == NewAddress(base, regs, n);
  }

  lemma DistinctAddresses(base: nat, regs: seq<Region>)
    requires RingOk(base, regs)
    ensures forall i, j :: 0 <= i < j < |regs| ==> regs[i].va != regs[j].va
  {}

  lemma NewPagesDead(spaces: Spaces, root: nat, n: nat)
    requires root in spaces && RingOk(spaces[root].base, spaces[root].regions) && Appends(spaces[root].regions, n) &&
        n > 0
    requires NewAddress(spaces[root].base, spaces[root].regions, n) + n * PAGE_SIZE <= spaces[root].limit
    ensures var va := NewAddress(spaces[root].base, spaces[root].regions, n);
      forall q: nat :: InRange(q, va / PAGE_SIZE, n) ==> (root, q) !in LivePages(spaces) && InWindow(spaces[root], q)
  {
    hide Appends, NewAddress, FirstFit, RingOk, RegionPage;
    var va := NewAddress(spaces[root].base, spaces[root].regions, n);
    NewAddressOk(spaces[root].base, spaces[root].regions, n);
    forall q: nat | InRange(q, va / PAGE_SIZE, n) ensures (root, q) !in LivePages(spaces) && InWindow(spaces[root], q) {
      NewPageApart(spaces[root], n, q);
    }
  }

  /**
    MmVirtAllocatePages on the append path followed by MmVirtFreePages: the rings are as before, the range's keys
    are unmapped and no other is translated differently, and every frame is back in its place except free frames
    that became page tables. So if nothing was mapped in the range, every translation of every space is restored.
   */
  method AllocateThenFree(m: Machine, root: nat, pages: nat, flags: nat)
    requires m.Inv() && root in m.spaces && pages > 0 && flags < PAGE_SIZE && Appends(m.spaces[root].regions, pages)
    requires NewAddress(m.spaces[root].base, m.spaces[root].regions, pages) + pages * PAGE_SIZE <= m.spaces[root].limit
    requires m.FreeCount() >=
      1 + FramesFor(NewAddress(m.spaces[root].base, m.spaces[root].regions, pages) / PAGE_SIZE, pages)
    modifies m`spaces, m`mem, m`owner, m.pmm, m.pmm.addressStack
    ensures m.Inv() && m.spaces == old(m.spaces)
    ensures OnlyTables(old(m.owner), m.owner)
    ensures var p := NewAddress(old(m.spaces)[root].base, old(m.spaces)[root].regions, pages) / PAGE_SIZE;
      && RangeCleared(old(m.mem), m.mem, old(m.owner), m.kernel, root, p, pages)
      && ((forall q: nat :: InRange(q, p, pages) ==> Leaf(old(m.mem), root, KeyOfPage(q)) == 0) ==>
           SameLeaves(old(m.mem), m.mem, old(m.owner)))
  {
    hide FreeOk, FramesOk, WellFormed, SpacesOk, PagesOk, LivePages, Appends, NewAddress, Placed, Removed, IndexOf,
        RingOk,
      MappedSoFar, FreedSoFar, RangeCleared, OnlyTables, SameLeaves, FramesFor, Leaf, KeyOfPage, IsRoot;
    ghost var mem0, owner0, spaces0, s := m.mem, m.owner, m.spaces, m.spaces[root];
    SpaceRoot(mem0, owner0, m.kernel, spaces0, root);
    RegionFacts(mem0, owner0, m.kernel, spaces0, root, pages);
    NewPagesDead(spaces0, root, pages);
    var va, f := m.AllocatePages(root, pages, flags);
    AppendedFound(s.base, s.regions, f, pages);
    ghost var mem1, owner1 := m.mem, m.owner;
    var found := m.FreePages(root, va);
    HeaderKeepsTree(mem0, owner0, m.kernel, f, root, va);
    RestoredLeaves(mem0, owner0[f := Header(root, va)], mem1, owner1, m.mem, m.owner[f := Header(root, va)], m.kernel,
      root, va / PAGE_SIZE, pages);
    ClearedOwner(mem0, m.mem, owner0, f, Header(root, va), m.kernel, root, va / PAGE_SIZE, pages);
    OwnersFromRuns(mem0, owner0, mem1, owner1, m.mem, m.owner, LivePages(spaces0), spaces0, m.kernel, root, f, va,
        pages);
    if forall q: nat :: InRange(q, va / PAGE_SIZE, pages) ==> Leaf(mem0, root, KeyOfPage(q)) == 0 {
      NothingCleared(mem0, m.mem, owner0, m.kernel, root, va / PAGE_SIZE, pages);
    }
    assert m.spaces == spaces0;
  }

  lemma HeaderKeepsTree(mem: Memory, owner: Owners, kernel: nat, f: nat, root: nat, va: nat)
    requires WellFormed(mem, owner, kernel) && f in owner && owner[f].Free? && IsRoot(mem, owner, root)
    ensures WellFormed(mem, owner[f := Header(root, va)], kernel) && IsRoot(mem, owner[f := Header(root, va)], root)
  {
    hide WellFormed;
    OwnerChangeKeepsTree(mem, owner, kernel, f, Header(root, va));
  }

  lemma OwnersFromRuns(mem: Memory, owner: Owners, mem1: Memory, owner1: Owners, mem2: Memory, owner2: Owners,
      live: iset<(nat, nat)>, spaces: Spaces, kernel: nat, root: nat, f: nat, va: nat, n: nat)
    requires f in owner && owner[f].Free? && PagesOk(mem, owner, spaces, live) && f in owner2 && owner2[f].Free?
    requires MappedSoFar(mem, owner[f := Header(root, va)], mem1, owner1, kernel, root, va / PAGE_SIZE, n)
    requires FreedSoFar(mem1, owner1, mem2, owner2[f := Header(root, va)], kernel, root, va / PAGE_SIZE, n)
    requires forall q: nat :: InRange(q, va / PAGE_SIZE, n) ==> (root, q) !in live
    ensures OnlyTables(owner, owner2)
  {
    hide PagesOk, OnlyTables, RangeWritten, Kept, TakenForPages, ReleasedPages;
    RestoredOwners(mem, owner, owner1, owner2, live, spaces, root, f, va, n);
  }
}
