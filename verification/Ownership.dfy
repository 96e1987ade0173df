/**
  What every run of the memory manager keeps: each usable frame has one owner, and the owner is true of the
  free stack, the page tables, the regions and the translations. Values only; VirtMem changes them.
 */
module Ownership {
  import opened PageTable
  import opened PhysPages
  import opened Regions
  import Bits

  /** An address space: the frames of its page map and ring head, the window its regions live in, and its regions. */
  datatype Space = Space(mapFrame: nat, headFrame: nat, base: nat, limit: nat, regions: seq<Region>)

  type Spaces = map<nat, Space>

  const USER_BASE := 0x1000
  const USER_LIMIT := 0x8000_0000_0000
  const KERNEL_FLOOR := 0xFFFF_8000_0000_0000
  const ADDRESS_LIMIT := 0x1_0000_0000_0000_0000

  // ----- Windows -----

  predicate InRange(p: nat, first: nat, n: nat) { first <= p < first + n }

  /** The kernel's regions live in the upper half of its addresses, every other space's in the lower half. */
  predicate WindowOk(kernel: nat, r: nat, s: Space) {
    if r == kernel then KERNEL_FLOOR <= s.base && s.limit <= ADDRESS_LIMIT
    else s.base == USER_BASE && s.limit == USER_LIMIT
  }

  predicate InWindow(s: Space, p: nat) {
    s.base <= p * PAGE_SIZE < s.limit
  }

  lemma UpperDigit(k: nat)
    requires IsKey(k)
    ensures Digit(k, 4) >= 256 <==> k >= 0x8_0000_0000
  {
    assert Prefix(k, 1) == k / ENTRIES;
    assert Prefix(k, 2) == Prefix(k, 1) / ENTRIES;
    assert Prefix(k, 3) == Prefix(k, 2) / ENTRIES;
    assert Prefix(k, 3) < ENTRIES;
  }

  const KEY_SPAN := 0xF_FFF0_0000_0000  // page number of key 0 in the upper half, 2^52 - 2^36

  /** A window page is its key, or for the kernel its key in the upper half of the page numbers. */
  lemma PageOfKey(kernel: nat, r: nat, s: Space, p: nat)
    requires WindowOk(kernel, r, s) && InWindow(s, p)
    ensures p == KeyOfPage(p) + if r == kernel then KEY_SPAN else 0
    ensures KeyOfPage(p) >= 0x8_0000_0000 <==> r == kernel
  {
    if r == kernel { KernelPage(p); } else { UserPage(p); }
  }

  lemma KernelPage(p: nat)
    requires KERNEL_FLOOR <= p * PAGE_SIZE < ADDRESS_LIMIT
    ensures KeyOfPage(p) == p - KEY_SPAN >= 0x8_0000_0000
  {
    assert KERNEL_FLOOR == 0xF_FFF8_0000_0000 * PAGE_SIZE && ADDRESS_LIMIT == 0x10_0000_0000_0000 * PAGE_SIZE;
    assert p == 0xFFFF * 0x10_0000_0000 + (p - KEY_SPAN);
  }

  lemma UserPage(p: nat)
    requires p * PAGE_SIZE < USER_LIMIT
    ensures KeyOfPage(p) == p < 0x8_0000_0000
  {
    assert USER_LIMIT == 0x8_0000_0000 * PAGE_SIZE;
  }

  /** A window page's key lies in the upper half exactly for the kernel. */
  lemma WindowKeys(kernel: nat, r: nat, s: Space, p: nat)
    requires WindowOk(kernel, r, s) && InWindow(s, p)
    ensures Digit(KeyOfPage(p), 4) >= 256 <==> r == kernel
  {
    hide Digit, KeyOfPage;
    PageOfKey(kernel, r, s, p);
    UpperDigit(KeyOfPage(p));
  }

  /** Different pages of a window have different keys. */
  lemma WindowKey(kernel: nat, r: nat, s: Space, p: nat, p': nat)
    requires WindowOk(kernel, r, s) && InWindow(s, p) && InWindow(s, p')
    ensures KeyOfPage(p) == KeyOfPage(p') ==> p == p'
  {
    hide KeyOfPage;
    PageOfKey(kernel, r, s, p);
    PageOfKey(kernel, r, s, p');
  }

  // ----- The parts of the invariant -----

  ghost predicate FreeOk(free: seq<nat>, owner: Owners) {
    Distinct(free) && forall f :: f in free <==> f in owner && owner[f].Free?
  }

  ghost predicate FramesOk(owner: Owners, capacity: nat) {
    (forall f :: f in owner ==> IsFrame(f)) && |owner| <= capacity
  }

  ghost predicate SpaceOk(mem: Memory, owner: Owners, kernel: nat, r: nat, s: Space) {
    && IsRoot(mem, owner, r) && WindowOk(kernel, r, s)
    && s.mapFrame in owner && owner[s.mapFrame] == MapNode(r)
    && s.headFrame in owner && owner[s.headFrame] == HeadNode(r)
    && RingOk(s.base, s.regions)
    && (forall i :: 0 <= i < |s.regions| ==>
         End(s.regions[i]) <= s.limit
         && s.regions[i].frame in owner && owner[s.regions[i].frame] == Header(r, s.regions[i].va))
  }

  ghost predicate HasRegion(regs: seq<Region>, va: nat, frame: nat) {
    exists i :: 0 <= i < |regs| && regs[i].va == va && regs[i].frame == frame
  }

  /** Every owner that names a space, a region header or a table belongs to a space that has it. */
  ghost predicate OwnerUsed(owner: Owners, spaces: Spaces, f: nat)
    requires f in owner
  {
    match owner[f]
    case Storage => true
    case Free => true
    case Table(r, _, _) => r in spaces
    case MapNode(r) => r in spaces && spaces[r].mapFrame == f
    case HeadNode(r) => r in spaces && spaces[r].headFrame == f
    case Header(r, va) => r in spaces && HasRegion(spaces[r].regions, va, f)
    case Page(r, _) => r in spaces
  }

  ghost predicate SpacesOk(mem: Memory, owner: Owners, kernel: nat, spaces: Spaces) {
    && kernel in spaces
    && (forall r :: r in spaces ==> SpaceOk(mem, owner, kernel, r, spaces[r]))
    && AllUsed(owner, spaces)
  }

  ghost predicate AllUsed(owner: Owners, spaces: Spaces) {
    forall f :: f in owner ==> OwnerUsed(owner, spaces, f)
  }

  lemma SpaceRoot(mem: Memory, owner: Owners, kernel: nat, spaces: Spaces, r: nat)
    requires WellFormed(mem, owner, kernel) && SpacesOk(mem, owner, kernel, spaces) && r in spaces
    ensures IsRoot(mem, owner, r) && r != 0 && TableAt(mem, r, 0, 4) == r
  {
    assert SpaceOk(mem, owner, kernel, r, spaces[r]);
  }

  /** Page p of space r is translated to the frame that owns it. */
  ghost predicate Backed(mem: Memory, owner: Owners, r: nat, p: nat) {
    var f := FrameOf(Leaf(mem, r, KeyOfPage(p)));
    f in owner && owner[f] == Page(r, p)
  }

  ghost predicate PageOk(mem: Memory, owner: Owners, live: iset<(nat, nat)>, r: nat, p: nat) {
    (r, p) in live ==> Backed(mem, owner, r, p)
  }

  /** A frame that holds a page is the translation of exactly that live page. */
  ghost predicate HolderOk(mem: Memory, spaces: Spaces, live: iset<(nat, nat)>, f: nat, r: nat, p: nat) {
    && (r, p) in live && r in spaces && InWindow(spaces[r], p)
    && FrameOf(Leaf(mem, r, KeyOfPage(p))) == f
  }

  /** The live pages of every window are translated, each to its own frame, and no other page holds a frame. */
  ghost predicate PagesOk(mem: Memory, owner: Owners, spaces: Spaces, live: iset<(nat, nat)>) {
    && (forall r, p: nat :: r in spaces && InWindow(spaces[r], p) ==> PageOk(mem, owner, live, r, p))
    && (forall f :: f in owner && owner[f].Page? ==> HolderOk(mem, spaces, live, f, owner[f].root, owner[f].page))
  }

  predicate Holds(r: Region, p: nat) { InRange(p, r.va / PAGE_SIZE, r.pages) }

  predicate RegionPage(regs: seq<Region>, p: nat) {
    exists i :: 0 <= i < |regs| && Holds(regs[i], p)
  }

  ghost function LivePages(spaces: Spaces): iset<(nat, nat)> {
    iset r: nat, p: nat | r in spaces && RegionPage(spaces[r].regions, p) :: (r, p)
  }

  // ----- How the translations may change -----

  /** Frames taken for new tables: everything else keeps its owner. */
  ghost predicate OnlyTables(owner: Owners, owner': Owners) {
    && owner'.Keys == owner.Keys
    && forall f :: f in owner ==> owner'[f] == owner[f] || (owner[f].Free? && owner'[f].Table? && owner'[f].level < 4)
  }

  /** Nothing is translated differently. */
  ghost predicate SameLeaves(mem: Memory, mem': Memory, owner: Owners) {
    forall r, k :: IsRoot(mem, owner, r) && IsKey(k) ==> Leaf(mem', r, k) == Leaf(mem, r, k)
  }

  /** What making tables does: frames become tables, no translation changes, present entries stay. */
  ghost predicate Extended(mem: Memory, owner: Owners, mem': Memory, owner': Owners) {
    OnlyTables(owner, owner') && SameLeaves(mem, mem', owner) && Kept(mem, owner, mem', owner') &&
        WalksKept(mem, mem', owner)
  }

  /** A walk that reaches a leaf table keeps reaching it. */
  ghost predicate WalksKept(mem: Memory, mem': Memory, owner: Owners) {
    forall r, k :: IsRoot(mem, owner, r) && IsKey(k) && TableAt(mem, r, k, 1) != 0 ==>
      TableAt(mem', r, k, 1) == TableAt(mem, r, k, 1)
  }

  /** The level-1 tables. */
  ghost function LeafTables(owner: Owners): set<nat> {
    set f | f in owner && owner[f].Table? && owner[f].level == 1
  }

  lemma ExtendedTwice(mem: Memory, owner: Owners, mem1: Memory, owner1: Owners, mem2: Memory, owner2: Owners)
    requires Extended(mem, owner, mem1, owner1) && Extended(mem1, owner1, mem2, owner2)
    ensures Extended(mem, owner, mem2, owner2)
  {
    KeptTwice(mem, owner, mem1, owner1, mem2, owner2);
    hide Grows, OwnEntries;
    forall r, k | IsRoot(mem, owner, r) && IsKey(k)
      ensures Leaf(mem2, r, k) == Leaf(mem, r, k)
      ensures TableAt(mem, r, k, 1) != 0 ==> TableAt(mem2, r, k, 1) == TableAt(mem, r, k, 1)
    {
      assert IsRoot(mem1, owner1, r);
    }
  }

  lemma TableAddedExtends(mem: Memory, owner: Owners, mem': Memory, owner': Owners, kernel: nat, t: nat, e: nat, f: nat)
    requires WellFormed(mem, owner, kernel) && TableAdded(mem, mem', owner, owner', t, e, f) && owner[f].Free?
    requires owner[t].level <= 4
    ensures Extended(mem, owner, mem', owner')
  {
    hide Reached;
    forall r, k | IsRoot(mem, owner, r) && IsKey(k)
      ensures Leaf(mem', r, k) == Leaf(mem, r, k)
      ensures TableAt(mem, r, k, 1) != 0 ==> TableAt(mem', r, k, 1) == TableAt(mem, r, k, 1)
    {
      AddTableKeepsLeaf(mem, mem', owner, owner', kernel, t, e, f, r, k);
      AddTableKeepsWalk(mem, mem', owner, owner', kernel, t, e, f, r, k, 1);
    }
    TableAddedKept(mem, owner, mem', owner', t, e, f);
  }

  lemma TableAddedKept(mem: Memory, owner: Owners, mem': Memory, owner': Owners, t: nat, e: nat, f: nat)
    requires TableAdded(mem, mem', owner, owner', t, e, f) && owner[f].Free?
    ensures Kept(mem, owner, mem', owner')
  {
    TableWordFields(f);
    hide Present, Addr, TableWord, IsFrame, ZeroTable;
    forall r, e' | IsRoot(mem, owner, r) && 0 <= e' < |mem[r]| && r in mem' && e' < |mem'[r]|
      ensures OwnEntry(mem[r][e'], mem'[r][e'], owner', r)
    {
      assert r != f && ((r, e') != (t, e) ==> mem'[r][e'] == mem[r][e']);
    }
  }

  /**
    The exact effect of a map or unmap: key k changes in root, and in every space that is together with it. A
    lower-half change is never seen in another space.
   */
  ghost predicate KeyWritten(mem: Memory, mem': Memory, owner: Owners, kernel: nat, root: nat, k: nat, w: nat) {
    forall r, k' :: IsRoot(mem, owner, r) && IsKey(k') ==>
      Leaf(mem', r, k') == if k' == k && Together(mem, kernel, r, root, k) then w else Leaf(mem, r, k')
  }

  lemma LeafWriteDone(mem: Memory, owner: Owners, mem1: Memory, owner1: Owners, mem2: Memory, kernel: nat,
      root: nat, k: nat, w: nat)
    requires WellFormed(mem, owner, kernel) && WellFormed(mem1, owner1, kernel)
    requires IsRoot(mem1, owner1, root) && IsRoot(mem, owner, root) && IsKey(k)
    requires Extended(mem, owner, mem1, owner1)
    requires TableAt(mem1, root, k, 1) != 0 && LeafWritten(mem1, mem2, TableAt(mem1, root, k, 1), Digit(k, 1), w)
    ensures KeyWritten(mem, mem2, owner, kernel, root, k, w)
    ensures Kept(mem, owner, mem2, owner1) && WalksKept(mem, mem2, owner)
    ensures WellFormed(mem2, owner1, kernel) && TableAt(mem2, root, k, 1) == TableAt(mem1, root, k, 1)
  {
    hide Reached;
    var t, e := TableAt(mem1, root, k, 1), Digit(k, 1);
    PathOwner(mem1, owner1, kernel, root, k, 1);
    LeafWriteKeepsTree(mem1, mem2, owner1, kernel, t, e, w);
    LeafWriteKeepsWalk(mem1, mem2, owner1, kernel, t, e, w, root, k, 1);
    LeafWriteKept(mem, owner, mem1, owner1, mem2, t, e, w);
    hide WellFormed, Leaf, LeafWritten, Kept, Together;
    forall r, k' | IsRoot(mem, owner, r) && IsKey(k')
      ensures Leaf(mem2, r, k') == if k' == k && Together(mem, kernel, r, root, k) then w else Leaf(mem, r, k')
      ensures TableAt(mem, r, k', 1) != 0 ==> TableAt(mem2, r, k', 1) == TableAt(mem, r, k', 1)
    {
      assert IsRoot(mem1, owner1, r) by { StillRoot(mem, owner, mem1, owner1, r); }
      LeafWriteKeepsWalk(mem1, mem2, owner1, kernel, t, e, w, r, k', 1);
      LeafWriteEffect(mem1, mem2, owner1, kernel, w, root, k, r, k');
      SameTableIffTogether(mem1, owner1, kernel, r, root, k);
      TogetherStays(mem, owner, mem1, owner1, kernel, r, root, k);
    }
  }

  lemma StillRoot(mem: Memory, owner: Owners, mem': Memory, owner': Owners, r: nat)
    requires Kept(mem, owner, mem', owner') && IsRoot(mem, owner, r)
    ensures IsRoot(mem', owner', r)
  {}

  lemma LeafWriteKept(mem: Memory, owner: Owners, mem1: Memory, owner1: Owners, mem2: Memory, t: nat, e: nat, w: nat)
    requires Kept(mem, owner, mem1, owner1) && LeafWritten(mem1, mem2, t, e, w)
    requires t in owner1 && owner1[t].Table? && owner1[t].level == 1
    ensures Kept(mem, owner, mem2, owner1)
  {
    hide Present, Addr;
    assert forall u :: u in mem1 && u != t ==> mem2[u] == mem1[u];
    forall u | u in mem && u in owner && owner[u].Table? && owner[u].level >= 2
      ensures u in mem2 && |mem2[u]| == |mem[u]|
      ensures forall e :: 0 <= e < |mem[u]| && Present(mem[u][e]) ==> mem2[u][e] == mem[u][e]
    {
      assert owner1[u] == owner[u];
    }
    forall r, e' | IsRoot(mem, owner, r) && 0 <= e' < |mem[r]| && r in mem2 && e' < |mem2[r]|
      ensures OwnEntry(mem[r][e'], mem2[r][e'], owner1, r)
    {
      assert OwnEntry(mem[r][e'], mem1[r][e'], owner1, r);
    }
  }

  lemma LeafKeepsSpaces(mem: Memory, mem': Memory, owner: Owners, kernel: nat, spaces: Spaces, t: nat, e: nat, w: nat)
    requires SpacesOk(mem, owner, kernel, spaces) && LeafWritten(mem, mem', t, e, w)
    ensures SpacesOk(mem', owner, kernel, spaces)
  {
    forall r | r in spaces ensures SpaceOk(mem', owner, kernel, r, spaces[r]) {
      assert SpaceOk(mem, owner, kernel, r, spaces[r]);
    }
  }

  /** Where the walk finds no table there is nothing to unmap. */
  lemma NothingToUnmap(mem: Memory, owner: Owners, kernel: nat, root: nat, k: nat)
    requires WellFormed(mem, owner, kernel) && IsRoot(mem, owner, root) && TableAt(mem, root, k, 1) == 0
    ensures KeyWritten(mem, mem, owner, kernel, root, k, 0) && Kept(mem, owner, mem, owner)
  {
    NothingMoved(mem, owner);
    forall r | IsRoot(mem, owner, r) && Together(mem, kernel, r, root, k) ensures Leaf(mem, r, k) == 0 {
      NoNullRoot(mem, owner, kernel, r, root);
      TogetherAlike(mem, kernel, r, root, k);
    }
  }

  /** The exact effect on a range of n pages from p: its keys are translated in every space as in root, if they
      were together, and nothing else changes. */
  ghost predicate RangeWritten(mem: Memory, mem': Memory, owner: Owners, kernel: nat, root: nat, p: nat, n: nat) {
    forall r, k :: IsRoot(mem, owner, r) && IsKey(k) ==>
      Leaf(mem', r, k) ==
        if KeyInRange(k, p, n) && Together(mem, kernel, r, root, k) then Leaf(mem', root, k) else Leaf(mem, r, k)
  }

  ghost predicate KeyInRange(k: nat, p: nat, n: nat) {
    exists q: nat :: InRange(q, p, n) && k == KeyOfPage(q)
  }

  /** Free frames became tables or pages of this range, and nothing else changed owner. */
  ghost predicate TakenForPages(owner: Owners, owner': Owners, root: nat, p: nat, n: nat) {
    && owner'.Keys == owner.Keys
    && forall f :: f in owner ==> TakenFrom(owner[f], owner'[f], root, p, n)
  }

  predicate TakenFrom(use: Owner, use': Owner, root: nat, p: nat, n: nat) {
    || use' == use
    || (use.Free? && use'.Table? && use'.level < 4)
    || (use.Free? && use'.Page? && use'.root == root && InRange(use'.page, p, n))
  }

  /** The pages that a table of this level maps. */
  function Span(level: nat): nat
    requires 1 <= level <= 3
  {
    if level == 1 then 0x200 else if level == 2 then 0x4_0000 else 0x800_0000
  }

  /** The tables of a level that n consecutive pages from p spread over. */
  function TablesSpanned(p: nat, n: nat, level: nat): nat
    requires 1 <= level <= 3
  {
    if n == 0 then 0 else (p + n - 1) / Span(level) - p / Span(level) + 1
  }

  lemma SpannedBound(p: nat, n: nat)
    ensures TablesSpanned(p, n, 1) <= (n + 510) / ENTRIES + 1
  {}

  /** The frames that mapping n new pages from p takes at most: their own, and the tables they spread over. */
  function FramesFor(p: nat, n: nat): nat {
    n + TablesSpanned(p, n, 1) + TablesSpanned(p, n, 2) + TablesSpanned(p, n, 3)
  }

  /** The tables missing on the way to key k. */
  function Missing(mem: Memory, root: nat, k: nat): nat {
    (if TableAt(mem, root, k, 3) == 0 then 1 else 0) + (if TableAt(mem, root, k, 2) == 0 then 1 else 0)
    + (if TableAt(mem, root, k, 1) == 0 then 1 else 0)
  }

  /** The next page needs a table of its own only when it starts a new span. */
  lemma SpannedMore(mem: Memory, root: nat, p: nat, n: nat, level: nat)
    requires 1 <= level <= 3
    requires n > 0 ==> TableAt(mem, root, KeyOfPage(p + n - 1), 1) != 0
    ensures var missing := if TableAt(mem, root, KeyOfPage(p + n), level) == 0 then 1 else 0;
      TablesSpanned(p, n, level) + missing <= TablesSpanned(p, n + 1, level)
  {
    if n > 0 {
      var q := p + n - 1;
      TableAbove(mem, root, KeyOfPage(q), level);
      hide TableAt, KeyOfPage;
      if (q + 1) / Span(level) == q / Span(level) {
        SameSpan(q, level);
        SamePrefixSameTable(mem, root, KeyOfPage(q), KeyOfPage(q + 1), level, level);
      }
    }
  }

  lemma TableAbove(mem: Memory, root: nat, k: nat, level: nat)
    requires 1 <= level <= 3 && TableAt(mem, root, k, 1) != 0
    ensures TableAt(mem, root, k, level) != 0
  {
    hide Child;
    assert TableAt(mem, root, k, 2) != 0;
  }

  /** How many spans of a level there are keys for. */
  function SpanCount(level: nat): nat
    requires 1 <= level <= 3
  {
    if level == 1 then 0x800_0000 else if level == 2 then 0x4_0000 else 0x200
  }

  lemma PageParts(q: nat, level: nat) returns (t: nat)
    requires 1 <= level <= 3
    ensures q / Span(level) == t * SpanCount(level) + Prefix(KeyOfPage(q), level)
    ensures Prefix(KeyOfPage(q), level) < SpanCount(level)
  {
    var k := KeyOfPage(q);
    t := q / 0x10_0000_0000;
    assert q == t * 0x10_0000_0000 + k;
    PrefixQuotient(k);
    hide KeyOfPage, Prefix;
    if level == 1 {
      assert q / 0x200 == t * 0x800_0000 + k / 0x200;
    } else if level == 2 {
      assert q / 0x4_0000 == t * 0x4_0000 + k / 0x4_0000;
    } else {
      assert q / 0x800_0000 == t * 0x200 + k / 0x800_0000;
    }
  }

  lemma PrefixQuotient(k: nat)
    ensures Prefix(k, 1) == k / Span(1) && Prefix(k, 2) == k / Span(2) && Prefix(k, 3) == k / Span(3)
  {
    assert Prefix(k, 0) == k;
    assert Prefix(k, 1) == k / ENTRIES;
    assert Prefix(k, 2) == Prefix(k, 1) / ENTRIES;
    assert Prefix(k, 3) == Prefix(k, 2) / ENTRIES;
    hide Prefix;
    assert k / 0x200 / 0x200 == k / 0x4_0000;
    assert k / 0x4_0000 / 0x200 == k / 0x800_0000;
  }

  lemma SameRest(t: nat, a: nat, t': nat, a': nat, m: nat)
    requires t * m + a == t' * m + a' && a < m && a' < m
    ensures a == a'
  {
    Bits.DivUnique(t * m + a, m, t, a);
    Bits.DivUnique(t' * m + a', m, t', a');
  }

  lemma SameSpan(q: nat, level: nat)
    requires 1 <= level <= 3 && (q + 1) / Span(level) == q / Span(level)
    ensures Prefix(KeyOfPage(q), level) == Prefix(KeyOfPage(q + 1), level)
  {
    hide Prefix, KeyOfPage, Span, SpanCount;
    var t := PageParts(q, level);
    var t' := PageParts(q + 1, level);
    SameRest(t, Prefix(KeyOfPage(q), level), t', Prefix(KeyOfPage(q + 1), level), SpanCount(level));
  }

  lemma FramesStep(mem: Memory, root: nat, p: nat, i: nat, n: nat)
    requires i < n && (i > 0 ==> TableAt(mem, root, KeyOfPage(p + i - 1), 1) != 0)
    ensures FramesFor(p, i) + 1 + Missing(mem, root, KeyOfPage(p + i)) <= FramesFor(p, i + 1) <= FramesFor(p, n)
    ensures var missing := if TableAt(mem, root, KeyOfPage(p + i), 1) == 0 then 1 else 0;
      TablesSpanned(p, i, 1) + missing <= TablesSpanned(p, i + 1, 1)
  {
    SpannedMore(mem, root, p, i, 1);
    SpannedMore(mem, root, p, i, 2);
    SpannedMore(mem, root, p, i, 3);
    hide TableAt, KeyOfPage;
    FramesGrow(p, i + 1, n);
  }

  lemma FramesGrow(p: nat, m: nat, n: nat)
    requires m <= n
    ensures FramesFor(p, m) <= FramesFor(p, n)
  {
    SpannedGrows(p, m, n, 1);
    SpannedGrows(p, m, n, 2);
    SpannedGrows(p, m, n, 3);
    hide TablesSpanned;
  }

  lemma SpannedGrows(p: nat, m: nat, n: nat, level: nat)
    requires 1 <= level <= 3 && m <= n
    ensures TablesSpanned(p, m, level) <= TablesSpanned(p, n, level)
  {
    if m > 0 {
      QuotientGrows(p, p + n - 1, level);
      QuotientGrows(p + m - 1, p + n - 1, level);
    } else if n > 0 {
      QuotientGrows(p, p + n - 1, level);
    }
  }

  lemma QuotientGrows(a: nat, b: nat, level: nat)
    requires 1 <= level <= 3 && a <= b
    ensures a / Span(level) <= b / Span(level)
  {}

  /** The state after mapping the first n pages of a new region. */
  ghost predicate MappedSoFar(mem: Memory, owner: Owners, mem': Memory, owner': Owners, kernel: nat, root: nat, p: nat,
      n: nat) {
    && TakenForPages(owner, owner', root, p, n) && RangeWritten(mem, mem', owner, kernel, root, p, n)
    && Kept(mem, owner, mem', owner')
  }

  /** One more key of the range written. */
  lemma RangeMore(mem: Memory, owner: Owners, mem1: Memory, owner1: Owners, mem2: Memory, kernel: nat, root: nat,
      p: nat, n: nat, w: nat)
    requires WellFormed(mem, owner, kernel) && WellFormed(mem1, owner1, kernel) && Kept(mem, owner, mem1, owner1)
    requires IsRoot(mem, owner, root)
    requires RangeWritten(mem, mem1, owner, kernel, root, p, n)
    requires KeyWritten(mem1, mem2, owner1, kernel, root, KeyOfPage(p + n), w)
    ensures RangeWritten(mem, mem2, owner, kernel, root, p, n + 1)
  {
    hide WellFormed, Leaf, Kept, Together, KeyOfPage, KeyInRange;
    var key := KeyOfPage(p + n);
    assert IsRoot(mem1, owner1, root) by { StillRoot(mem, owner, mem1, owner1, root); }
    forall r, k | IsRoot(mem, owner, r) && IsKey(k)
      ensures Leaf(mem2, r, k) ==
        if KeyInRange(k, p, n + 1) && Together(mem, kernel, r, root, k) then Leaf(mem2, root, k) else Leaf(mem, r, k)
    {
      assert IsRoot(mem1, owner1, r) by { StillRoot(mem, owner, mem1, owner1, r); }
      KeyRangeGrows(k, p, n);
      TogetherStays(mem, owner, mem1, owner1, kernel, r, root, k);
      assert Together(mem1, kernel, root, root, k) by { TogetherSelf(mem1, kernel, root, k); }
    }
  }

  lemma TogetherSelf(mem: Memory, kernel: nat, r: nat, k: nat)
    ensures Together(mem, kernel, r, r, k)
  {}

  lemma MappedMore(mem: Memory, owner: Owners, mem1: Memory, owner1: Owners, mem2: Memory, owner2: Owners, kernel: nat,
      root: nat, p: nat, n: nat, q: nat, w: nat)
    requires WellFormed(mem, owner, kernel) && WellFormed(mem1, owner1, kernel) && IsRoot(mem, owner, root)
    requires MappedSoFar(mem, owner, mem1, owner1, kernel, root, p, n) && q == p + n
    requires TakenForPages(owner1, owner2, root, q, 1) && Kept(mem1, owner1, mem2, owner2)
    requires KeyWritten(mem1, mem2, owner1, kernel, root, KeyOfPage(q), w)
    ensures MappedSoFar(mem, owner, mem2, owner2, kernel, root, p, n + 1)
  {
    hide WellFormed, KeyWritten, RangeWritten, Kept;
    RangeMore(mem, owner, mem1, owner1, mem2, kernel, root, p, n, w);
    KeptTwice(mem, owner, mem1, owner1, mem2, owner2);
    forall f | f in owner ensures TakenFrom(owner[f], owner2[f], root, p, n + 1) {
      assert TakenFrom(owner[f], owner1[f], root, p, n) && TakenFrom(owner1[f], owner2[f], root, q, 1);
    }
  }

  /** The state after freeing the first n pages of a region. */
  ghost predicate FreedSoFar(mem: Memory, owner: Owners, mem': Memory, owner': Owners, kernel: nat, root: nat, p: nat,
      n: nat) {
    && ReleasedPages(owner, owner', root, p, n) && RangeWritten(mem, mem', owner, kernel, root, p, n)
    && Kept(mem, owner, mem', owner')
    && (forall q: nat :: InRange(q, p, n) ==> Leaf(mem', root, KeyOfPage(q)) == 0)
  }

  ghost predicate ReleasedPages(owner: Owners, owner': Owners, root: nat, p: nat, n: nat) {
    && owner'.Keys == owner.Keys
    && forall f :: f in owner ==> owner'[f] == if IsPageIn(owner[f], root, p, n) then Free else owner[f]
  }

  predicate IsPageIn(use: Owner, root: nat, p: nat, n: nat) {
    use.Page? && use.root == root && InRange(use.page, p, n)
  }

  lemma NothingFreed(mem: Memory, owner: Owners, kernel: nat, root: nat, p: nat)
    ensures FreedSoFar(mem, owner, mem, owner, kernel, root, p, 0)
  {
    NothingMoved(mem, owner);
  }

  lemma FreedMore(mem: Memory, owner: Owners, mem1: Memory, owner1: Owners, mem2: Memory, kernel: nat, root: nat,
      p: nat, n: nat, q: nat, f: nat)
    requires WellFormed(mem, owner, kernel) && WellFormed(mem1, owner1, kernel) && IsRoot(mem, owner, root)
    requires FreedSoFar(mem, owner, mem1, owner1, kernel, root, p, n) && q == p + n
    requires f in owner1 && owner1[f] == Page(root, q)
    requires forall g :: g in owner1 && owner1[g] == Page(root, q) ==> g == f
    requires KeyWritten(mem1, mem2, owner1, kernel, root, KeyOfPage(q), 0) &&
        Kept(mem1, owner1, mem2, owner1[f := Free])
    ensures FreedSoFar(mem, owner, mem2, owner1[f := Free], kernel, root, p, n + 1)
  {
    hide WellFormed, Leaf, KeyOfPage, Kept, RangeWritten, Together;
    RangeMore(mem, owner, mem1, owner1, mem2, kernel, root, p, n, 0);
    KeptTwice(mem, owner, mem1, owner1, mem2, owner1[f := Free]);
    ReleasedMore(owner, owner1, root, p, n, q, f);
    assert IsRoot(mem1, owner1, root) by { StillRoot(mem, owner, mem1, owner1, root); }
    forall x: nat | InRange(x, p, n + 1) ensures Leaf(mem2, root, KeyOfPage(x)) == 0 {
      TogetherSelf(mem1, kernel, root, KeyOfPage(x));
      if x != q { assert InRange(x, p, n); }
    }
  }

  lemma ReleasedMore(owner: Owners, owner1: Owners, root: nat, p: nat, n: nat, q: nat, f: nat)
    requires ReleasedPages(owner, owner1, root, p, n) && q == p + n
    requires f in owner1 && owner1[f] == Page(root, q)
    requires forall g :: g in owner1 && owner1[g] == Page(root, q) ==> g == f
    ensures ReleasedPages(owner, owner1[f := Free], root, p, n + 1)
  {
    forall g | g in owner
      ensures owner1[f := Free][g] == if IsPageIn(owner[g], root, p, n + 1) then Free else owner[g]
    {
      assert owner1[g] == if IsPageIn(owner[g], root, p, n) then Free else owner[g];
      if IsPageIn(owner[g], root, p, n + 1) && !IsPageIn(owner[g], root, p, n) { assert owner[g] == Page(root, q); }
    }
  }

  lemma KeyRangeGrows(k: nat, p: nat, n: nat)
    ensures KeyInRange(k, p, n + 1) <==> KeyInRange(k, p, n) || k == KeyOfPage(p + n)
  {
    if k == KeyOfPage(p + n) { assert InRange(p + n, p, n + 1); }
    if KeyInRange(k, p, n) {
      var q: nat :| InRange(q, p, n) && k == KeyOfPage(q);
      assert InRange(q, p, n + 1);
    }
    if KeyInRange(k, p, n + 1) {
      var q: nat :| InRange(q, p, n + 1) && k == KeyOfPage(q);
      if q != p + n { assert InRange(q, p, n); }
    }
  }

  lemma NothingMapped(mem: Memory, owner: Owners, kernel: nat, root: nat, p: nat)
    ensures MappedSoFar(mem, owner, mem, owner, kernel, root, p, 0)
  {
    NothingMoved(mem, owner);
  }

  // ----- Steps that keep PagesOk -----

  lemma KeyValue(mem: Memory, mem': Memory, owner: Owners, kernel: nat, root: nat, k: nat, w: nat)
    requires KeyWritten(mem, mem', owner, kernel, root, k, w) && IsRoot(mem, owner, root) && IsKey(k)
    ensures Leaf(mem', root, k) == w
  {}

  /** A translation of a window page of root is seen at no other window page. */
  lemma OneWindowPage(mem: Memory, mem': Memory, owner: Owners, kernel: nat, spaces: Spaces, root: nat, p: nat, w: nat,
      r: nat, p': nat)
    requires SpacesOk(mem, owner, kernel, spaces) && root in spaces && InWindow(spaces[root], p)
    requires KeyWritten(mem, mem', owner, kernel, root, KeyOfPage(p), w)
    requires r in spaces && InWindow(spaces[r], p') && (r, p') != (root, p)
    ensures Leaf(mem', r, KeyOfPage(p')) == Leaf(mem, r, KeyOfPage(p'))
  {
    hide Leaf, AllUsed, RingOk;
    assert SpaceOk(mem, owner, kernel, r, spaces[r]) && SpaceOk(mem, owner, kernel, root, spaces[root]);
    WindowKeys(kernel, root, spaces[root], p);
    WindowKeys(kernel, r, spaces[r], p');
    if r == root { WindowKey(kernel, r, spaces[r], p, p'); }
  }

  /** A fresh frame f, now owned by window page p of root and translated to by it, makes that page live. */
  lemma PageMapped(mem: Memory, owner: Owners, mem': Memory, owner': Owners, kernel: nat, spaces: Spaces,
      live: iset<(nat, nat)>, root: nat, p: nat, f: nat, w: nat)
    requires SpacesOk(mem, owner, kernel, spaces) && PagesOk(mem, owner, spaces, live)
    requires root in spaces && InWindow(spaces[root], p) && (root, p) !in live && IsRoot(mem, owner, root)
    requires f in owner && owner[f].Free? && OnlyTables(owner[f := Page(root, p)], owner')
    requires KeyWritten(mem, mem', owner, kernel, root, KeyOfPage(p), w) && FrameOf(w) == f
    ensures PagesOk(mem', owner', spaces, live + iset{(root, p)})
  {
    hide SpacesOk, KeyWritten, Leaf, KeyOfPage, FrameOf;
    KeyValue(mem, mem', owner, kernel, root, KeyOfPage(p), w);
    var live' := live + iset{(root, p)};
    forall r, p': nat | r in spaces && InWindow(spaces[r], p') ensures PageOk(mem', owner', live', r, p') {
      if (r, p') != (root, p) {
        OneWindowPage(mem, mem', owner, kernel, spaces, root, p, w, r, p');
        assert PageOk(mem, owner, live, r, p');
      }
    }
    forall g | g in owner' && owner'[g].Page?
      ensures HolderOk(mem', spaces, live', g, owner'[g].root, owner'[g].page)
    {
      if g != f {
        assert HolderOk(mem, spaces, live, g, owner[g].root, owner[g].page);
        OneWindowPage(mem, mem', owner, kernel, spaces, root, p, w, owner[g].root, owner[g].page);
      }
    }
  }

  /** Freeing a live page's frame and clearing its translation makes the page dead. */
  lemma PageUnmapped(mem: Memory, owner: Owners, mem': Memory, kernel: nat, spaces: Spaces, live: iset<(nat, nat)>,
      root: nat, p: nat, f: nat)
    requires SpacesOk(mem, owner, kernel, spaces) && PagesOk(mem, owner, spaces, live)
    requires root in spaces && InWindow(spaces[root], p) && (root, p) in live
    requires f == FrameOf(Leaf(mem, root, KeyOfPage(p))) && KeyWritten(mem, mem', owner, kernel, root, KeyOfPage(p), 0)
    ensures f in owner && owner[f] == Page(root, p)
    ensures PagesOk(mem', owner[f := Free], spaces, live - iset{(root, p)})
  {
    hide SpacesOk, KeyWritten, Leaf, KeyOfPage, FrameOf;
    assert PageOk(mem, owner, live, root, p);
    var owner', live' := owner[f := Free], live - iset{(root, p)};
    forall r, p': nat | r in spaces && InWindow(spaces[r], p') ensures PageOk(mem', owner', live', r, p') {
      if (r, p') != (root, p) {
        OneWindowPage(mem, mem', owner, kernel, spaces, root, p, 0, r, p');
        assert PageOk(mem, owner, live, r, p');
      }
    }
    forall g | g in owner' && owner'[g].Page?
      ensures HolderOk(mem', spaces, live', g, owner'[g].root, owner'[g].page)
    {
      assert HolderOk(mem, spaces, live, g, owner[g].root, owner[g].page);
      OneWindowPage(mem, mem', owner, kernel, spaces, root, p, 0, owner[g].root, owner[g].page);
    }
  }

  /** Two live pages never share a frame. */
  lemma FramesNotShared(mem: Memory, owner: Owners, spaces: Spaces, live: iset<(nat, nat)>, r: nat, p: nat, r': nat,
      p': nat)
    requires PagesOk(mem, owner, spaces, live)
    requires r in spaces && InWindow(spaces[r], p) && (r, p) in live
    requires r' in spaces && InWindow(spaces[r'], p') && (r', p') in live
    requires FrameOf(Leaf(mem, r, KeyOfPage(p))) == FrameOf(Leaf(mem, r', KeyOfPage(p')))
    ensures r == r' && p == p'
  {
    assert PageOk(mem, owner, live, r, p) && PageOk(mem, owner, live, r', p');
  }

  // ----- Frames changing use -----

  /** Taking a free frame for a page of a space, or giving a page's frame back, disturbs no tree and no space. */
  lemma FrameReused(mem: Memory, owner: Owners, kernel: nat, spaces: Spaces, f: nat, use: Owner)
    requires WellFormed(mem, owner, kernel) && SpacesOk(mem, owner, kernel, spaces)
    requires f in owner && (owner[f].Free? || owner[f].Page?)
    requires use.Free? || (use.Page? && use.root in spaces)
    ensures WellFormed(mem, owner[f := use], kernel) && SpacesOk(mem, owner[f := use], kernel, spaces)
  {
    hide WellFormed, WindowOk, RingOk, HasRegion, End;
    var owner' := owner[f := use];
    OwnerChangeKeepsTree(mem, owner, kernel, f, use);
    forall r | r in spaces ensures SpaceOk(mem, owner', kernel, r, spaces[r]) {
      assert SpaceOk(mem, owner, kernel, r, spaces[r]);
    }
    forall g | g in owner' ensures OwnerUsed(owner', spaces, g) {
      assert OwnerUsed(owner, spaces, g);
    }
  }

  lemma OwnerChangeKeepsTree(mem: Memory, owner: Owners, kernel: nat, f: nat, use: Owner)
    requires WellFormed(mem, owner, kernel) && f in owner && !owner[f].Table? && !use.Table?
    ensures WellFormed(mem, owner[f := use], kernel)
  {
    hide Reached;
    var owner' := owner[f := use];
    forall t | t in owner' && owner'[t].Table? ensures Reached(mem, owner', t) {
      var k := KeyOfTable(mem, owner, t);
      StillReached(mem, owner', t, k);
    }
    forall t | t in mem ensures TableOk(mem, owner', kernel, t) {
      assert TableOk(mem, owner, kernel, t);
      if owner[t].level >= 2 {
        forall e | 0 <= e < ENTRIES ensures EntryOk(mem, owner', kernel, t, e) {
          assert EntryOk(mem, owner, kernel, t, e);
        }
      }
    }
  }

  /** A change of translation does not depend on the use of a frame that is no table. */
  lemma KeyWrittenOwner(mem: Memory, mem': Memory, owner: Owners, f: nat, use: Owner, kernel: nat, root: nat, k: nat,
      w: nat)
    requires f in owner && !owner[f].Table? && !use.Table?
    requires KeyWritten(mem, mem', owner[f := use], kernel, root, k, w)
    ensures KeyWritten(mem, mem', owner, kernel, root, k, w)
  {
    hide Leaf, Together;
    forall r, k' | IsRoot(mem, owner, r) && IsKey(k')
      ensures Leaf(mem', r, k') == if k' == k && Together(mem, kernel, r, root, k) then w else Leaf(mem, r, k')
    {
      assert IsRoot(mem, owner[f := use], r);
    }
  }

  /** Nor does what is kept of the tables. */
  lemma KeptOwner(mem: Memory, owner: Owners, mem': Memory, owner': Owners, f: nat, use: Owner, use': Owner)
    requires f in owner && !owner[f].Table? && !use.Table? && f in owner' && !owner'[f].Table? && !use'.Table?
    requires !owner[f].Storage? && !use'.Storage?
    requires Kept(mem, owner[f := use], mem', owner')
    ensures Kept(mem, owner, mem', owner'[f := use'])
  {
    hide Present, Addr;
    var owner1, owner2 := owner[f := use], owner'[f := use'];
    assert owner1.Keys == owner.Keys && owner2.Keys == owner'.Keys;
    forall r, e | IsRoot(mem, owner, r) && 0 <= e < |mem[r]| && r in mem' && e < |mem'[r]|
      ensures OwnEntry(mem[r][e], mem'[r][e], owner2, r)
    {
      assert IsRoot(mem, owner1, r);
      assert OwnEntry(mem[r][e], mem'[r][e], owner', r);
    }
  }

  // ----- Fixed mappings -----

  /** Key k is of no live page that a mapping of it through root could be seen at. */
  ghost predicate OutsideLive(spaces: Spaces, live: iset<(nat, nat)>, root: nat, k: nat) {
    forall r, p: nat :: r in spaces && (r, p) in live && (r == root || Digit(k, 4) >= 256) ==> KeyOfPage(p) != k
  }

  /** Mapping or unmapping such a key leaves every region page alone. */
  lemma PagesKeptOutside(mem: Memory, owner: Owners, mem': Memory, owner': Owners, kernel: nat, spaces: Spaces,
      live: iset<(nat, nat)>, root: nat, k: nat, w: nat)
    requires SpacesOk(mem, owner, kernel, spaces) && PagesOk(mem, owner, spaces, live) && IsKey(k)
    requires OutsideLive(spaces, live, root, k) && OnlyTables(owner, owner')
    requires KeyWritten(mem, mem', owner, kernel, root, k, w)
    ensures PagesOk(mem', owner', spaces, live)
  {
    hide WindowOk, RingOk, Leaf, KeyOfPage, FrameOf, Digit, AllUsed, End, Shares;
    forall r, p: nat | r in spaces && (r, p) in live
      ensures Leaf(mem', r, KeyOfPage(p)) == Leaf(mem, r, KeyOfPage(p))
    {
      assert SpaceOk(mem, owner, kernel, r, spaces[r]);
    }
    forall r, p: nat | r in spaces && InWindow(spaces[r], p) ensures PageOk(mem', owner', live, r, p) {
      assert PageOk(mem, owner, live, r, p);
    }
    forall f | f in owner' && owner'[f].Page? ensures HolderOk(mem', spaces, live, f, owner'[f].root, owner'[f].page) {
      assert HolderOk(mem, spaces, live, f, owner[f].root, owner[f].page);
    }
  }

  /**
    Mapping the key of a live page to w keeps the page's frame its own exactly when w leads to the same frame:
    otherwise the frame it had is lost.
   */
  lemma LivePageOverwritten(mem: Memory, owner: Owners, mem': Memory, owner': Owners, kernel: nat, spaces: Spaces,
      live: iset<(nat, nat)>, root: nat, p: nat, w: nat)
    requires SpacesOk(mem, owner, kernel, spaces) && PagesOk(mem, owner, spaces, live)
    requires root in spaces && InWindow(spaces[root], p) && (root, p) in live && IsRoot(mem, owner, root)
    requires OnlyTables(owner, owner') && KeyWritten(mem, mem', owner, kernel, root, KeyOfPage(p), w)
    ensures PagesOk(mem', owner', spaces, live) <==> FrameOf(w) == FrameOf(Leaf(mem, root, KeyOfPage(p)))
  {
    hide SpacesOk, KeyWritten, Leaf, KeyOfPage, FrameOf;
    KeyValue(mem, mem', owner, kernel, root, KeyOfPage(p), w);
    assert PageOk(mem, owner, live, root, p);
    var f := FrameOf(Leaf(mem, root, KeyOfPage(p)));
    if FrameOf(w) == f {
      forall r, p': nat | r in spaces && InWindow(spaces[r], p')
        ensures FrameOf(Leaf(mem', r, KeyOfPage(p'))) == FrameOf(Leaf(mem, r, KeyOfPage(p')))
        ensures PageOk(mem', owner', live, r, p')
      {
        assert PageOk(mem, owner, live, r, p');
        if (r, p') != (root, p) { OneWindowPage(mem, mem', owner, kernel, spaces, root, p, w, r, p'); }
      }
      forall g | g in owner' && owner'[g].Page?
        ensures HolderOk(mem', spaces, live, g, owner'[g].root, owner'[g].page)
      {
        assert HolderOk(mem, spaces, live, g, owner[g].root, owner[g].page);
      }
    } else {
      assert owner'[f] == Page(root, p) && !HolderOk(mem', spaces, live, f, root, p);
    }
  }

  // ----- A new address space -----

  /** The owners and spaces once frames m, r and h are a new space's page map, top level and ring head. */
  function SpaceOwners(owner: Owners, m: nat, r: nat, h: nat): Owners {
    NodeOwners(owner, m, r, h)[r := Table(r, 4, 0)]
  }

  function NodeOwners(owner: Owners, m: nat, r: nat, h: nat): Owners {
    owner[m := MapNode(r)][h := HeadNode(r)]
  }

  function WithSpace(spaces: Spaces, m: nat, r: nat, h: nat): Spaces {
    spaces[r := Space(m, h, USER_BASE, USER_LIMIT, [])]
  }

  lemma NewSpaceOk(mem: Memory, mem': Memory, owner: Owners, kernel: nat, spaces: Spaces, m: nat, r: nat, h: nat)
    requires m in owner && r in owner && h in owner && m != r && m != h && r != h && r != 0
    requires owner[m].Free? && owner[r].Free? && owner[h].Free?
    requires kernel in mem && |mem[kernel]| == ENTRIES && mem' == mem[r := CopiedTop(mem[kernel])]
    requires WellFormed(mem, owner, kernel) && SpacesOk(mem, owner, kernel, spaces)
    ensures WellFormed(mem', SpaceOwners(owner, m, r, h), kernel)
    ensures SpacesOk(mem', SpaceOwners(owner, m, r, h), kernel, WithSpace(spaces, m, r, h))
    ensures RootAdded(mem, mem', NodeOwners(owner, m, r, h), SpaceOwners(owner, m, r, h), kernel, r)
    ensures WellFormed(mem, NodeOwners(owner, m, r, h), kernel) && r !in spaces
  {
    hide RingOk, HasRegion, CopiedTop, WellFormed, AllUsed, WindowOk;
    var owner1 := NodeOwners(owner, m, r, h);
    var owner', spaces' := SpaceOwners(owner, m, r, h), WithSpace(spaces, m, r, h);
    NewRootFree(mem, owner, kernel, spaces, r);
    OwnerChangeKeepsTree(mem, owner, kernel, m, MapNode(r));
    OwnerChangeKeepsTree(mem, owner[m := MapNode(r)], kernel, h, HeadNode(r));
    AddRootKeepsTree(mem, mem', owner1, owner', kernel, r);
    EmptyRingOk(USER_BASE);
    forall q | q in spaces' ensures SpaceOk(mem', owner', kernel, q, spaces'[q]) {
      if q != r {
        assert SpaceOk(mem, owner, kernel, q, spaces[q]);
        OtherSpaceKept(mem, owner, kernel, q, spaces[q], m, MapNode(r));
        OtherSpaceKept(mem, owner[m := MapNode(r)], kernel, q, spaces[q], h, HeadNode(r));
        OtherSpaceKept(mem, owner1, kernel, q, spaces[q], r, Table(r, 4, 0));
      } else {
        NewWindow(kernel, r, spaces'[r]);
      }
    }
    NewOwnersUsed(owner, spaces, m, r, h);
  }

  lemma NewRootFree(mem: Memory, owner: Owners, kernel: nat, spaces: Spaces, r: nat)
    requires WellFormed(mem, owner, kernel) && SpacesOk(mem, owner, kernel, spaces) && r in owner && owner[r].Free?
    ensures r !in mem && r !in spaces && r != kernel && kernel in mem && |mem[kernel]| == ENTRIES
  {
    assert TableOk(mem, owner, kernel, kernel);
    assert r in mem ==> TableOk(mem, owner, kernel, r);
    assert r in spaces ==> SpaceOk(mem, owner, kernel, r, spaces[r]);
  }

  lemma NewWindow(kernel: nat, r: nat, s: Space)
    requires r != kernel && s.base == USER_BASE && s.limit == USER_LIMIT
    ensures WindowOk(kernel, r, s)
  {}

  lemma NewOwnersUsed(owner: Owners, spaces: Spaces, m: nat, r: nat, h: nat)
    requires AllUsed(owner, spaces) && r !in spaces && m != r && m != h && r != h
    ensures AllUsed(SpaceOwners(owner, m, r, h), WithSpace(spaces, m, r, h))
  {
    hide HasRegion;
    var owner', spaces' := SpaceOwners(owner, m, r, h), WithSpace(spaces, m, r, h);
    forall g | g in owner' ensures OwnerUsed(owner', spaces', g) {
      if g in owner { assert OwnerUsed(owner, spaces, g); }
    }
  }

  /** A new space has no live page, and its window is unmapped; every other space keeps its pages. */
  lemma NewSpacePages(mem: Memory, mem': Memory, owner: Owners, owner1: Owners, owner': Owners, kernel: nat,
      spaces: Spaces, spaces': Spaces, r: nat)
    requires WellFormed(mem, owner1, kernel) && RootAdded(mem, mem', owner1, owner', kernel, r) && r !in spaces
    requires SpacesOk(mem, owner, kernel, spaces) && PagesOk(mem, owner, spaces, LivePages(spaces)) && r != kernel
    requires forall f :: f in owner && (owner[f].Page? || owner[f].Table?) ==> f in owner1 && owner1[f] == owner[f]
    requires owner'.Keys == owner.Keys
    requires forall f :: f in owner && (owner[f].Page? || owner'[f].Page?) ==> owner'[f] == owner[f]
    requires forall q :: q in spaces' <==> q in spaces || q == r
    requires forall q :: q in spaces ==> spaces'[q] == spaces[q]
    requires spaces'[r].base == USER_BASE && spaces'[r].limit == USER_LIMIT && spaces'[r].regions == []
    ensures PagesOk(mem', owner', spaces', LivePages(spaces'))
  {
    hide WellFormed, RootAdded, SpacesOk, IsRoot, Leaf, FrameOf, CopiedTop, KeyOfPage;
    NothingLiveAdded(spaces, spaces', r);
    hide LivePages;
    forall q, p: nat | q in spaces' && InWindow(spaces'[q], p)
      ensures PageOk(mem', owner', LivePages(spaces'), q, p)
      ensures q in spaces ==> Leaf(mem', q, KeyOfPage(p)) == Leaf(mem, q, KeyOfPage(p))
    {
      AddRootEffect(mem, mem', owner1, owner', kernel, r, q, KeyOfPage(p));
      if q != r {
        OldRoot(mem, owner, owner1, kernel, spaces, q);
        assert PageOk(mem, owner, LivePages(spaces), q, p);
      }
    }
    forall f | f in owner' && owner'[f].Page?
      ensures HolderOk(mem', spaces', LivePages(spaces'), f, owner'[f].root, owner'[f].page)
    {
      assert HolderOk(mem, spaces, LivePages(spaces), f, owner[f].root, owner[f].page);
    }
  }

  lemma OldRoot(mem: Memory, owner: Owners, owner1: Owners, kernel: nat, spaces: Spaces, q: nat)
    requires SpacesOk(mem, owner, kernel, spaces) && q in spaces
    requires forall f :: f in owner && (owner[f].Page? || owner[f].Table?) ==> f in owner1 && owner1[f] == owner[f]
    ensures IsRoot(mem, owner1, q)
  {
    hide WindowOk, RingOk, AllUsed;
    assert SpaceOk(mem, owner, kernel, q, spaces[q]);
  }

  lemma NothingLiveAdded(spaces: Spaces, spaces': Spaces, r: nat)
    requires r in spaces' && spaces'[r].regions == []
    requires forall q :: q in spaces' <==> q in spaces || q == r
    requires forall q :: q in spaces ==> spaces'[q] == spaces[q]
    ensures LivePages(spaces') == LivePages(spaces)
    ensures forall p: nat :: (r, p) !in LivePages(spaces')
  {}

  /** The kernel's top-level entry for an upper-half key is present. */
  ghost predicate KernelEntry(mem: Memory, kernel: nat, k: nat) {
    Digit(k, 4) >= 256 && kernel in mem && Digit(k, 4) < |mem[kernel]| && Present(mem[kernel][Digit(k, 4)])
  }

  /** Space r translates the upper half as the kernel does and nothing else; it shares every present entry. */
  ghost predicate SeesKernel(mem: Memory, kernel: nat, r: nat) {
    && (forall k :: IsKey(k) ==> Leaf(mem, r, k) == if Digit(k, 4) >= 256 then Leaf(mem, kernel, k) else 0)
    && (forall k :: KernelEntry(mem, kernel, k) ==> Shares(mem, kernel, r, k))
  }

  lemma NewSpaceView(mem: Memory, mem': Memory, owner: Owners, owner': Owners, kernel: nat, r: nat)
    requires WellFormed(mem, owner, kernel) && RootAdded(mem, mem', owner, owner', kernel, r)
    ensures Grows(mem, owner, mem') && SameLeaves(mem, mem', owner) && SeesKernel(mem', kernel, r)
  {
    hide Reached;
    assert TableOk(mem, owner, kernel, kernel);
    forall q, k | IsKey(k)
      ensures Leaf(mem', r, k) == if Digit(k, 4) >= 256 then Leaf(mem', kernel, k) else 0
      ensures IsRoot(mem, owner, q) ==> Leaf(mem', q, k) == Leaf(mem, q, k)
    {
      AddRootEffect(mem, mem', owner, owner', kernel, r, q, k);
      AddRootEffect(mem, mem', owner, owner', kernel, r, kernel, k);
    }
  }

  lemma NewSpaceInvariant(mem: Memory, owner: Owners, kernel: nat, spaces: Spaces, m: nat, r: nat, h: nat)
    requires WellFormed(mem, owner, kernel) && SpacesOk(mem, owner, kernel, spaces)
    requires m in owner && r in owner && h in owner && m != r && m != h && r != h && r != 0
    requires owner[m].Free? && owner[r].Free? && owner[h].Free?
    requires kernel in mem && |mem[kernel]| == ENTRIES
    ensures var mem', owner', spaces' := mem[r := CopiedTop(mem[kernel])], SpaceOwners(owner, m, r, h),
        WithSpace(spaces, m, r, h);
      && WellFormed(mem', owner', kernel) && SpacesOk(mem', owner', kernel, spaces')
      && (PagesOk(mem, owner, spaces, LivePages(spaces)) ==> PagesOk(mem', owner', spaces', LivePages(spaces')))
    ensures var mem', owner' := mem[r := CopiedTop(mem[kernel])], SpaceOwners(owner, m, r, h);
      && Kept(mem, owner, mem', owner') && SameLeaves(mem, mem', owner)
      && IsRoot(mem', owner', r) && SeesKernel(mem', kernel, r)
    ensures r !in spaces
  {
    hide WellFormed, SpacesOk, PagesOk, LivePages, CopiedTop, RootAdded, Leaf;
    var mem', owner1 := mem[r := CopiedTop(mem[kernel])], NodeOwners(owner, m, r, h);
    NewRootFree(mem, owner, kernel, spaces, r);
    NewSpaceOk(mem, mem', owner, kernel, spaces, m, r, h);
    if PagesOk(mem, owner, spaces, LivePages(spaces)) {
      NewSpacePages(mem, mem', owner, owner1, SpaceOwners(owner, m, r, h), kernel, spaces, WithSpace(spaces, m, r, h),
          r);
    }
    NewSpaceView(mem, mem', owner1, SpaceOwners(owner, m, r, h), kernel, r);
  }

  // ----- Regions appearing and disappearing -----

  /** Whether an owner names space r's own structures or a table. */
  predicate BelongsTo(use: Owner, r: nat) {
    use.Table? || use == MapNode(r) || use == HeadNode(r) || (use.Header? && use.root == r)
  }

  lemma OtherSpaceKept(mem: Memory, owner: Owners, kernel: nat, r: nat, s: Space, f: nat, use: Owner)
    requires SpaceOk(mem, owner, kernel, r, s) && f in owner && !BelongsTo(owner[f], r)
    ensures SpaceOk(mem, owner[f := use], kernel, r, s)
  {}

  /** The owners stay used when one space's regions change, if each header still has its region. */
  lemma OwnersStayUsed(owner: Owners, spaces: Spaces, root: nat, s': Space, f: nat, use: Owner)
    requires root in spaces && f in owner
    requires AllUsed(owner, spaces)
    requires s'.mapFrame == spaces[root].mapFrame && s'.headFrame == spaces[root].headFrame
    requires use.Free? || (use.Header? && use.root == root && HasRegion(s'.regions, use.va, f))
    requires forall va, g :: g != f && HasRegion(spaces[root].regions, va, g) ==> HasRegion(s'.regions, va, g)
    ensures AllUsed(owner[f := use], spaces[root := s'])
  {
    hide HasRegion;
    var owner', spaces' := owner[f := use], spaces[root := s'];
    forall g | g in owner' ensures OwnerUsed(owner', spaces', g) {
      assert OwnerUsed(owner, spaces, g);
    }
  }

  lemma RegionsKept(regs: seq<Region>, regs': seq<Region>, f: nat)
    requires forall i :: 0 <= i < |regs| && regs[i].frame != f ==> regs[i] in regs'
    ensures forall va, g :: g != f && HasRegion(regs, va, g) ==> HasRegion(regs', va, g)
  {
    forall va, g | g != f && HasRegion(regs, va, g) ensures HasRegion(regs', va, g) {
      var i :| 0 <= i < |regs| && regs[i].va == va && regs[i].frame == g;
      var j :| 0 <= j < |regs'| && regs'[j] == regs[i];
    }
  }

  /** Linking a new region, whose structure lives in frame f. */
  lemma RegionLinked(mem: Memory, owner: Owners, kernel: nat, spaces: Spaces, root: nat, f: nat, n: nat)
    requires WellFormed(mem, owner, kernel) && SpacesOk(mem, owner, kernel, spaces) && root in spaces && n > 0
    requires f in owner && owner[f].Free?
    requires var s := spaces[root];
      Appends(s.regions, n) ==> NewAddress(s.base, s.regions, n) + n * PAGE_SIZE <= s.limit
    ensures var s := spaces[root];
      var owner' := owner[f := Header(root, NewAddress(s.base, s.regions, n))];
      && WellFormed(mem, owner', kernel)
      && SpacesOk(mem, owner', kernel, spaces[root := s.(regions := Placed(s.base, s.regions, f, n))])
  {
    hide WellFormed, AllUsed, Appends, NewAddress, FirstFit, WindowOk, RingOk;
    var s := spaces[root];
    var use := Header(root, NewAddress(s.base, s.regions, n));
    var s' := s.(regions := Placed(s.base, s.regions, f, n));
    OwnerChangeKeepsTree(mem, owner, kernel, f, use);
    var at := PlacedWhere(s.base, s.regions, f, n);
    assert SpaceOk(mem, owner, kernel, root, s);
    forall r | r in spaces && r != root ensures SpaceOk(mem, owner[f := use], kernel, r, spaces[r]) {
      OtherSpaceKept(mem, owner, kernel, r, spaces[r], f, use);
    }
    SpaceExtended(mem, owner, kernel, root, s, f, n);
    assert s'.regions[at] == Region(f, use.va, n);
    assert HasRegion(s'.regions, use.va, f);
    RegionsKept(s.regions, s'.regions, f);
    OwnersStayUsed(owner, spaces, root, s', f, use);
  }

  lemma SpaceExtended(mem: Memory, owner: Owners, kernel: nat, r: nat, s: Space, f: nat, n: nat)
    requires SpaceOk(mem, owner, kernel, r, s) && f in owner && owner[f].Free? && n > 0
    requires Appends(s.regions, n) ==> NewAddress(s.base, s.regions, n) + n * PAGE_SIZE <= s.limit
    ensures SpaceOk(mem, owner[f := Header(r, NewAddress(s.base, s.regions, n))], kernel, r,
                    s.(regions := Placed(s.base, s.regions, f, n)))
  {
    hide Appends, NewAddress, FirstFit, RingOk, Placed;
    var at := PlacedWhere(s.base, s.regions, f, n);
    PlacedOk(s.base, s.regions, f, n);
    var regs' := Placed(s.base, s.regions, f, n);
    if at < |s.regions| { PlacedBelow(s.base, regs', at); }
    forall i | 0 <= i < |regs'| && i != at ensures regs'[i] == s.regions[if i < at then i else i - 1] {}
  }

  lemma PlacedBelow(base: nat, regs: seq<Region>, i: nat)
    requires RingOk(base, regs) && i + 1 < |regs|
    ensures End(regs[i]) <= End(regs[i + 1])
  {}

  /** Unlinking region i and giving its frame back. */
  lemma RegionUnlinked(mem: Memory, owner: Owners, kernel: nat, spaces: Spaces, root: nat, i: nat)
    requires WellFormed(mem, owner, kernel) && SpacesOk(mem, owner, kernel, spaces)
    requires root in spaces && i < |spaces[root].regions|
    ensures var s := spaces[root];
      var f := s.regions[i].frame;
      && f in owner && owner[f] == Header(root, s.regions[i].va)
      && WellFormed(mem, owner[f := Free], kernel)
      && SpacesOk(mem, owner[f := Free], kernel, spaces[root := s.(regions := Removed(s.regions, i))])
  {
    hide WellFormed, AllUsed, WindowOk, RingOk, HasRegion;
    var s := spaces[root];
    var regs, regs' := s.regions, Removed(s.regions, i);
    var f, s' := regs[i].frame, s.(regions := regs');
    assert SpaceOk(mem, owner, kernel, root, s);
    OwnerChangeKeepsTree(mem, owner, kernel, f, Free);
    forall r | r in spaces && r != root ensures SpaceOk(mem, owner[f := Free], kernel, r, spaces[r]) {
      OtherSpaceKept(mem, owner, kernel, r, spaces[r], f, Free);
    }
    SpaceShrunk(mem, owner, kernel, root, s, i);
    forall j | 0 <= j < |regs| && regs[j].frame != f ensures regs[j] in regs' {
      assert regs'[if j < i then j else j - 1] == regs[j];
    }
    RegionsKept(regs, regs', f);
    OwnersStayUsed(owner, spaces, root, s', f, Free);
  }

  lemma SpaceShrunk(mem: Memory, owner: Owners, kernel: nat, r: nat, s: Space, i: nat)
    requires SpaceOk(mem, owner, kernel, r, s) && i < |s.regions|
    ensures SpaceOk(mem, owner[s.regions[i].frame := Free], kernel, r, s.(regions := Removed(s.regions, i)))
  {
    var regs, regs' := s.regions, Removed(s.regions, i);
    RemovedOk(s.base, regs, i);
    assert forall j :: 0 <= j < |regs'| ==> regs'[j] == regs[if j < i then j else j + 1];
  }

  /** Only the frames and the windows of the spaces matter to PagesOk, not their regions. */
  lemma PagesKeptByRegions(mem: Memory, owner: Owners, owner': Owners, spaces: Spaces, spaces': Spaces,
      live: iset<(nat, nat)>)
    requires PagesOk(mem, owner, spaces, live) && spaces'.Keys == spaces.Keys
    requires forall r :: r in spaces ==> spaces'[r].base == spaces[r].base && spaces'[r].limit == spaces[r].limit
    requires owner'.Keys == owner.Keys
    requires forall f :: f in owner && (owner[f].Page? || owner'[f].Page?) ==> owner'[f] == owner[f]
    ensures PagesOk(mem, owner', spaces', live)
  {
    forall r, p: nat | r in spaces' && InWindow(spaces'[r], p) ensures PageOk(mem, owner', live, r, p) {
      assert InWindow(spaces[r], p);
      assert PageOk(mem, owner, live, r, p);
    }
    forall f | f in owner' && owner'[f].Page? ensures HolderOk(mem, spaces', live, f, owner'[f].root, owner'[f].page) {
      assert HolderOk(mem, spaces, live, f, owner[f].root, owner[f].page);
    }
  }

  ghost function PageRange(root: nat, p: nat, n: nat): iset<(nat, nat)> {
    iset q: nat | InRange(q, p, n) :: (root, q)
  }

  lemma PageRangeGrows(live: iset<(nat, nat)>, root: nat, p: nat, n: nat)
    ensures live + PageRange(root, p, n) + iset{(root, p + n)} == live + PageRange(root, p, n + 1)
    ensures (root, p + n) !in PageRange(root, p, n)
    ensures live + PageRange(root, p, 0) == live
    ensures live - PageRange(root, p, n) - iset{(root, p + n)} == live - PageRange(root, p, n + 1)
    ensures live - PageRange(root, p, 0) == live
  {}

  /** A page of the new region is a page of no older region. */
  lemma NewPageApart(s: Space, n: nat, p: nat)
    requires RingOk(s.base, s.regions) && n > 0 && InRange(p, NewAddress(s.base, s.regions, n) / PAGE_SIZE, n)
    ensures !RegionPage(s.regions, p)
  {
    hide NewAddress, FirstFit, Holds, Placed, RingOk;
    var r := Region(0, NewAddress(s.base, s.regions, n), n);
    var at := PlacedWhere(s.base, s.regions, 0, n);
    PlacedOk(s.base, s.regions, 0, n);
    HoldsNew(r, p);
    var regs' := Placed(s.base, s.regions, 0, n);
    assert regs'[at] == r;
    if RegionPage(s.regions, p) {
      var i :| 0 <= i < |s.regions| && Holds(s.regions[i], p);
      var j := if i < at then i else i + 1;
      assert regs'[j] == s.regions[i];
      HeldOnce(s.base, regs', if j < at then j else at, if j < at then at else j, p);
    }
  }

  lemma PagePlaced(base: nat, regs: seq<Region>, frame: nat, n: nat, p: nat)
    ensures RegionPage(Placed(base, regs, frame, n), p)
       <==> (RegionPage(regs, p) || InRange(p, NewAddress(base, regs, n) / PAGE_SIZE, n))
  {
    hide NewAddress, FirstFit, Holds, Placed;
    var r := Region(frame, NewAddress(base, regs, n), n);
    var at := PlacedWhere(base, regs, frame, n);
    var regs' := Placed(base, regs, frame, n);
    HoldsNew(r, p);
    assert regs'[at] == r;
    if RegionPage(regs, p) {
      var i :| 0 <= i < |regs| && Holds(regs[i], p);
      assert regs'[if i < at then i else i + 1] == regs[i];
    }
    if RegionPage(regs', p) {
      var i :| 0 <= i < |regs'| && Holds(regs'[i], p);
      if i != at { assert regs'[i] == regs[if i < at then i else i - 1]; }
    }
  }

  lemma HoldsNew(r: Region, p: nat)
    ensures Holds(r, p) <==> InRange(p, r.va / PAGE_SIZE, r.pages)
  {}

  lemma HeldOnce(base: nat, regs: seq<Region>, i: nat, j: nat, p: nat)
    requires RingOk(base, regs) && i < j < |regs|
    ensures !(Holds(regs[i], p) && Holds(regs[j], p))
  {}

  lemma PageRemoved(base: nat, regs: seq<Region>, i: nat, p: nat)
    requires RingOk(base, regs) && i < |regs|
    ensures RegionPage(Removed(regs, i), p) <==> (RegionPage(regs, p) && !Holds(regs[i], p))
  {
    hide Holds, RingOk;
    var regs' := Removed(regs, i);
    if RegionPage(regs', p) {
      var j :| 0 <= j < |regs'| && Holds(regs'[j], p);
      var j' := if j < i then j else j + 1;
      assert regs[j'] == regs'[j];
      HeldOnce(base, regs, if i < j' then i else j', if i < j' then j' else i, p);
    }
    if RegionPage(regs, p) {
      var j :| 0 <= j < |regs| && Holds(regs[j], p);
      if j != i { assert regs'[if j < i then j else j - 1] == regs[j]; }
    }
  }

  lemma LivePlaced(spaces: Spaces, root: nat, frame: nat, n: nat)
    requires root in spaces
    ensures var s := spaces[root];
      LivePages(spaces[root := s.(regions := Placed(s.base, s.regions, frame, n))])
      == LivePages(spaces) + PageRange(root, NewAddress(s.base, s.regions, n) / PAGE_SIZE, n)
  {
    hide RegionPage, Placed, NewAddress;
    forall p: nat { PagePlaced(spaces[root].base, spaces[root].regions, frame, n, p); }
  }

  lemma LiveRemoved(spaces: Spaces, root: nat, i: nat)
    requires root in spaces && RingOk(spaces[root].base, spaces[root].regions) && i < |spaces[root].regions|
    ensures var s := spaces[root];
      LivePages(spaces[root := s.(regions := Removed(s.regions, i))])
      == LivePages(spaces) - PageRange(root, s.regions[i].va / PAGE_SIZE, s.regions[i].pages)
  {
    hide RegionPage, Removed, RingOk;
    forall p: nat { PageRemoved(spaces[root].base, spaces[root].regions, i, p); }
  }

  // ----- The push check -----

  lemma {:induction false} DistinctCount(s: seq<nat>, keys: set<nat>)
    requires Distinct(s) && forall x :: x in s ==> x in keys
    ensures |s| <= |keys|
  {
    if s != [] {
      var init, last := s[..|s| - 1], s[|s| - 1];
      forall x | x in init ensures x in keys - {last} {
        var i :| 0 <= i < |init| && init[i] == x;
        assert s[i] != s[|s| - 1];
      }
      DistinctCount(init, keys - {last});
      assert last in s;
    }
  }

  /** While some usable frame is in use, the free stack is below its capacity: a push never panics. */
  lemma RoomToPush(free: seq<nat>, owner: Owners, capacity: nat, f: nat)
    requires FreeOk(free, owner) && FramesOk(owner, capacity) && f in owner && !owner[f].Free?
    ensures |free| < capacity
  {
    DistinctCount(free, owner.Keys - {f});
    assert |owner.Keys - {f}| == |owner| - 1;
  }
}
