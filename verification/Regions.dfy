/**
  The virtual regions of one address space, kernel/src/mm/vmm.c:32-61 and 146-166, as the sequence of
  regions in ring order: sorted, disjoint, and extended by first fit.
 */
module Regions {
  import opened PageTable

  datatype Region = Region(frame: nat, va: nat, pages: nat)

  function End(r: Region): nat { r.va + r.pages * PAGE_SIZE }

  /** The ring of a space whose head address is base: page-aligned regions at or above base, in address order, apart. */
  predicate RingOk(base: nat, regs: seq<Region>) {
    && base % PAGE_SIZE == 0
    && (forall i :: 0 <= i < |regs| ==> regs[i].va % PAGE_SIZE == 0 && regs[i].pages > 0 && base <= regs[i].va)
    && (forall i, j :: 0 <= i < j < |regs| ==> End(regs[i]) <= regs[j].va)
  }

  /** The pages between regions i and i + 1, rounded up as the kernel does. */
  function Gap(regs: seq<Region>, i: nat): int
    requires i + 1 < |regs|
  {
    DivRoundUp(regs[i + 1].va - End(regs[i]), PAGE_SIZE)
  }

  /** The first region from i on that is followed by a gap of n pages; the last region when there is none. */
  function FirstFit(regs: seq<Region>, n: nat, i: nat): (f: nat)
    requires i < |regs|
    ensures i <= f < |regs|
    ensures f + 1 < |regs| ==> Gap(regs, f) >= n
    ensures forall j :: i <= j < f ==> Gap(regs, j) < n
    decreases |regs| - i
  {
    if i + 1 == |regs| || Gap(regs, i) >= n then i else FirstFit(regs, n, i + 1)
  }

  /** Whether a region of n pages goes to the end of the ring. */
  predicate Appends(regs: seq<Region>, n: nat) {
    regs == [] || FirstFit(regs, n, 0) + 1 == |regs|
  }

  /** The address of a new region of n pages, and the ring with it. */
  function NewAddress(base: nat, regs: seq<Region>, n: nat): nat {
    if regs == [] then base else End(regs[FirstFit(regs, n, 0)])
  }

  function Placed(base: nat, regs: seq<Region>, frame: nat, n: nat): seq<Region> {
    var r := Region(frame, NewAddress(base, regs, n), n);
    if regs == [] then [r]
    else
      var f := FirstFit(regs, n, 0);
      regs[..f + 1] + [r] + regs[f + 1..]
  }

  /** The address the kernel returns: on the gap path it is the old neighbour's. */
  function ReturnedAddress(base: nat, regs: seq<Region>, n: nat): nat {
    if Appends(regs, n) then NewAddress(base, regs, n) else regs[FirstFit(regs, n, 0)].va
  }

  lemma AppendedAddress(base: nat, regs: seq<Region>, n: nat)
    requires Appends(regs, n)
    ensures ReturnedAddress(base, regs, n) == NewAddress(base, regs, n)
  {}

  /** None of the n pages from x on is in a region. */
  predicate FreeAt(regs: seq<Region>, x: nat, n: nat) {
    forall i :: 0 <= i < |regs| ==> End(regs[i]) <= x || x + n * 0x1000 <= regs[i].va
  }

  lemma GapTooSmall(base: nat, regs: seq<Region>, n: nat, i: nat)
    requires RingOk(base, regs) && i + 1 < |regs|
    ensures Gap(regs, i) >= n <==> End(regs[i]) + n * 0x1000 <= regs[i + 1].va
  {
    var d := regs[i + 1].va - End(regs[i]);
    assert d % PAGE_SIZE == 0;
    assert d == d / PAGE_SIZE * PAGE_SIZE;
    assert Gap(regs, i) == d / PAGE_SIZE;
  }

  lemma {:induction false} NoneBelow(base: nat, regs: seq<Region>, n: nat, x: nat, k: nat)
    requires RingOk(base, regs) && n > 0 && 0 < |regs| && k <= FirstFit(regs, n, 0)
    requires regs[0].va <= x < End(regs[k])
    ensures !FreeAt(regs, x, n)
  {
    hide FirstFit, Gap;
    if regs[k].va > x {
      if x < End(regs[k - 1]) {
        NoneBelow(base, regs, n, x, k - 1);
      } else {
        GapTooSmall(base, regs, n, k - 1);
        assert Gap(regs, k - 1) < n;
      }
    }
  }

  /** First fit, by what is free: no address from the first region on is lower and has room for the pages. */
  lemma LowestFree(base: nat, regs: seq<Region>, n: nat)
    requires RingOk(base, regs) && n > 0
    ensures regs == [] ==> NewAddress(base, regs, n) == base
    ensures FreeAt(regs, NewAddress(base, regs, n), n)
    ensures regs != [] ==> regs[0].va <= NewAddress(base, regs, n)
    ensures regs != [] ==> forall x :: regs[0].va <= x < NewAddress(base, regs, n) ==> !FreeAt(regs, x, n)
  {
    hide FirstFit, Gap, FreeAt;
    if regs != [] {
      var f := FirstFit(regs, n, 0);
      if f + 1 < |regs| { GapTooSmall(base, regs, n, f); }
      FitIsFree(base, regs, n, f);
      forall x | regs[0].va <= x < NewAddress(base, regs, n) ensures !FreeAt(regs, x, n) {
        NoneBelow(base, regs, n, x, f);
      }
    } else {
      NoRegions(base, n);
    }
  }

  lemma NoRegions(x: nat, n: nat)
    ensures FreeAt([], x, n)
  {}

  lemma FitIsFree(base: nat, regs: seq<Region>, n: nat, f: nat)
    requires RingOk(base, regs) && f < |regs| && (f + 1 < |regs| ==> End(regs[f]) + n * 0x1000 <= regs[f + 1].va)
    ensures regs[0].va <= End(regs[f]) && FreeAt(regs, End(regs[f]), n)
  {
    forall i | 0 <= i < |regs| ensures End(regs[i]) <= End(regs[f]) || End(regs[f]) + n * 0x1000 <= regs[i].va {
      if f + 1 < i { assert End(regs[f + 1]) <= regs[i].va; }
    }
  }

  function Removed(regs: seq<Region>, i: nat): seq<Region>
    requires i < |regs|
  {
    regs[..i] + regs[i + 1..]
  }

  /** Region i of the ring with r after region f. */
  function Inserted(regs: seq<Region>, f: nat, r: Region, i: nat): Region
    requires f < |regs| && i <= |regs|
  {
    if i <= f then regs[i] else if i == f + 1 then r else regs[i - 1]
  }

  lemma InsertedApart(base: nat, regs: seq<Region>, f: nat, r: Region, i: nat, j: nat)
    requires RingOk(base, regs) && f < |regs| && r.va == End(regs[f]) && i < j <= |regs|
    requires f + 1 < |regs| ==> End(r) <= regs[f + 1].va
    ensures End(Inserted(regs, f, r, i)) <= Inserted(regs, f, r, j).va
  {
    assert forall k :: k < f && k >= 0 ==> End(regs[k]) <= regs[f].va;
    assert forall k :: f + 1 < k < |regs| ==> End(regs[f + 1]) <= regs[k].va;
  }

  lemma InsertedOk(base: nat, regs: seq<Region>, f: nat, r: Region)
    requires RingOk(base, regs) && f < |regs| && r.va == End(regs[f]) && r.pages > 0
    requires f + 1 < |regs| ==> End(r) <= regs[f + 1].va
    ensures RingOk(base, regs[..f + 1] + [r] + regs[f + 1..])
  {
    hide Inserted, End;
    var regs' := regs[..f + 1] + [r] + regs[f + 1..];
    forall i | 0 <= i < |regs'| ensures regs'[i] == Inserted(regs, f, r, i) { InsertedHere(regs, f, r, i); }
    forall i, j | 0 <= i < j < |regs'| ensures End(regs'[i]) <= regs'[j].va {
      InsertedApart(base, regs, f, r, i, j);
    }
    forall i | 0 <= i < |regs'| ensures regs'[i].va % PAGE_SIZE == 0 && regs'[i].pages > 0 && base <= regs'[i].va {
      InsertedKind(base, regs, f, r, i);
    }
  }

  lemma InsertedHere(regs: seq<Region>, f: nat, r: Region, i: nat)
    requires f < |regs| && i <= |regs|
    ensures (regs[..f + 1] + [r] + regs[f + 1..])[i] == Inserted(regs, f, r, i)
  {}

  lemma InsertedKind(base: nat, regs: seq<Region>, f: nat, r: Region, i: nat)
    requires RingOk(base, regs) && f < |regs| && r.va == End(regs[f]) && r.pages > 0 && i <= |regs|
    ensures var q := Inserted(regs, f, r, i); q.va % PAGE_SIZE == 0 && q.pages > 0 && base <= q.va
  {
    EndAligned(regs[f]);
  }

  /** Both paths of an allocation keep the ring sorted, aligned and disjoint. */
  lemma PlacedOk(base: nat, regs: seq<Region>, frame: nat, n: nat)
    requires RingOk(base, regs) && n > 0
    ensures RingOk(base, Placed(base, regs, frame, n))
  {
    hide RingOk, FirstFit, End, Placed;
    if regs != [] {
      var f := FirstFit(regs, n, 0);
      PlacedAfter(base, regs, frame, n);
      FitHolds(base, regs, n, f);
      InsertedOk(base, regs, f, Region(frame, End(regs[f]), n));
    } else {
      RingBase(base, regs);
      OneRegionOk(base, frame, n);
    }
  }

  lemma PlacedAfter(base: nat, regs: seq<Region>, frame: nat, n: nat)
    requires regs != []
    ensures var f := FirstFit(regs, n, 0);
      Placed(base, regs, frame, n) == regs[..f + 1] + [Region(frame, End(regs[f]), n)] + regs[f + 1..]
  {}

  lemma OneRegionOk(base: nat, frame: nat, n: nat)
    requires base % PAGE_SIZE == 0 && n > 0
    ensures RingOk(base, Placed(base, [], frame, n))
  {
    assert Placed(base, [], frame, n) == [Region(frame, base, n)];
  }

  lemma RingBase(base: nat, regs: seq<Region>)
    requires RingOk(base, regs)
    ensures base % PAGE_SIZE == 0
  {}

  lemma FitHolds(base: nat, regs: seq<Region>, n: nat, f: nat)
    requires RingOk(base, regs) && f < |regs| && (f + 1 < |regs| ==> Gap(regs, f) >= n)
    ensures f + 1 < |regs| ==> End(regs[f]) + n * PAGE_SIZE <= regs[f + 1].va
    ensures forall frame :: End(Region(frame, End(regs[f]), n)) == End(regs[f]) + n * PAGE_SIZE
  {
    if f + 1 < |regs| {
      EndAligned(regs[f]);
      AlignedGap(End(regs[f]), regs[f + 1].va, n);
    }
  }

  lemma EndAligned(r: Region)
    requires r.va % PAGE_SIZE == 0
    ensures End(r) % PAGE_SIZE == 0 && r.va <= End(r)
  {}

  lemma NewAddressOk(base: nat, regs: seq<Region>, n: nat)
    requires RingOk(base, regs)
    ensures NewAddress(base, regs, n) % PAGE_SIZE == 0 && base <= NewAddress(base, regs, n)
  {
    hide FirstFit, End;
    if regs != [] { EndAligned(regs[FirstFit(regs, n, 0)]); }
  }

  lemma PlacedAtEnd(base: nat, regs: seq<Region>, frame: nat, n: nat)
    requires Appends(regs, n)
    ensures Placed(base, regs, frame, n) == regs + [Region(frame, NewAddress(base, regs, n), n)]
    ensures regs != [] ==> NewAddress(base, regs, n) == End(regs[|regs| - 1])
  {}

  /** Where the new region is in the ring: at the end exactly on the append path. */
  lemma PlacedWhere(base: nat, regs: seq<Region>, frame: nat, n: nat) returns (at: nat)
    ensures at <= |regs| && (Appends(regs, n) <==> at == |regs|)
    ensures Placed(base, regs, frame, n) == regs[..at] + [Region(frame, NewAddress(base, regs, n), n)] + regs[at..]
  {
    at := if regs == [] then 0 else FirstFit(regs, n, 0) + 1;
  }

  /** Between page-aligned addresses the rounded-up gap is exact. */
  lemma AlignedGap(a: nat, b: nat, n: nat)
    requires a % PAGE_SIZE == 0 && b % PAGE_SIZE == 0 && a <= b && (b - a + (PAGE_SIZE - 1)) / PAGE_SIZE >= n
    ensures a + n * PAGE_SIZE <= b
  {}

  lemma RemovedOk(base: nat, regs: seq<Region>, i: nat)
    requires RingOk(base, regs) && i < |regs|
    ensures RingOk(base, Removed(regs, i))
  {
    var regs' := Removed(regs, i);
    assert forall j :: 0 <= j < |regs'| ==> regs'[j] == regs[if j < i then j else j + 1];
  }

  /**
    The address handed out is the new region's, and outside every older region, exactly when the region is
    appended; on the gap path it is the address of an older region.
   */
  lemma FreshIffAppended(base: nat, regs: seq<Region>, n: nat)
    requires RingOk(base, regs) && n > 0
    ensures Appends(regs, n) <==> ReturnedAddress(base, regs, n) == NewAddress(base, regs, n)
    ensures Appends(regs, n) <==>
      forall i :: 0 <= i < |regs| ==> !(regs[i].va <= ReturnedAddress(base, regs, n) < End(regs[i]))
  {
  }

  // ----- The linked ring -----

  class Node {
    var frame: nat  // the frame the structure lives in
    var virtualAddress: nat
    var pages: nat
    var flags: nat
    var pNext: Node?
    var pPrev: Node?

    constructor (frame: nat, virtualAddress: nat, pages: nat, flags: nat)
      ensures this.frame == frame && this.virtualAddress == virtualAddress && this.pages == pages && this.flags == flags
    {
      this.frame, this.virtualAddress, this.pages, this.flags := frame, virtualAddress, pages, flags;
      pNext, pPrev := null, null;
    }
  }

  ghost function WithNode(ns: seq<Node>, r: Node, i: nat): seq<Node>
    requires i < |ns|
  {
    ns[..i + 1] + [r] + ns[i + 1..]
  }

  lemma WithNodePlaces(ns: seq<Node>, r: Node, i: nat)
    requires i < |ns| && r !in ns && forall j, k :: 0 <= j < k < |ns| ==> ns[j] != ns[k]
    ensures var ms := WithNode(ns, r, i);
      && |ms| == |ns| + 1 && ms[i + 1] == r
      && (forall j :: 0 <= j <= i ==> ms[j] == ns[j]) && (forall j :: i + 1 < j < |ms| ==> ms[j] == ns[j - 1])
      && (forall j, k :: 0 <= j < k < |ms| ==> ms[j] != ms[k])
  {}

  class Ring {
    const head: Node
    ghost var nodes: seq<Node>  // the head, then the regions in order

    ghost predicate LinksAt(i: nat)
      requires i < |nodes|
      reads this, nodes
    {
      && nodes[i].pNext == nodes[if i + 1 == |nodes| then 0 else i + 1]
      && nodes[i].pPrev == nodes[if i == 0 then |nodes| - 1 else i - 1]
    }

    /** A circular doubly linked list through the nodes. */
    ghost predicate Linked()
      reads this, nodes
    {
      && |nodes| > 0 && nodes[0] == head && head.pages == 0
      && (forall i, j :: 0 <= i < j < |nodes| ==> nodes[i] != nodes[j])
      && (forall i :: 0 <= i < |nodes| ==> LinksAt(i))
    }

    /** Regions are the nodes after the head. */
    ghost predicate Represents(regs: seq<Region>)
      reads this, nodes
    {
      |nodes| == |regs| + 1 && forall i :: 0 <= i < |regs| ==>
        regs[i] == Region(nodes[i + 1].frame, nodes[i + 1].virtualAddress, nodes[i + 1].pages)
    }

    constructor (frame: nat, base: nat)
      ensures Linked() && Represents([]) && head.virtualAddress == base && fresh(nodes)
    {
      var h := new Node(frame, base, 0, 0);
      h.pNext, h.pPrev := h, h;
      head := h;
      nodes := [h];
    }

    /** Links r between node i and its successor. */
    method InsertRegion(r: Node, after: Node, ghost i: nat)
      requires Linked() && r !in nodes && i < |nodes| && after == nodes[i]
      modifies this`nodes, r`pNext, r`pPrev, nodes`pNext, nodes`pPrev
      ensures Linked() && nodes == WithNode(old(nodes), r, i)
    {
      hide WithNode;
      ghost var ns := nodes;
      WithNodePlaces(ns, r, i);
      assert LinksAt(i);
      r.pNext := after.pNext;
      r.pPrev := after;
      after.pNext.pPrev := r;
      after.pNext := r;
      nodes := WithNode(ns, r, i);
      forall j | 0 <= j < |nodes| ensures LinksAt(j) {
        if j <= i {
          assert nodes[j] == ns[j] && old(LinksAt(j));
        } else if j > i + 1 {
          assert nodes[j] == ns[j - 1] && old(LinksAt(j - 1));
        }
      }
    }

    /** Links r before the head, at the end of the ring. */
    method AppendRegion(r: Node)
      requires Linked() && r !in nodes
      modifies this`nodes, r`pNext, r`pPrev, nodes`pNext, nodes`pPrev
      ensures Linked() && nodes == old(nodes) + [r]
    {
      ghost var ns := nodes;
      assert LinksAt(0);
      assert LinksAt(|ns| - 1);
      r.pNext := head;
      r.pPrev := head.pPrev;
      head.pPrev.pNext := r;
      head.pPrev := r;
      nodes := ns + [r];
      forall j | 0 <= j < |nodes| ensures LinksAt(j) {
        if j < |ns| { assert nodes[j] == ns[j] && old(LinksAt(j)); }
      }
    }

    /** Unlinks node i, which is not the head, and returns its frame. */
    method DestroyRegion(r: Node, ghost i: nat) returns (frame: nat)
      requires Linked() && 0 < i < |nodes| && r == nodes[i]
      modifies this`nodes, nodes`pNext, nodes`pPrev
      ensures Linked() && nodes == old(nodes)[..i] + old(nodes)[i + 1..] && frame == old(r.frame)
    {
      ghost var ns := nodes;
      assert LinksAt(i);
      r.pNext.pPrev := r.pPrev;
      r.pPrev.pNext := r.pNext;
      nodes := ns[..i] + ns[i + 1..];
      forall j | 0 <= j < |nodes| ensures LinksAt(j) {
        if j < i {
          assert nodes[j] == ns[j] && old(LinksAt(j));
        } else {
          assert nodes[j] == ns[j + 1] && old(LinksAt(j + 1));
        }
      }
      frame := r.frame;
    }

    /** The search loop: node i + 1, the first that is followed by a large enough gap, or null. */
    method FindFit(pageCount: nat, ghost regs: seq<Region>) returns (p: Node?, ghost i: nat)
      requires Linked() && Represents(regs) && RingOk(head.virtualAddress, regs)
      ensures p == null <==> Appends(regs, pageCount)
      ensures p != null ==> i + 1 < |regs| && i == FirstFit(regs, pageCount, 0) && p == nodes[i + 1]
    {
      i := 0;
      assert LinksAt(0);
      p := head.pNext;
      if p.pNext == head {
        assert |regs| >= 1 ==> LinksAt(1);
        return null, i;
      }
      while p != head
        invariant 0 <= i < |regs| && p == nodes[i + 1]
        invariant FirstFit(regs, pageCount, 0) == FirstFit(regs, pageCount, i)
        decreases |regs| - i
      {
        assert LinksAt(i + 1);
        if p.pNext == head { break; }
        var end := p.virtualAddress + p.pages * PAGE_SIZE;
        assert regs[i + 1].va == p.pNext.virtualAddress && end == End(regs[i]);
        if DivRoundUp(p.pNext.virtualAddress - end, PAGE_SIZE) >= pageCount { return; }
        p := p.pNext;
        i := i + 1;
      }
      assert LinksAt(i + 1);
      p := null;
    }

    /** The gap path: a new region after node p, whose gap fits; the kernel returns p. */
    method InsertNew(p: Node, pageCount: nat, frame: nat, ghost regs: seq<Region>, ghost i: nat)
      requires Linked() && Represents(regs) && i < |regs| && p == nodes[i + 1]
      requires !Appends(regs, pageCount) && i == FirstFit(regs, pageCount, 0)
      modifies this`nodes, nodes`pNext, nodes`pPrev
      ensures Linked() && Represents(Placed(head.virtualAddress, regs, frame, pageCount))
      ensures p in nodes
      ensures forall n :: n in nodes ==> n in old(nodes) || fresh(n)
    {
      hide FirstFit, RingOk, Placed, NewAddress, Appends;
      PlacedAfter(head.virtualAddress, regs, frame, pageCount);
      var node := new Node(frame, p.virtualAddress + p.pages * PAGE_SIZE, pageCount, 0);
      InsertRegion(node, p, i + 1);
      assert nodes[i + 1] == p;
    }

    /** The append path: a new region after the last. */
    method AppendNew(pageCount: nat, frame: nat, ghost regs: seq<Region>) returns (r: Node)
      requires Linked() && Represents(regs) && Appends(regs, pageCount)
      modifies this`nodes, nodes`pNext, nodes`pPrev
      ensures Linked() && Represents(Placed(head.virtualAddress, regs, frame, pageCount))
      ensures r in nodes && r.virtualAddress == NewAddress(head.virtualAddress, regs, pageCount)
      ensures forall n :: n in nodes ==> n in old(nodes) || fresh(n)
    {
      hide FirstFit;
      ghost var n := |nodes|;
      PlacedAtEnd(head.virtualAddress, regs, frame, pageCount);
      assert LinksAt(0);
      var last := head.pPrev;
      r := new Node(frame, last.virtualAddress + last.pages * PAGE_SIZE, pageCount, 0);
      AppendRegion(r);
      assert nodes[n] == r;
    }

    /** First fit: a new region in a gap or at the end. Returns the old neighbour on the gap path. */
    method FindRegion(pageCount: nat, frame: nat, ghost regs: seq<Region>) returns (r: Node)
      requires Linked() && Represents(regs) && RingOk(head.virtualAddress, regs) && pageCount > 0
      modifies this`nodes, nodes`pNext, nodes`pPrev
      ensures Linked() && Represents(Placed(head.virtualAddress, regs, frame, pageCount))
      ensures r in nodes && r.virtualAddress == ReturnedAddress(head.virtualAddress, regs, pageCount)
      ensures forall n :: n in nodes ==> n in old(nodes) || fresh(n)
    {
      var p, i := FindFit(pageCount, regs);
      if p != null {
        InsertNew(p, pageCount, frame, regs, i);
        return p;
      }
      r := AppendNew(pageCount, frame, regs);
    }

    /** The search of MmVirtFreePages, and the removal of the region found. */
    method FreeRegion(va: nat, ghost regs: seq<Region>) returns (found: bool, frame: nat)
      requires Linked() && Represents(regs)
      modifies this`nodes, nodes`pNext, nodes`pPrev
      ensures Linked() && found == (IndexOf(regs, va, 0) < |regs|)
      ensures if found then frame == regs[IndexOf(regs, va, 0)].frame && Represents(Removed(regs, IndexOf(regs, va, 0)))
              else Represents(regs)
      ensures forall n :: n in nodes ==> n in old(nodes) || fresh(n)
    {
      assert LinksAt(0);
      var p := head.pNext;
      ghost var i := 0;
      while p != head
        invariant 0 <= i <= |regs| && Linked() && Represents(regs) && nodes == old(nodes)
        invariant p == if i == |regs| then head else nodes[i + 1]
        invariant IndexOf(regs, va, 0) == IndexOf(regs, va, i)
        decreases |regs| - i
      {
        if p.virtualAddress == va {
          frame := DestroyRegion(p, i + 1);
          return true, frame;
        }
        assert LinksAt(i + 1);
        p := p.pNext;
        i := i + 1;
      }
      return false, 0;
    }
  }

  /** The first region at address va from i on, or |regs|. */
  function IndexOf(regs: seq<Region>, va: nat, i: nat): (k: nat)
    requires i <= |regs|
    ensures i <= k <= |regs| && (k < |regs| ==> regs[k].va == va)
    ensures forall j :: i <= j < k ==> regs[j].va != va
    decreases |regs| - i
  {
    if i == |regs| || regs[i].va == va then i else IndexOf(regs, va, i + 1)
  }

  // ----- Runs of region operations -----

  datatype RegionOp = Allocate(pages: nat, frame: nat) | Release(va: nat)

  function Apply(base: nat, regs: seq<Region>, op: RegionOp): seq<Region> {
    match op
    case Allocate(pages, frame) => if pages == 0 then regs else Placed(base, regs, frame, pages)
    case Release(va) =>
      var i := IndexOf(regs, va, 0);
      if i < |regs| then Removed(regs, i) else regs
  }

  function ApplyAll(base: nat, regs: seq<Region>, ops: seq<RegionOp>): seq<Region> {
    if ops == [] then regs else Apply(base, ApplyAll(base, regs, ops[..|ops| - 1]), ops[|ops| - 1])
  }

  /** Every run of allocations and releases, gap path included, keeps the ring sorted, aligned and disjoint. */
  lemma {:induction false} RunKeepsRing(base: nat, regs: seq<Region>, ops: seq<RegionOp>)
    requires RingOk(base, regs)
    ensures RingOk(base, ApplyAll(base, regs, ops))
  {
    if ops != [] {
      RunKeepsRing(base, regs, ops[..|ops| - 1]);
      var before, op := ApplyAll(base, regs, ops[..|ops| - 1]), ops[|ops| - 1];
      match op
      case Allocate(pages, frame) => if pages > 0 { PlacedOk(base, before, frame, pages); }
      case Release(va) =>
        var i := IndexOf(before, va, 0);
        if i < |before| { RemovedOk(base, before, i); }
    }
  }

  lemma ApplyMore(base: nat, ops: seq<RegionOp>, op: RegionOp)
    ensures ApplyAll(base, [], ops + [op]) == Apply(base, ApplyAll(base, [], ops), op)
  {
    assert (ops + [op])[..|ops|] == ops;
  }

  /**
    Three allocations and a release leave a ring with a gap, which the next allocation fills: the address handed
    out is then not the new region's but that of the region before the gap.
   */
  lemma GapPathReturnsOldRegion(base: nat, f: nat, g: nat, h: nat)
    requires base % PAGE_SIZE == 0
    ensures var regs := ApplyAll(base, [], [Allocate(1, f), Allocate(2, g), Allocate(1, h), Release(base + PAGE_SIZE)]);
      && regs == TwoRegions(base, f, h) && !Appends(regs, 1)
      && NewAddress(base, regs, 1) == base + PAGE_SIZE && ReturnedAddress(base, regs, 1) == base
  {
    hide ApplyAll, Apply;
    var a, b, c, d := Allocate(1, f), Allocate(2, g), Allocate(1, h), Release(base + PAGE_SIZE);
    NoOps(base);
    ApplyMore(base, [], a);
    ApplyMore(base, [a], b);
    ApplyMore(base, [a, b], c);
    ApplyMore(base, [a, b, c], d);
    assert [] + [a] == [a] && [a] + [b] == [a, b] && [a, b] + [c] == [a, b, c] && [a, b, c] + [d] == [a, b, c, d];
    ThreePlaced(base, f, g, h);
    MiddleReleased(base, f, g, h);
    GapFilled(base, f, h);
  }

  function ThreeRegions(base: nat, f: nat, g: nat, h: nat): seq<Region> {
    [Region(f, base, 1), Region(g, base + PAGE_SIZE, 2), Region(h, base + 3 * PAGE_SIZE, 1)]
  }

  function TwoRegions(base: nat, f: nat, h: nat): seq<Region> {
    [Region(f, base, 1), Region(h, base + 3 * PAGE_SIZE, 1)]
  }

  lemma ThreePlaced(base: nat, f: nat, g: nat, h: nat)
    ensures var one, two := Placed(base, [], f, 1), Placed(base, Placed(base, [], f, 1), g, 2);
      && Placed(base, two, h, 1) == ThreeRegions(base, f, g, h)
      && Appends([], 1) && NewAddress(base, [], 1) == base
      && Appends(one, 2) && NewAddress(base, one, 2) == base + PAGE_SIZE
      && Appends(two, 1) && NewAddress(base, two, 1) == base + 3 * PAGE_SIZE
    ensures Apply(base, Apply(base, Apply(base, [], Allocate(1, f)), Allocate(2, g)), Allocate(1, h)) ==
        ThreeRegions(base, f, g, h)
  {
    hide Placed, Appends, NewAddress, FirstFit;
    var one, two := [Region(f, base, 1)], [Region(f, base, 1), Region(g, base + PAGE_SIZE, 2)];
    FirstPlaced(base, f, 1);
    PlacedNext(base, one, g, 2);
    PlacedNext(base, two, h, 1);
    assert one + [Region(g, base + PAGE_SIZE, 2)] == two;
    assert two + [Region(h, base + 3 * PAGE_SIZE, 1)] == ThreeRegions(base, f, g, h);
  }

  lemma MiddleReleased(base: nat, f: nat, g: nat, h: nat)
    ensures var three := ThreeRegions(base, f, g, h);
      && IndexOf(three, base + PAGE_SIZE, 0) == 1 && Removed(three, 1) == TwoRegions(base, f, h)
      && Apply(base, three, Release(base + PAGE_SIZE)) == TwoRegions(base, f, h)
  {
    var three := ThreeRegions(base, f, g, h);
    assert IndexOf(three, base + PAGE_SIZE, 1) == 1;
    assert Removed(three, 1) == [three[0], three[2]];
  }

  lemma GapFilled(base: nat, f: nat, h: nat)
    ensures var regs := TwoRegions(base, f, h);
      !Appends(regs, 1) && NewAddress(base, regs, 1) == base + PAGE_SIZE && ReturnedAddress(base, regs, 1) == base
  {
    var regs := TwoRegions(base, f, h);
    assert Gap(regs, 0) == 2;
    assert FirstFit(regs, 1, 0) == 0;
  }

  lemma FirstPlaced(base: nat, frame: nat, n: nat)
    ensures Placed(base, [], frame, n) == [Region(frame, base, n)] && Appends([], n) && NewAddress(base, [], n) == base
  {}

  lemma NoOps(base: nat)
    ensures ApplyAll(base, [], []) == []
  {}

  /** Behind regions that leave no gap a new one is appended. */
  lemma PlacedNext(base: nat, regs: seq<Region>, frame: nat, n: nat)
    requires 0 < |regs| <= 2 && n > 0 && (|regs| == 2 ==> regs[1].va == End(regs[0]))
    ensures Placed(base, regs, frame, n) == regs + [Region(frame, End(regs[|regs| - 1]), n)]
    ensures Appends(regs, n) && NewAddress(base, regs, n) == End(regs[|regs| - 1])
  {
    if |regs| == 2 {
      assert Gap(regs, 0) == 0;
      assert FirstFit(regs, n, 1) == 1;
    }
  }

  /** One operation on the linked ring. */
  method ApplyTo(ring: Ring, op: RegionOp, ghost regs: seq<Region>)
    requires ring.Linked() && ring.Represents(regs) && RingOk(ring.head.virtualAddress, regs)
    modifies ring`nodes, ring.nodes`pNext, ring.nodes`pPrev
    ensures ring.Linked() && ring.Represents(Apply(ring.head.virtualAddress, regs, op))
    ensures forall n :: n in ring.nodes ==> n in old(ring.nodes) || fresh(n)
  {
    match op
    case Allocate(pages, frame) =>
      if pages > 0 { var r := ring.FindRegion(pages, frame, regs); }
    case Release(va) =>
      var found, frame := ring.FreeRegion(va, regs);
  }

  /** The linked ring follows the run, and stays a well-linked cycle. */
  method RunRing(frame: nat, base: nat, ops: seq<RegionOp>) returns (ring: Ring)
    requires base % PAGE_SIZE == 0
    ensures fresh(ring) && ring.Linked() && ring.head.virtualAddress == base
    ensures ring.Represents(ApplyAll(base, [], ops)) && RingOk(base, ApplyAll(base, [], ops))
  {
    hide RingOk, Apply;
    ring := new Ring(frame, base);
    assert RingOk(base, []) by { EmptyRingOk(base); }
    for i := 0 to |ops|
      invariant fresh(ring) && ring.Linked() && ring.head.virtualAddress == base
      invariant forall n :: n in ring.nodes ==> fresh(n)
      invariant ring.Represents(ApplyAll(base, [], ops[..i]))
    {
      RunKeepsRing(base, [], ops[..i]);
      assert ops[..i + 1][..i] == ops[..i];
      forall j | 0 <= j < |ring.nodes| ensures fresh(ring.nodes[j]) { assert ring.nodes[j] in ring.nodes; }
      ApplyTo(ring, ops[i], ApplyAll(base, [], ops[..i]));
    }
    assert ops[..|ops|] == ops;
    RunKeepsRing(base, [], ops);
  }

  lemma EmptyRingOk(base: nat)
    requires base % PAGE_SIZE == 0
    ensures RingOk(base, [])
  {}
}
