/**
  The stack of free page frames, kernel/src/mm/pmm.c: an array of addresses and an index, filled from the
  boot memory map. The array itself lives in frames taken from the first usable entry that is large enough.
 */
module PhysPages {
  import opened PageTable

  datatype Entry = Entry(base: nat, length: nat, usable: bool)

  // ----- The pages of a memory map -----

  predicate UsableOk(e: Entry) {
    e.usable ==>
      e.base % PAGE_SIZE == 0 && e.length % PAGE_SIZE == 0 && 0 < e.base && e.base + e.length <= PHYSICAL_LIMIT
  }

  predicate Apart(a: Entry, b: Entry) {
    a.usable && b.usable ==> a.base + a.length <= b.base || b.base + b.length <= a.base
  }

  /**
    What the boot protocol guarantees of usable entries: page-aligned, above page 0, not overlapping.
   */
  predicate MapOk(es: seq<Entry>) {
    && (forall i :: 0 <= i < |es| ==> UsableOk(es[i]))
    && (forall i, j :: 0 <= i < j < |es| ==> Apart(es[i], es[j]))
  }

  predicate Covers(e: Entry, f: nat) {
    e.usable && e.base <= f < e.base + e.length && f % PAGE_SIZE == 0
  }

  /** The first n pages from base. */
  function PageRun(base: nat, n: nat): (s: seq<nat>)
    ensures |s| == n && forall i :: 0 <= i < n ==> s[i] == base + i * PAGE_SIZE
  {
    if n == 0 then [] else PageRun(base, n - 1) + [base + (n - 1) * PAGE_SIZE]
  }

  function EntryPages(e: Entry): seq<nat> {
    if e.usable then PageRun(e.base, DivRoundUp(e.length, PAGE_SIZE)) else []
  }

  /** The pages of a memory map, in the order they are pushed. */
  function PagesOf(es: seq<Entry>): seq<nat> {
    if es == [] then [] else PagesOf(es[..|es| - 1]) + EntryPages(es[|es| - 1])
  }

  predicate Distinct(s: seq<nat>) {
    forall i, j :: 0 <= i < j < |s| ==> s[i] != s[j]
  }

  lemma EntryPagesCovered(e: Entry, f: nat)
    requires UsableOk(e)
    ensures f in EntryPages(e) <==> Covers(e, f)
    ensures Distinct(EntryPages(e))
  {
    if e.usable {
      var n := e.length / PAGE_SIZE;
      assert DivRoundUp(e.length, PAGE_SIZE) == n;
      if Covers(e, f) {
        var i := (f - e.base) / PAGE_SIZE;
        assert EntryPages(e)[i] == f;
      }
    }
  }

  /** A page is listed exactly when a usable entry covers it. */
  lemma {:induction false} PagesOfCovered(es: seq<Entry>, f: nat)
    requires MapOk(es)
    ensures f in PagesOf(es) <==> exists i :: 0 <= i < |es| && Covers(es[i], f)
  {
    if es != [] {
      var init, last := es[..|es| - 1], es[|es| - 1];
      PagesOfCovered(init, f);
      EntryPagesCovered(last, f);
      assert forall i :: 0 <= i < |init| ==> init[i] == es[i];
    }
  }

  lemma CoveredOnce(es: seq<Entry>, i: nat, j: nat, f: nat)
    requires MapOk(es) && i < |es| && j < |es| && i != j
    ensures !(Covers(es[i], f) && Covers(es[j], f))
  {
    assert i < j ==> Apart(es[i], es[j]);
    assert j < i ==> Apart(es[j], es[i]);
  }

  lemma DistinctConcat(a: seq<nat>, b: seq<nat>)
    requires Distinct(a) && Distinct(b) && forall x :: x in a ==> x !in b
    ensures Distinct(a + b)
  {
    var s := a + b;
    forall i, j | 0 <= i < j < |s| ensures s[i] != s[j] {
      if i < |a| <= j {
        assert a[i] in a && b[j - |a|] in b;
      }
    }
  }

  /** No page is listed twice. */
  lemma {:induction false} PagesOfDistinct(es: seq<Entry>)
    requires MapOk(es)
    ensures Distinct(PagesOf(es))
  {
    if es != [] {
      var init, last := es[..|es| - 1], es[|es| - 1];
      PagesOfDistinct(init);
      EntryPagesCovered(last, 0);
      forall f | f in PagesOf(init) ensures f !in EntryPages(last) {
        PagesOfCovered(init, f);
        EntryPagesCovered(last, f);
        var i :| 0 <= i < |init| && Covers(init[i], f);
        CoveredOnce(es, i, |es| - 1, f);
      }
      DistinctConcat(PagesOf(init), EntryPages(last));
    }
  }

  // ----- The stack -----

  class AddressStack {
    const addressStack: array<nat>  // its length is cxAddressStackCount
    var index: nat

    ghost predicate Valid()
      reads this
    {
      index <= addressStack.Length
    }

    ghost function Contents(): seq<nat>
      requires Valid()
      reads this, addressStack
    {
      addressStack[..index]
    }

    constructor (capacity: nat)
      ensures Valid() && Contents() == [] && addressStack.Length == capacity && fresh(addressStack)
    {
      addressStack := new nat[capacity];
      index := 0;
    }

    /** Returns false where the kernel panics: the stack is full. */
    method Push(data: nat) returns (ok: bool)
      requires Valid()
      modifies this`index, addressStack
      ensures Valid() && ok == (|old(Contents())| < addressStack.Length)
      ensures Contents() == if ok then old(Contents()) + [data] else old(Contents())
    {
      if index + 1 > addressStack.Length { return false; }
      addressStack[index] := data;
      index := index + 1;
      ok := true;
    }

    /** Returns 0 when no page is free. */
    method Pop() returns (data: nat)
      requires Valid()
      modifies this`index
      ensures Valid()
      ensures if old(Contents()) == [] then data == 0 && Contents() == []
              else old(Contents()) == Contents() + [data]
    {
      if index == 0 { return 0; }
      index := index - 1;
      data := addressStack[index];
    }
  }

  /** The pages given to the stack itself: the start of the first usable entry that can hold them. */
  predicate HoldsStack(es: seq<Entry>, k: nat, cb: nat) {
    && k < |es| && es[k].usable && es[k].length >= cb
    && forall i :: 0 <= i < k ==> !(es[i].usable && es[i].length >= cb)
  }

  function Shrunk(es: seq<Entry>, k: nat, cb: nat): seq<Entry>
    requires k < |es| && cb <= es[k].length
  {
    es[k := Entry(es[k].base + cb, es[k].length - cb, es[k].usable)]
  }

  function StackBytes(es: seq<Entry>): nat {
    DivRoundUp(|PagesOf(es)| * 8, PAGE_SIZE) * PAGE_SIZE
  }

  /** The stack's storage is the fewest whole pages that hold the eight bytes of an address for every usable page. */
  lemma StorageSize(es: seq<Entry>)
    ensures StackBytes(es) % 0x1000 == 0 && 8 * |PagesOf(es)| <= StackBytes(es) < 8 * |PagesOf(es)| + 0x1000
  {
    hide PagesOf;
  }

  /** Slot i of a stack at base, eight bytes, has no byte in the page at f. */
  predicate SlotOutside(base: nat, i: nat, f: nat) {
    base + 8 * i + 8 <= f || f + 0x1000 <= base + 8 * i
  }

  /** The slot has all its bytes in that page. */
  predicate SlotInside(base: nat, i: nat, f: nat) {
    f <= base + 8 * i && base + 8 * i + 8 <= f + 0x1000
  }

  /** No slot of the stack lies in a page that is pushed: each lies in one page of the stack's storage. */
  lemma SlotsOutside(es: seq<Entry>, k: nat, i: nat)
    requires MapOk(es) && HoldsStack(es, k, StackBytes(es)) && i < |PagesOf(es)|
    ensures forall f :: f in PagesOf(Shrunk(es, k, StackBytes(es))) ==> SlotOutside(es[k].base, i, f)
    ensures exists f :: f in PageRun(es[k].base, StackBytes(es) / PAGE_SIZE) && SlotInside(es[k].base, i, f)
  {
    hide MapOk, PagesOf, StackBytes;
    StorageSize(es);
    UsableEntry(es, k);
    var cb := StackBytes(es);
    forall f | f in PagesOf(Shrunk(es, k, cb)) ensures SlotOutside(es[k].base, i, f) {
      ShrunkPages(es, k, cb, f);
      PagesOfCovered(Shrunk(es, k, cb), f);
      ShrunkOutside(es, k, cb, i, f);
    }
    SlotPage(es[k].base, cb, i);
  }

  lemma UsableEntry(es: seq<Entry>, k: nat)
    requires MapOk(es) && HoldsStack(es, k, StackBytes(es))
    ensures k < |es| && es[k].base % PAGE_SIZE == 0 && StackBytes(es) <= es[k].length
  {
    assert UsableOk(es[k]);
  }

  lemma ShrunkOutside(es: seq<Entry>, k: nat, cb: nat, i: nat, f: nat)
    requires MapOk(es) && HoldsStack(es, k, cb) && 8 * i + 8 <= cb
    requires exists j :: 0 <= j < |es| && Covers(Shrunk(es, k, cb)[j], f)
    ensures SlotOutside(es[k].base, i, f)
  {
    var j :| 0 <= j < |es| && Covers(Shrunk(es, k, cb)[j], f);
    assert UsableOk(es[j]) && UsableOk(es[k]);
    if j < k { assert Apart(es[j], es[k]); }
    if k < j { assert Apart(es[k], es[j]); }
  }

  lemma SlotPage(base: nat, cb: nat, i: nat)
    requires base % 0x1000 == 0 && cb % 0x1000 == 0 && 8 * i + 8 <= cb
    ensures exists f :: f in PageRun(base, cb / PAGE_SIZE) && SlotInside(base, i, f)
  {
    var n := i / 512;
    assert 512 * n <= i < 512 * n + 512;
    assert 512 * n < cb / 0x1000 * 512;
    var f := base + n * PAGE_SIZE;
    assert PageRun(base, cb / PAGE_SIZE)[n] == f;
    assert SlotInside(base, i, f);
  }

  lemma ShrunkMap(es: seq<Entry>, k: nat, cb: nat)
    requires MapOk(es) && HoldsStack(es, k, cb) && cb % PAGE_SIZE == 0
    ensures MapOk(Shrunk(es, k, cb)) && k < |es| && cb <= es[k].length
  {
    var es' := Shrunk(es, k, cb);
    forall i, j | 0 <= i < j < |es'| ensures Apart(es'[i], es'[j]) { assert Apart(es[i], es[j]); }
    forall i | 0 <= i < |es'| ensures UsableOk(es'[i]) { assert UsableOk(es[i]); }
  }

  lemma StoragePages(es: seq<Entry>, k: nat, cb: nat, f: nat)
    requires MapOk(es) && HoldsStack(es, k, cb) && cb % PAGE_SIZE == 0
    ensures f in PageRun(es[k].base, cb / PAGE_SIZE) <==> Covers(Entry(es[k].base, cb, true), f)
  {
    hide Covers, PageRun;
    assert UsableOk(es[k]);
    EntryPagesCovered(Entry(es[k].base, cb, true), f);
    assert DivRoundUp(cb, PAGE_SIZE) == cb / PAGE_SIZE;
  }

  /** A page covered before is covered by the storage or still covered, and not both. */
  lemma ShrunkCovered(es: seq<Entry>, k: nat, cb: nat, f: nat)
    requires MapOk(es) && HoldsStack(es, k, cb)
    ensures var es', storage := Shrunk(es, k, cb), Entry(es[k].base, cb, true);
      && ((exists i :: 0 <= i < |es| && Covers(es[i], f)) <==>
            (exists i :: 0 <= i < |es'| && Covers(es'[i], f)) || Covers(storage, f))
      && !((exists i :: 0 <= i < |es'| && Covers(es'[i], f)) && Covers(storage, f))
  {
    var es', storage := Shrunk(es, k, cb), Entry(es[k].base, cb, true);
    assert forall i :: 0 <= i < |es| && i != k ==> es'[i] == es[i];
    assert Covers(es[k], f) <==> Covers(es'[k], f) || Covers(storage, f);
    forall i | 0 <= i < |es'| ensures !(Covers(es'[i], f) && Covers(storage, f)) {
      if i != k { CoveredOnce(es, i, k, f); }
    }
  }

  /** Giving pages to the stack splits the usable pages into stack storage and the rest. */
  lemma ShrunkPages(es: seq<Entry>, k: nat, cb: nat, f: nat)
    requires MapOk(es) && HoldsStack(es, k, cb) && cb % PAGE_SIZE == 0
    ensures MapOk(Shrunk(es, k, cb))
    ensures f in PagesOf(es) <==> f in PagesOf(Shrunk(es, k, cb)) || f in PageRun(es[k].base, cb / PAGE_SIZE)
    ensures !(f in PagesOf(Shrunk(es, k, cb)) && f in PageRun(es[k].base, cb / PAGE_SIZE))
  {
    hide MapOk, HoldsStack, Shrunk, PagesOf, Covers;
    ShrunkMap(es, k, cb);
    PagesOfCovered(es, f);
    PagesOfCovered(Shrunk(es, k, cb), f);
    StoragePages(es, k, cb, f);
    ShrunkCovered(es, k, cb, f);
  }

  /** Counts the usable pages. */
  method CountPages(entries: array<Entry>) returns (count: nat)
    ensures count == |PagesOf(entries[..])|
  {
    count := 0;
    for i := 0 to entries.Length
      invariant count == |PagesOf(entries[..i])|
    {
      assert entries[..i + 1][..i] == entries[..i];
      if entries[i].usable {
        count := count + DivRoundUp(entries[i].length, PAGE_SIZE);
      }
    }
    assert entries[..entries.Length] == entries[..];
  }

  /** Takes cb bytes for the stack from the first usable entry that has them. */
  method TakeStorage(entries: array<Entry>, cb: nat) returns (k: nat)
    requires exists k: nat :: HoldsStack(entries[..], k, cb)
    modifies entries
    ensures HoldsStack(old(entries[..]), k, cb) && entries[..] == Shrunk(old(entries[..]), k, cb)
  {
    k := 0;
    ghost var k0: nat :| HoldsStack(entries[..], k0, cb);
    while !(entries[k].usable && entries[k].length >= cb)
      invariant k <= k0 < entries.Length && entries[..] == old(entries[..])
      invariant forall i :: 0 <= i < k ==> !(entries[i].usable && entries[i].length >= cb)
      decreases k0 - k
    {
      k := k + 1;
    }
    entries[k] := Entry(entries[k].base + cb, entries[k].length - cb, entries[k].usable);
  }

  /**
    Counting, choosing the stack's pages, and pushing every remaining usable page; the capacity is the
    number of usable pages. k is the entry that gave the stack's storage.
   */
  method PhysInit(entries: array<Entry>) returns (stack: AddressStack, k: nat)
    requires exists k: nat :: HoldsStack(entries[..], k, StackBytes(entries[..]))
    modifies entries
    ensures fresh(stack) && fresh(stack.addressStack) && stack.Valid()
    ensures var es := old(entries[..]);
      && HoldsStack(es, k, StackBytes(es))
      && stack.addressStack.Length == |PagesOf(es)|
      && stack.Contents() == PagesOf(Shrunk(es, k, StackBytes(es)))
      && (MapOk(es) ==> forall i, f :: 0 <= i < stack.addressStack.Length && f in stack.Contents() ==>
            SlotOutside(es[k].base, i, f))
  {
    hide PagesOf, Shrunk, HoldsStack, EntryPages;
    var count := CountPages(entries);
    var cb := DivRoundUp(count * 8, PAGE_SIZE) * PAGE_SIZE;
    k := TakeStorage(entries, cb);
    StackCount(old(entries[..]), k, cb);
    ghost var es' := entries[..];
    NoPages(es');
    stack := new AddressStack(count);
    for i := 0 to entries.Length
      invariant entries[..] == es' && stack.Valid() && stack.Contents() == PagesOf(es'[..i])
      invariant fresh(stack) && fresh(stack.addressStack) && stack.addressStack.Length == count
    {
      PagesStep(es', i);
      PagesOfPrefix(es', i + 1);
      if entries[i].usable {
        PushEntry(stack, entries[i], PagesOf(es'[..i]));
      }
    }
    assert es'[..entries.Length] == es';
    SlotsApart(old(entries[..]), k);
  }

  lemma SlotsApart(es: seq<Entry>, k: nat)
    requires HoldsStack(es, k, StackBytes(es))
    ensures MapOk(es) ==> forall i, f :: 0 <= i < |PagesOf(es)| && f in PagesOf(Shrunk(es, k, StackBytes(es))) ==>
      SlotOutside(es[k].base, i, f)
  {
    hide MapOk, PagesOf, Shrunk, StackBytes;
    if MapOk(es) {
      forall i: nat, f: nat | i < |PagesOf(es)| && f in PagesOf(Shrunk(es, k, StackBytes(es)))
        ensures SlotOutside(es[k].base, i, f)
      {
        SlotsOutside(es, k, i);
      }
    }
  }

  /** The inner loop of the fill: pushes one entry's pages. */
  method PushEntry(stack: AddressStack, e: Entry, ghost before: seq<nat>)
    requires stack.Valid() && stack.Contents() == before && e.usable
    requires |before + EntryPages(e)| <= stack.addressStack.Length
    modifies stack`index, stack.addressStack
    ensures stack.Valid() && stack.Contents() == before + EntryPages(e)
  {
    var j, n := 0, 0;
    while j < e.length
      invariant j == n * PAGE_SIZE && n <= DivRoundUp(e.length, PAGE_SIZE)
      invariant stack.Valid() && stack.Contents() == before + PageRun(e.base, n)
    {
      var ok := stack.Push(e.base + j);
      j := j + PAGE_SIZE;
      n := n + 1;
    }
  }

  lemma NoPages(es: seq<Entry>)
    ensures PagesOf(es[..0]) == []
  {}

  lemma PagesStep(es: seq<Entry>, i: nat)
    requires i < |es|
    ensures PagesOf(es[..i + 1]) == PagesOf(es[..i]) + EntryPages(es[i])
    ensures !es[i].usable ==> EntryPages(es[i]) == []
  {
    assert es[..i + 1][..i] == es[..i];
  }

  lemma StackCount(es: seq<Entry>, k: nat, cb: nat)
    requires HoldsStack(es, k, cb) && cb % PAGE_SIZE == 0
    ensures |PagesOf(Shrunk(es, k, cb))| + cb / PAGE_SIZE == |PagesOf(es)|
  {
    ShrunkCount(es, k, cb);
  }

  lemma {:induction false} PagesOfPrefix(es: seq<Entry>, i: nat)
    requires i <= |es|
    ensures |PagesOf(es[..i])| <= |PagesOf(es)|
    decreases |es|
  {
    if i < |es| {
      PagesOfPrefix(es[..|es| - 1], i);
      assert es[..|es| - 1][..i] == es[..i];
    } else {
      assert es[..i] == es;
    }
  }

  /** The stack's pages and the rest make up the usable pages. */
  lemma {:induction false} ShrunkCount(es: seq<Entry>, k: nat, cb: nat)
    requires k < |es| && cb <= es[k].length && es[k].usable && cb % PAGE_SIZE == 0
    ensures |PagesOf(Shrunk(es, k, cb))| + cb / PAGE_SIZE == |PagesOf(es)|
    decreases |es|
  {
    var es' := Shrunk(es, k, cb);
    if k == |es| - 1 {
      assert es'[..|es| - 1] == es[..|es| - 1];
    } else {
      assert es'[..|es| - 1] == Shrunk(es[..|es| - 1], k, cb);
      ShrunkCount(es[..|es| - 1], k, cb);
    }
  }
}
