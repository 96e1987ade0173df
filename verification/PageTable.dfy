/**
  The four-level page tables of kernel/src/arch/x86/mmu.c as values: memory maps each table frame to its
  512 words, and every usable frame has one owner. The radix tree below a root is read as a flat map
  from page keys to leaf words.
 */
module PageTable {
  import opened Bits

  const PAGE_SIZE := 4096
  const ENTRIES := 512
  const PHYSICAL_LIMIT := 0x10_0000_0000_0000  // 2^52

  type Memory = map<nat, seq<nat>>

  /** What a usable frame is used for. A table knows the tree it belongs to, its level and its key prefix. */
  datatype Owner =
    | Storage
    | Free
    | Table(root: nat, level: nat, prefix: nat)
    | MapNode(root: nat)
    | HeadNode(root: nat)
    | Header(root: nat, va: nat)
    | Page(root: nat, page: nat)

  type Owners = map<nat, Owner>

  function DivRoundUp(x: int, y: nat): int
    requires y > 0
  {
    (x + (y - 1)) / y
  }

  predicate IsFrame(f: nat) {
    f % PAGE_SIZE == 0 && 0 < f < PHYSICAL_LIMIT
  }

  // ----- Words -----

  /** w & MM_READ */
  predicate Present(w: nat) { w % 2 == 1 }

  /** MM_PTE_GET_ADDR: bits 12 to 51. */
  function Addr(w: nat): nat { (w / PAGE_SIZE) % 0x100_0000_0000 * PAGE_SIZE }

  /** A table entry: frame | 0b111. */
  function TableWord(f: nat): nat { Or(f, 7) }

  lemma TableWordFields(f: nat)
    requires IsFrame(f)
    ensures Present(TableWord(f)) && Addr(TableWord(f)) == f && TableWord(f) == f + 7
  {
    hide Present, Addr;
    assert TableWord(f) == f + 7 by {
      hide Shl, Or;
      assert Pow2(3) == 8;
      assert f == 8 * (f / 8);
      ShlIsProduct(f / 8, 3);
      OrCommutes(f, 7);
      OrDisjoint(7, f / 8, 3);
    }
    SevenMore(f);
  }

  lemma SevenMore(f: nat)
    requires IsFrame(f)
    ensures Present(f + 7) && Addr(f + 7) == f
  {
    var q := f / PAGE_SIZE;
    assert f == q * PAGE_SIZE;
    assert (f + 7) / PAGE_SIZE == q;
    assert q < 0x100_0000_0000;
    OddOffset(q);
  }

  lemma OddOffset(q: nat)
    ensures Present(q * PAGE_SIZE + 7)
  {
    assert q * PAGE_SIZE + 7 == 2 * (q * 2048 + 3) + 1;
  }

  /** What a lookup keeps of a leaf word: w & ~0xfff. */
  function FrameOf(w: nat): nat { w / PAGE_SIZE * PAGE_SIZE }

  lemma OrHalves(x: nat, y: nat)
    ensures Or(x, y) / 2 == Or(x / 2, y / 2)
  {}

  lemma {:induction false} OrShr(x: nat, y: nat, n: nat)
    ensures Shr(Or(x, y), n) == Or(Shr(x, n), Shr(y, n))
  {
    if n > 0 {
      OrHalves(x, y);
      OrShr(x / 2, y / 2, n - 1);
    }
  }

  lemma {:induction false} OrAbsorbs(x: nat, y: nat)
    ensures Or(x, y) == x <==> And(x, y) == y
  {
    if x != 0 && y != 0 { OrAbsorbs(x / 2, y / 2); }
  }

  lemma PageNumber(x: nat, n: nat)
    requires n == 12
    ensures Shr(x, n) == x / PAGE_SIZE
  {
    assert Pow2(12) == PAGE_SIZE;
    Split(x, n);
    LowBound(x, n);
    ShlIsProduct(Shr(x, n), n);
    DivUnique(x, PAGE_SIZE, Shr(x, n), Low(x, n));
  }

  /**
    A mapping made with these flags is translated back to its frame exactly when every flag bit from bit 12
    up is already set in the frame's address.
   */
  lemma TranslationRoundTrip(pa: nat, flags: nat)
    requires pa % PAGE_SIZE == 0
    ensures FrameOf(Or(pa, flags)) == pa <==> And(pa / PAGE_SIZE, flags / PAGE_SIZE) == flags / PAGE_SIZE
    ensures flags < PAGE_SIZE ==> FrameOf(Or(pa, flags)) == pa
  {
    var n := 12;
    OrShr(pa, flags, n);
    PageNumber(Or(pa, flags), n);
    PageNumber(pa, n);
    PageNumber(flags, n);
    OrAbsorbs(pa / PAGE_SIZE, flags / PAGE_SIZE);
  }

  /** The no-execute flag (bit 63) breaks the round trip: it stays in the address looked up. */
  lemma NoExecuteIsNotStripped()
    ensures FrameOf(Or(0x1000, 0x8000_0000_0000_0000)) != 0x1000
  {
    TranslationRoundTrip(0x1000, 0x8000_0000_0000_0000);
    assert And(1, 0x8_0000_0000_0000) != 0x8_0000_0000_0000 by { AndLe(1, 0x8_0000_0000_0000); }
  }

  // ----- Page keys -----

  /** The bits of a key above level L. */
  function Prefix(k: nat, level: nat): nat {
    if level == 0 then k else Prefix(k, level - 1) / ENTRIES
  }

  /** The entry a key selects in a table of this level. */
  function Digit(k: nat, level: nat): (d: nat)
    requires level > 0
    ensures d < ENTRIES
  {
    Prefix(k, level - 1) % ENTRIES
  }

  /** The key of a virtual address: its page number modulo 2^36. */
  function KeyOf(va: nat): (k: nat)
    ensures IsKey(k)
  {
    KeyOfPage(va / PAGE_SIZE)
  }

  function KeyOfPage(p: nat): (k: nat)
    ensures IsKey(k)
  {
    p % 0x10_0000_0000
  }

  lemma PageBits(x: nat, n: nat)
    requires n == 9
    ensures Shr(x, n) == x / ENTRIES && Low(x, n) == x % ENTRIES && And(x, 0x1ff) == x % ENTRIES
  {
    assert Pow2(9) == ENTRIES;
    Split(x, n);
    LowBound(x, n);
    ShlIsProduct(Shr(x, n), n);
    DivUnique(x, ENTRIES, Shr(x, n), Low(x, n));
    ShlOne(n);
    AndMask(x, n);
  }

  lemma {:induction false} PrefixIsShift(k: nat, level: nat)
    ensures Prefix(k, level) == Shr(k, 9 * level)
  {
    if level > 0 {
      PrefixIsShift(k, level - 1);
      PageBits(Prefix(k, level - 1), 9);
      ShrShr(k, 9 * (level - 1), 9);
    }
  }

  /** The kernel's index computation (va >> shift) & 0x1ff picks the key's digit of that level. */
  lemma IndexIsDigit(va: nat, level: nat, shift: nat, w: nat)
    requires 1 <= level <= 4 && shift == 9 * level + 3 && w == 9
    ensures And(Shr(va, shift), 0x1ff) == Digit(KeyOf(va), level)
  {
    hide Shr, Low, And, Prefix, KeyOfPage;
    var x, k := va / PAGE_SIZE, KeyOf(va);
    PageNumber(va, 12);
    ShrShr(va, 12, shift - 12);
    KeyIsLow(x, 36);
    PrefixIsShift(k, level - 1);
    ShrLow(x, 36, shift - 12);
    LowLow(Shr(x, shift - 12), w, 48 - shift);
    PageBits(Shr(x, shift - 12), w);
    PageBits(Shr(k, shift - 12), w);
  }

  lemma KeyIsLow(p: nat, n: nat)
    requires n == 36
    ensures KeyOfPage(p) == Low(p, n)
  {
    LowIsRemainder(p, n);
    Pow2Values();
    assert Pow2(36) == 0x10_0000_0000;
  }

  predicate IsKey(k: nat) { k < 0x10_0000_0000 }  // 2^36

  lemma PrefixTop(k: nat)
    requires IsKey(k)
    ensures Prefix(k, 4) == 0
  {
    assert Prefix(k, 1) == k / ENTRIES;
    assert Prefix(k, 2) == Prefix(k, 1) / ENTRIES;
    assert Prefix(k, 3) == Prefix(k, 2) / ENTRIES;
    assert Prefix(k, 4) == Prefix(k, 3) / ENTRIES;
  }

  /** Equal prefixes above a level have equal digits above it. */
  lemma {:induction false} SamePrefix(k: nat, k': nat, level: nat, higher: nat)
    requires Prefix(k, level) == Prefix(k', level) && level < higher
    ensures Digit(k, higher) == Digit(k', higher) && Prefix(k, higher) == Prefix(k', higher)
    decreases higher
  {
    if level + 1 < higher { SamePrefix(k, k', level, higher - 1); }
  }

  // ----- The walk -----

  /** MmArchGetNextLevel without allocation: 0 stands for NULL. */
  function Child(mem: Memory, t: nat, e: nat): nat {
    if t in mem && e < |mem[t]| && Present(mem[t][e]) then Addr(mem[t][e]) else 0
  }

  /** The table of the given level on the way to key k, or 0. */
  function TableAt(mem: Memory, root: nat, k: nat, level: nat): nat
    requires 1 <= level <= 4
    decreases 4 - level
  {
    if level == 4 then root
    else
      var parent := TableAt(mem, root, k, level + 1);
      if parent == 0 then 0 else Child(mem, parent, Digit(k, level + 1))
  }

  /** The leaf word of key k, or 0 where there is no table. */
  function Leaf(mem: Memory, root: nat, k: nat): nat {
    var t := TableAt(mem, root, k, 1);
    if t in mem && Digit(k, 1) < |mem[t]| then mem[t][Digit(k, 1)] else 0
  }

  /** Keys with the same prefix above a level are looked up in the same table of that level. */
  lemma {:induction false} SamePrefixSameTable(mem: Memory, root: nat, k: nat, k': nat, low: nat, level: nat)
    requires Prefix(k, low) == Prefix(k', low) && 1 <= low <= level <= 4
    ensures TableAt(mem, root, k, level) == TableAt(mem, root, k', level)
    decreases 4 - level
  {
    if level < 4 {
      SamePrefixSameTable(mem, root, k, k', low, level + 1);
      SamePrefix(k, k', low, level + 1);
    }
  }

  // ----- Well-formed trees -----

  /** Entry e of table t leads to the table it should: the next part of its own tree, or the kernel's upper half. */
  ghost predicate EntryOk(mem: Memory, owner: Owners, kernel: nat, t: nat, e: nat)
    requires t in mem && t in owner && owner[t].Table? && e < |mem[t]|
  {
    Present(mem[t][e]) ==>
      var c := Addr(mem[t][e]);
      var own := owner[t];
      && own.level >= 2 && mem[t][e] == c + 7
      && c in mem && c in owner && owner[c].Table?
      && owner[c].level == own.level - 1 && owner[c].prefix == own.prefix * ENTRIES + e
      && (owner[c].root == own.root || (owner[c].root == kernel && SharedEntry(mem, owner, kernel, t, e)))
  }

  /** A top-level entry of another tree that is a copy of the kernel's. */
  ghost predicate SharedEntry(mem: Memory, owner: Owners, kernel: nat, t: nat, e: nat)
    requires t in mem && t in owner && owner[t].Table? && e < |mem[t]|
  {
    owner[t].level == 4 && e >= 256 && kernel in mem && |mem[kernel]| == ENTRIES && e < ENTRIES &&
        mem[kernel][e] == mem[t][e]
  }

  ghost predicate TableOk(mem: Memory, owner: Owners, kernel: nat, t: nat)
    requires t in mem
  {
    && |mem[t]| == ENTRIES && t != 0
    && t in owner && owner[t].Table? && 1 <= owner[t].level <= 4
    && (owner[t].level == 4 ==> owner[t] == Table(t, 4, 0))
    && (owner[t].level >= 2 ==> forall e :: 0 <= e < ENTRIES ==> EntryOk(mem, owner, kernel, t, e))
  }

  ghost predicate WellFormed(mem: Memory, owner: Owners, kernel: nat) {
    && IsRoot(mem, owner, kernel) && 0 !in mem
    && (forall t :: t in mem ==> TableOk(mem, owner, kernel, t))
    && (forall t :: t in owner && owner[t].Table? ==> t in mem && Reached(mem, owner, t))
  }

  /** No table is lost: a walk from the root of its tree ends in it. */
  ghost predicate Reached(mem: Memory, owner: Owners, t: nat)
    requires t in owner && owner[t].Table?
  {
    && IsRoot(mem, owner, owner[t].root) && 1 <= owner[t].level <= 4
    && exists k :: IsKey(k) && TableAt(mem, owner[t].root, k, owner[t].level) == t
  }

  lemma StillReached(mem: Memory, owner: Owners, t: nat, k: nat)
    requires t in owner && owner[t].Table? && IsRoot(mem, owner, owner[t].root) && 1 <= owner[t].level <= 4
    requires IsKey(k) && TableAt(mem, owner[t].root, k, owner[t].level) == t
    ensures Reached(mem, owner, t)
  {}

  lemma KeyOfTable(mem: Memory, owner: Owners, t: nat) returns (k: nat)
    requires t in owner && owner[t].Table? && Reached(mem, owner, t)
    ensures IsRoot(mem, owner, owner[t].root) && 1 <= owner[t].level <= 4
    ensures IsKey(k) && TableAt(mem, owner[t].root, k, owner[t].level) == t
  {
    k :| IsKey(k) && TableAt(mem, owner[t].root, k, owner[t].level) == t;
  }

  ghost predicate IsRoot(mem: Memory, owner: Owners, r: nat) {
    r in mem && r in owner && owner[r] == Table(r, 4, 0)
  }

  /** The table on the way to k carries k's prefix, and belongs to the tree walked or to the kernel's upper half. */
  ghost predicate OnPath(mem: Memory, owner: Owners, kernel: nat, r: nat, k: nat, level: nat, t: nat)
    requires 1 <= level <= 4
  {
    && t in mem && t in owner && owner[t].Table? && owner[t].level == level && owner[t].prefix == Prefix(k, level)
    && (owner[t].root == r
        || (level < 4 && Digit(k, 4) >= 256 && owner[t].root == kernel && t == TableAt(mem, kernel, k, level)))
  }

  lemma {:induction false} PathOwner(mem: Memory, owner: Owners, kernel: nat, r: nat, k: nat, level: nat)
    requires WellFormed(mem, owner, kernel) && IsRoot(mem, owner, r) && IsKey(k) && 1 <= level <= 4
    ensures var t := TableAt(mem, r, k, level); t != 0 ==> OnPath(mem, owner, kernel, r, k, level, t)
    decreases 4 - level
  {
    hide Reached;
    if level == 4 {
      PrefixTop(k);
    } else {
      PathOwner(mem, owner, kernel, r, k, level + 1);
      var parent := TableAt(mem, r, k, level + 1);
      var e := Digit(k, level + 1);
      if parent != 0 && Child(mem, parent, e) != 0 {
        assert TableOk(mem, owner, kernel, parent);
        assert EntryOk(mem, owner, kernel, parent, e);
        assert Prefix(k, level) == Prefix(k, level + 1) * ENTRIES + e;
      }
    }
  }

  /** Two walks that end in the same table follow keys with the same prefix. */
  lemma SameTable(mem: Memory, owner: Owners, kernel: nat, r: nat, k: nat, r': nat, k': nat, level: nat)
    requires WellFormed(mem, owner, kernel) && IsRoot(mem, owner, r) && IsRoot(mem, owner, r')
    requires IsKey(k) && IsKey(k') && 1 <= level <= 4
    requires TableAt(mem, r, k, level) == TableAt(mem, r', k', level) != 0
    ensures Prefix(k, level) == Prefix(k', level)
    ensures r != r' ==> level < 4 && Digit(k, 4) >= 256
  {
    PathOwner(mem, owner, kernel, r, k, level);
    PathOwner(mem, owner, kernel, r', k', level);
    if level < 4 { SamePrefix(k, k', level, 4); }
  }

  // ----- Permissions -----

  /** Bits 1 and 2 of an entry: w & MM_WRITE and w & MM_USER. */
  predicate Writable(w: nat) { w / 2 % 2 == 1 }

  predicate ForUser(w: nat) { w / 4 % 2 == 1 }

  /** The entry that a walk to key k meets in the table of a level. */
  function EntryAt(mem: Memory, root: nat, k: nat, level: nat): nat
    requires 1 <= level <= 4
  {
    var t := TableAt(mem, root, k, level);
    if t in mem && Digit(k, level) < |mem[t]| then mem[t][Digit(k, level)] else 0
  }

  /** The processor lets an access through only if every entry of the walk does. */
  ghost predicate WalkWritable(mem: Memory, root: nat, k: nat) {
    forall level :: 1 <= level <= 4 ==> Writable(EntryAt(mem, root, k, level))
  }

  ghost predicate WalkForUser(mem: Memory, root: nat, k: nat) {
    forall level :: 1 <= level <= 4 ==> ForUser(EntryAt(mem, root, k, level))
  }

  lemma SevenAllows(c: nat)
    requires c % PAGE_SIZE == 0
    ensures Writable(c + 7) && ForUser(c + 7)
  {
    var q, w := c / PAGE_SIZE, c + 7;
    LastBit(w, 1, 2048 * q + 3);
    LastBit(2048 * q + 3, 1, 1024 * q + 1);
    LastBit(1024 * q + 1, 1, 512 * q);
    Quarter(w);
  }

  /** Above the leaf a walk to a present page meets only entries that allow everything. */
  lemma {:induction false} WalkAllows(mem: Memory, owner: Owners, kernel: nat, r: nat, k: nat, low: nat, level: nat)
    requires WellFormed(mem, owner, kernel) && IsRoot(mem, owner, r) && IsKey(k) && 1 <= low < level <= 4
    requires TableAt(mem, r, k, low) != 0
    ensures TableAt(mem, r, k, level - 1) != 0
    ensures Writable(EntryAt(mem, r, k, level)) && ForUser(EntryAt(mem, r, k, level))
    decreases level
  {
    hide Reached, Present, Writable, ForUser, Digit;
    WalkFound(mem, r, k, low, level - 1);
    PathOwner(mem, owner, kernel, r, k, level);
    var t := TableAt(mem, r, k, level);
    assert TableOk(mem, owner, kernel, t);
    assert EntryOk(mem, owner, kernel, t, Digit(k, level));
    SevenAllows(Addr(mem[t][Digit(k, level)]));
  }

  lemma {:induction false} WalkFound(mem: Memory, r: nat, k: nat, low: nat, level: nat)
    requires 1 <= low <= level <= 4 && TableAt(mem, r, k, low) != 0
    ensures TableAt(mem, r, k, level) != 0
    decreases level - low
  {
    if low < level { WalkFound(mem, r, k, low + 1, level); }
  }

  /** What a walk permits is what the leaf permits. */
  lemma LeafPermits(mem: Memory, owner: Owners, kernel: nat, r: nat, k: nat)
    requires WellFormed(mem, owner, kernel) && IsRoot(mem, owner, r) && IsKey(k)
    ensures WalkWritable(mem, r, k) <==> Writable(Leaf(mem, r, k))
    ensures WalkForUser(mem, r, k) <==> ForUser(Leaf(mem, r, k))
  {
    hide WellFormed, Writable, ForUser, IsRoot, Digit;
    assert EntryAt(mem, r, k, 1) == Leaf(mem, r, k);
    if TableAt(mem, r, k, 1) == 0 {
      NoNullLeaf(mem, owner, kernel, r, k);
    } else {
      forall level | 2 <= level <= 4
        ensures Writable(EntryAt(mem, r, k, level)) && ForUser(EntryAt(mem, r, k, level))
      {
        WalkAllows(mem, owner, kernel, r, k, 1, level);
      }
    }
  }

  lemma NoNullLeaf(mem: Memory, owner: Owners, kernel: nat, r: nat, k: nat)
    requires WellFormed(mem, owner, kernel) && TableAt(mem, r, k, 1) == 0
    ensures !Writable(Leaf(mem, r, k)) && !ForUser(Leaf(mem, r, k))
  {}

  /** Or-ing flags into an address that is a multiple of two leaves the lowest bit to the flags. */
  lemma OrBits(x: nat, y: nat)
    requires x % 2 == 0
    ensures Or(x, y) % 2 == y % 2 && Or(x, y) / 2 == Or(x / 2, y / 2)
  {
    var halves := Or(x / 2, y / 2);
    if x == 0 {
      assert halves == y / 2;
    } else if y == 0 {
      assert halves == x / 2;
    } else {
      LastBit(Or(x, y), y % 2, halves);
    }
  }

  lemma LastBit(w: nat, bit: nat, rest: nat)
    requires bit < 2 && w == bit + 2 * rest
    ensures w % 2 == bit && w / 2 == rest
  {}

  lemma Quarter(x: nat)
    ensures x / 2 / 2 == x / 4
  {}

  /** A mapping permits what its flags say, whatever the frame. */
  lemma MappingPermits(pa: nat, flags: nat)
    requires pa % PAGE_SIZE == 0
    ensures Present(Or(pa, flags)) <==> flags % 2 == 1
    ensures Writable(Or(pa, flags)) <==> flags / 2 % 2 == 1
    ensures ForUser(Or(pa, flags)) <==> flags / 4 % 2 == 1
  {
    hide Or;
    var n := pa / PAGE_SIZE;
    assert pa == 4096 * n && pa / 2 == 2048 * n;
    Quarter(pa);
    Quarter(flags);
    Quarter(Or(pa, flags));
    assert pa / 4 == 1024 * n;
    OrBits(pa, flags);
    OrBits(pa / 2, flags / 2);
    OrBits(pa / 4, flags / 4);
  }

  // ----- Writing a leaf -----

  function Updated(words: seq<nat>, e: nat, w: nat): seq<nat>
    requires e < |words|
  {
    words[e := w]
  }

  ghost predicate LeafWritten(mem: Memory, mem': Memory, t: nat, e: nat, w: nat) {
    t in mem && e < |mem[t]| && mem' == mem[t := Updated(mem[t], e, w)]
  }

  /** A level-1 write changes no walk, and exactly one slot. */
  lemma LeafWriteKeepsTree(mem: Memory, mem': Memory, owner: Owners, kernel: nat, t: nat, e: nat, w: nat)
    requires WellFormed(mem, owner, kernel) && LeafWritten(mem, mem', t, e, w) && owner[t].level == 1
    ensures WellFormed(mem', owner, kernel)
  {
    hide Reached;
    forall t' | t' in owner && owner[t'].Table? ensures Reached(mem', owner, t') {
      var k := KeyOfTable(mem, owner, t');
      LeafWriteKeepsWalk(mem, mem', owner, kernel, t, e, w, owner[t'].root, k, owner[t'].level);
      assert TableOk(mem, owner, kernel, owner[t'].root);
      StillReached(mem', owner, t', k);
    }
    forall t' | t' in mem' ensures TableOk(mem', owner, kernel, t') {
      assert TableOk(mem, owner, kernel, t');
      if owner[t'].level >= 2 {
        forall e' | 0 <= e' < ENTRIES ensures EntryOk(mem', owner, kernel, t', e') {
          assert EntryOk(mem, owner, kernel, t', e');
        }
      }
    }
  }

  lemma {:induction false} LeafWriteKeepsWalk(mem: Memory, mem': Memory, owner: Owners, kernel: nat, t: nat, e: nat,
      w: nat, r: nat, k: nat, level: nat)
    requires WellFormed(mem, owner, kernel) && LeafWritten(mem, mem', t, e, w) && owner[t].level == 1
    requires IsRoot(mem, owner, r) && IsKey(k) && 1 <= level <= 4
    ensures TableAt(mem', r, k, level) == TableAt(mem, r, k, level)
    decreases 4 - level
  {
    hide Reached;
    if level < 4 {
      LeafWriteKeepsWalk(mem, mem', owner, kernel, t, e, w, r, k, level + 1);
      PathOwner(mem, owner, kernel, r, k, level + 1);
    }
  }

  /** The flat-map meaning of a leaf write at key k below root r, seen from any root and key. */
  lemma LeafWriteEffect(mem: Memory, mem': Memory, owner: Owners, kernel: nat, w: nat, r: nat, k: nat, r': nat, k': nat)
    requires WellFormed(mem, owner, kernel) && IsRoot(mem, owner, r) && IsRoot(mem, owner, r') && IsKey(k) && IsKey(k')
    requires TableAt(mem, r, k, 1) != 0 && LeafWritten(mem, mem', TableAt(mem, r, k, 1), Digit(k, 1), w)
    ensures Leaf(mem', r', k') == if k' == k && TableAt(mem, r', k, 1) == TableAt(mem, r, k, 1) then w
        else Leaf(mem, r', k')
    ensures r' == r || Digit(k, 4) >= 256 || Leaf(mem', r', k') == Leaf(mem, r', k')
  {
    hide Reached;
    var t, t' := TableAt(mem, r, k, 1), TableAt(mem, r', k', 1);
    PathOwner(mem, owner, kernel, r, k, 1);
    PathOwner(mem, owner, kernel, r', k', 1);
    LeafWriteKeepsWalk(mem, mem', owner, kernel, t, Digit(k, 1), w, r', k', 1);
    assert TableOk(mem, owner, kernel, t);
    if t == t' {
      SameTable(mem, owner, kernel, r, k, r', k', 1);
      KeyFromParts(k, k');
    }
  }

  lemma KeyFromParts(k: nat, k': nat)
    requires Prefix(k, 1) == Prefix(k', 1)
    ensures Digit(k, 1) == Digit(k', 1) <==> k == k'
  {
    assert Prefix(k, 0) == k && Prefix(k', 0) == k';
    assert Prefix(k, 1) == k / ENTRIES && Prefix(k', 1) == k' / ENTRIES;
  }

  // ----- Adding a table -----

  function ZeroTable(): (z: seq<nat>)
    ensures |z| == ENTRIES && forall e :: 0 <= e < ENTRIES ==> z[e] == 0
  {
    seq(ENTRIES, _ => 0)
  }

  /** Frame f becomes the table behind entry e of table t, which led nowhere. */
  ghost predicate TableAdded(mem: Memory, mem': Memory, owner: Owners, owner': Owners, t: nat, e: nat, f: nat) {
    && t in mem && t in owner && owner[t].Table? && owner[t].level >= 2 && e < |mem[t]| && !Present(mem[t][e])
    && IsFrame(f) && f !in mem && f in owner && !owner[f].Table?
    && mem' == mem[f := ZeroTable()][t := Updated(mem[t], e, TableWord(f))]
    && owner' == owner[f := Table(owner[t].root, owner[t].level - 1, owner[t].prefix * ENTRIES + e)]
  }

  lemma AddTableKeepsTree(mem: Memory, mem': Memory, owner: Owners, owner': Owners, kernel: nat, t: nat, e: nat,
      f: nat, k: nat)
    requires WellFormed(mem, owner, kernel) && TableAdded(mem, mem', owner, owner', t, e, f)
    requires Leads(mem, owner, t, e, k)
    ensures WellFormed(mem', owner', kernel)
  {
    hide Reached;
    TableWordFields(f);
    assert TableOk(mem, owner, kernel, t);
    forall t' | t' in owner' && owner'[t'].Table? ensures Reached(mem', owner', t') {
      if t' == f {
        NewTableReached(mem, mem', owner, owner', kernel, t, e, f, k);
      } else {
        OldTableReached(mem, mem', owner, owner', kernel, t, e, f, t');
      }
    }
    assert TableOk(mem, owner, kernel, kernel);
    forall t' | t' in mem' ensures TableOk(mem', owner', kernel, t') {
      if t' != f {
        assert TableOk(mem, owner, kernel, t');
        if owner[t'].level >= 2 {
          forall e' | 0 <= e' < ENTRIES ensures EntryOk(mem', owner', kernel, t', e') {
            assert EntryOk(mem, owner, kernel, t', e');
          }
        }
      }
    }
  }

  /** Key k leads to entry e of table t. */
  ghost predicate Leads(mem: Memory, owner: Owners, t: nat, e: nat, k: nat) {
    && t in owner && owner[t].Table? && 2 <= owner[t].level <= 4 && IsRoot(mem, owner, owner[t].root)
    && IsKey(k) && TableAt(mem, owner[t].root, k, owner[t].level) == t && e == Digit(k, owner[t].level)
  }

  lemma NewTableReached(mem: Memory, mem': Memory, owner: Owners, owner': Owners, kernel: nat, t: nat, e: nat, f: nat,
      k: nat)
    requires WellFormed(mem, owner, kernel) && TableAdded(mem, mem', owner, owner', t, e, f)
    requires Leads(mem, owner, t, e, k)
    ensures Reached(mem', owner', f)
  {
    hide Reached;
    AddTableKeepsWalk(mem, mem', owner, owner', kernel, t, e, f, owner[t].root, k, owner[t].level);
    TableWordFields(f);
    StillReached(mem', owner', f, k);
  }

  lemma OldTableReached(mem: Memory, mem': Memory, owner: Owners, owner': Owners, kernel: nat, t: nat, e: nat, f: nat,
      t': nat)
    requires WellFormed(mem, owner, kernel) && TableAdded(mem, mem', owner, owner', t, e, f)
    requires t' in owner && owner[t'].Table? && t' != f
    ensures Reached(mem', owner', t')
  {
    hide Reached;
    var k := KeyOfTable(mem, owner, t');
    AddTableKeepsWalk(mem, mem', owner, owner', kernel, t, e, f, owner[t'].root, k, owner[t'].level);
    StillReached(mem', owner', t', k);
  }

  /** Only entry e of table t leads elsewhere than before, to f, and f leads nowhere. */
  lemma ChildAdded(mem: Memory, mem': Memory, owner: Owners, owner': Owners, kernel: nat, t: nat, e: nat, f: nat,
      u: nat, d: nat)
    requires WellFormed(mem, owner, kernel) && TableAdded(mem, mem', owner, owner', t, e, f) && d < ENTRIES
    ensures u in mem ==> Child(mem', u, d) == if u == t && d == e then f else Child(mem, u, d)
    ensures Child(mem', f, d) == 0 && f != 0 && Child(mem, t, e) == 0
  {
    hide Reached, TableOk;
    TableWordFields(f);
    if u in mem {
      assert TableOk(mem, owner, kernel, u);
      FullTable(mem, owner, kernel, u);
    }
  }

  lemma FullTable(mem: Memory, owner: Owners, kernel: nat, t: nat)
    requires t in mem && TableOk(mem, owner, kernel, t)
    ensures |mem[t]| == ENTRIES && t != 0
  {}

  /** A walk that found a table still finds it; one that found none finds at most the new table. */
  lemma {:induction false} AddTableKeepsWalk(mem: Memory, mem': Memory, owner: Owners, owner': Owners, kernel: nat,
      t: nat, e: nat, f: nat, r: nat, k: nat, level: nat)
    requires WellFormed(mem, owner, kernel) && TableAdded(mem, mem', owner, owner', t, e, f)
    requires IsRoot(mem, owner, r) && IsKey(k) && 1 <= level <= 4
    ensures var before, after := TableAt(mem, r, k, level), TableAt(mem', r, k, level);
      after == before || (before == 0 && after == f && owner'[f].level == level)
    decreases 4 - level
  {
    hide Reached, WellFormed, Child, Digit, TableOk;
    if level == 4 {
      NoNullRoot(mem, owner, kernel, r, r);
    } else {
      AddTableKeepsWalk(mem, mem', owner, owner', kernel, t, e, f, r, k, level + 1);
      PathOwner(mem, owner, kernel, r, k, level + 1);
      ChildAdded(mem, mem', owner, owner', kernel, t, e, f, TableAt(mem, r, k, level + 1), Digit(k, level + 1));
    }
  }

  /** Adding a table changes no translation. */
  lemma AddTableKeepsLeaf(mem: Memory, mem': Memory, owner: Owners, owner': Owners, kernel: nat, t: nat, e: nat,
      f: nat, r: nat, k: nat)
    requires WellFormed(mem, owner, kernel) && TableAdded(mem, mem', owner, owner', t, e, f)
    requires IsRoot(mem, owner, r) && IsKey(k)
    ensures Leaf(mem', r, k) == Leaf(mem, r, k)
  {
    hide Reached;
    AddTableKeepsWalk(mem, mem', owner, owner', kernel, t, e, f, r, k, 1);
    PathOwner(mem, owner, kernel, r, k, 1);
  }

  // ----- A new address space -----

  /** The top level of a new page map: an empty lower half and a copy of the kernel's upper half. */
  function CopiedTop(words: seq<nat>): (top: seq<nat>)
    requires |words| == ENTRIES
    ensures |top| == ENTRIES
  {
    ZeroTable()[..256] + words[256..]
  }

  ghost predicate RootAdded(mem: Memory, mem': Memory, owner: Owners, owner': Owners, kernel: nat, r: nat) {
    && kernel in mem && |mem[kernel]| == ENTRIES
    && r != 0 && r !in mem && r in owner && !owner[r].Table?
    && mem' == mem[r := CopiedTop(mem[kernel])] && owner' == owner[r := Table(r, 4, 0)]
  }

  lemma AddRootKeepsTree(mem: Memory, mem': Memory, owner: Owners, owner': Owners, kernel: nat, r: nat)
    requires WellFormed(mem, owner, kernel) && RootAdded(mem, mem', owner, owner', kernel, r)
    ensures WellFormed(mem', owner', kernel) && IsRoot(mem', owner', r)
  {
    hide Reached;
    assert TableOk(mem, owner, kernel, kernel);
    forall t | t in owner' && owner'[t].Table? ensures Reached(mem', owner', t) {
      if t == r {
        StillReached(mem', owner', r, 0);
      } else {
        var k := KeyOfTable(mem, owner, t);
        AddRootKeepsWalk(mem, mem', owner, owner', kernel, r, owner[t].root, k, owner[t].level);
        StillReached(mem', owner', t, k);
      }
    }
    forall t | t in mem' ensures TableOk(mem', owner', kernel, t) {
      if t == r {
        forall e | 0 <= e < ENTRIES ensures EntryOk(mem', owner', kernel, r, e) {
          assert EntryOk(mem, owner, kernel, kernel, e);
        }
      } else {
        assert TableOk(mem, owner, kernel, t);
        if owner[t].level >= 2 {
          forall e | 0 <= e < ENTRIES ensures EntryOk(mem', owner', kernel, t, e) {
            assert EntryOk(mem, owner, kernel, t, e);
          }
        }
      }
    }
  }

  lemma {:induction false} AddRootKeepsWalk(mem: Memory, mem': Memory, owner: Owners, owner': Owners, kernel: nat,
      r: nat, r': nat, k: nat, level: nat)
    requires WellFormed(mem, owner, kernel) && RootAdded(mem, mem', owner, owner', kernel, r)
    requires IsRoot(mem, owner, r') && IsKey(k) && 1 <= level <= 4
    ensures TableAt(mem', r', k, level) == TableAt(mem, r', k, level)
    decreases 4 - level
  {
    hide Reached;
    if level < 4 {
      AddRootKeepsWalk(mem, mem', owner, owner', kernel, r, r', k, level + 1);
      PathOwner(mem, owner, kernel, r', k, level + 1);
    }
  }

  lemma {:induction false} NewRootWalk(mem: Memory, mem': Memory, owner: Owners, owner': Owners, kernel: nat, r: nat,
      k: nat, level: nat)
    requires WellFormed(mem, owner, kernel) && RootAdded(mem, mem', owner, owner', kernel, r)
    requires IsKey(k) && 1 <= level <= 3
    ensures TableAt(mem', r, k, level) == if Digit(k, 4) >= 256 then TableAt(mem, kernel, k, level) else 0
    decreases 4 - level
  {
    hide Reached, EntryOk;
    assert TableOk(mem, owner, kernel, kernel);
    PathOwner(mem, owner, kernel, kernel, k, level + 1);
    if level < 3 { NewRootWalk(mem, mem', owner, owner', kernel, r, k, level + 1); }
  }

  /** A new space sees the kernel's upper half and nothing below it; every other space is unchanged. */
  lemma AddRootEffect(mem: Memory, mem': Memory, owner: Owners, owner': Owners, kernel: nat, r: nat, r': nat, k: nat)
    requires WellFormed(mem, owner, kernel) && RootAdded(mem, mem', owner, owner', kernel, r) && IsKey(k)
    ensures Leaf(mem', r, k) == if Digit(k, 4) >= 256 then Leaf(mem, kernel, k) else 0
    ensures IsRoot(mem, owner, r') ==> Leaf(mem', r', k) == Leaf(mem, r', k)
  {
    hide Reached;
    NewRootWalk(mem, mem', owner, owner', kernel, r, k, 1);
    PathOwner(mem, owner, kernel, kernel, k, 1);
    if IsRoot(mem, owner, r') {
      AddRootKeepsWalk(mem, mem', owner, owner', kernel, r, r', k, 1);
      PathOwner(mem, owner, kernel, r', k, 1);
    }
  }

  // ----- Sharing -----

  /** Space r and the kernel hold the same present top-level entry for key k. */
  ghost predicate Shares(mem: Memory, kernel: nat, r: nat, k: nat) {
    && r in mem && kernel in mem && |mem[r]| == |mem[kernel]| == ENTRIES
    && Present(mem[kernel][Digit(k, 4)]) && mem[r][Digit(k, 4)] == mem[kernel][Digit(k, 4)]
  }

  lemma {:induction false} SharedWalk(mem: Memory, kernel: nat, r: nat, k: nat, level: nat)
    requires Shares(mem, kernel, r, k) && r != 0 && kernel != 0 && 1 <= level <= 3
    ensures TableAt(mem, r, k, level) == TableAt(mem, kernel, k, level)
    decreases 4 - level
  {
    if level < 3 { SharedWalk(mem, kernel, r, k, level + 1); }
  }

  /** Sharing spaces translate alike. */
  lemma SharedTranslation(mem: Memory, kernel: nat, r: nat, k: nat)
    requires Shares(mem, kernel, r, k) && r != 0 && kernel != 0
    ensures Leaf(mem, r, k) == Leaf(mem, kernel, k)
  {
    SharedWalk(mem, kernel, r, k, 1);
  }

  /** Upper-level entries, once present, stay: what every page-table operation guarantees. */
  ghost predicate Grows(mem: Memory, owner: Owners, mem': Memory) {
    forall t :: t in mem && t in owner && owner[t].Table? && owner[t].level >= 2 ==>
      t in mem' && |mem'[t]| == |mem[t]| &&
      forall e :: 0 <= e < |mem[t]| && Present(mem[t][e]) ==> mem'[t][e] == mem[t][e]
  }

  /** A sharing space keeps sharing, whatever is mapped or unmapped through either. */
  lemma SharingLasts(mem: Memory, owner: Owners, mem': Memory, kernel: nat, r: nat, k: nat)
    requires Grows(mem, owner, mem') && IsRoot(mem, owner, r) && IsRoot(mem, owner, kernel) && Shares(mem, kernel, r, k)
    ensures Shares(mem', kernel, r, k)
  {}

  /**
    Spaces r and r' walk to key k through the same tables: they are one space, or both have the kernel's
    top-level entry for it.
   */
  ghost predicate Together(mem: Memory, kernel: nat, r: nat, r': nat, k: nat) {
    r == r' || (Digit(k, 4) >= 256 && Shares(mem, kernel, r, k) && Shares(mem, kernel, r', k))
  }

  lemma TogetherAlike(mem: Memory, kernel: nat, r: nat, r': nat, k: nat)
    requires Together(mem, kernel, r, r', k) && r != 0 && r' != 0 && kernel != 0
    ensures TableAt(mem, r, k, 1) == TableAt(mem, r', k, 1) && Leaf(mem, r, k) == Leaf(mem, r', k)
  {
    hide Leaf;
    if r != r' {
      SharedWalk(mem, kernel, r, k, 1);
      SharedWalk(mem, kernel, r', k, 1);
      SharedTranslation(mem, kernel, r, k);
      SharedTranslation(mem, kernel, r', k);
    }
  }

  /** Below the top level a walk stays in one tree. */
  lemma {:induction false} WalkInTree(mem: Memory, owner: Owners, kernel: nat, r: nat, k: nat, level: nat)
    requires WellFormed(mem, owner, kernel) && IsRoot(mem, owner, r) && IsKey(k) && 1 <= level <= 3
    requires TableAt(mem, r, k, level) != 0
    ensures var t, top := TableAt(mem, r, k, level), TableAt(mem, r, k, 3);
      top != 0 && t in owner && top in owner && owner[t].Table? && owner[top].Table? && owner[t].root == owner[top].root
    decreases 4 - level
  {
    hide Reached;
    PathOwner(mem, owner, kernel, r, k, level);
    if level < 3 {
      WalkInTree(mem, owner, kernel, r, k, level + 1);
      PathOwner(mem, owner, kernel, r, k, level + 1);
      var parent := TableAt(mem, r, k, level + 1);
      assert TableOk(mem, owner, kernel, parent);
      assert EntryOk(mem, owner, kernel, parent, Digit(k, level + 1));
    }
  }

  /** A walk goes on in its own tree, or through the kernel's entry in the kernel's. */
  lemma TopEntry(mem: Memory, owner: Owners, kernel: nat, r: nat, k: nat)
    requires WellFormed(mem, owner, kernel) && IsRoot(mem, owner, r) && IsKey(k) && TableAt(mem, r, k, 3) != 0
    ensures var t := TableAt(mem, r, k, 3);
      t in owner && owner[t].Table?
      && (owner[t].root == r || (owner[t].root == kernel && Digit(k, 4) >= 256 && Shares(mem, kernel, r, k)))
    ensures Shares(mem, kernel, kernel, k) || r != kernel
  {
    hide Reached;
    assert TableOk(mem, owner, kernel, r) && TableOk(mem, owner, kernel, kernel);
    assert TableAt(mem, r, k, 4) == r;
    assert EntryOk(mem, owner, kernel, r, Digit(k, 4));
  }

  /** Two spaces walk to key k through the same leaf table exactly when they are together. */
  lemma SameTableIffTogether(mem: Memory, owner: Owners, kernel: nat, r: nat, r': nat, k: nat)
    requires WellFormed(mem, owner, kernel) && IsRoot(mem, owner, r) && IsRoot(mem, owner, r') && IsKey(k)
    requires TableAt(mem, r', k, 1) != 0
    ensures TableAt(mem, r, k, 1) == TableAt(mem, r', k, 1) <==> Together(mem, kernel, r, r', k)
  {
    assert r != 0 && r' != 0 && kernel != 0 by { NoNullRoot(mem, owner, kernel, r, r'); }
    hide WellFormed, TableAt, Shares;
    if Together(mem, kernel, r, r', k) { TogetherAlike(mem, kernel, r, r', k); }
    if TableAt(mem, r, k, 1) == TableAt(mem, r', k, 1) && r != r' {
      WalkInTree(mem, owner, kernel, r, k, 1);
      WalkInTree(mem, owner, kernel, r', k, 1);
      TopEntry(mem, owner, kernel, r, k);
      TopEntry(mem, owner, kernel, r', k);
    }
  }

  lemma NoNullRoot(mem: Memory, owner: Owners, kernel: nat, r: nat, r': nat)
    requires WellFormed(mem, owner, kernel) && IsRoot(mem, owner, r) && IsRoot(mem, owner, r')
    ensures r != 0 && r' != 0 && kernel != 0
  {}

  /** A top-level entry made between the two memories leads into its own space's tree. */
  ghost predicate OwnEntries(mem: Memory, owner: Owners, mem': Memory, owner': Owners) {
    forall r, e :: IsRoot(mem, owner, r) && 0 <= e < |mem[r]| && r in mem' && e < |mem'[r]| ==>
        OwnEntry(mem[r][e], mem'[r][e], owner', r)
  }

  predicate OwnEntry(w: nat, w': nat, owner': Owners, r: nat) {
    !Present(w) && Present(w') ==> Addr(w') in owner' && owner'[Addr(w')].Table? && owner'[Addr(w')].root == r
  }

  /** Tables keep their place; entries present stay, and new ones are not shared. */
  ghost predicate Kept(mem: Memory, owner: Owners, mem': Memory, owner': Owners) {
    TablesStay(owner, owner') && Grows(mem, owner, mem') && OwnEntries(mem, owner, mem', owner')
  }

  /** Every table keeps its place in its tree, no frame is lost, and the stack's storage stays what it is. */
  ghost predicate TablesStay(owner: Owners, owner': Owners) {
    && owner'.Keys == owner.Keys
    && (forall f :: f in owner && owner[f].Table? ==> owner'[f] == owner[f])
    && (forall f :: f in owner ==> (owner'[f].Storage? <==> owner[f].Storage?))
  }

  lemma NothingMoved(mem: Memory, owner: Owners)
    ensures Kept(mem, owner, mem, owner)
  {}

  lemma KeptTwice(mem: Memory, owner: Owners, mem1: Memory, owner1: Owners, mem2: Memory, owner2: Owners)
    requires Kept(mem, owner, mem1, owner1) && Kept(mem1, owner1, mem2, owner2)
    ensures Kept(mem, owner, mem2, owner2)
  {
    hide Present, Addr;
    forall r, e | IsRoot(mem, owner, r) && 0 <= e < |mem[r]| && r in mem2 && e < |mem2[r]|
      ensures OwnEntry(mem[r][e], mem2[r][e], owner2, r)
    {
      assert IsRoot(mem1, owner1, r);
      assert OwnEntry(mem[r][e], mem1[r][e], owner1, r) && OwnEntry(mem1[r][e], mem2[r][e], owner2, r);
    }
    forall t | t in mem && t in owner && owner[t].Table? && owner[t].level >= 2
      ensures t in mem2 && |mem2[t]| == |mem[t]|
      ensures forall e :: 0 <= e < |mem[t]| && Present(mem[t][e]) ==> mem2[t][e] == mem[t][e]
    {
      assert owner1[t] == owner[t];
    }
  }

  /** No operation makes two spaces share an entry they did not share before. */
  lemma SharingNotMade(mem: Memory, owner: Owners, mem': Memory, owner': Owners, kernel: nat, r: nat, k: nat)
    requires WellFormed(mem, owner, kernel) && WellFormed(mem', owner', kernel) && Kept(mem, owner, mem', owner')
    requires IsRoot(mem, owner, r) && r != kernel && IsKey(k) && Digit(k, 4) >= 256
    ensures Shares(mem', kernel, r, k) ==> Shares(mem, kernel, r, k) && Shares(mem, kernel, kernel, k)
  {
    hide Reached;
    assert TableOk(mem, owner, kernel, r) && TableOk(mem, owner, kernel, kernel);
    assert TableOk(mem', owner', kernel, kernel);
    if Shares(mem', kernel, r, k) {
      var e := Digit(k, 4);
      assert EntryOk(mem', owner', kernel, kernel, e) && EntryOk(mem, owner, kernel, r, e);
      assert OwnEntry(mem[r][e], mem'[r][e], owner', r);
    }
  }

  lemma TogetherStays(mem: Memory, owner: Owners, mem': Memory, owner': Owners, kernel: nat, r: nat, r': nat, k: nat)
    requires WellFormed(mem, owner, kernel) && WellFormed(mem', owner', kernel) && Kept(mem, owner, mem', owner')
    requires IsRoot(mem, owner, r) && IsRoot(mem, owner, r') && IsKey(k)
    ensures Together(mem', kernel, r, r', k) <==> Together(mem, kernel, r, r', k)
  {
    assert IsRoot(mem, owner, kernel);
    hide WellFormed, Shares, Digit;
    if Digit(k, 4) >= 256 && r != r' {
      if r != kernel { SharingNotMade(mem, owner, mem', owner', kernel, r, k); }
      if r' != kernel { SharingNotMade(mem, owner, mem', owner', kernel, r', k); }
      hide Grows;
      if Shares(mem, kernel, r, k) { SharingLasts(mem, owner, mem', kernel, r, k); }
      if Shares(mem, kernel, r', k) { SharingLasts(mem, owner, mem', kernel, r', k); }
    }
  }
}
