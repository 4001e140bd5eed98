/** The processor's own table walk (VMSAv8-64, stage 1, 4 KiB granule, 48-bit addresses; Arm ARM DDI 0487,
    section D8.3), written from the architecture and not from the kernel's code; and what the kernel's
    map operations mean to it. */
module Mmu {
  import opened Bits
  import opened Sequences
  import opened Translation

  /** What an access to an address meets: a translation fault, or a physical address with the attribute
      bits of the entry that maps it. */
  datatype Access = Fault | Access(address: nat, attributes: nat)

  /** The bytes under one entry of a table at a level. */
  function Granule(level: Level): (r: nat)
    ensures r > 0
    decreases 3 - level
  {
    if level == 3 then 4096 else 512 * Granule(level + 1)
  }

  datatype Kind = Invalid | Block | Table | Page

  /** What the two low bits make of an entry: without bit 0 it is invalid; 01 is a block at levels 1 and 2
      and reserved, which is to say invalid, at the others; 11 is a page at level 3 and leads to a table
      at the others. */
  function KindOf(e: nat, level: Level): Kind {
    if e % 4 == 3 then if level == 3 then Page else Table
    else if e % 4 == 1 && (level == 1 || level == 2) then Block
    else Invalid
  }

  /** Bits 12 to 47 of an entry, in place. */
  function AddressField(e: nat): (r: nat)
    ensures r <= e - e % 4
  {
    TwoBits(e);
    e % 0x1_0000_0000_0000 - e % 0x1000
  }

  /** All bits but those of the type and of the address field. */
  function AttributeBits(e: nat): nat {
    e - e % 4 - AddressField(e)
  }

  /** The walk from a table on. */
  function Walks(c: Cells, t: Frame, level: Level, va: nat): Access
    decreases 3 - level
  {
    var e := Read(c, t, (va / Granule(level)) % 512);
    match KindOf(e, level)
    case Invalid => Fault
    case Table => Walks(c, AddressField(e) / 4096, level + 1, va)
    case _ => Delivered(e, level, va)
  }

  /** A block or page delivers its address field down to its size, and the offset of the address in it. */
  function Delivered(e: nat, level: Level, va: nat): (r: Access)
    ensures r.Access?
  {
    Access(RoundDown(AddressField(e), Granule(level)) + va % Granule(level), AttributeBits(e))
  }

  /** What an address space means to the processor; one without a root table is never activated. */
  function Hardware(c: Cells, root: Frame, va: nat): Access {
    if root == NULL then Fault else Walks(c, root, 0, va)
  }

  // --------------------------------------------------------------------------- what attributes allow

  /** AP[1], bit 6: user mode may access the memory. */
  predicate UserAccess(attributes: nat) { attributes / 0x40 % 2 == 1 }

  /** AP[2], bit 7: nobody may write to it. */
  predicate ReadOnly(attributes: nat) { attributes / 0x80 % 2 == 1 }

  /** PXN and UXN, bits 53 and 54, clear: the kernel and user mode may execute it. */
  predicate KernelExecutes(attributes: nat) { attributes / 0x20_0000_0000_0000 % 2 == 0 }

  predicate UserExecutes(attributes: nat) { attributes / 0x40_0000_0000_0000 % 2 == 0 }

  /** AttrIndx, bits 2 to 4: which memory type. */
  function MemoryType(attributes: nat): nat { attributes / 4 % 8 }

  /** SH, bits 8 and 9: 3 for inner sharable memory. */
  function Sharing(attributes: nat): nat { attributes / 0x100 % 4 }

  /** AF, bit 10: without it the first access faults. */
  predicate Accessed(attributes: nat) { attributes / 0x400 % 2 == 1 }

  /** The page flags of mmap.h. */
  const NORMAL_MEMORY: nat := 3 * 4
  const EL0_EL1_RW: nat := 0x40
  const EL1_RW: nat := 0
  const EL0_EL1_RO: nat := 0xC0
  const INNER_SHARABLE: nat := 0x300
  const ACCESS: nat := 0x400
  const NEVER_EXECUTE: nat := 0x60_0000_0000_0000

  // ------------------------------------------------------------- the fields as the kernel takes them apart

  lemma TwoBits(e: nat)
    ensures IsValid(e) <==> e % 4 == 1 || e % 4 == 3
    ensures IsTable(e) <==> e % 4 >= 2
    ensures e % 4 <= e % 0x1000 <= e % 0x1_0000_0000_0000 <= e
  {
    var k, b := e / 4, e % 4;
    DivModUnique(e, 2, 2 * k + b / 2, b % 2);
    DivModUnique(e / 2, 2, k, b / 2);
    Remainder(e, 4, 0x400);
    Remainder(e, 0x1000, 0x10_0000_0000);
  }

  lemma Remainder(x: nat, m: nat, n: nat)
    requires m > 0 && n > 0
    ensures m * n > 0 && x % m <= x % (m * n) <= x && x % (m * n) / m == x / m % n
  {
    hide Times;
    var k, b := x / m, x % m;
    var q, a := k / n, k % n;
    Positive(m, n);
    QuotientRest(x, m);
    QuotientRest(k, n);
    Regroup(q, a, m, n);
    Below(a, b, m, n);
    QuotientIs(x, m * n, q, Times(a, m) + b);
    QuotientIs(Times(a, m) + b, m, a, b);
  }

  lemma Positive(m: nat, n: nat)
    requires m > 0 && n > 0
    ensures m * n > 0
  {
  }

  lemma Regroup(q: nat, a: nat, m: nat, n: nat)
    ensures Times(Times(q, n) + a, m) == Times(q, m * n) + Times(a, m)
  {
    assert (q * n + a) * m == q * (m * n) + a * m;
  }

  lemma Below(a: nat, b: nat, m: nat, n: nat)
    requires a < n && b < m
    ensures Times(a, m) + b < m * n
  {
    MulMonotone(a + 1, n, m);
  }

  lemma QuotientIs(x: nat, m: nat, q: nat, r: nat)
    requires m > 0 && r < m && x == Times(q, m) + r
    ensures x / m == q && x % m == r
  {
    DivModUnique(x, m, q, r);
  }

  lemma AddressIsFrame(e: nat)
    ensures AddressField(e) == Addr(e) * 0x1000
  {
    var q, r := e / 0x1000, e % 0x1000;
    var h, f := q / 0x10_0000_0000, q % 0x10_0000_0000;
    assert e == h * 0x1_0000_0000_0000 + (f * 0x1000 + r);
    DivModUnique(e, 0x1_0000_0000_0000, h, f * 0x1000 + r);
  }

  lemma GranuleIsSpan(level: Level)
    ensures Granule(level) == Span(level)
  {
    assert Granule(3) == 0x1000 && Granule(2) == 0x20_0000 && Granule(1) == 0x4000_0000;
  }

  /** What an access through a leaf entry of the kernel's walk meets: a valid page entry without its
      second type bit is reserved. */
  function AccessOf(leaf: Leaf, va: nat): Access {
    if leaf == Unmapped || ReservedPage(leaf) then Fault else Delivered(leaf.word, leaf.level, va)
  }

  predicate ReservedPage(leaf: Leaf) {
    leaf.Leaf? && leaf.level == 3 && !IsTable(leaf.word)
  }

  lemma IndexIsField(va: nat, level: Level)
    ensures va / Granule(level) % 512 == Index(va, level)
  {
    GranuleIsSpan(level);
  }

  /** The processor's walk ends where the kernel's does. */
  lemma {:induction false} SameWalk(c: Cells, t: Frame, level: Level, va: nat)
    requires level == 0 && IsValid(EntryAt(c, t, level, va)) ==> IsTable(EntryAt(c, t, level, va))
    ensures Walks(c, t, level, va) == AccessOf(Walk(c, t, level, va), va)
    decreases 3 - level
  {
    hide Index, IsValid, IsTable, Granule, Addr, AddressField, Delivered;
    var e := EntryAt(c, t, level, va);
    IndexIsField(va, level);
    TwoBits(e);
    AddressIsFrame(e);
    if Descends(e, level) { SameWalk(c, Addr(e), level + 1, va); }
  }

  /** What the processor makes of an address is what the kernel's leaf entry for it says. */
  lemma HardwareSees(c: Cells, owner: Owner, root: Frame, space: nat, va: nat)
    requires Tree(c, owner) && (root != NULL ==> IsRoot(owner, root, space))
    ensures Hardware(c, root, va) == AccessOf(Lookup(c, root, va), va)
  {
    hide Index, Selected, Walks, Walk, IsValid, IsTable, Addr;
    if root != NULL {
      assert LinkedAt(c, owner, root, va);
      SameWalk(c, root, 0, va);
    }
  }

  // ------------------------------------------------------------------------- what an entry delivers

  /** The kernel's address of a leaf entry is the processor's. */
  lemma DeliveredAddress(e: nat, level: Level, va: nat)
    requires level > 0
    ensures Delivered(e, level, va).address == LeafBase(e, level) + va % Span(level)
  {
    hide Granule, Addr, AddressField, RoundDown;
    GranuleIsSpan(level);
    AddressIsFrame(e);
    if level == 1 {
      BlockField(e, 0x4_0000, 0x4_0000, 0x4000_0000);
    } else if level == 2 {
      BlockField(e, 0x200, 0x800_0000, 0x20_0000);
    } else {
      PageField(e);
    }
  }

  lemma PageField(e: nat)
    ensures RoundDown(Addr(e) * 0x1000, 0x1000) == Addr(e) * 0x1000
  {
    MulMod(Addr(e), 0x1000);
  }

  lemma BlockField(e: nat, m: nat, n: nat, size: nat)
    requires m > 0 && n > 0 && m * n == 0x10_0000_0000 && size == 0x1000 * m
    ensures RoundDown(Addr(e) * 0x1000, size) == e / size % n * size
  {
    var f := Addr(e);
    DivideTwice(e, 0x1000, m);
    Remainder(e / 0x1000, m, n);
    var q, r := f / m, f % m;
    assert f == q * m + r;
    assert f * 0x1000 == q * size + r * 0x1000;
    DivModUnique(f * 0x1000, size, q, r * 0x1000);
  }

  /** The entry a map operation writes lets the processor through to the memory asked for, with exactly
      the attributes asked for and the access flag. */
  lemma EntryDelivers(level: Level, pa: nat, flags: nat, va: nat)
    requires AttributesOnly(flags) && level > 0
    ensures AccessOf(Leaf(level, LeafWord(level, pa, flags)), va) ==
            Access(LeafBase(pa, level) + va % Granule(level), WithAccess(flags))
  {
    hide LeafBase, Granule, WithAccess, AttributesOnly, AddressField, Addr, Span, IsValid, IsTable;
    var word := LeafWord(level, pa, flags);
    LeafWordBits(level, pa, flags);
    GranuleIsSpan(level);
    DeliveredAddress(word, level, va);
    AddressIsFrame(word);
    WordAddress(level, pa, flags);
  }

  lemma WordAddress(level: Level, pa: nat, flags: nat)
    requires AttributesOnly(flags) && level > 0
    ensures Addr(LeafWord(level, pa, flags)) * 0x1000 == LeafBase(pa, level)
  {
    hide LeafBase, WithAccess, AttributesOnly;
    var low, high := FlagFields(flags);
    LeafBaseFits(pa, level);
    MiddleField((if level == 3 then 3 else 1) + low, LeafBase(pa, level) / 0x1000, high, 0x1000, 0x10_0000_0000);
  }

  // --------------------------------------------------------------------------- translation by software

  /** vmap_virtual_to_physical fails exactly where no entry maps the address; and it answers as the
      processor does, but for a valid page entry with reserved type bits, where it answers all the same. */
  lemma TranslatesExactly(c: Cells, owner: Owner, root: Frame, space: nat, va: nat)
    requires Tree(c, owner) && (root != NULL ==> IsRoot(owner, root, space))
    ensures Translate(c, root, va) == None <==> Lookup(c, root, va) == Unmapped
    ensures var h, pa := Hardware(c, root, va), Translate(c, root, va);
      && (h.Access? ==> pa == Some(h.address))
      && (h.Fault? && pa.Some? <==> ReservedPage(Lookup(c, root, va)))
  {
    hide Lookup, Walks, LeafBase, Delivered, Span, IsTable;
    HardwareSees(c, owner, root, space, va);
    var leaf := Lookup(c, root, va);
    if leaf.Leaf? {
      LeafHasLevel(c, owner, root, space, va);
      DeliveredAddress(leaf.word, leaf.level, va);
    }
  }

  lemma LeafHasLevel(c: Cells, owner: Owner, root: Frame, space: nat, va: nat)
    requires Tree(c, owner) && (root != NULL ==> IsRoot(owner, root, space)) && Lookup(c, root, va).Leaf?
    ensures Lookup(c, root, va).level > 0
  {
    hide Index, Selected, Addr, IsValid, IsTable;
    var e := EntryAt(c, root, 0, va);
    assert LinkedAt(c, owner, root, va);
    if Descends(e, 0) { LeafIsBelow(c, Addr(e), 1, va); }
  }

  // ------------------------------------------------------------------------------ the map operations

  /** A map operation means to the processor, and to the translation by software: on success the page or
      block leads to the memory asked for, with the flags asked for, and nothing else has changed. */
  ghost predicate Means(ok: bool, c: Cells, r: Frame, c': Cells, r': Frame, va: nat, level: Level, pa: nat,
                        flags: nat) {
    forall a: nat ::
      if ok && Together(a, va, level) then
        && Hardware(c', r', a) == Access(LeafBase(pa, level) + a % Granule(level), WithAccess(flags))
        && Translate(c', r', a) == Some(LeafBase(pa, level) + a % Granule(level))
      else Hardware(c', r', a) == Hardware(c, r, a) && Translate(c', r', a) == Translate(c, r, a)
  }

  lemma MappedMeans(ok: bool, c: Cells, owner: Owner, r: Frame, space: nat, c': Cells, owner': Owner, r': Frame,
                    va: nat, level: Level, pa: nat, flags: nat)
    requires Tree(c, owner) && (r != NULL ==> IsRoot(owner, r, space)) && AttributesOnly(flags) && level > 0
    requires Tree(c', owner') && (r' != NULL ==> IsRoot(owner', r', space))
    requires Mapped(ok, c, r, c', r', va, level, LeafWord(level, pa, flags))
    ensures Means(ok, c, r, c', r', va, level, pa, flags)
  {
    hide Tree, Lookup, Hardware, LeafWord, LeafBase, Granule, WithAccess, AttributesOnly, Selected, AccessOf;
    GranuleIsSpan(level);
    forall a: nat
      ensures if ok && Together(a, va, level) then
                && Hardware(c', r', a) == Access(LeafBase(pa, level) + a % Granule(level), WithAccess(flags))
                && Translate(c', r', a) == Some(LeafBase(pa, level) + a % Granule(level))
              else Hardware(c', r', a) == Hardware(c, r, a) && Translate(c', r', a) == Translate(c, r, a)
    {
      HardwareSees(c, owner, r, space, a);
      HardwareSees(c', owner', r', space, a);
      if ok && Together(a, va, level) {
        EntryDelivers(level, pa, flags, a);
        MappedTranslates(c', r', a, level, pa, flags);
      }
    }
  }

  /** What the processor meets at an address of a range mapped from start to memory from pStart. */
  function RangeAccess(level: Level, start: nat, pStart: nat, flags: nat, a: nat): Access
    requires start <= a
  {
    Access(LeafBase(pStart + RoundDown(a - start, Granule(level)), level) + a % Granule(level), WithAccess(flags))
  }

  /** A range operation means to the processor: from start to stop the memory and flags asked for, and
      nothing else has changed. */
  ghost predicate RangeMeans(c: Cells, r: Frame, c': Cells, r': Frame, level: Level, start: nat, stop: nat, pStart: nat,
                             flags: nat) {
    forall a: nat :: Window(a) == Window(start) ==>
      if start <= a < stop then
        && Hardware(c', r', a) == RangeAccess(level, start, pStart, flags, a)
        && Translate(c', r', a) == Some(RangeAccess(level, start, pStart, flags, a).address)
      else Hardware(c', r', a) == Hardware(c, r, a) && Translate(c', r', a) == Translate(c, r, a)
  }

  lemma RangeMappedMeans(c: Cells, owner: Owner, r: Frame, space: nat, c': Cells, owner': Owner, r': Frame,
                         level: Level, start: nat, stop: nat, pStart: nat, flags: nat)
    requires Tree(c, owner) && (r != NULL ==> IsRoot(owner, r, space)) && AttributesOnly(flags) && level > 0
    requires Tree(c', owner') && (r' != NULL ==> IsRoot(owner', r', space))
    requires RangeMapped(c, r, c', r', level, start, stop, pStart, flags)
    ensures RangeMeans(c, r, c', r', level, start, stop, pStart, flags)
  {
    hide Tree, Lookup, Hardware, LeafWord, LeafBase, Granule, WithAccess, AttributesOnly, Window, AccessOf, RoundDown;
    GranuleIsSpan(level);
    forall a: nat | Window(a) == Window(start)
      ensures if start <= a < stop then
                && Hardware(c', r', a) == RangeAccess(level, start, pStart, flags, a)
                && Translate(c', r', a) == Some(RangeAccess(level, start, pStart, flags, a).address)
              else Hardware(c', r', a) == Hardware(c, r, a) && Translate(c', r', a) == Translate(c, r, a)
    {
      HardwareSees(c, owner, r, space, a);
      HardwareSees(c', owner', r', space, a);
      if start <= a < stop {
        EntryDelivers(level, pStart + RoundDown(a - start, Granule(level)), flags, a);
        MappedTranslates(c', r', a, level, pStart + RoundDown(a - start, Granule(level)), flags);
      }
    }
  }

  /** Where both ends are aligned, that is the physical start plus the offset. */
  lemma AlignedRangeAccess(level: Level, start: nat, pStart: nat, flags: nat, a: nat)
    requires level > 0 && start <= a && start % Granule(level) == 0 && pStart % Granule(level) == 0
    requires pStart + (a - start) < 0x1_0000_0000_0000
    ensures RangeAccess(level, start, pStart, flags, a) == Access(pStart + (a - start), WithAccess(flags))
  {
    hide LeafBase, Granule, WithAccess, RoundDown, Span;
    var n := Granule(level);
    GranuleIsSpan(level);
    AlignedOffset(start, pStart, a, n);
    AlignedLeafBase(pStart + RoundDown(a - start, n), level);
  }
}
