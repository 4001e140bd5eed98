/** process_mmap.c: private mappings, which take both their data pages and the page tables for them
    from the page allocator. */
module ProcessMmap {
  import opened Bits
  import opened Mmu
  import opened PageMapping
  import opened Sequences
  import opened Translation
  import opened Vmap

  const HEAP_VIRTUAL_BASE: nat := 0x4000_0000_0000
  const HEAP_SIZE: nat := 0x4_0000_0000
  const PAGE_SIZE: nat := 0x1000

  datatype Entry = Entry(address: nat, pages: nat)

  function EndOf(e: Entry): nat {
    e.address + e.pages * PAGE_SIZE
  }

  /** The page flags of a private mapping: normal memory, inner sharable, accessible to user mode if it may
      be read or written, and read-only unless it may be written. No other bit is set. */
  function MmapFlags(read: bool, write: bool): (flags: nat)
    ensures AttributesOnly(flags) && MemoryType(flags) == 3 && Sharing(flags) == 3
    ensures (UserAccess(flags) <==> read || write) && (ReadOnly(flags) <==> read && !write)
    ensures UserExecutes(flags) && KernelExecutes(flags) && flags < 0x400 && flags % 0x40 == NORMAL_MEMORY
  {
    NORMAL_MEMORY + INNER_SHARABLE + (if write then EL0_EL1_RW else if read then EL0_EL1_RO else 0)
  }

  function PagesFor(length: nat): nat {
    if length % PAGE_SIZE != 0 then length / PAGE_SIZE + 1 else length / PAGE_SIZE
  }

  // --------------------------------------------------------------------- who holds which frame

  /** A leaf entry of a process is a page whose frame was handed out for exactly that page. */
  ghost predicate BackedLeaf(backing: map<Frame, Backing>, space: nat, leaf: Leaf, a: nat) {
    leaf.Leaf? ==>
      && leaf.level == 3 && Addr(leaf.word) in backing
      && backing[Addr(leaf.word)] == Backing(space, Selected(a, 3))
  }

  /** Every page of every process is backed by a frame of its own, and a frame is a table, backs a
      page, or is free, but never two of these. */
  ghost predicate Ledger(c: Cells, owner: Owner, pool: seq<Frame>, backing: map<Frame, Backing>, processes: set<nat>) {
    && (forall f :: f in backing ==> f !in owner && f !in pool)
    && (forall r, s, a: nat :: IsRoot(owner, r, s) && s in processes ==> BackedLeaf(backing, s, Lookup(c, r, a), a))
  }

  /** No physical frame backs two pages, or serves both as a data page and as a page table. */
  lemma NoSharing(c: Cells, owner: Owner, pool: seq<Frame>, backing: map<Frame, Backing>, processes: set<nat>,
                  r: Frame, s: nat, a: nat, r': Frame, s': nat, a': nat)
    requires Ledger(c, owner, pool, backing, processes)
    requires IsRoot(owner, r, s) && s in processes && Lookup(c, r, a).Leaf?
    requires IsRoot(owner, r', s') && s' in processes && Lookup(c, r', a').Leaf?
    ensures Addr(Lookup(c, r, a).word) !in owner && Addr(Lookup(c, r, a).word) !in pool
    ensures Addr(Lookup(c, r, a).word) == Addr(Lookup(c, r', a').word) ==> s == s' && Together(a, a', 3)
  {
    assert BackedLeaf(backing, s, Lookup(c, r, a), a);
    assert BackedLeaf(backing, s', Lookup(c, r', a'), a');
  }

  /** The root of the process is the only root of its address space. */
  ghost predicate SoleRoot(owner: Owner, root: Frame, space: nat) {
    forall r :: IsRoot(owner, r, space) ==> r == root
  }

  /** A frame leaves the pool to back one page, and that page's entry is written. */
  lemma LedgerAfterMap(c: Cells, owner: Owner, pool: seq<Frame>, backing: map<Frame, Backing>, processes: set<nat>,
                       c': Cells, owner': Owner, pool': seq<Frame>, root: Frame, root': Frame, space: nat,
                       va: nat, frame: Frame, flags: nat, ok: bool)
    requires Ledger(c, owner, pool, backing, processes) && space in processes
    requires frame !in owner && frame !in pool && frame !in backing && Addressable(frame) && AttributesOnly(flags)
    requires Grown(pool, owner, pool', owner', 4) && RootsKept(owner, owner', root', space)
    requires NULL !in owner && SoleRoot(owner, root, space)
    requires root != NULL ==> IsRoot(owner, root, space) && root' == root
    requires Mapped(ok, c, root, c', root', va, 3, LeafWord(3, frame * PAGE_SIZE, flags))
    requires OthersUnmoved(c, c', owner, space)
    ensures Ledger(c', owner', pool', backing[frame := Backing(space, Selected(va, 3))], processes)
    ensures SoleRoot(owner', root', space)
  {
    hide Lookup, LeafWord, Addr, Selected, AttributesOnly;
    MappedFrame(frame, flags);
    var backing' := backing[frame := Backing(space, Selected(va, 3))];
    forall r, s, a: nat | IsRoot(owner', r, s) && s in processes ensures BackedLeaf(backing', s, Lookup(c', r, a), a) {
      if s == space {
        assert r == root';
        if !(ok && Together(a, va, 3)) {
          if root == NULL { assert Lookup(c, root, a) == Unmapped by { NullMapsNothing(c, a); } }
          else { assert BackedLeaf(backing, s, Lookup(c, root, a), a); }
        }
      } else {
        assert BackedLeaf(backing, s, Lookup(c, r, a), a);
      }
    }
  }

  lemma NullMapsNothing(c: Cells, a: nat)
    ensures Lookup(c, NULL, a) == Unmapped
  {
  }

  // -------------------------------------------------------------------------- the free range

  /** find_free_address_space: the end of the recorded range that ends last; None when it stops the
      kernel, which it does when ranges are recorded but none ends above the base. */
  function FreeAddress(entries: seq<Entry>): (r: Option<nat>)
    ensures r.Some? ==> HEAP_VIRTUAL_BASE <= r.value && forall i :: 0 <= i < |entries| ==> EndOf(entries[i]) <= r.value
  {
    var last := LastEnd(entries, |entries|);
    if last == HEAP_VIRTUAL_BASE && entries != [] then None else Some(last)
  }

  function LastEnd(entries: seq<Entry>, n: nat): (r: nat)
    requires n <= |entries|
    ensures HEAP_VIRTUAL_BASE <= r && forall i :: 0 <= i < n ==> EndOf(entries[i]) <= r
    ensures r == HEAP_VIRTUAL_BASE || exists i :: 0 <= i < n && EndOf(entries[i]) == r
  {
    if n == 0 then HEAP_VIRTUAL_BASE
    else
      var before := LastEnd(entries, n - 1);
      if EndOf(entries[n - 1]) >= before then EndOf(entries[n - 1]) else before
  }

  /** Exactly the pages from start on were mapped anew, with the given flags, on frames of the pool. */
  ghost predicate NewPages(c: Cells, root: Frame, c': Cells, root': Frame, pool: seq<Frame>, start: nat, pages: nat,
                           flags: nat) {
    forall a: nat :: a < 0x1_0000_0000_0000 ==>
      if start <= a < start + pages * PAGE_SIZE then FreshPage(Lookup(c', root', a), pool, flags)
      else Lookup(c', root', a) == Lookup(c, root, a)
  }

  ghost predicate FreshPage(leaf: Leaf, pool: seq<Frame>, flags: nat) {
    leaf.Leaf? && Addr(leaf.word) in pool && leaf == Leaf(3, LeafWord(3, Addr(leaf.word) * PAGE_SIZE, flags))
  }

  /** To the processor: each of these pages leads to a frame of the pool with exactly the given flags and
      the access flag, and nothing else has changed. */
  ghost predicate NewAccess(c: Cells, root: Frame, c': Cells, root': Frame, pool: seq<Frame>, start: nat, pages: nat,
                            flags: nat) {
    forall a: nat :: a < 0x1_0000_0000_0000 ==>
      if start <= a < start + pages * PAGE_SIZE then LeadsToPool(Hardware(c', root', a), pool, flags, a)
      else Hardware(c', root', a) == Hardware(c, root, a)
  }

  ghost predicate LeadsToPool(h: Access, pool: seq<Frame>, flags: nat, a: nat) {
    exists f :: f in pool && h == Access(f * PAGE_SIZE + a % PAGE_SIZE, WithAccess(flags))
  }

  lemma NewPagesMean(c: Cells, owner: Owner, r: Frame, c': Cells, owner': Owner, r': Frame, space: nat,
                     pool: seq<Frame>, start: nat, pages: nat, flags: nat)
    requires Tree(c, owner) && (r != NULL ==> IsRoot(owner, r, space)) && AttributesOnly(flags)
    requires Tree(c', owner') && (r' != NULL ==> IsRoot(owner', r', space))
    requires NewPages(c, r, c', r', pool, start, pages, flags) && forall f :: f in pool ==> Addressable(f)
    ensures NewAccess(c, r, c', r', pool, start, pages, flags)
  {
    hide Tree, Lookup, Hardware, LeafWord, WithAccess, AttributesOnly, AccessOf, Addr, LeafBase, Addressable;
    forall a: nat | a < 0x1_0000_0000_0000
      ensures if start <= a < start + pages * PAGE_SIZE then LeadsToPool(Hardware(c', r', a), pool, flags, a)
              else Hardware(c', r', a) == Hardware(c, r, a)
    {
      HardwareSees(c, owner, r, space, a);
      HardwareSees(c', owner', r', space, a);
      if start <= a < start + pages * PAGE_SIZE {
        var f := Addr(Lookup(c', r', a).word);
        EntryDelivers(3, f * PAGE_SIZE, flags, a);
        FrameBase(f);
      }
    }
  }

  lemma FrameBase(frame: Frame)
    requires Addressable(frame)
    ensures LeafBase(frame * PAGE_SIZE, 3) == frame * PAGE_SIZE && Granule(3) == PAGE_SIZE
  {
    DivModUnique(frame * 0x1000, 0x1000, frame, 0);
  }

  lemma NewPagesStep(c: Cells, r: Frame, c1: Cells, r1: Frame, c2: Cells, r2: Frame, pool: seq<Frame>,
                     start: nat, i: nat, frame: Frame, flags: nat)
    requires NewPages(c, r, c1, r1, pool, start, i, flags) && frame in pool && Addressable(frame)
    requires AttributesOnly(flags)
    requires start % PAGE_SIZE == 0 && start + (i + 1) * PAGE_SIZE <= 0x1_0000_0000_0000
    requires Mapped(true, c1, r1, c2, r2, start + i * PAGE_SIZE, 3, LeafWord(3, frame * PAGE_SIZE, flags))
    ensures NewPages(c, r, c2, r2, pool, start, i + 1, flags)
  {
    hide Lookup, LeafWord, Addr, AttributesOnly, Selected;
    MappedFrame(frame, flags);
    var va := start + i * PAGE_SIZE;
    forall a: nat | a < 0x1_0000_0000_0000
      ensures if start <= a < va + PAGE_SIZE then FreshPage(Lookup(c2, r2, a), pool, flags)
              else Lookup(c2, r2, a) == Lookup(c, r, a)
    {
      TogetherIsInterval(a, va, 3);
    }
  }

  lemma NoBlocks(c: Cells, owner: Owner, pool: seq<Frame>, backing: map<Frame, Backing>, processes: set<nat>,
                 root: Frame, space: nat, va: nat)
    requires Ledger(c, owner, pool, backing, processes) && space in processes
    requires root == NULL || IsRoot(owner, root, space)
    ensures !BlockAbove(c, root, va, 3)
  {
  }

  /** The frame taken first was backing nothing, and what is left is as before. */
  lemma TakenFrame(c: Cells, owner: Owner, pool: seq<Frame>, backing: map<Frame, Backing>, processes: set<nat>)
    requires Ledger(c, owner, pool, backing, processes)
    ensures pool != [] ==> pool[0] !in backing && Ledger(c, owner, pool[1..], backing, processes)
  {
    hide Lookup, IsRoot, BackedLeaf;
    if pool != [] { assert pool[0] in pool; }
  }

  lemma GrownIsUsed(start: seq<Frame>, pool: seq<Frame>, owner: Owner, pool': seq<Frame>, owner': Owner)
    requires Grown(pool, owner, pool', owner', 4) || (pool' == pool && owner' == owner)
    requires pool == start || (start != [] && pool == start[1..])
    ensures PoolUsed(start, pool', 5) && Extends(owner, owner')
    ensures |start| >= 5 && NULL !in start ==> |pool| >= 4 && NULL !in pool[..4]
  {
  }

  lemma RootsKeptSelf(owner: Owner, root: Frame, space: nat)
    ensures RootsKept(owner, owner, root, space) && Extends(owner, owner)
  {
  }

  class Process {
    const vmap: Vmap
    var entries: seq<Entry>

    ghost predicate Valid(processes: set<nat>)
      reads this, vmap, vmap.memory
    {
      && vmap.Valid() && vmap.space in processes && SoleRoot(vmap.memory.owner, vmap.root, vmap.space)
      && Ledger(vmap.memory.cells, vmap.memory.owner, vmap.memory.pool, vmap.memory.backing, processes)
      && (forall i :: 0 <= i < |entries| ==> entries[i].address % PAGE_SIZE == 0)
    }

    /** process_init, as far as mappings go: an empty address space. */
    constructor (vmap: Vmap)
      ensures this.vmap == vmap && entries == []
    {
      this.vmap := vmap;
      entries := [];
    }

    method FindFreeAddressSpace() returns (r: Option<nat>)
      ensures r == FreeAddress(entries)
    {
      var free, n := HEAP_VIRTUAL_BASE, 0;
      while n < |entries|
        invariant 0 <= n <= |entries| && free == LastEnd(entries, n)
      {
        var end := entries[n].address + entries[n].pages * PAGE_SIZE;
        if end >= free { free := end; }
        n := n + 1;
      }
      if free == HEAP_VIRTUAL_BASE && entries != [] { return None; }
      return Some(free);
    }

    /** One pass of the mapping loop: a frame for the page, and its entry. */
    method MapFreshPage(va: nat, flags: nat, ghost processes: set<nat>) returns (ok: bool, ghost frame: Frame)
      requires Valid(processes) && AttributesOnly(flags)
      modifies vmap`root, vmap.memory`cells, vmap.memory`pool, vmap.memory`owner, vmap.memory`backing
      ensures Valid(processes)
      ensures ok ==> frame in old(vmap.memory.pool) && Addressable(frame)
      ensures ok ==> Mapped(true, old(vmap.memory.cells), old(vmap.root), vmap.memory.cells, vmap.root, va, 3,
                            LeafWord(3, frame * PAGE_SIZE, flags))
      ensures OthersUnmoved(old(vmap.memory.cells), vmap.memory.cells, old(vmap.memory.owner), vmap.space)
      ensures PoolUsed(old(vmap.memory.pool), vmap.memory.pool, 5)
      ensures |old(vmap.memory.pool)| >= 5 && NULL !in old(vmap.memory.pool) ==> ok
      ensures Extends(old(vmap.memory.owner), vmap.memory.owner)
      ensures RootsKept(old(vmap.memory.owner), vmap.memory.owner, vmap.root, vmap.space)
      ensures old(vmap.root) != NULL ==> vmap.root == old(vmap.root)
    {
      hide Tree, Lookup, AttributesOnly, LeafWord, Mapped, OthersUnmoved, BlockAbove, Selected, SoleRoot, MapAsWritten,
           Ledger, RootsKept, PoolReady, Grown, PoolUsed, Extends, Means;
      var memory := vmap.memory;
      ghost var c, owner, root, backing, start := memory.cells, memory.owner, vmap.root, memory.backing, memory.pool;
      GrownSelf(start, owner, 5);
      GrownIsUsed(start, start, owner, start, owner);
      RootsKeptSelf(owner, root, vmap.space);
      TakenFrame(c, owner, start, backing, processes);
      var page := memory.TakePage();
      OthersSelf(c, owner, vmap.space);
      if page == None { return false, 0; }
      frame := page.value;
      TreeHasNoNull(c, owner);
      NoBlocks(c, owner, memory.pool, backing, processes, root, vmap.space, va);
      ghost var pool := memory.pool;
      ok := vmap.MapPage(page.value * PAGE_SIZE, va, flags);
      GrownIsUsed(start, pool, owner, memory.pool, memory.owner);
      LedgerAfterMap(c, owner, pool, backing, processes, memory.cells, memory.owner, memory.pool, root, vmap.root,
                     vmap.space, va, frame, flags, ok);
      memory.backing := backing[frame := Backing(vmap.space, Selected(va, 3))];
    }

    /** process_mmap, private mapping. Address 0 asks for a free range. None when an assert stops the
        kernel: the range does not fit the heap, or frames have run out. */
    method Mmap(requested: nat, length: nat, read: bool, write: bool, ghost processes: set<nat>)
      returns (result: Option<nat>)
      requires Valid(processes)
      modifies this`entries, vmap`root, vmap.memory`cells, vmap.memory`pool, vmap.memory`owner, vmap.memory`backing
      ensures result.Some? ==> Valid(processes)
      ensures result.Some? ==> entries == old(entries) + [Entry(result.value, PagesFor(length))]
      ensures result.Some? ==>
                Fits(old(entries), requested, length) && (requested == 0 ==> FreeAddress(old(entries)).Some?)
      ensures result.Some? ==> result.value == if requested == 0 then GetOr(FreeAddress(old(entries)), 0) else requested
      ensures result.Some? ==> NewPages(old(vmap.memory.cells), old(vmap.root), vmap.memory.cells, vmap.root,
                                        old(vmap.memory.pool), result.value, PagesFor(length), MmapFlags(read, write))
      ensures result.Some? ==> NewAccess(old(vmap.memory.cells), old(vmap.root), vmap.memory.cells, vmap.root,
                                         old(vmap.memory.pool), result.value, PagesFor(length), MmapFlags(read, write))
      ensures OthersUnmoved(old(vmap.memory.cells), vmap.memory.cells, old(vmap.memory.owner), vmap.space)
      ensures RootsKept(old(vmap.memory.owner), vmap.memory.owner, vmap.root, vmap.space)
      ensures Extends(old(vmap.memory.owner), vmap.memory.owner)
      ensures result.Some? ==> PoolUsed(old(vmap.memory.pool), vmap.memory.pool, 5 * PagesFor(length))
      ensures Fits(old(entries), requested, length) && Enough(old(vmap.memory.pool), 5 * PagesFor(length)) ==>
                result.Some?
    {
      hide Tree, Lookup, AttributesOnly, OthersUnmoved, BlockAbove, SoleRoot, Ledger, Extends, RootsKept, NewPages,
           Mapped, MmapFlags, LeafWord, NewAccess;
      var memory := vmap.memory;
      ghost var c, r, owner, pool := memory.cells, vmap.root, memory.owner, memory.pool;
      NothingYet(c, r, owner, vmap.space, pool, requested, MmapFlags(read, write));
      if requested % PAGE_SIZE != 0 { return None; }
      var address := requested;
      if requested == 0 {
        var free := FindFreeAddressSpace();
        if free == None { return None; }
        address := free.value;
        FreeAddressAligned(entries);
      }
      if address < HEAP_VIRTUAL_BASE { return None; }
      if address + length > HEAP_VIRTUAL_BASE + HEAP_SIZE { return None; }
      var pages := PagesFor(length);
      var flags := MmapFlags(read, write);
      NothingYet(c, r, owner, vmap.space, pool, address, flags);
      for i := 0 to pages
        invariant Valid(processes) && entries == old(entries)
        invariant NewPages(c, r, memory.cells, vmap.root, pool, address, i, flags)
        invariant PoolUsed(pool, memory.pool, 5 * i)
        invariant OthersUnmoved(c, memory.cells, owner, vmap.space)
        invariant RootsKept(owner, memory.owner, vmap.root, vmap.space) && (r != NULL ==> vmap.root == r)
        invariant Extends(owner, memory.owner)
      {
        ghost var c1, r1, owner1 := memory.cells, vmap.root, memory.owner;
        var ok; ghost var frame;
        ok, frame := MapFreshPage(address + i * PAGE_SIZE, flags, processes);
        OthersTwice(c, c1, memory.cells, owner, owner1, vmap.space);
        TreeHasNoNull(c1, owner1);
        GrowTwice(owner, owner1, memory.owner, r1, vmap.root, vmap.space);
        if !ok { return None; }
        NewPagesStep(c, r, c1, r1, memory.cells, vmap.root, pool, address, i, frame, flags);
      }
      NewPagesMean(c, owner, r, memory.cells, memory.owner, vmap.root, vmap.space, pool, address, pages, flags);
      entries := entries + [Entry(address, pages)];
      return Some(address);
    }
  }

  /** Frames for a number of pages and for the tables over them, none of them frame 0. */
  ghost predicate Enough(pool: seq<Frame>, n: nat) {
    |pool| >= n && NULL !in pool
  }

  /** The address of a mapping and whether it passes the asserts before any page is mapped. */
  predicate Fits(entries: seq<Entry>, requested: nat, length: nat) {
    var address := if requested == 0 then GetOr(FreeAddress(entries), 0) else requested;
    requested % PAGE_SIZE == 0 && HEAP_VIRTUAL_BASE <= address && address + length <= HEAP_VIRTUAL_BASE + HEAP_SIZE
  }

  predicate InHeap(a: nat) {
    HEAP_VIRTUAL_BASE <= a < HEAP_VIRTUAL_BASE + HEAP_SIZE
  }

  ghost predicate AllInHeap(a: nat, length: nat) {
    forall x: nat :: a <= x < a + length ==> InHeap(x)
  }

  /** A request passes these asserts if and only if its address, or the free one when it names none, is on a
      page and every byte from there lies in the process's heap. */
  lemma FitsExactly(entries: seq<Entry>, requested: nat, length: nat)
    requires length > 0
    ensures requested != 0 ==>
              (Fits(entries, requested, length) <==> requested % PAGE_SIZE == 0 && AllInHeap(requested, length))
    ensures requested == 0 ==>
              (Fits(entries, 0, length) <==>
                 FreeAddress(entries).Some? && AllInHeap(FreeAddress(entries).value, length))
  {
    hide LastEnd;
    if requested != 0 {
      InHeapExactly(requested, length);
    } else if FreeAddress(entries).Some? {
      InHeapExactly(FreeAddress(entries).value, length);
    }
  }

  lemma InHeapExactly(a: nat, length: nat)
    requires length > 0
    ensures AllInHeap(a, length) <==> HEAP_VIRTUAL_BASE <= a && a + length <= HEAP_VIRTUAL_BASE + HEAP_SIZE
  {
    if AllInHeap(a, length) { assert InHeap(a) && InHeap(a + length - 1); }
  }

  lemma {:induction false} LastEndAligned(entries: seq<Entry>, n: nat)
    requires n <= |entries| && forall i :: 0 <= i < |entries| ==> entries[i].address % PAGE_SIZE == 0
    ensures LastEnd(entries, n) % PAGE_SIZE == 0
  {
    hide EndOf;
    if n > 0 {
      LastEndAligned(entries, n - 1);
      EndAligned(entries[n - 1]);
    }
  }

  lemma EndAligned(e: Entry)
    requires e.address % PAGE_SIZE == 0
    ensures EndOf(e) % PAGE_SIZE == 0
  {
    assert EndOf(e) == (e.address / PAGE_SIZE + e.pages) * PAGE_SIZE;
  }

  lemma FreeAddressAligned(entries: seq<Entry>)
    requires forall i :: 0 <= i < |entries| ==> entries[i].address % PAGE_SIZE == 0
    ensures FreeAddress(entries).Some? ==> FreeAddress(entries).value % PAGE_SIZE == 0
  {
    LastEndAligned(entries, |entries|);
  }

  lemma NothingYet(c: Cells, r: Frame, owner: Owner, space: nat, pool: seq<Frame>, start: nat, flags: nat)
    ensures NewPages(c, r, c, r, pool, start, 0, flags) && OthersUnmoved(c, c, owner, space)
    ensures Extends(owner, owner) && forall root :: RootsKept(owner, owner, root, space)
  {
  }

  lemma GrowTwice(o0: Owner, o1: Owner, o2: Owner, r1: Frame, r2: Frame, space: nat)
    requires Extends(o0, o1) && Extends(o1, o2)
    requires RootsKept(o0, o1, r1, space) && RootsKept(o1, o2, r2, space) && (r1 != NULL ==> r2 == r1) && NULL !in o1
    ensures Extends(o0, o2) && RootsKept(o0, o2, r2, space)
  {
  }

  /** At most n pages were taken from the front of the pool. */
  ghost predicate PoolUsed(pool: seq<Frame>, pool': seq<Frame>, n: nat) {
    |pool| - n <= |pool'| <= |pool| && forall f :: f in pool' ==> f in pool
  }

  lemma OthersSelf(c: Cells, owner: Owner, space: nat)
    ensures OthersUnmoved(c, c, owner, space)
  {
  }

  // ------------------------------------------------------------------------------------ runs

  lemma PagesCover(length: nat)
    ensures length <= PagesFor(length) * PAGE_SIZE < length + PAGE_SIZE
  {
  }

  /** Every range recorded from position n on begins no earlier than all recorded before it end. */
  ghost predicate RangesAfter(es: seq<Entry>, n: nat) {
    forall i, j :: 0 <= i < j < |es| && n <= j ==> EndOf(es[i]) <= es[j].address
  }

  /** A range at the free address lies beyond all others. */
  lemma RangeAfter(es: seq<Entry>, n: nat, e: Entry)
    requires RangesAfter(es, n) && FreeAddress(es) == Some(e.address)
    ensures RangesAfter(es + [e], n)
  {
  }

  lemma AfterTwice(a: seq<Entry>, b: seq<Entry>, n: nat)
    requires n <= |a| && a <= b && RangesAfter(a, n) && RangesAfter(b, |a|)
    ensures RangesAfter(b, n)
  {
    forall i, j | 0 <= i < j < |b| && n <= j ensures EndOf(b[i]) <= b[j].address {
      if j < |a| { assert a[i] == b[i] && a[j] == b[j]; }
    }
  }

  /** After a mapping of non-zero length at the free address there is a free address again: its end. */
  lemma FreeAfterRange(es: seq<Entry>, e: Entry)
    requires FreeAddress(es) == Some(e.address) && e.pages > 0
    ensures FreeAddress(es + [e]) == Some(e.address + e.pages * PAGE_SIZE) && LastEnd(es + [e], |es| + 1) == EndOf(e)
    ensures LastEnd(es, |es|) == e.address
  {
    LastEndPrefix(es, es + [e], |es|);
    assert (es + [e])[|es|] == e;
  }

  lemma {:induction false} LastEndPrefix(a: seq<Entry>, b: seq<Entry>, n: nat)
    requires n <= |a| && a <= b
    ensures LastEnd(a, n) == LastEnd(b, n)
  {
    if n > 0 { LastEndPrefix(a, b, n - 1); }
  }

  /** find_free_address_space stops the kernel exactly when ranges are recorded and none of them
      reaches beyond the base: after a mapping of length 0, for one. */
  lemma FreeAddressExactly(entries: seq<Entry>)
    ensures FreeAddress(entries).None? <==>
            entries != [] && forall i :: 0 <= i < |entries| ==> EndOf(entries[i]) <= HEAP_VIRTUAL_BASE
  {
  }

  datatype Call = Call(process: nat, length: nat, read: bool, write: bool)

  /** Distinct processes over one physical memory. */
  ghost predicate AllValid(ps: seq<Process>, memory: PhysicalMemory, processes: set<nat>)
    reads ps, set i | 0 <= i < |ps| :: ps[i].vmap, memory
  {
    && (forall i :: 0 <= i < |ps| ==> ps[i].vmap.memory == memory)
    && (forall i :: 0 <= i < |ps| ==> ps[i].Valid(processes))
    && (forall i, j :: 0 <= i < j < |ps| ==>
          ps[i] != ps[j] && ps[i].vmap != ps[j].vmap && ps[i].vmap.space != ps[j].vmap.space)
  }

  /** address_space_init for so many processes: each has an address space of its own, without tables. */
  method StartProcesses(memory: PhysicalMemory, count: nat, ghost processes: set<nat>) returns (ps: seq<Process>)
    requires memory.Valid() && memory.backing == map[] && forall n: nat :: n < count ==> n in processes
    requires forall r, s: nat :: IsRoot(memory.owner, r, s) ==> s !in processes
    ensures |ps| == count && AllValid(ps, memory, processes)
    ensures forall i :: 0 <= i < |ps| ==>
              fresh(ps[i]) && fresh(ps[i].vmap) && ps[i].entries == [] && ps[i].vmap.root == NULL
  {
    hide Tree, PoolReady, Lookup;
    ps := [];
    for n := 0 to count
      invariant |ps| == n && forall i :: 0 <= i < n ==> ps[i].vmap.memory == memory && ps[i].vmap.space == i
      invariant forall i :: 0 <= i < n ==>
                  fresh(ps[i]) && fresh(ps[i].vmap) && ps[i].entries == [] && ps[i].vmap.root == NULL
      invariant forall i :: 0 <= i < n ==> ps[i].Valid(processes)
      invariant forall i, j :: 0 <= i < j < n ==> ps[i] != ps[j] && ps[i].vmap != ps[j].vmap
    {
      var vmap := new Vmap(memory, n);
      var process := new Process(vmap);
      ps := ps + [process];
    }
  }

  /** A process has kept its ranges and added others beyond them, and below its last recorded range it
      maps what root r mapped in c. */
  ghost predicate Kept(p: Process, c: Cells, r: Frame, entries: seq<Entry>)
    reads p, p.vmap, p.vmap.memory
  {
    Extended(c, r, entries, p.vmap.memory.cells, p.vmap.root, p.entries)
  }

  ghost predicate Extended(c: Cells, r: Frame, es: seq<Entry>, c': Cells, r': Frame, es': seq<Entry>) {
    && es <= es' && RangesAfter(es', |es|) && LastEnd(es, |es|) <= LastEnd(es', |es'|)
    && (forall a: nat :: a < LastEnd(es, |es|) && a < 0x1_0000_0000_0000 ==> Lookup(c', r', a) == Lookup(c, r, a))
  }

  lemma ExtendedTwice(c0: Cells, r0: Frame, es0: seq<Entry>, c1: Cells, r1: Frame, es1: seq<Entry>,
                      c2: Cells, r2: Frame, es2: seq<Entry>)
    requires Extended(c0, r0, es0, c1, r1, es1) && Extended(c1, r1, es1, c2, r2, es2)
    ensures Extended(c0, r0, es0, c2, r2, es2)
  {
    hide Lookup, LastEnd;
    AfterTwice(es1, es2, |es0|);
  }

  /** The pages that the calls from the k-th on ask for, of one process and of all. */
  function PagesLeft(calls: seq<Call>, k: nat, n: nat): nat
    requires k <= |calls|
    decreases |calls| - k
  {
    if k == |calls| then 0
    else PagesLeft(calls, k + 1, n) + if calls[k].process == n then PagesFor(calls[k].length) else 0
  }

  function AllPagesLeft(calls: seq<Call>, k: nat): nat
    requires k <= |calls|
    decreases |calls| - k
  {
    if k == |calls| then 0 else AllPagesLeft(calls, k + 1) + PagesFor(calls[k].length)
  }

  /** The process has room in its heap for so many pages more. */
  ghost predicate HasRoom(entries: seq<Entry>, pages: nat) {
    FreeAddress(entries).Some? && LastEnd(entries, |entries|) + pages * PAGE_SIZE <= HEAP_VIRTUAL_BASE + HEAP_SIZE
  }

  /** There is what the calls from the k-th on ask for. */
  ghost predicate Suffices(ps: seq<Process>, memory: PhysicalMemory, calls: seq<Call>, k: nat)
    requires k <= |calls|
    reads ps, memory
  {
    && (forall j :: 0 <= j < |calls| ==> calls[j].length > 0)
    && (forall i :: 0 <= i < |ps| ==> HasRoom(ps[i].entries, PagesLeft(calls, k, i)))
    && Enough(memory.pool, 5 * AllPagesLeft(calls, k))
  }

  /** Any sequence of mapping calls with address 0, on any processes: each new range lies beyond all
      ranges recorded for its process before, no page below the end of a process's ranges is ever
      moved, and every frame keeps a single use. With non-zero lengths, room in the heaps and frames
      enough, no call stops the kernel. */
  method RunCalls(ps: seq<Process>, memory: PhysicalMemory, calls: seq<Call>, ghost processes: set<nat>)
    returns (halted: bool)
    requires AllValid(ps, memory, processes)
    requires forall k :: 0 <= k < |calls| ==> calls[k].process < |ps|
    modifies ps, set i | 0 <= i < |ps| :: ps[i].vmap, memory
    ensures !halted ==> AllValid(ps, memory, processes)
    ensures !halted ==>
              forall i :: 0 <= i < |ps| ==> Kept(ps[i], old(memory.cells), old(ps[i].vmap.root), old(ps[i].entries))
    ensures old(Suffices(ps, memory, calls, 0)) ==> !halted
  {
    hide Suffices, AllValid, Extended;
    var k := 0;
    NothingRun(ps, memory, processes);
    while k < |calls|
      invariant 0 <= k <= |calls| && AllValid(ps, memory, processes)
      invariant forall i :: 0 <= i < |ps| ==> Kept(ps[i], old(memory.cells), old(ps[i].vmap.root), old(ps[i].entries))
      invariant forall i :: 0 <= i < |ps| ==> ps[i].vmap.memory == memory
      invariant old(Suffices(ps, memory, calls, 0)) ==> Suffices(ps, memory, calls, k)
    {
      ghost var c := memory.cells;
      label Before:
      halted := NextCall(ps, memory, calls, k, processes);
      if halted { return; }
      forall i | 0 <= i < |ps| ensures Kept(ps[i], old(memory.cells), old(ps[i].vmap.root), old(ps[i].entries)) {
        assert Kept(ps[i], c, old@Before(ps[i].vmap.root), old@Before(ps[i].entries));
        ExtendedTwice(old(memory.cells), old(ps[i].vmap.root), old(ps[i].entries),
                      c, old@Before(ps[i].vmap.root), old@Before(ps[i].entries),
                      memory.cells, ps[i].vmap.root, ps[i].entries);
      }
      k := k + 1;
    }
    return false;
  }

  lemma NothingRun(ps: seq<Process>, memory: PhysicalMemory, processes: set<nat>)
    requires AllValid(ps, memory, processes)
    ensures forall i :: 0 <= i < |ps| ==> Kept(ps[i], memory.cells, ps[i].vmap.root, ps[i].entries)
    ensures forall i :: 0 <= i < |ps| ==> ps[i].vmap.memory == memory
  {
    hide LastEnd;
  }

  /** One call, and what it leaves for the calls after it. */
  method NextCall(ps: seq<Process>, memory: PhysicalMemory, calls: seq<Call>, k: nat, ghost processes: set<nat>)
    returns (halted: bool)
    requires AllValid(ps, memory, processes) && k < |calls| && calls[k].process < |ps|
    modifies ps, set i | 0 <= i < |ps| :: ps[i].vmap, memory
    ensures !halted ==> AllValid(ps, memory, processes)
    ensures !halted ==>
              forall i :: 0 <= i < |ps| ==> Kept(ps[i], old(memory.cells), old(ps[i].vmap.root), old(ps[i].entries))
    ensures old(Suffices(ps, memory, calls, k)) ==> !halted && Suffices(ps, memory, calls, k + 1)
  {
    hide AllValid, Kept, Enough, HasRoom, PagesLeft, AllPagesLeft, PagesFor, FreeAddress, Fits, PoolUsed;
    ghost var e;
    ghost var pool := memory.pool;
    var n := calls[k].process;
    if Suffices(ps, memory, calls, k) { CallFits(ps[n].entries, pool, calls, k); }
    halted, e := OneCall(ps, memory, n, calls[k].length, calls[k].read, calls[k].write, processes);
    if old(Suffices(ps, memory, calls, k)) {
      forall i | 0 <= i < |ps| ensures HasRoom(ps[i].entries, PagesLeft(calls, k + 1, i)) {
        RoomAfterCall(old(ps[i].entries), ps[i].entries, calls, k, i, e);
      }
      FramesAfterCall(pool, memory.pool, calls, k);
    }
  }

  method OneCall(ps: seq<Process>, memory: PhysicalMemory, n: nat, length: nat, read: bool, write: bool,
                 ghost processes: set<nat>)
    returns (halted: bool, ghost e: Entry)
    requires AllValid(ps, memory, processes) && n < |ps|
    modifies ps, set i | 0 <= i < |ps| :: ps[i].vmap, memory
    ensures !halted ==> AllValid(ps, memory, processes)
    ensures !halted ==>
              forall i :: 0 <= i < |ps| ==> Kept(ps[i], old(memory.cells), old(ps[i].vmap.root), old(ps[i].entries))
    ensures !halted ==> FreeAddress(old(ps[n].entries)) == Some(e.address) && e.pages == PagesFor(length)
    ensures !halted ==> forall i :: 0 <= i < |ps| ==>
              ps[i].entries == if i == n then old(ps[n].entries) + [e] else old(ps[i].entries)
    ensures !halted ==> PoolUsed(old(memory.pool), memory.pool, 5 * PagesFor(length))
    ensures Fits(old(ps[n].entries), 0, length) && Enough(old(memory.pool), 5 * PagesFor(length)) ==> !halted
  {
    hide Tree, Lookup, Ledger, SoleRoot, NewPages, MmapFlags, OthersUnmoved, Extends, RootsKept, IsRoot, LastEnd, Fits,
         Enough, FreeAddress, PoolUsed, PagesFor;
    var p := ps[n];
    ghost var c, owner, r := memory.cells, memory.owner, p.vmap.root;
    label Before:
    var result := p.Mmap(0, length, read, write, processes);
    if result == None { return true, Entry(0, 0); }
    LastEndGrows(old(p.entries), p.entries);
    e := Entry(result.value, PagesFor(length));
    FreeValue(old(p.entries), result.value);
    RangeAfter(old(p.entries), |old(p.entries)|, e);
    BelowUnchanged(c, r, memory.cells, p.vmap.root, old(memory.pool), old(p.entries), result.value, PagesFor(length),
                   MmapFlags(read, write));
    forall i | 0 <= i < |ps| && i != n
      ensures ps[i].Valid(processes) && Kept(ps[i], c, old(ps[i].vmap.root), old(ps[i].entries))
    {
      OthersStayValid(c, memory.cells, owner, memory.owner, p.vmap.root, p.vmap.space, ps[i].vmap.root,
                      ps[i].vmap.space);
      LastEndGrows(ps[i].entries, ps[i].entries);
    }
    return false, e;
  }

  /** A call for which there is room and frames does not stop the kernel. */
  lemma CallFits(entries: seq<Entry>, pool: seq<Frame>, calls: seq<Call>, k: nat)
    requires k < |calls| && calls[k].length > 0
    requires HasRoom(entries, PagesLeft(calls, k, calls[k].process))
    requires Enough(pool, 5 * AllPagesLeft(calls, k))
    ensures Fits(entries, 0, calls[k].length) && Enough(pool, 5 * PagesFor(calls[k].length))
  {
    hide PagesFor, LastEnd;
    PagesCover(calls[k].length);
  }

  lemma FreeValue(entries: seq<Entry>, value: nat)
    requires FreeAddress(entries).Some? && value == GetOr(FreeAddress(entries), 0)
    ensures FreeAddress(entries) == Some(value)
  {
  }

  lemma RoomAfterCall(before: seq<Entry>, after: seq<Entry>, calls: seq<Call>, k: nat, i: nat, e: Entry)
    requires k < |calls| && calls[k].length > 0 && e.pages == PagesFor(calls[k].length)
    requires HasRoom(before, PagesLeft(calls, k, i))
    requires if calls[k].process == i then FreeAddress(before) == Some(e.address) && after == before + [e]
             else after == before
    ensures HasRoom(after, PagesLeft(calls, k + 1, i))
  {
    hide PagesFor, LastEnd, FreeAddress;
    PagesCover(calls[k].length);
    if calls[k].process == i { FreeAfterRange(before, e); }
  }

  lemma FramesAfterCall(before: seq<Frame>, after: seq<Frame>, calls: seq<Call>, k: nat)
    requires k < |calls|
    requires Enough(before, 5 * AllPagesLeft(calls, k))
    requires PoolUsed(before, after, 5 * PagesFor(calls[k].length))
    ensures Enough(after, 5 * AllPagesLeft(calls, k + 1))
  {
    hide PagesFor;
  }

  /** A mapping at the free address leaves everything below it as it was. */
  lemma BelowUnchanged(c: Cells, r: Frame, c': Cells, r': Frame, pool: seq<Frame>, entries: seq<Entry>, start: nat,
                       pages: nat, flags: nat)
    requires NewPages(c, r, c', r', pool, start, pages, flags) && start == GetOr(FreeAddress(entries), 0)
    requires FreeAddress(entries).Some?
    ensures forall a: nat :: a < LastEnd(entries, |entries|) && a < 0x1_0000_0000_0000 ==>
              Lookup(c', r', a) == Lookup(c, r, a)
  {
  }

  lemma OthersStayValid(c: Cells, c': Cells, owner: Owner, owner': Owner, root: Frame, space: nat, r: Frame, s: nat)
    requires OthersUnmoved(c, c', owner, space) && Extends(owner, owner') && RootsKept(owner, owner', root, space)
    requires s != space && SoleRoot(owner, r, s) && (r != NULL ==> IsRoot(owner, r, s))
    ensures SoleRoot(owner', r, s) && (r != NULL ==> IsRoot(owner', r, s))
    ensures forall a: nat :: Lookup(c', r, a) == Lookup(c, r, a)
  {
  }

  lemma LastEndGrows(a: seq<Entry>, b: seq<Entry>)
    requires a <= b
    ensures LastEnd(a, |a|) <= LastEnd(b, |b|)
  {
  }
}
