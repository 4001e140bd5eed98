/** kmalloc.c: the kernel heap with its pages. Growth takes frames from the page pool and enters them in
    the kernel's address space, behind the pages the heap has. */
module KernelHeap {
  import opened Bits
  import opened BlockAllocator
  import opened BlockMapping
  import Heap
  import opened Mmu
  import opened PageMapping
  import opened Sequences
  import opened Translation
  import opened Vmap

  const PAGE: nat := 0x1000

  /** The addresses from start to end lie in window w. */
  predicate Within(w: nat, start: nat, end: nat) {
    w * 0x1_0000_0000_0000 <= start <= end <= (w + 1) * 0x1_0000_0000_0000
  }

  lemma WindowOf(w: nat, start: nat, end: nat, a: nat)
    requires Within(w, start, end) && start <= a < end
    ensures Window(a) == w
  {
  }

  /** Of the addresses in window w, exactly those of as many pages as there are frames are mapped anew,
      page by page on these frames. */
  ghost predicate MappedTo(c: Cells, r: Frame, c': Cells, r': Frame, w: nat, start: nat, frames: seq<Frame>,
                           flags: nat) {
    forall a: nat :: Window(a) == w ==>
      Lookup(c', r', a) == if start <= a < start + |frames| * PAGE then OnFrame(frames, (a - start) / PAGE, flags)
                           else Lookup(c, r, a)
  }

  function OnFrame(frames: seq<Frame>, i: nat, flags: nat): Leaf {
    if i < |frames| then Leaf(3, LeafWord(3, frames[i] * PAGE, flags)) else Unmapped
  }

  lemma MappedToStep(c: Cells, r: Frame, c1: Cells, r1: Frame, c2: Cells, r2: Frame, w: nat, start: nat,
                     frames: seq<Frame>, frame: Frame, flags: nat)
    requires MappedTo(c, r, c1, r1, w, start, frames, flags) && start % PAGE == 0
    requires Mapped(true, c1, r1, c2, r2, start + |frames| * PAGE, 3, LeafWord(3, frame * PAGE, flags))
    requires Window(start + |frames| * PAGE) == w
    ensures MappedTo(c, r, c2, r2, w, start, frames + [frame], flags)
  {
    hide Lookup, LeafWord, Window, Selected;
    var va, more := start + |frames| * PAGE, frames + [frame];
    forall a: nat | Window(a) == w
      ensures Lookup(c2, r2, a) == if start <= a < start + |more| * PAGE then OnFrame(more, (a - start) / PAGE, flags)
                                   else Lookup(c, r, a)
    {
      TogetherIsInterval(a, va, 3);
      if start <= a < va { assert more[(a - start) / PAGE] == frames[(a - start) / PAGE]; }
    }
  }

  lemma MappedToNothing(c: Cells, r: Frame, w: nat, start: nat, flags: nat)
    ensures MappedTo(c, r, c, r, w, start, [], flags)
  {
  }

  /** No page entered so far is a block, and none has become one. */
  lemma StillNoBlocks(c: Cells, r: Frame, c': Cells, r': Frame, w: nat, start: nat, frames: seq<Frame>, flags: nat,
                      a: nat)
    requires MappedTo(c, r, c', r', w, start, frames, flags) && Window(a) == w && !BlockAbove(c, r, a, 3)
    ensures !BlockAbove(c', r', a, 3)
  {
    hide Lookup, LeafWord, Window;
  }

  // ------------------------------------------------------------------------------- frames from the pool

  /** The frames came from the pool, each once, and none of them is left in it or has become a table; what
      has become one came from the pool too. */
  ghost predicate FromPool(pool0: seq<Frame>, owner0: Owner, pool: seq<Frame>, owner: Owner, frames: seq<Frame>) {
    && Distinct(frames) && Drawn(pool0, owner0, pool, owner)
    && (forall i :: 0 <= i < |frames| ==>
          frames[i] in pool0 && Addressable(frames[i]) && frames[i] !in pool && frames[i] !in owner)
  }

  lemma NoneFromPool(pool: seq<Frame>, owner: Owner)
    ensures FromPool(pool, owner, pool, owner, [])
  {
  }

  lemma OneFromPool(pool0: seq<Frame>, owner0: Owner, pool: seq<Frame>, owner: Owner, frames: seq<Frame>, frame: Frame,
                    pool': seq<Frame>, owner': Owner)
    requires FromPool(pool0, owner0, pool, owner, frames) && pool != [] && frame == pool[0]
    requires frame !in pool[1..] && frame !in owner && Addressable(frame) && Grown(pool[1..], owner, pool', owner', 4)
    ensures FromPool(pool0, owner0, pool', owner', frames + [frame]) && FromPool(pool0, owner0, pool', owner', frames)
  {
    var rest := pool[1..];
    var n := |rest| - |pool'|;
    assert forall f :: f in rest ==> f in pool;
    assert forall f :: f in pool' ==> f in rest;
    assert forall f :: f in rest[..n] ==> f in rest;
  }

  /** Five pages are enough for one more page of the heap: its frame and four tables. */
  lemma FiveSuffice(pool: seq<Frame>, pool': seq<Frame>, owner: Owner, owner': Owner, n: nat)
    requires HasPages(pool, 5 * n) && n > 0
    ensures pool != [] && HasPages(pool[1..], 4)
    ensures Grown(pool[1..], owner, pool', owner', 4) ==> HasPages(pool', 5 * (n - 1))
  {
    var rest, m := pool[1..], 5 * n - 1;
    forall i | 0 <= i < m ensures rest[i] != NULL { assert rest[i] == pool[..5 * n][i + 1]; }
    if Grown(rest, owner, pool', owner', 4) { RestOfFirst(rest, owner, pool', owner', 4, m - 4); }
  }

  // ------------------------------------------------------------------------------------- mapping pages

  /** The loop over the pages of block_allocator_init and find_or_create_free_block: a frame for each
      page, and its entry; it ends where either cannot be had. */
  method MapPages(vmap: Vmap, ghost w: nat, start: nat, pages: nat, flags: nat)
    returns (mapped: nat, ghost frames: seq<Frame>)
    requires vmap.Valid() && AttributesOnly(flags) && start % PAGE == 0 && Within(w, start, start + pages * PAGE)
    requires forall a: nat :: start <= a < start + pages * PAGE ==> !BlockAbove(vmap.memory.cells, vmap.root, a, 3)
    modifies vmap`root, vmap.memory`cells, vmap.memory`pool, vmap.memory`owner
    ensures vmap.Valid() && mapped == |frames| <= pages
    ensures MappedTo(old(vmap.memory.cells), old(vmap.root), vmap.memory.cells, vmap.root, w, start, frames, flags)
    ensures OthersUnmoved(old(vmap.memory.cells), vmap.memory.cells, old(vmap.memory.owner), vmap.space)
    ensures FromPool(old(vmap.memory.pool), old(vmap.memory.owner), vmap.memory.pool, vmap.memory.owner, frames)
    ensures HasPages(old(vmap.memory.pool), 5 * pages) ==> mapped == pages
  {
    hide Tree, Lookup, AttributesOnly, LeafWord, OthersUnmoved, BlockAbove, MapAsWritten, PoolReady, Grown, RootsKept,
         Extends, MappedTo, Mapped, Window, HasPages, FromPool, Addressable, Means;
    var memory := vmap.memory;
    ghost var c, r, owner, pool := memory.cells, vmap.root, memory.owner, memory.pool;
    mapped, frames := 0, [];
    MappedToNothing(c, r, w, start, flags);
    NoneFromPool(pool, owner);
    NothingMapped(c, r, 3, start, 0, flags, owner, vmap.space);
    while mapped < pages
      invariant vmap.Valid() && mapped == |frames| <= pages
      invariant MappedTo(c, r, memory.cells, vmap.root, w, start, frames, flags)
      invariant OthersUnmoved(c, memory.cells, owner, vmap.space)
      invariant FromPool(pool, owner, memory.pool, memory.owner, frames)
      invariant HasPages(pool, 5 * pages) ==> HasPages(memory.pool, 5 * (pages - mapped))
    {
      ghost var c1, r1, owner1, pool1 := memory.cells, vmap.root, memory.owner, memory.pool;
      var va := start + mapped * PAGE;
      WindowOf(w, start, start + pages * PAGE, va);
      StillNoBlocks(c, r, c1, r1, w, start, frames, flags, va);
      if HasPages(pool1, 5 * (pages - mapped)) { FiveSuffice(pool1, pool1, owner1, owner1, pages - mapped); }
      var page := memory.TakePage();
      if page == None { break; }
      var ok := vmap.MapPage(page.value * PAGE, va, flags);
      OneFromPool(pool, owner, pool1, owner1, frames, page.value, memory.pool, memory.owner);
      OwnersGrow(pool, owner, pool1, owner1, frames);
      OthersTwice(c, c1, memory.cells, owner, owner1, vmap.space);
      if HasPages(pool1, 5 * (pages - mapped)) {
        FiveSuffice(pool1, memory.pool, owner1, memory.owner, pages - mapped);
      }
      if !ok {
        FailedPage(c, r, c1, r1, memory.cells, vmap.root, w, start, frames, va, flags,
                   LeafWord(3, page.value * PAGE, flags));
        break;
      }
      MappedToStep(c, r, c1, r1, memory.cells, vmap.root, w, start, frames, page.value, flags);
      frames := frames + [page.value];
      mapped := mapped + 1;
    }
  }

  lemma OwnersGrow(pool0: seq<Frame>, owner0: Owner, pool: seq<Frame>, owner: Owner, frames: seq<Frame>)
    requires FromPool(pool0, owner0, pool, owner, frames)
    ensures Extends(owner0, owner)
  {
  }

  lemma FailedPage(c: Cells, r: Frame, c1: Cells, r1: Frame, c2: Cells, r2: Frame, w: nat, start: nat,
                   frames: seq<Frame>, va: nat, flags: nat, word: nat)
    requires MappedTo(c, r, c1, r1, w, start, frames, flags) && Mapped(false, c1, r1, c2, r2, va, 3, word)
    ensures MappedTo(c, r, c2, r2, w, start, frames, flags)
  {
    hide Lookup, Window, LeafWord, Selected;
  }

  // --------------------------------------------------------------------------- the heap and its frames

  /** From base to end every address is mapped with the given flags, each page on a frame of its own that is
      neither a table nor left in the pool. */
  ghost predicate Backed(c: Cells, r: Frame, owner: Owner, pool: seq<Frame>, base: nat, end: nat, flags: nat) {
    && (forall a: nat :: base <= a < end ==> BackedAt(c, r, owner, pool, a, flags))
    && forall a: nat, b: nat :: base <= a < end && base <= b < end && FrameAt(c, r, a) == FrameAt(c, r, b) ==>
         a / PAGE == b / PAGE
  }

  ghost predicate BackedAt(c: Cells, r: Frame, owner: Owner, pool: seq<Frame>, a: nat, flags: nat) {
    var f := FrameAt(c, r, a);
    Lookup(c, r, a) == Leaf(3, LeafWord(3, f * PAGE, flags)) && Addressable(f) && f !in owner && f !in pool
  }

  function FrameAt(c: Cells, r: Frame, a: nat): Frame {
    var leaf := Lookup(c, r, a);
    if leaf.Leaf? then Addr(leaf.word) else NULL
  }

  /** Two addresses of the heap never share a byte of physical memory. */
  lemma PhysicallyApart(c: Cells, r: Frame, owner: Owner, pool: seq<Frame>, base: nat, end: nat, flags: nat,
                        a: nat, b: nat)
    requires Backed(c, r, owner, pool, base, end, flags) && base <= a < end && base <= b < end && a != b
    ensures Translate(c, r, a).Some? && Translate(c, r, b).Some? && Translate(c, r, a) != Translate(c, r, b)
  {
    hide Lookup, Addr, LeafWord;
    assert BackedAt(c, r, owner, pool, a, flags) && BackedAt(c, r, owner, pool, b, flags);
    assert FrameAt(c, r, a) == FrameAt(c, r, b) ==> a / PAGE == b / PAGE;
  }

  /** To the processor every address of the heap leads to its frame, with exactly the heap's flags and the
      access flag. */
  lemma HeapMeans(c: Cells, r: Frame, owner: Owner, space: nat, pool: seq<Frame>, base: nat, end: nat, flags: nat,
                  a: nat)
    requires Backed(c, r, owner, pool, base, end, flags) && base <= a < end && AttributesOnly(flags)
    requires Tree(c, owner) && (r != NULL ==> IsRoot(owner, r, space))
    ensures Hardware(c, r, a) == Access(FrameAt(c, r, a) * PAGE + a % PAGE, WithAccess(flags))
  {
    hide Lookup, Addr, LeafWord, AttributesOnly, Tree, Hardware, AccessOf, WithAccess, LeafBase, Addressable, Granule,
         FrameAt;
    var f := FrameAt(c, r, a);
    assert BackedAt(c, r, owner, pool, a, flags);
    HardwareSees(c, owner, r, space, a);
    EntryDelivers(3, f * PAGE, flags, a);
    PageBase(f);
  }

  lemma PageBase(frame: Frame)
    requires Addressable(frame)
    ensures LeafBase(frame * PAGE, 3) == frame * PAGE && Granule(3) == PAGE
  {
    DivModUnique(frame * 0x1000, 0x1000, frame, 0);
  }

  lemma OldFrame(c: Cells, r: Frame, c': Cells, r': Frame, w: nat, base: nat, end: nat, frames: seq<Frame>, flags: nat,
                 a: nat)
    requires MappedTo(c, r, c', r', w, end, frames, flags) && Within(w, base, end) && base <= a < end
    ensures Lookup(c', r', a) == Lookup(c, r, a)
  {
    hide Lookup, Window;
    WindowOf(w, base, end, a);
  }

  lemma NewFrame(c: Cells, r: Frame, c': Cells, r': Frame, w: nat, end: nat, frames: seq<Frame>, flags: nat, a: nat)
    requires MappedTo(c, r, c', r', w, end, frames, flags) && Within(w, end, end + |frames| * PAGE)
    requires AttributesOnly(flags)
    requires end <= a < end + |frames| * PAGE && forall i :: 0 <= i < |frames| ==> Addressable(frames[i])
    ensures (a - end) / PAGE < |frames| && FrameAt(c', r', a) == frames[(a - end) / PAGE]
    ensures Lookup(c', r', a) == Leaf(3, LeafWord(3, frames[(a - end) / PAGE] * PAGE, flags))
  {
    hide Lookup, Window, LeafWord, Addr, AttributesOnly;
    WindowOf(w, end, end + |frames| * PAGE, a);
    MappedFrame(frames[(a - end) / PAGE], flags);
  }

  /** Pages mapped behind the heap join it, and those it had stay as they were. */
  lemma BackedGrows(c: Cells, r: Frame, owner: Owner, pool: seq<Frame>, w: nat, base: nat, end: nat, c': Cells,
                    r': Frame, owner': Owner, pool': seq<Frame>, frames: seq<Frame>, flags: nat)
    requires Backed(c, r, owner, pool, base, end, flags) && FromPool(pool, owner, pool', owner', frames)
    requires AttributesOnly(flags)
    requires MappedTo(c, r, c', r', w, end, frames, flags) && base <= end && end % PAGE == 0
    requires Within(w, base, end + |frames| * PAGE)
    ensures Backed(c', r', owner', pool', base, end + |frames| * PAGE, flags)
    ensures forall a: nat :: base <= a < end ==> Lookup(c', r', a) == Lookup(c, r, a)
  {
    hide Lookup, Addr, MappedTo, AttributesOnly, LeafWord, Addressable;
    var last := end + |frames| * PAGE;
    forall a: nat | base <= a < last
      ensures BackedAt(c', r', owner', pool', a, flags)
      ensures a < end ==> Lookup(c', r', a) == Lookup(c, r, a) && FrameAt(c, r, a) !in pool
      ensures a >= end ==> (a - end) / PAGE < |frames| && FrameAt(c', r', a) == frames[(a - end) / PAGE]
      ensures a >= end ==> FrameAt(c', r', a) in pool
    {
      if a < end {
        assert BackedAt(c, r, owner, pool, a, flags);
        OldFrame(c, r, c', r', w, base, end, frames, flags, a);
      } else {
        NewFrame(c, r, c', r', w, end, frames, flags, a);
      }
    }
    forall a: nat, b: nat | base <= a < last && base <= b < last && FrameAt(c', r', a) == FrameAt(c', r', b)
      ensures a / PAGE == b / PAGE
    {
      if a >= end && b >= end { SamePage(end, a, b); }
    }
  }

  lemma SamePage(end: nat, a: nat, b: nat)
    requires end % PAGE == 0 && end <= a && end <= b && (a - end) / PAGE == (b - end) / PAGE
    ensures a / PAGE == b / PAGE
  {
  }

  /** No address of the heap is mapped otherwise than before. */
  ghost predicate HeapUnmoved(c: Cells, r: Frame, c': Cells, r': Frame, base: nat, end: nat) {
    forall a: nat :: base <= a < end ==> Lookup(c', r', a) == Lookup(c, r, a)
  }

  lemma NothingMoved(c: Cells, r: Frame, base: nat, end: nat, owner: Owner, space: nat)
    ensures HeapUnmoved(c, r, c, r, base, end) && OthersUnmoved(c, c, owner, space)
  {
  }

  lemma EndOnPage(base: nat, end: nat)
    requires base % PAGE == 0 && base <= end && (end - base) % PAGE == 0
    ensures end % PAGE == 0
  {
  }

  lemma BackedUpTo(c: Cells, r: Frame, owner: Owner, pool: seq<Frame>, base: nat, end: nat, flags: nat,
                   to: nat)
    requires Backed(c, r, owner, pool, base, end, flags) && to <= end
    ensures Backed(c, r, owner, pool, base, to, flags)
  {
    hide BackedAt, FrameAt;
  }

  lemma ReleaseEnd(s: Heap.State, i: nat)
    ensures i < |s.blocks| ==> Heap.Release(s, i).end == s.end
  {
  }

  /** Where the heap ends after an allocation: where it did, or behind the pages of its growth. Whether
      pages could be had matters only to growth. */
  lemma AllocateEnd(s: Heap.State, size: nat, available: nat, granted: bool)
    requires granted <==> Heap.FirstFit(s.blocks, s.free, size).Some? || Heap.GrowthPages(size) <= available
    ensures var (t, p) := Heap.Allocate(s, size, granted);
      && Heap.Allocate(s, size, Heap.GrowthPages(size) <= available) == (t, p)
      && s.end <= t.end <= s.end + Heap.GrowthPages(size) * PAGE
      && t.end <= if Heap.FirstFit(s.blocks, s.free, size) == None then s.end + available * PAGE else s.end
  {
  }

  // ---------------------------------------------------------------------------------------- in place

  class MappedHeap {
    const heap: BlockAllocator
    const vmap: Vmap
    const flags: nat

    /** The window of the heap's addresses. */
    ghost const w: nat

    /** No block covers an address at or above the heap's base. */
    ghost predicate BlockFree()
      reads vmap, vmap.memory
    {
      forall a: nat :: Window(a) == w && heap.virtualBase <= a ==> !BlockAbove(vmap.memory.cells, vmap.root, a, 3)
    }

    ghost predicate Valid()
      reads heap, vmap, vmap.memory
    {
      && heap.Valid() && vmap.Valid() && AttributesOnly(flags) && BlockFree()
      && heap.virtualBase % PAGE == 0 && Within(w, heap.virtualBase, heap.end)
      && Backed(vmap.memory.cells, vmap.root, vmap.memory.owner, vmap.memory.pool, heap.virtualBase, heap.end, flags)
    }

    constructor (heap: BlockAllocator, vmap: Vmap, flags: nat, ghost w: nat)
      ensures this.heap == heap && this.vmap == vmap && this.flags == flags && this.w == w
    {
      this.heap, this.vmap, this.flags, this.w := heap, vmap, flags, w;
    }

    /** The mapping part of growth: pages behind the last block, as many as can be had. */
    method MapBehind(pages: nat) returns (available: nat)
      requires Valid() && Within(w, heap.virtualBase, heap.end + pages * PAGE)
      modifies vmap`root, vmap.memory`cells, vmap.memory`pool, vmap.memory`owner
      ensures vmap.Valid() && BlockFree() && available <= pages
      ensures Backed(vmap.memory.cells, vmap.root, vmap.memory.owner, vmap.memory.pool, heap.virtualBase,
                     heap.end + available * PAGE, flags)
      ensures HasPages(old(vmap.memory.pool), 5 * pages) ==> available == pages
      ensures HeapUnmoved(old(vmap.memory.cells), old(vmap.root), vmap.memory.cells, vmap.root, heap.virtualBase,
                          heap.end)
      ensures OthersUnmoved(old(vmap.memory.cells), vmap.memory.cells, old(vmap.memory.owner), vmap.space)
    {
      hide Tree, Lookup, AttributesOnly, PoolReady, OthersUnmoved, BlockAbove, Window, MappedTo, FromPool, Backed,
           HasPages, BlockChain, FreeChain, Described, Heap.ListsFree, Heap.Tiled, Heap.NoFreeNeighbours, RegionMapped,
           AddressesOf;
      ghost var c, r, owner, pool := vmap.memory.cells, vmap.root, vmap.memory.owner, vmap.memory.pool;
      HeapIsSound();
      var last := heap.GetLastBlockHeader();
      LastHeader(heap.headers, heap.virtualBase, heap.blockListHead, heap.blocks, heap.end);
      var end := heap.virtualBase + heap.headers[last].offset + heap.headers[last].size;
      EndOnPage(heap.virtualBase, end);
      forall a: nat | end <= a < end + pages * PAGE ensures !BlockAbove(c, r, a, 3) {
        WindowOf(w, heap.virtualBase, end + pages * PAGE, a);
      }
      ghost var frames;
      available, frames := MapPages(vmap, w, end, pages, flags);
      forall a: nat | Window(a) == w && heap.virtualBase <= a ensures !BlockAbove(vmap.memory.cells, vmap.root, a, 3) {
        StillNoBlocks(c, r, vmap.memory.cells, vmap.root, w, end, frames, flags, a);
      }
      BackedGrows(c, r, owner, pool, w, heap.virtualBase, end, vmap.memory.cells, vmap.root, vmap.memory.owner,
                  vmap.memory.pool, frames, flags);
    }

    /** kmalloc. When the heap has to grow and pages run out, granted is false and the heap is as it
        was; five pages for each page of the growth are enough. No address of the heap is moved. */
    method Kmalloc(size: nat) returns (address: nat, ghost granted: bool)
      requires Valid() && size + Heap.HEADER < Heap.WORD
      requires Within(w, heap.virtualBase, heap.end + Heap.GrowthPages(size) * PAGE)
      modifies heap, vmap`root, vmap.memory`cells, vmap.memory`pool, vmap.memory`owner
      ensures Valid()
      ensures var (t, p) := Heap.Allocate(old(heap.Abstract()), size, granted);
        heap.Abstract() == t && address == if p.Some? then p.value else NULL
      ensures HasPages(old(vmap.memory.pool), 5 * Heap.GrowthPages(size)) ==> granted
      ensures HeapUnmoved(old(vmap.memory.cells), old(vmap.root), vmap.memory.cells, vmap.root, heap.virtualBase,
                          old(heap.end))
      ensures OthersUnmoved(old(vmap.memory.cells), vmap.memory.cells, old(vmap.memory.owner), vmap.space)
    {
      hide Tree, Lookup, AttributesOnly, PoolReady, BlockAbove, Window, Backed, HasPages, Represents, Heap.Sound,
           RegionMapped, Heap.Allocate, Heap.GrowthPages, HeapUnmoved, OthersUnmoved;
      NothingMoved(vmap.memory.cells, vmap.root, heap.virtualBase, heap.end, vmap.memory.owner, vmap.space);
      ghost var s := heap.Abstract();
      var pages, available := Heap.GrowthPages(size), 0;
      granted := true;
      HeapIsSound();
      var fit := heap.FindFreeBlock(size);
      if fit == NULL {
        available := MapBehind(pages);
        granted := pages <= available;
      }
      ghost var mapped := heap.end + available * PAGE;
      AllocateEnd(s, size, available, granted);
      address := heap.Allocate(size, available);
      BackedUpTo(vmap.memory.cells, vmap.root, vmap.memory.owner, vmap.memory.pool, heap.virtualBase, mapped, flags,
                 heap.end);
    }

    lemma HeapIsSound()
      requires Valid()
      ensures heap.Linked() && Heap.Tiled(heap.blocks, heap.virtualBase, heap.end)
      ensures Heap.ListsFree(heap.blocks, heap.free)
      ensures heap.blocks != []
    {
    }

    /** kfree of the payload of block i. */
    method Kfree(address: nat, ghost i: nat)
      requires Valid() && (address == NULL || (i < |heap.blocks| && address == heap.blocks[i].address + Heap.HEADER))
      modifies heap
      ensures Valid()
      ensures heap.Abstract() == if address == NULL || old(heap.blocks)[i].free then old(heap.Abstract())
                                 else Heap.Release(old(heap.Abstract()), i)
    {
      hide Tree, Lookup, AttributesOnly, BlockAbove, Window, Backed, Represents, Heap.Sound, RegionMapped, Heap.Release;
      heap.Free(address, i);
      ReleaseEnd(old(heap.Abstract()), i);
    }
  }

  // ------------------------------------------------------------------------------------------ the start

  /** The frames of the block that the heap starts on: in no tree, and in no pool. */
  ghost predicate Apart(owner: Owner, pool: seq<Frame>, first: Frame, pages: nat) {
    forall f: nat :: first <= f < first + pages ==> f !in owner && f !in pool && Addressable(f)
  }

  lemma FrameInBlock(c: Cells, r: Frame, c': Cells, r': Frame, w: nat, base: nat, end: nat, first: Frame, flags: nat,
                     a: nat)
    requires RangeMapped(c, r, c', r', 3, base, end, first * PAGE, flags) && Within(w, base, end) && base <= a < end
    requires AttributesOnly(flags) && Addressable(first + (a - base) / PAGE)
    ensures FrameAt(c', r', a) == first + (a - base) / PAGE
    ensures Lookup(c', r', a) == Leaf(3, LeafWord(3, (first + (a - base) / PAGE) * PAGE, flags))
  {
    hide Lookup, Window, LeafWord, Addr, AttributesOnly;
    WindowOf(w, base, end, a);
    WindowOf(w, base, end, base);
    MappedFrame(first + (a - base) / PAGE, flags);
    assert RoundDown(a - base, PAGE) == (a - base) / PAGE * PAGE;
  }

  lemma BlockIsBacked(c: Cells, r: Frame, owner: Owner, pool: seq<Frame>, w: nat, base: nat, pages: nat, c': Cells,
                      r': Frame, owner': Owner, pool': seq<Frame>, first: Frame, flags: nat)
    requires RangeMapped(c, r, c', r', 3, base, base + pages * PAGE, first * PAGE, flags) && AttributesOnly(flags)
    requires Within(w, base, base + pages * PAGE) && base % PAGE == 0
    requires Apart(owner, pool, first, pages) && Drawn(pool, owner, pool', owner')
    ensures Backed(c', r', owner', pool', base, base + pages * PAGE, flags)
  {
    hide Lookup, Addr, RangeMapped, AttributesOnly, Addressable, LeafWord;
    var end := base + pages * PAGE;
    forall a: nat | base <= a < end
      ensures BackedAt(c', r', owner', pool', a, flags) && FrameAt(c', r', a) == first + (a - base) / PAGE
    {
      assert first <= first + (a - base) / PAGE < first + pages;
      FrameInBlock(c, r, c', r', w, base, end, first, flags, a);
    }
    forall a: nat, b: nat | base <= a < end && base <= b < end && FrameAt(c', r', a) == FrameAt(c', r', b)
      ensures a / PAGE == b / PAGE
    {
      SamePage(base, a, b);
    }
  }

  /** The mapping part of block_allocator_init: 4 MiB of pages on one block of the page allocator. */
  method MapBlockAt(vmap: Vmap, base: nat, flags: nat, first: Frame, ghost w: nat) returns (ok: bool)
    requires vmap.Valid() && AttributesOnly(flags) && base % PAGE == 0 && Within(w, base, base + 1024 * PAGE)
    requires forall a: nat :: Window(a) == w && base <= a ==> !BlockAbove(vmap.memory.cells, vmap.root, a, 3)
    requires Apart(vmap.memory.owner, vmap.memory.pool, first, 1024)
    modifies vmap`root, vmap.memory`cells, vmap.memory`pool, vmap.memory`owner
    ensures vmap.Valid() && (HasPages(old(vmap.memory.pool), 4 * 1024) ==> ok)
    ensures ok ==> Backed(vmap.memory.cells, vmap.root, vmap.memory.owner, vmap.memory.pool, base, base + 1024 * PAGE,
                          flags)
    ensures ok ==> forall a: nat :: Window(a) == w && base <= a ==> !BlockAbove(vmap.memory.cells, vmap.root, a, 3)
  {
    hide Tree, Lookup, AttributesOnly, PoolReady, OthersUnmoved, BlockAbove, RangeMapped, Drawn, Backed, HasPages,
         Apart, Mappable, Steps, Window, RangeMeans;
    ghost var c, r, owner, pool := vmap.memory.cells, vmap.root, vmap.memory.owner, vmap.memory.pool;
    ghost var end := base + 1024 * PAGE;
    WholeRange(c, r, w, base, end, first * PAGE);
    ghost var stop;
    ok, stop := vmap.MapRange(3, base, base + 1024 * PAGE, first * PAGE, flags);
    if !ok { return; }
    StopsThere(base, end, stop);
    BlockIsBacked(c, r, owner, pool, w, base, 1024, vmap.memory.cells, vmap.root, vmap.memory.owner, vmap.memory.pool,
                  first, flags);
    forall a: nat | Window(a) == w && base <= a ensures !BlockAbove(vmap.memory.cells, vmap.root, a, 3) {
      RangeNoBlocks(c, r, vmap.memory.cells, vmap.root, w, base, end, first * PAGE, flags, a);
    }
  }

  /** block_allocator_init. Null when the block or a page for a table cannot be had. */
  method InitHeap(vmap: Vmap, base: nat, flags: nat, block: Option<Frame>, ghost w: nat) returns (k: MappedHeap?)
    requires vmap.Valid() && AttributesOnly(flags) && base > 0 && base % PAGE == 0
    requires Within(w, base, base + 1024 * PAGE)
    requires forall a: nat :: Window(a) == w && base <= a ==> !BlockAbove(vmap.memory.cells, vmap.root, a, 3)
    requires block.Some? ==> Apart(vmap.memory.owner, vmap.memory.pool, block.value, 1024)
    modifies vmap`root, vmap.memory`cells, vmap.memory`pool, vmap.memory`owner
    ensures k != null ==>
              fresh(k) && fresh(k.heap) && k.vmap == vmap && k.Valid() && k.heap.Abstract() == Heap.Initial(base)
              && k.flags == flags && k.w == w && k.heap.virtualBase == base
    ensures block.Some? && HasPages(old(vmap.memory.pool), 4 * 1024) ==> k != null
  {
    hide Tree, Lookup, AttributesOnly, PoolReady, BlockAbove, Backed, HasPages, Apart, Window, Represents, Heap.Sound,
         RegionMapped;
    if block == None { return null; }
    var ok := MapBlockAt(vmap, base, flags, block.value, w);
    if !ok { return null; }
    var heap := new BlockAllocator(base);
    k := new MappedHeap(heap, vmap, flags, w);
  }

  const KERNEL_HEAP_VIRTUAL_BASE: nat := 0xFFFF_FFFF_A000_0000

  /** The pages of the kernel heap are for the kernel alone, never executable, and normal memory. */
  const HEAP_FLAGS: nat := NORMAL_MEMORY + EL1_RW + NEVER_EXECUTE

  lemma HeapFlags()
    ensures AttributesOnly(HEAP_FLAGS) && MemoryType(HEAP_FLAGS) == 3
    ensures !UserAccess(HEAP_FLAGS) && !ReadOnly(HEAP_FLAGS)
    ensures !KernelExecutes(HEAP_FLAGS) && !UserExecutes(HEAP_FLAGS) && Accessed(WithAccess(HEAP_FLAGS))
    ensures WithAccess(HEAP_FLAGS) == HEAP_FLAGS + ACCESS
    ensures Within(0xFFFF, KERNEL_HEAP_VIRTUAL_BASE, KERNEL_HEAP_VIRTUAL_BASE + 1024 * PAGE)
  {
  }

  /** kernel_heap_init, in the kernel's address space. */
  method InitKernelHeap(vmap: Vmap, block: Option<Frame>) returns (k: MappedHeap?)
    requires vmap.Valid()
    requires forall a: nat ::
               Window(a) == 0xFFFF && KERNEL_HEAP_VIRTUAL_BASE <= a ==> !BlockAbove(vmap.memory.cells, vmap.root, a, 3)
    requires block.Some? ==> Apart(vmap.memory.owner, vmap.memory.pool, block.value, 1024)
    modifies vmap`root, vmap.memory`cells, vmap.memory`pool, vmap.memory`owner
    ensures k != null ==> k.Valid() && k.vmap == vmap && k.heap.Abstract() == Heap.Initial(KERNEL_HEAP_VIRTUAL_BASE)
    ensures k != null ==> forall a: nat ::
              KERNEL_HEAP_VIRTUAL_BASE <= a < KERNEL_HEAP_VIRTUAL_BASE + 0x40_0000 ==> KernelOnly(Hardware(
                vmap.memory.cells, vmap.root, a))
    ensures block.Some? && HasPages(old(vmap.memory.pool), 4 * 1024) ==> k != null
  {
    hide Tree, Lookup, AttributesOnly, PoolReady, BlockAbove, Backed, HasPages, Apart, Window, Represents, Heap.Sound,
         RegionMapped, Hardware, WithAccess;
    HeapFlags();
    k := InitHeap(vmap, KERNEL_HEAP_VIRTUAL_BASE, HEAP_FLAGS, block, 0xFFFF);
    if k == null { return; }
    forall a: nat | KERNEL_HEAP_VIRTUAL_BASE <= a < KERNEL_HEAP_VIRTUAL_BASE + 0x40_0000
      ensures KernelOnly(Hardware(vmap.memory.cells, vmap.root, a))
    {
      HeapMeans(vmap.memory.cells, vmap.root, vmap.memory.owner, vmap.space, vmap.memory.pool, k.heap.virtualBase,
                k.heap.end, k.flags, a);
      AccessedHeap();
    }
  }

  /** The kernel may read and write, and nobody may execute. */
  predicate KernelOnly(h: Access) {
    && h.Access? && !UserAccess(h.attributes) && !ReadOnly(h.attributes) && !KernelExecutes(h.attributes)
    && !UserExecutes(h.attributes) && MemoryType(h.attributes) == 3 && Accessed(h.attributes)
  }

  lemma AccessedHeap()
    ensures forall address: nat :: KernelOnly(Access(address, WithAccess(HEAP_FLAGS)))
  {
  }

  lemma WholeRange(c: Cells, r: Frame, w: nat, base: nat, end: nat, pStart: nat)
    requires Within(w, base, end) && base % PAGE == 0 && end == base + 1024 * PAGE
    requires forall a: nat :: Window(a) == w && base <= a ==> !BlockAbove(c, r, a, 3)
    ensures InOneWindow(base, end) && base % Span(3) == 0 && Mappable(c, r, 3, base, end, pStart) && Window(base) == w
    ensures Steps(base, end, 3) == 1024
    ensures forall a: nat :: base <= a < end ==> !BlockAbove(c, r, a, 3)
  {
    hide BlockAbove;
    WindowOf(w, base, end, base);
    StepsOf(base, 1024, 3);
    forall a: nat | base <= a < end ensures !BlockAbove(c, r, a, 3) { WindowOf(w, base, end, a); }
  }

  lemma StopsThere(base: nat, end: nat, stop: nat)
    requires base % PAGE == 0 && end == base + 1024 * PAGE && stop % PAGE == 0 && end <= stop < end + PAGE
    ensures stop == end
  {
  }

  lemma RangeNoBlocks(c: Cells, r: Frame, c': Cells, r': Frame, w: nat, base: nat, end: nat, pStart: nat, flags: nat,
                      a: nat)
    requires RangeMapped(c, r, c', r', 3, base, end, pStart, flags) && Window(a) == w == Window(base)
    requires !BlockAbove(c, r, a, 3)
    ensures !BlockAbove(c', r', a, 3)
  {
    hide Lookup, LeafWord, Window;
  }
}
