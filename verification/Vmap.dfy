/** vmap.c in place: table memory shared by all address spaces, and the operations on one of them. */
module Vmap {
  import opened BlockMapping
  import opened Mmu
  import opened PageMapping
  import opened Sequences
  import opened Translation

  datatype Backing = Backing(space: nat, page: nat)

  class PhysicalMemory {
    var cells: Cells
    var pool: seq<Frame>
    /** Where each table page hangs. */
    ghost var owner: Owner
    /** Which page of which address space each data page was handed out for. */
    ghost var backing: map<Frame, Backing>

    ghost predicate Valid()
      reads this
    {
      Tree(cells, owner) && PoolReady(pool, owner)
    }

    /** Memory without tables, whatever it holds, and the pages that will be handed out. */
    constructor (cells: Cells, pool: seq<Frame>)
      requires PoolReady(pool, map[])
      ensures Valid() && this.cells == cells && this.pool == pool && owner == map[] && backing == map[]
    {
      this.cells, this.pool := cells, pool;
      owner, backing := map[], map[];
    }

    /** alloc_page: the next page, zeroed, or NULL when there is none left. */
    method NextFrame() returns (page: Frame)
      modifies this`cells, this`pool
      ensures page == NextPage(old(pool)) && pool == RestOf(old(pool)) && cells == PageZeroed(old(cells), old(pool))
    {
      if pool == [] { return NULL; }
      page := pool[0];
      pool := pool[1..];
      cells := Zeroed(cells, page);
    }

    /** alloc_page, moving no translation. */
    method AllocPage() returns (page: Frame)
      requires Valid()
      modifies this`cells, this`pool
      ensures Valid() && page !in owner && Addressable(page)
      ensures old(pool) == [] ==> page == NULL && pool == old(pool) && cells == old(cells)
      ensures old(pool) != [] ==> page == old(pool)[0] && pool == old(pool)[1..] && cells == Zeroed(old(cells), page)
      ensures page !in pool && Unmoved(old(cells), cells, owner) && WordsKept(old(cells), cells, owner)
    {
      hide Tree, Zeroed, Unmoved, Prepared;
      if pool != [] { ZeroKeepsWords(cells, owner, pool[0]); }
      NullIsAddressable();
      TreeHasNoNull(cells, owner);
      PagePrepared(cells, owner, pool, NULL, 0);
      StillPrepared(cells, owner, pool, NULL, 0, PageZeroed(cells, pool), owner, RestOf(pool), 1);
      page := NextFrame();
    }

    /** page_alloc_block for a single page that is not to become a table: not zeroed. */
    method TakePage() returns (page: Option<Frame>)
      requires Valid()
      modifies this`pool
      ensures Valid()
      ensures old(pool) == [] ==> page == None && pool == []
      ensures old(pool) != [] ==> page == Some(old(pool)[0]) && pool == old(pool)[1..] && old(pool)[0] !in pool
      ensures old(pool) != [] ==> old(pool)[0] !in owner && Addressable(old(pool)[0])
    {
      hide Tree;
      if pool == [] { return None; }
      page := Some(pool[0]);
      pool := pool[1..];
    }
  }

  class Vmap {
    const memory: PhysicalMemory
    ghost const space: nat
    var root: Frame

    ghost predicate Valid()
      reads this, memory
    {
      memory.Valid() && (root != NULL ==> IsRoot(memory.owner, root, space))
    }

    /** This address space has the leaf entries that root r has in c. */
    ghost predicate SameEntries(c: Cells, r: Frame)
      reads this, memory
    {
      forall a :: Lookup(memory.cells, root, a) == Lookup(c, r, a)
    }

    /** vmap_init: an address space without tables. */
    constructor (memory: PhysicalMemory, ghost space: nat)
      requires memory.Valid()
      ensures Valid() && this.memory == memory && this.space == space && root == NULL
    {
      this.memory := memory;
      this.space := space;
      root := NULL;
    }

    /** The opening of every map operation: a root table, allocated on first use. */
    method EnsureRoot(ghost over: Level) returns (ok: bool)
      requires Valid()
      modifies this`root, memory`cells, memory`pool, memory`owner
      ensures Valid() && ok == (root != NULL)
      ensures old(root) != NULL ==> root == old(root) && memory.cells == old(memory.cells)
      ensures SameEntries(old(memory.cells), old(root))
      ensures SameEnds(old(memory.cells), old(root), memory.cells, root, over)
      ensures Prepared(old(memory.cells), old(memory.owner), old(memory.pool), root, space,
                       memory.cells, memory.owner, memory.pool, 1)
      ensures |old(memory.pool)| >= 1 && old(memory.pool)[0] != NULL ==> ok
    {
      hide Tree, Zeroed, Unmoved;
      UnmovedSelf(memory.cells, memory.owner);
      TreeHasNoNull(memory.cells, memory.owner);
      if root == NULL {
        ghost var c := memory.cells;
        var page := memory.AllocPage();
        if page == NULL { return false; }
        NewRoot(c, memory.owner, page, space);
        NewRootEnds(c, page, over);
        memory.owner := memory.owner[page := Place(space, 0, 0)];
        root := page;
      }
      return true;
    }

    /** Follow the entry for an address at a level, hanging a new table there if it is invalid. */
    method NextTable(t: Frame, level: Level, va: nat, ghost over: Level) returns (next: Frame)
      requires Valid() && root != NULL && level < over && Descend(memory.cells, root, 0, va, level) == Some(t)
      requires IsValid(EntryAt(memory.cells, t, level, va)) ==> Descends(EntryAt(memory.cells, t, level, va), level)
      modifies memory`cells, memory`pool, memory`owner
      ensures Valid()
      ensures Prepared(old(memory.cells), old(memory.owner), old(memory.pool), root, space,
                       memory.cells, memory.owner, memory.pool, 1)
      ensures SameEnds(old(memory.cells), root, memory.cells, root, over)
      ensures next != NULL ==> Descend(memory.cells, root, 0, va, level + 1) == Some(next)
      ensures |old(memory.pool)| >= 1 && old(memory.pool)[0] != NULL ==> next != NULL
    {
      hide Tree, Zeroed, Unmoved, Descend, Index, IsTable, Addr, TableWord, Selected, EndsBy, WordsKept;
      ghost var c, owner := memory.cells, memory.owner;
      UnmovedSelf(c, owner);
      RootInPlace(owner, root, space, va);
      DescendInPlace(c, owner, root, 0, va, level);
      var entry := Read(memory.cells, t, Index(va, level));
      if !IsValid(entry) {
        var page := memory.AllocPage();
        KeptWordsEnds(c, memory.cells, owner, root, space, over);
        if page == NULL { return NULL; }
        memory.cells := memory.cells[Cell(t, Index(va, level)) := TableWord(page)];
        memory.owner := owner[page := Place(owner[t].space, level + 1, Selected(va, level))];
        assert memory.cells == AddTable(c, t, level, va, page);
        AddTableKeepsTree(c, owner, t, level, va, page);
        AddTableUnmoved(c, owner, t, level, va, page);
        AddTableEnds(c, owner, root, space, t, level, va, page, over);
        AddTableKeepsDescend(c, owner, t, level, va, page, root, 0);
        TableWordBits(page);
        entry := TableWord(page);
      }
      DescendOnce(memory.cells, root, 0, va, level, t);
      DescendInPlace(memory.cells, memory.owner, root, 0, va, level + 1);
      TreeHasNoNull(memory.cells, memory.owner);
      next := Addr(entry);
    }

    /** The tables from the root down to a level, created where missing. NULL when pages run out or a
        block is in the way. */
    method TablesDown(va: nat, level: Level) returns (t: Frame)
      requires Valid() && root != NULL
      modifies memory`cells, memory`pool, memory`owner
      ensures Valid() && (t != NULL ==> Descend(memory.cells, root, 0, va, level) == Some(t))
      ensures Prepared(old(memory.cells), old(memory.owner), old(memory.pool), root, space,
                       memory.cells, memory.owner, memory.pool, level)
      ensures SameEnds(old(memory.cells), root, memory.cells, root, level)
      ensures t != NULL ==> !BlockAbove(memory.cells, root, va, level)
      ensures |old(memory.pool)| >= level && NULL !in old(memory.pool)[..level] && t == NULL ==>
        BlockAbove(memory.cells, root, va, level)
    {
      hide Tree, Descend, EntryAt, Lookup, Descends, IsValid, PoolReady, Grown, Read, Index, BlockAbove, Prepared,
           EndsBy;
      ghost var c, owner, pool := memory.cells, memory.owner, memory.pool;
      t := root;
      StartOfDescent(memory.cells, root, va);
      TreeHasNoNull(memory.cells, memory.owner);
      PreparedSelf(c, owner, pool, root, space);
      for k := 0 to level
        invariant Valid() && t != NULL && Descend(memory.cells, root, 0, va, k) == Some(t)
        invariant Prepared(c, owner, pool, root, space, memory.cells, memory.owner, memory.pool, k)
        invariant SameEnds(c, root, memory.cells, root, level)
      {
        ReachedOrBlocked(memory.cells, root, va, k, level, t);
        EntryIsRead(memory.cells, t, k, va);
        PreparedMore(c, owner, pool, root, space, memory.cells, memory.owner, memory.pool, k, level);
        var entry := Read(memory.cells, t, Index(va, k));
        if IsValid(entry) && !Descends(entry, k) { return NULL; }
        ghost var c1, owner1, pool1 := memory.cells, memory.owner, memory.pool;
        t := NextTable(t, k, va, level);
        SameEndsTwice(c, root, c1, root, memory.cells, root, level);
        PreparedTwice(c, owner, pool, root, space, c1, owner1, pool1, k, memory.cells, memory.owner, memory.pool, 1);
        if t == NULL {
          PreparedMore(c, owner, pool, root, space, memory.cells, memory.owner, memory.pool, k + 1, level);
          StillPrepared(c, owner, pool, root, space, c1, owner1, pool1, k);
          if |pool| >= level && NULL !in pool[..level] { NextOfFirst(pool, owner, pool1, owner1, k, level); }
          return NULL;
        }
      }
      ReachedOrBlocked(memory.cells, root, va, level, level, t);
    }

    /** What every map operation begins with: the root, and the tables down to a level. */
    method TableOver(va: nat, level: Level) returns (t: Frame)
      requires Valid()
      modifies this`root, memory`cells, memory`pool, memory`owner
      ensures Valid() && (t != NULL ==> root != NULL && Descend(memory.cells, root, 0, va, level) == Some(t))
      ensures old(root) != NULL ==> root == old(root)
      ensures SameEntries(old(memory.cells), old(root))
      ensures Prepared(old(memory.cells), old(memory.owner), old(memory.pool), root, space,
                       memory.cells, memory.owner, memory.pool, level + 1)
      ensures SameEnds(old(memory.cells), old(root), memory.cells, root, level)
      ensures t != NULL ==> !BlockAbove(old(memory.cells), old(root), va, level)
      ensures |old(memory.pool)| > level && NULL !in old(memory.pool)[..level + 1] && t == NULL ==>
        BlockAbove(old(memory.cells), old(root), va, level)
    {
      hide Tree, Descend, Lookup, PoolReady, Grown, Prepared, SameEnds;
      ghost var c, owner, pool := memory.cells, memory.owner, memory.pool;
      var ok := EnsureRoot(level);
      PreparedMore(c, owner, pool, root, space, memory.cells, memory.owner, memory.pool, 1, level + 1);
      if !ok { return NULL; }
      ghost var c1, owner1, pool1 := memory.cells, memory.owner, memory.pool;
      t := TablesDown(va, level);
      SameEndsTwice(c, old(root), c1, root, memory.cells, root, level);
      PreparedTwice(c, owner, pool, root, space, c1, owner1, pool1, 1, memory.cells, memory.owner, memory.pool, level);
      StillPrepared(c1, owner1, pool1, root, space, memory.cells, memory.owner, memory.pool, level);
      StillSame(c1, memory.cells, owner1, root, space);
      if |pool| > level && NULL !in pool[..level + 1] {
        StillPrepared(c, owner, pool, root, space, c1, owner1, pool1, 1);
        RestOfFirst(pool, owner, pool1, owner1, 1, level);
      }
    }

    /** What every map operation ends with: write the leaf entry. */
    method PutEntry(t: Frame, level: Level, va: nat, word: nat)
      requires Valid() && root != NULL && IsLeafWord(level, word)
      requires Descend(memory.cells, root, 0, va, level) == Some(t)
      modifies memory`cells
      ensures Valid() && Mapped(true, old(memory.cells), root, memory.cells, root, va, level, word)
      ensures OthersUnmoved(old(memory.cells), memory.cells, memory.owner, space)
      ensures !Descends(EntryAt(old(memory.cells), t, level, va), level) ==>
                SameEnds(old(memory.cells), root, memory.cells, root, level)
    {
      hide Tree, OthersUnmoved, Descend, Lookup, Index, EndsBy, SameEnds, IsValid, IsTable;
      RootInPlace(memory.owner, root, space, va);
      DescendInPlace(memory.cells, memory.owner, root, 0, va, level);
      LeafEnds(word, level);
      if !Descends(EntryAt(memory.cells, t, level, va), level) {
        PutLeafEnds(memory.cells, memory.owner, root, space, t, level, va, word);
      }
      PutLeafEffect(memory.cells, memory.owner, root, space, t, level, va, word);
      memory.cells := memory.cells[Cell(t, Index(va, level)) := word];
    }

    /** vmap_map_page as written: on the way to level 3 every valid entry is followed as if it led to a
        table. */
    method PutPage(va: nat, word: nat) returns (ok: bool)
      requires forall f :: f in memory.pool ==> Addressable(f)
      modifies this`root, memory`cells, memory`pool
      ensures Mapping(ok, memory.cells, memory.pool, root) ==
              MapAsWritten(old(memory.cells), old(memory.pool), old(root), va, word)
    {
      hide Index, IsValid, Addr, TableWord, Zeroed, Addressable;
      if root == NULL {
        var page := memory.NextFrame();
        if page == NULL { return false; }
        root := page;
      }
      ghost var goal := Down(memory.cells, memory.pool, root, 0, va);
      var t, level: Level := root, 0;
      while level < 3
        invariant root == if old(root) != NULL then old(root) else NextPage(old(memory.pool))
        invariant Down(memory.cells, memory.pool, t, level, va) == goal
        invariant forall f :: f in memory.pool ==> Addressable(f)
        decreases 3 - level
      {
        var entry := Read(memory.cells, t, Index(va, level));
        if !IsValid(entry) {
          var page := memory.NextFrame();
          if page == NULL { return false; }
          memory.cells := memory.cells[Cell(t, Index(va, level)) := TableWord(page)];
          entry := TableWord(page);
          TableWordBits(page);
        }
        t := Addr(entry);
        level := level + 1;
      }
      memory.cells := memory.cells[Cell(t, Index(va, 3)) := word];
      return true;
    }

    /** vmap_map_page, and what it means where no block covers the address. */
    method MapPage(pa: nat, va: nat, flags: nat) returns (ok: bool)
      requires Valid() && AttributesOnly(flags)
      modifies this`root, memory`cells, memory`pool, memory`owner
      ensures Mapping(ok, memory.cells, memory.pool, root) ==
              MapAsWritten(old(memory.cells), old(memory.pool), old(root), va, LeafWord(3, pa, flags))
      ensures !BlockAbove(old(memory.cells), old(root), va, 3) ==>
        && Valid() && (ok ==> root != NULL) && (old(root) != NULL ==> root == old(root))
        && Mapped(ok, old(memory.cells), old(root), memory.cells, root, va, 3, LeafWord(3, pa, flags))
        && Means(ok, old(memory.cells), old(root), memory.cells, root, va, 3, pa, flags)
        && OthersUnmoved(old(memory.cells), memory.cells, old(memory.owner), space)
        && Grown(old(memory.pool), old(memory.owner), memory.pool, memory.owner, 4)
        && RootsKept(old(memory.owner), memory.owner, root, space)
        && (HasPages(old(memory.pool), 4) ==> ok)
    {
      hide Tree, OthersUnmoved, Lookup, LeafWord, IsLeafWord, AttributesOnly, Mapped, Grown, MapAsWritten, BlockAbove,
           RootsKept, Means;
      LeafWordBits(3, pa, flags);
      ghost var c, r, owner0 := memory.cells, root, memory.owner;
      ghost var owner := owner0;
      if !BlockAbove(memory.cells, root, va, 3) {
        owner := MapEffect(memory.cells, owner, memory.pool, root, space, va, LeafWord(3, pa, flags));
      }
      ok := PutPage(va, LeafWord(3, pa, flags));
      memory.owner := owner;
      if !BlockAbove(c, r, va, 3) {
        MappedMeans(ok, c, owner0, r, space, memory.cells, owner, root, va, 3, pa, flags);
      }
    }

    /** vmap_map_l1_block (level 1) and vmap_map_l2_block (level 2): an aligned block where nothing
        is mapped yet. */
    method MapBlock(level: Level, va: nat, pa: nat, flags: nat) returns (ok: bool)
      requires Valid() && AttributesOnly(flags) && 1 <= level <= 2
      modifies this`root, memory`cells, memory`pool, memory`owner
      ensures Valid() && (ok ==> root != NULL) && (old(root) != NULL ==> root == old(root))
      ensures Mapped(ok, old(memory.cells), old(root), memory.cells, root, va, level, LeafWord(level, pa, flags))
      ensures Means(ok, old(memory.cells), old(root), memory.cells, root, va, level, pa, flags)
      ensures ok ==> va % Span(level) == 0 && pa % Span(level) == 0 && Free(old(memory.cells), old(root), va, level)
      ensures HasPages(old(memory.pool), level + 1) ==>
                (ok <==> va % Span(level) == 0 == pa % Span(level) && Free(old(memory.cells), old(root), va, level))
      ensures SameEnds(old(memory.cells), old(root), memory.cells, root, level)
      ensures ok ==> forall a :: Together(a, va, level) ==> Lookup(old(memory.cells), old(root), a) == Unmapped
      ensures OthersUnmoved(old(memory.cells), memory.cells, old(memory.owner), space)
      ensures Grown(old(memory.pool), old(memory.owner), memory.pool, memory.owner, level + 1)
      ensures RootsKept(old(memory.owner), memory.owner, root, space)
    {
      hide Tree, Unmoved, OthersUnmoved, Descend, Lookup, LeafWord, IsLeafWord, AttributesOnly, Together, Grown,
           PoolReady, IsValid, Index, Span, EndsBy, SameEnds, Means;
      ghost var c, owner, pool, r := memory.cells, memory.owner, memory.pool, root;
      EndsSelf(c, r, level);
      GrownSelf(pool, owner, level + 1);
      UnmovedSelf(c, owner);
      UnmovedThenOthers(c, c, c, owner, owner, space);
      MappedMeans(false, c, owner, r, space, c, owner, r, va, level, pa, flags);
      if va % Span(level) != 0 { return false; }
      if pa % Span(level) != 0 { return false; }
      var t := TableOver(va, level);
      ghost var c1 := memory.cells;
      GrownMore(pool, owner, memory.pool, memory.owner, level + 1, level + 1);
      UnmovedThenOthers(c, c1, c1, owner, memory.owner, space);
      MappedMeans(false, c, owner, r, space, c1, memory.owner, root, va, level, pa, flags);
      FreeAfter(c, r, c1, root, va, level);
      if t == NULL { return false; }
      FreeExactly(c1, root, va, level, t);
      EntryIsRead(c1, t, level, va);
      if IsValid(Read(memory.cells, t, Index(va, level))) { return false; }
      NothingThere(memory.cells, root, va, level, t);
      LeafWordBits(level, pa, flags);
      PutEntry(t, level, va, LeafWord(level, pa, flags));
      UnmovedThenOthers(c, c1, memory.cells, owner, memory.owner, space);
      SameEndsTwice(c, r, c1, root, memory.cells, root, level);
      MappedMeans(true, c, owner, r, space, memory.cells, memory.owner, root, va, level, pa, flags);
      return true;
    }

    /** vmap_virtual_to_physical, level by level: None exactly where no entry maps the address, and the
        processor's answer everywhere but at an entry with reserved type bits. */
    method VirtualToPhysical(va: nat) returns (pa: Option<nat>)
      requires Valid()
      ensures pa == Translate(memory.cells, root, va) && (pa == None <==> Lookup(memory.cells, root, va) == Unmapped)
      ensures var h := Hardware(memory.cells, root, va);
        && (h.Access? ==> pa == Some(h.address))
        && (h.Fault? && pa.Some? <==> ReservedPage(Lookup(memory.cells, root, va)))
    {
      hide Tree, Walks, IsValid, IsTable, Addr, Index, LeafBase;
      TranslatesExactly(memory.cells, memory.owner, root, space, va);
      if root == NULL { return None; }
      var l0 := Read(memory.cells, root, Index(va, 0));
      if !IsValid(l0) { return None; }
      var l1 := Read(memory.cells, Addr(l0), Index(va, 1));
      assert Lookup(memory.cells, root, va) == Walk(memory.cells, Addr(l0), 1, va);
      if !IsValid(l1) { return None; }
      if !IsTable(l1) { return Some(LeafBase(l1, 1) + va % Span(1)); }
      var l2 := Read(memory.cells, Addr(l1), Index(va, 2));
      assert Lookup(memory.cells, root, va) == Walk(memory.cells, Addr(l1), 2, va);
      if !IsValid(l2) { return None; }
      if !IsTable(l2) { return Some(LeafBase(l2, 2) + va % Span(2)); }
      var l3 := Read(memory.cells, Addr(l2), Index(va, 3));
      assert Lookup(memory.cells, root, va) == Walk(memory.cells, Addr(l2), 3, va);
      if !IsValid(l3) { return None; }
      return Some(LeafBase(l3, 3) + va % Span(3));
    }

    /** vmap_map_range (level 3) and vmap_map_range_l1_block and _l2_block (levels 1 and 2): one page
        or block after another until the end or the first failure. A range of blocks that does not
        start aligned fails at once. */
    method MapRange(level: Level, start: nat, end: nat, pStart: nat, flags: nat) returns (ok: bool, ghost stop: nat)
      requires Valid() && AttributesOnly(flags) && level > 0 && InOneWindow(start, end)
      requires level == 3 ==> start % Span(level) == 0
      requires level == 3 ==> forall a: nat :: start <= a < end ==> !BlockAbove(memory.cells, root, a, 3)
      modifies this`root, memory`cells, memory`pool, memory`owner
      ensures Valid() && start <= stop && (start != stop ==> start % Span(level) == 0 == stop % Span(level))
      ensures ok && start < end ==> start % Span(level) == 0
      ensures if ok then end <= stop && (stop == start || stop < end + Span(level)) else stop < end
      ensures ok ==> Mappable(old(memory.cells), old(root), level, start, end, pStart)
      ensures HasPages(old(memory.pool), 4 * Steps(start, end, level)) ==>
                (ok <==> Mappable(old(memory.cells), old(root), level, start, end, pStart))
      ensures RangeMapped(old(memory.cells), old(root), memory.cells, root, level, start, stop, pStart, flags)
      ensures RangeMeans(old(memory.cells), old(root), memory.cells, root, level, start, stop, pStart, flags)
      ensures OthersUnmoved(old(memory.cells), memory.cells, old(memory.owner), space)
      ensures Drawn(old(memory.pool), old(memory.owner), memory.pool, memory.owner)
    {
      hide Tree, OthersUnmoved, Lookup, LeafWord, AttributesOnly, Together, Grown, PoolReady, Span, RangeMapped, Drawn,
           InOneWindow, Mapped, BlockAbove, HasPages, Free, SameEnds, RangeFree, Mappable, Means, RangeMeans;
      ghost var c, r, owner, pool := memory.cells, root, memory.owner, memory.pool;
      NothingFree(c, r, level, start);
      NoneDrawn(pool, owner);
      NothingMapped(c, r, level, start, pStart, flags, owner, space);
      var va, pa := start, pStart;
      stop := start;
      while va < end
        invariant Valid() && start <= va == stop && pa == pStart + (va - start)
        invariant va != start ==> start % Span(level) == 0 == va % Span(level)
        invariant va == start || va < end + Span(level)
        invariant RangeMapped(c, r, memory.cells, root, level, start, va, pStart, flags)
        invariant OthersUnmoved(c, memory.cells, owner, space) && Drawn(pool, owner, memory.pool, memory.owner)
        invariant level < 3 ==> SameEnds(c, r, memory.cells, root, level) && RangeFree(c, r, level, start, va)
        invariant level < 3 && start < va ==> pStart % Span(level) == 0
        invariant HasPages(pool, 4 * Steps(start, end, level)) ==> HasPages(memory.pool, 4 * Steps(va, end, level))
        decreases end - va
      {
        ghost var c1, r1, owner1, pool1 := memory.cells, root, memory.owner, memory.pool;
        SameWindow(start, end, va);
        StillBlockFree(c, r, c1, r1, level, start, va, pStart, flags);
        if level == 3 {
          ok := MapPage(pa, va, flags);
        } else {
          ok := MapBlock(level, va, pa, flags);
        }
        GrownMore(pool1, owner1, memory.pool, memory.owner, level + 1, level + 1);
        GrownIsDrawn(pool1, owner1, memory.pool, memory.owner, level + 1);
        DrawnTwice(pool, owner, pool1, owner1, memory.pool, memory.owner);
        DrawnExtends(pool, owner, pool1, owner1);
        PagesForStep(pool1, owner1, memory.pool, memory.owner, va, end, level);
        if level < 3 {
          FreeStays(c, r, c1, r1, level, start, va, pStart, flags);
          SameEndsTwice(c, r, c1, r1, memory.cells, root, level);
        }
        OthersTwice(c, c1, memory.cells, owner, owner1, space);
        if !ok {
          if level < 3 && !(va % Span(level) == 0 == pa % Span(level) && Free(c, r, va, level)) {
            Unmappable(c, r, level, start, end, va, pStart);
          }
          RangeFails(c, r, c1, r1, memory.cells, root, level, start, va, pStart, flags, LeafWord(level, pa, flags));
          RangeMappedMeans(c, owner, r, space, memory.cells, memory.owner, root, level, start, va, pStart, flags);
          return;
        }
        RangeStep(c, r, c1, r1, memory.cells, root, level, start, va, pStart, flags);
        NextMultiple(va, Span(level));
        if level < 3 {
          OneMoreFree(c, r, level, start, va);
          if start % Span(level) == 0 { LaterAligned(start, va, pStart, Span(level)); }
        }
        va := va + Span(level);
        pa := pa + Span(level);
        stop := va;
      }
      RangeMappable(c, r, level, start, end, va, pStart);
      RangeMappedMeans(c, owner, r, space, memory.cells, memory.owner, root, level, start, va, pStart, flags);
      ok := true;
    }
  }
}
