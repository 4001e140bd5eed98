/** vmap_map_page on values, as it is written: from the pool of pages and the words of the tables to
    the new words, without a look for blocks on the way; and exactly when it does what it should. */
module PageMapping {
  import opened Sequences
  import opened Translation

  // ------------------------------------------------------------------------- the pool of pages

  /** The pages alloc_page will hand out, in order: distinct, in no tree. The page at
      address 0 may be among them; callers take it for a failure. */
  ghost predicate PoolReady(pool: seq<Frame>, owner: Owner) {
    && (forall i :: 0 <= i < |pool| ==> pool[i] !in owner && Addressable(pool[i]))
    && (forall i, j :: 0 <= i < j < |pool| ==> pool[i] != pool[j])
  }

  /** Pages were taken from the front of the pool, and nothing but they became tables. */
  ghost predicate Grown(pool: seq<Frame>, owner: Owner, pool': seq<Frame>, owner': Owner, limit: nat) {
    var n := |pool| - |pool'|;
    && 0 <= n <= limit && pool' == pool[n..]
    && Extends(owner, owner')
    && (forall t :: t in owner' ==> t in owner || t in pool[..n])
  }

  /** Pages have left the pool, and whatever has become a table is one of them. */
  ghost predicate Drawn(pool: seq<Frame>, owner: Owner, pool': seq<Frame>, owner': Owner) {
    && Extends(owner, owner') && (forall f :: f in pool' ==> f in pool)
    && (forall t :: t in owner' ==> t in owner || t in pool)
  }

  lemma GrownIsDrawn(pool: seq<Frame>, owner: Owner, pool': seq<Frame>, owner': Owner, limit: nat)
    requires Grown(pool, owner, pool', owner', limit)
    ensures Drawn(pool, owner, pool', owner')
  {
    var n := |pool| - |pool'|;
    assert forall t :: t in pool[..n] ==> t in pool;
  }

  lemma NoneDrawn(pool: seq<Frame>, owner: Owner)
    ensures Drawn(pool, owner, pool, owner)
  {
  }

  lemma DrawnExtends(pool: seq<Frame>, owner: Owner, pool': seq<Frame>, owner': Owner)
    requires Drawn(pool, owner, pool', owner')
    ensures Extends(owner, owner')
  {
  }

  lemma DrawnTwice(p0: seq<Frame>, o0: Owner, p1: seq<Frame>, o1: Owner, p2: seq<Frame>, o2: Owner)
    requires Drawn(p0, o0, p1, o1) && Drawn(p1, o1, p2, o2)
    ensures Drawn(p0, o0, p2, o2)
  {
  }

  /** So many pages can be had, none of them null. */
  ghost predicate HasPages(pool: seq<Frame>, n: nat): (enough: bool)
    ensures enough ==> n <= |pool|
  {
    |pool| >= n && NULL !in pool[..n]
  }

  lemma NullIsAddressable()
    ensures Addressable(NULL)
  {
  }

  lemma GrownTwice(p0: seq<Frame>, o0: Owner, p1: seq<Frame>, o1: Owner, p2: seq<Frame>, o2: Owner, m: nat, n: nat)
    requires Grown(p0, o0, p1, o1, m) && Grown(p1, o1, p2, o2, n)
    ensures Grown(p0, o0, p2, o2, m + n)
  {
  }

  lemma GrownSelf(p: seq<Frame>, o: Owner, n: nat)
    ensures Grown(p, o, p, o, n)
  {
  }

  lemma GrownMore(p0: seq<Frame>, o0: Owner, p1: seq<Frame>, o1: Owner, m: nat, n: nat)
    requires Grown(p0, o0, p1, o1, m) && m <= n
    ensures Grown(p0, o0, p1, o1, n)
    ensures Extends(o0, o1)
  {
  }

  /** After fewer than n pages were used, the next one is among the first n. */
  lemma NextOfFirst(p0: seq<Frame>, o0: Owner, p1: seq<Frame>, o1: Owner, used: nat, n: nat)
    requires Grown(p0, o0, p1, o1, used) && used < n <= |p0| && NULL !in p0[..n]
    ensures |p1| >= 1 && p1[0] != NULL
  {
  }

  /** After at most m pages were used, the next n are among the first m + n. */
  lemma RestOfFirst(p0: seq<Frame>, o0: Owner, p1: seq<Frame>, o1: Owner, m: nat, n: nat)
    requires Grown(p0, o0, p1, o1, m) && m + n <= |p0| && NULL !in p0[..m + n]
    ensures |p1| >= n && NULL !in p1[..n]
  {
  }

  /** What alloc_page answers: the next page, or null when there is none. */
  function NextPage(pool: seq<Frame>): Frame {
    if pool == [] then NULL else pool[0]
  }

  function RestOf(pool: seq<Frame>): seq<Frame> {
    if pool == [] then pool else pool[1..]
  }

  /** Table memory after alloc_page. */
  function PageZeroed(c: Cells, pool: seq<Frame>): Cells {
    if pool == [] then c else Zeroed(c, pool[0])
  }

  // -------------------------------------------------------------------- the operation as written

  /** The table the walk has come to, unless pages have run out. */
  datatype Descent = Descent(ok: bool, cells: Cells, pool: seq<Frame>, table: Frame)

  /** From a table down to level 3: a valid entry is followed whatever it is, and an invalid one gets a
      new table. */
  function Down(c: Cells, pool: seq<Frame>, t: Frame, level: Level, va: nat): Descent
    decreases 3 - level
  {
    if level == 3 then Descent(true, c, pool, t)
    else if IsValid(EntryAt(c, t, level, va)) then Down(c, pool, Addr(EntryAt(c, t, level, va)), level + 1, va)
    else if NextPage(pool) == NULL then Descent(false, PageZeroed(c, pool), RestOf(pool), t)
    else Down(AddTable(c, t, level, va, NextPage(pool)), RestOf(pool), NextPage(pool), level + 1, va)
  }

  datatype Mapping = Mapping(ok: bool, cells: Cells, pool: seq<Frame>, root: Frame)

  /** vmap_map_page once there is a root. */
  function MapFromRoot(c: Cells, pool: seq<Frame>, root: Frame, va: nat, word: nat): Mapping {
    var d := Down(c, pool, root, 0, va);
    Mapping(d.ok, if d.ok then PutLeaf(d.cells, d.table, 3, va, word) else d.cells, d.pool, root)
  }

  /** vmap_map_page. */
  function MapAsWritten(c: Cells, pool: seq<Frame>, root: Frame, va: nat, word: nat): Mapping {
    if root != NULL then MapFromRoot(c, pool, root, va, word)
    else if NextPage(pool) == NULL then Mapping(false, PageZeroed(c, pool), RestOf(pool), NULL)
    else MapFromRoot(PageZeroed(c, pool), RestOf(pool), NextPage(pool), va, word)
  }

  // ------------------------------------------------------------------- where no block is in the way

  /** Pages were taken for tables, and no translation moved. */
  ghost predicate Prepared(c: Cells, owner: Owner, pool: seq<Frame>, root: Frame, space: nat,
                           c': Cells, owner': Owner, pool': seq<Frame>, limit: nat) {
    && Tree(c', owner') && PoolReady(pool', owner') && Unmoved(c, c', owner)
    && Grown(pool, owner, pool', owner', limit) && RootsKept(owner, owner', root, space)
  }

  lemma PreparedSelf(c: Cells, owner: Owner, pool: seq<Frame>, root: Frame, space: nat)
    requires Tree(c, owner) && PoolReady(pool, owner)
    ensures Prepared(c, owner, pool, root, space, c, owner, pool, 0)
  {
  }

  lemma PreparedTwice(c0: Cells, o0: Owner, p0: seq<Frame>, root: Frame, space: nat, c1: Cells, o1: Owner,
                      p1: seq<Frame>, m: nat, c2: Cells, o2: Owner, p2: seq<Frame>, n: nat)
    requires Prepared(c0, o0, p0, root, space, c1, o1, p1, m) && Prepared(c1, o1, p1, root, space, c2, o2, p2, n)
    ensures Prepared(c0, o0, p0, root, space, c2, o2, p2, m + n)
  {
    hide Unmoved, Tree;
    UnmovedTwice(c0, c1, c2, o0, o1);
    GrownTwice(p0, o0, p1, o1, p2, o2, m, n);
  }

  /** alloc_page takes one page and moves nothing, whether or not it is null. */
  lemma PagePrepared(c: Cells, owner: Owner, pool: seq<Frame>, root: Frame, space: nat)
    requires Tree(c, owner) && PoolReady(pool, owner)
    ensures Prepared(c, owner, pool, root, space, PageZeroed(c, pool), owner, RestOf(pool), 1)
    ensures NextPage(pool) != NULL ==> Fresh(owner, NextPage(pool)) && NextPage(pool) !in RestOf(pool)
  {
    hide Tree, Unmoved;
    if pool == [] {
      UnmovedSelf(c, owner);
    } else {
      ZeroKeepsWords(c, owner, pool[0]);
      KeptWordsKeepTree(c, Zeroed(c, pool[0]), owner);
      KeptWordsUnmoved(c, Zeroed(c, pool[0]), owner);
    }
  }

  /** A table hung under an invalid entry on the way. */
  lemma TablePrepared(c: Cells, owner: Owner, pool: seq<Frame>, root: Frame, space: nat, t: Frame, level: Level,
                      va: nat)
    returns (owner': Owner)
    requires Tree(c, owner) && PoolReady(pool, owner) && IsRoot(owner, root, space) && level < 3
    requires NextPage(pool) != NULL
    requires Descend(c, root, 0, va, level) == Some(t) && !IsValid(EntryAt(c, t, level, va))
    ensures var c' := AddTable(c, t, level, va, NextPage(pool));
      && Prepared(c, owner, pool, root, space, c', owner', RestOf(pool), 1) && IsRoot(owner', root, space)
      && Descend(c', root, 0, va, level + 1) == Some(NextPage(pool))
  {
    hide Tree, Unmoved, Descend, Index, Selected, EntryAt, TableWord, IsValid, IsTable, Addr;
    var page := NextPage(pool);
    RootInPlace(owner, root, space, va);
    DescendInPlace(c, owner, root, 0, va, level);
    owner' := owner[page := Place(owner[t].space, level + 1, Selected(va, level))];
    AddTableKeepsTree(c, owner, t, level, va, page);
    AddTableUnmoved(c, owner, t, level, va, page);
    AddTableKeepsDescend(c, owner, t, level, va, page, root, 0);
    TableWordBits(page);
    AddedEntry(c, t, level, va, page);
    DescendOnce(AddTable(c, t, level, va, page), root, 0, va, level, t);
  }

  lemma AddedEntry(c: Cells, t: Frame, level: Level, va: nat, page: Frame)
    ensures EntryAt(AddTable(c, t, level, va, page), t, level, va) == TableWord(page)
  {
  }

  lemma {:induction false} DownPrepared(c: Cells, owner: Owner, pool: seq<Frame>, root: Frame, space: nat, t: Frame,
                                        level: Level, va: nat) returns (owner': Owner)
    requires Tree(c, owner) && PoolReady(pool, owner) && IsRoot(owner, root, space)
    requires Descend(c, root, 0, va, level) == Some(t) && !BlockAbove(c, root, va, 3)
    ensures var d := Down(c, pool, t, level, va);
      && Prepared(c, owner, pool, root, space, d.cells, owner', d.pool, 3 - level) && IsRoot(owner', root, space)
      && (d.ok ==> Descend(d.cells, root, 0, va, 3) == Some(d.table))
      && (|pool| >= 3 - level && NULL !in pool[..3 - level] ==> d.ok)
    decreases 3 - level
  {
    hide Tree, Unmoved, Descend, EntryAt, IsValid, IsTable, Addr, AddTable, Descends, BlockAbove, PoolReady, Prepared;
    PreparedSelf(c, owner, pool, root, space);
    owner' := owner;
    if level < 3 {
      var e := EntryAt(c, t, level, va);
      assert root != NULL by { TreeHasNoNull(c, owner); }
      ReachedOrBlocked(c, root, va, level, 3, t);
      if IsValid(e) {
        DescendOnce(c, root, 0, va, level, t);
        owner' := DownPrepared(c, owner, pool, root, space, Addr(e), level + 1, va);
        var d := Down(c, pool, t, level, va);
        PreparedMore(c, owner, pool, root, space, d.cells, owner', d.pool, 2 - level, 3 - level);
      } else {
        PagePrepared(c, owner, pool, root, space);
        PreparedMore(c, owner, pool, root, space, PageZeroed(c, pool), owner, RestOf(pool), 1, 3 - level);
        if NextPage(pool) != NULL {
          var owner1 := TablePrepared(c, owner, pool, root, space, t, level, va);
          var c1 := AddTable(c, t, level, va, NextPage(pool));
          StillPrepared(c, owner, pool, root, space, c1, owner1, RestOf(pool), 1);
          StillNoBlock(c, c1, owner, root, space, va);
          owner' := DownPrepared(c1, owner1, RestOf(pool), root, space, NextPage(pool), level + 1, va);
          var d := Down(c, pool, t, level, va);
          PreparedTwice(c, owner, pool, root, space, c1, owner1, RestOf(pool), 1, d.cells, owner', d.pool, 2 - level);
        }
      }
    }
  }

  lemma PreparedMore(c: Cells, owner: Owner, pool: seq<Frame>, root: Frame, space: nat,
                     c': Cells, owner': Owner, pool': seq<Frame>, m: nat, n: nat)
    requires Prepared(c, owner, pool, root, space, c', owner', pool', m) && m <= n
    ensures Prepared(c, owner, pool, root, space, c', owner', pool', n)
  {
    hide Tree, Unmoved, PoolReady;
    GrownMore(pool, owner, pool', owner', m, n);
  }

  lemma StillPrepared(c: Cells, owner: Owner, pool: seq<Frame>, root: Frame, space: nat,
                      c': Cells, owner': Owner, pool': seq<Frame>, n: nat)
    requires Prepared(c, owner, pool, root, space, c', owner', pool', n)
    ensures Tree(c', owner') && PoolReady(pool', owner') && Unmoved(c, c', owner) && Extends(owner, owner')
    ensures Grown(pool, owner, pool', owner', n) && RootsKept(owner, owner', root, space)
  {
    hide Tree, Unmoved, PoolReady;
  }

  lemma StillNoBlock(c: Cells, c': Cells, owner: Owner, root: Frame, space: nat, va: nat)
    requires Unmoved(c, c', owner) && IsRoot(owner, root, space)
    ensures BlockAbove(c', root, va, 3) == BlockAbove(c, root, va, 3)
  {
    hide Lookup;
  }

  /** What a map call with a root does where no block covers the address. */
  ghost predicate Effect(m: Mapping, c: Cells, owner: Owner, pool: seq<Frame>, root: Frame, space: nat, va: nat,
                         word: nat, owner': Owner, limit: nat) {
    && Tree(m.cells, owner') && PoolReady(m.pool, owner') && (m.root != NULL ==> IsRoot(owner', m.root, space))
    && (m.ok ==> m.root != NULL) && (root != NULL ==> m.root == root)
    && Mapped(m.ok, c, root, m.cells, m.root, va, 3, word) && OthersUnmoved(c, m.cells, owner, space)
    && Grown(pool, owner, m.pool, owner', limit) && RootsKept(owner, owner', m.root, space)
    && (|pool| >= limit && NULL !in pool[..limit] ==> m.ok)
  }

  lemma RootEffect(c: Cells, owner: Owner, pool: seq<Frame>, root: Frame, space: nat, va: nat, word: nat)
    returns (owner': Owner)
    requires Tree(c, owner) && PoolReady(pool, owner) && IsRoot(owner, root, space) && IsLeafWord(3, word)
    requires !BlockAbove(c, root, va, 3)
    ensures Effect(MapFromRoot(c, pool, root, va, word), c, owner, pool, root, space, va, word, owner', 3)
  {
    hide Tree, Unmoved, OthersUnmoved, Descend, PoolReady, Prepared, Down, PutLeaf, IsLeafWord, Lookup, BlockAbove,
         Grown, RootsKept;
    StartOfDescent(c, root, va);
    TreeHasNoNull(c, owner);
    owner' := DownPrepared(c, owner, pool, root, space, root, 0, va);
    var d := Down(c, pool, root, 0, va);
    StillPrepared(c, owner, pool, root, space, d.cells, owner', d.pool, 3);
    StillSame(c, d.cells, owner, root, space);
    UnmovedSelf(d.cells, owner');
    UnmovedThenOthers(c, d.cells, d.cells, owner, owner', space);
    if d.ok {
      PutLeafEffect(d.cells, owner', root, space, d.table, 3, va, word);
      UnmovedThenOthers(c, d.cells, PutLeaf(d.cells, d.table, 3, va, word), owner, owner', space);
    }
  }

  /** vmap_map_page where no block covers the address: on success exactly the page's entry is new, on
      failure nothing is, and at most four pages are taken, which suffice if none of them is null. */
  lemma MapEffect(c: Cells, owner: Owner, pool: seq<Frame>, root: Frame, space: nat, va: nat, word: nat)
    returns (owner': Owner)
    requires Tree(c, owner) && PoolReady(pool, owner) && (root != NULL ==> IsRoot(owner, root, space))
    requires IsLeafWord(3, word)
    requires !BlockAbove(c, root, va, 3)
    ensures Effect(MapAsWritten(c, pool, root, va, word), c, owner, pool, root, space, va, word, owner', 4)
  {
    hide Tree, Unmoved, OthersUnmoved, PoolReady, MapFromRoot, IsLeafWord, Lookup, Walk, BlockAbove, Grown, RootsKept,
         Prepared, Mapped;
    if root != NULL {
      owner' := RootEffect(c, owner, pool, root, space, va, word);
      EffectMore(MapFromRoot(c, pool, root, va, word), c, owner, pool, root, space, va, word, owner');
    } else {
      PagePrepared(c, owner, pool, root, space);
      StillPrepared(c, owner, pool, root, space, PageZeroed(c, pool), owner, RestOf(pool), 1);
      if NextPage(pool) == NULL {
        owner' := owner;
        NoRoot(c, PageZeroed(c, pool), owner, pool, va, word, space);
      } else {
        owner' := FirstRoot(c, owner, pool, space, va, word);
      }
    }
  }

  lemma EffectMore(m: Mapping, c: Cells, owner: Owner, pool: seq<Frame>, root: Frame, space: nat, va: nat, word: nat,
                   owner': Owner)
    requires Effect(m, c, owner, pool, root, space, va, word, owner', 3)
    ensures Effect(m, c, owner, pool, root, space, va, word, owner', 4)
  {
    hide Tree, OthersUnmoved, PoolReady, Mapped;
    if |pool| >= 4 && NULL !in pool[..4] {
      assert forall i :: 0 <= i < 3 ==> pool[i] == pool[..4][i];
    }
  }

  lemma NoRoot(c: Cells, c': Cells, owner: Owner, pool: seq<Frame>, va: nat, word: nat, space: nat)
    requires Unmoved(c, c', owner) && Tree(c', owner) && PoolReady(RestOf(pool), owner) && NextPage(pool) == NULL
    requires Grown(pool, owner, RestOf(pool), owner, 1)
    ensures Effect(Mapping(false, c', RestOf(pool), NULL), c, owner, pool, NULL, space, va, word, owner, 4)
  {
    hide Tree, PoolReady, Walk;
    GrownMore(pool, owner, RestOf(pool), owner, 1, 4);
  }

  lemma FirstRoot(c: Cells, owner: Owner, pool: seq<Frame>, space: nat, va: nat, word: nat) returns (owner': Owner)
    requires Tree(c, owner) && PoolReady(pool, owner) && IsLeafWord(3, word) && NextPage(pool) != NULL
    ensures Effect(MapFromRoot(PageZeroed(c, pool), RestOf(pool), NextPage(pool), va, word), c, owner, pool, NULL,
                   space, va, word, owner', 4)
  {
    hide Tree, Unmoved, OthersUnmoved, PoolReady, MapFromRoot, IsLeafWord, Walk, Prepared, Zeroed;
    var page, c1, rest := NextPage(pool), PageZeroed(c, pool), RestOf(pool);
    var owner1 := owner[page := Place(space, 0, 0)];
    PagePrepared(c, owner, pool, NULL, space);
    StillPrepared(c, owner, pool, NULL, space, c1, owner, rest, 1);
    NewRoot(c, owner, page, space);
    StillReady(rest, owner, page, Place(space, 0, 0));
    owner' := RootEffect(c1, owner1, rest, page, space, va, word);
    var m := MapFromRoot(c1, rest, page, va, word);
    assert Mapped(m.ok, c, NULL, m.cells, m.root, va, 3, word);
    UnmovedThenOthers(c, c1, m.cells, owner, owner1, space);
    assert Grown(pool, owner, rest, owner1, 1);
    GrownTwice(pool, owner, rest, owner1, m.pool, owner', 1, 3);
    if |pool| >= 4 && NULL !in pool[..4] { RestOfFirst(pool, owner, rest, owner1, 1, 3); }
  }

  lemma StillReady(pool: seq<Frame>, owner: Owner, page: Frame, p: Place)
    requires PoolReady(pool, owner) && page !in pool
    ensures PoolReady(pool, owner[page := p])
  {
  }

  // ------------------------------------------------------------------------ where a block is in the way

  /** What the memory under a block that covers the address holds, as far as the operation reads it: no
      table; and under a 1 GiB block, the word at the level 2 index of the address does not lead to a
      table either. */
  predicate HarmlessBlock(c: Cells, owner: set<Frame>, root: Frame, va: nat) {
    var leaf := Lookup(c, root, va);
    leaf.Leaf? && leaf.level < 3 ==>
      && Addr(leaf.word) !in owner
      && (IsValid(StrayWord(c, leaf, va)) && leaf.level == 1 ==> Addr(StrayWord(c, leaf, va)) !in owner)
  }

  /** The word of a block's memory that is read as if it were a table entry. */
  function StrayWord(c: Cells, leaf: Leaf, va: nat): nat
    requires leaf.Leaf?
  {
    Read(c, Addr(leaf.word), Index(va, 2))
  }

  lemma {:induction false} DownThroughBlock(c: Cells, owner: Owner, pool: seq<Frame>, t: Frame, level: Level, va: nat,
                                            leaf: Leaf)
    requires PoolReady(pool, owner) && Walk(c, t, level, va) == leaf && leaf.Leaf? && leaf.level < 3
    requires Addr(leaf.word) !in owner
    requires leaf.level == 1 && IsValid(StrayWord(c, leaf, va)) ==> Addr(StrayWord(c, leaf, va)) !in owner
    ensures var d := Down(c, pool, t, level, va);
      && WordsKept(c, d.cells, owner) && (d.ok ==> d.table !in owner) && PoolReady(d.pool, owner)
      && (d.ok <==> leaf.level == 2 || IsValid(StrayWord(c, leaf, va)) || NextPage(pool) != NULL)
    decreases 3 - level
  {
    hide Index, IsTable, Addr, TableWord;
    var e := EntryAt(c, t, level, va);
    if Descends(e, level) {
      DownThroughBlock(c, owner, pool, Addr(e), level + 1, va, leaf);
    } else {
      assert leaf == Leaf(level, e);
    }
  }

  /** vmap_map_page where a block covers the address and the block's memory is harmless: no address of
      any address space translates differently, and yet it reports success under every 2 MiB block, and
      under a 1 GiB block unless it needs a page and there is none. */
  lemma MapUnderBlockIsLost(c: Cells, owner: Owner, pool: seq<Frame>, root: Frame, space: nat, va: nat, word: nat)
    requires Tree(c, owner) && PoolReady(pool, owner) && IsRoot(owner, root, space)
    requires BlockAbove(c, root, va, 3) && HarmlessBlock(c, owner.Keys, root, va)
    ensures var m := MapAsWritten(c, pool, root, va, word);
      && Unmoved(c, m.cells, owner) && Tree(m.cells, owner) && PoolReady(m.pool, owner) && m.root == root
      && (m.ok <==> Lookup(c, root, va).level == 2 || IsValid(StrayWord(c, Lookup(c, root, va), va))
                    || NextPage(pool) != NULL)
  {
    hide Tree, Unmoved, Walk, Index, IsValid, IsTable, Addr;
    TreeHasNoNull(c, owner);
    var m := MapAsWritten(c, pool, root, va, word);
    DownThroughBlock(c, owner, pool, root, 0, va, Lookup(c, root, va));
    KeptWordsKeepTree(c, m.cells, owner);
    KeptWordsUnmoved(c, m.cells, owner);
  }

  /** vmap_map_page does what it should exactly where no block covers the address. */
  lemma MapTakesEffectExactly(c: Cells, owner: Owner, pool: seq<Frame>, root: Frame, space: nat, va: nat, word: nat)
    requires Tree(c, owner) && PoolReady(pool, owner) && (root != NULL ==> IsRoot(owner, root, space))
    requires IsLeafWord(3, word)
    requires HarmlessBlock(c, owner.Keys, root, va)
    ensures var m := MapAsWritten(c, pool, root, va, word);
      m.ok ==> (Lookup(m.cells, m.root, va) == Leaf(3, word) <==> !BlockAbove(c, root, va, 3))
  {
    hide Tree, PoolReady, MapAsWritten, IsLeafWord, Walk, HarmlessBlock, Selected;
    var m := MapAsWritten(c, pool, root, va, word);
    if BlockAbove(c, root, va, 3) {
      assert root != NULL;
      MapUnderBlockIsLost(c, owner, pool, root, space, va, word);
      StillSame(c, m.cells, owner, root, space);
    } else {
      var owner' := MapEffect(c, owner, pool, root, space, va, word);
    }
  }

  /** Where the memory under a 1 GiB block holds a word that leads to a level 3 table, the call enters
      the new page there: another address is remapped, in another address space perhaps. */
  lemma StrayWordRemaps(c: Cells, owner: Owner, pool: seq<Frame>, root: Frame, space: nat, va: nat, word: nat,
                        r: Frame, s: nat, b: nat)
    requires Tree(c, owner) && IsRoot(owner, root, space) && IsRoot(owner, r, s) && IsLeafWord(3, word)
    requires Lookup(c, root, va).Leaf? && Lookup(c, root, va).level == 1
    requires IsValid(StrayWord(c, Lookup(c, root, va), va))
    requires Descend(c, r, 0, b, 3) == Some(Addr(StrayWord(c, Lookup(c, root, va), va))) && Index(b, 3) == Index(va, 3)
    ensures var m := MapAsWritten(c, pool, root, va, word);
      m.ok && Tree(m.cells, owner) && Lookup(m.cells, r, b) == Leaf(3, word)
  {
    hide Tree, Index, IsValid, IsTable, Addr, Descend, IsLeafWord, Selected;
    TreeHasNoNull(c, owner);
    var leaf := Lookup(c, root, va);
    BlockLeadsAstray(c, pool, root, 0, va, leaf);
    PutLeafEffect(c, owner, r, s, Addr(StrayWord(c, leaf, va)), 3, b, word);
  }

  lemma {:induction false} BlockLeadsAstray(c: Cells, pool: seq<Frame>, t: Frame, level: Level, va: nat, leaf: Leaf)
    requires Walk(c, t, level, va) == leaf && leaf.Leaf? && leaf.level == 1 && IsValid(StrayWord(c, leaf, va))
    requires level <= 1
    ensures Down(c, pool, t, level, va) == Descent(true, c, pool, Addr(StrayWord(c, leaf, va)))
    decreases 3 - level
  {
    hide Index, IsTable, Addr;
    var e := EntryAt(c, t, level, va);
    if Descends(e, level) {
      LeafIsBelow(c, Addr(e), level + 1, va);
      if level == 0 { BlockLeadsAstray(c, pool, Addr(e), 1, va, leaf); }
    }
  }
}
