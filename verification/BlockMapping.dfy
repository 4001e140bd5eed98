/** Where a block can be mapped: the walk for its addresses has to end, at an invalid entry, no lower
    than the block's own level. */
module BlockMapping {
  import opened Bits
  import opened PageMapping
  import opened Sequences
  import opened Translation

  /** The level of the entry at which the walk from a table ends. */
  function WalkEnd(c: Cells, t: Frame, level: Level, va: nat): (end: Level)
    ensures level <= end
    decreases 3 - level
  {
    var e := EntryAt(c, t, level, va);
    if Descends(e, level) then WalkEnd(c, Addr(e), level + 1, va) else level
  }

  predicate EndsBy(c: Cells, root: Frame, va: nat, level: Level) {
    root == NULL || WalkEnd(c, root, 0, va) <= level
  }

  /** Nothing is mapped at the address, and no table hangs where the block's entry would be. */
  predicate Free(c: Cells, root: Frame, va: nat, level: Level) {
    Lookup(c, root, va) == Unmapped && EndsBy(c, root, va, level)
  }

  ghost predicate SameEnds(c: Cells, r: Frame, c': Cells, r': Frame, level: Level) {
    forall a: nat :: EndsBy(c', r', a, level) <==> EndsBy(c, r, a, level)
  }

  lemma SameEndsTwice(c0: Cells, r0: Frame, c1: Cells, r1: Frame, c2: Cells, r2: Frame, level: Level)
    requires SameEnds(c0, r0, c1, r1, level) && SameEnds(c1, r1, c2, r2, level)
    ensures SameEnds(c0, r0, c2, r2, level)
  {
    hide EndsBy;
  }

  // ------------------------------------------------------------------- what leaves the ends as they are

  lemma {:induction false} KeptWordsEnd(c: Cells, c': Cells, owner: Owner, u: Frame, l: Level, a: nat)
    requires Tree(c, owner) && WordsKept(c, c', owner) && InPlace(owner, u, l, a)
    ensures WalkEnd(c', u, l, a) == WalkEnd(c, u, l, a)
    decreases 3 - l
  {
    hide Index, Selected, IsValid, IsTable, Addr;
    var e := EntryAt(c, u, l, a);
    assert LinkedAt(c, owner, u, a);
    assert EntryAt(c', u, l, a) == e;
    if Descends(e, l) { KeptWordsEnd(c, c', owner, Addr(e), l + 1, a); }
  }

  lemma KeptWordsEnds(c: Cells, c': Cells, owner: Owner, root: Frame, space: nat, level: Level)
    requires Tree(c, owner) && WordsKept(c, c', owner) && IsRoot(owner, root, space)
    ensures SameEnds(c, root, c', root, level)
  {
    hide Tree, WordsKept;
    forall a: nat ensures EndsBy(c', root, a, level) <==> EndsBy(c, root, a, level) {
      RootInPlace(owner, root, space, a);
      KeptWordsEnd(c, c', owner, root, 0, a);
    }
  }

  /** A walk in a zeroed table ends at once. */
  lemma ZeroedEnds(c: Cells, page: Frame, level: Level, a: nat)
    requires forall i :: Read(c, page, i) == 0
    ensures WalkEnd(c, page, level, a) == level
  {
    ZeroIsInvalid();
  }

  /** A new root is a table in which every walk ends at level 0. */
  lemma NewRootEnds(c: Cells, page: Frame, level: Level)
    ensures SameEnds(c, NULL, Zeroed(c, page), page, level)
  {
    hide WalkEnd;
    forall a: nat ensures EndsBy(Zeroed(c, page), page, a, level) { ZeroedEnds(Zeroed(c, page), page, 0, a); }
  }

  lemma {:induction false} AddTableEnd(c: Cells, owner: Owner, t: Frame, k: Level, va: nat, page: Frame, u: Frame,
                                       l: Level, a: nat, level: Level)
    requires Tree(c, owner) && InPlace(owner, t, k, va) && InPlace(owner, u, l, a) && Fresh(owner, page)
    requires k < level && !IsValid(EntryAt(c, t, k, va))
    ensures WalkEnd(AddTable(c, t, k, va, page), u, l, a) <= level <==> WalkEnd(c, u, l, a) <= level
    decreases 3 - l
  {
    hide Index, Selected, IsValid, IsTable, Addr, TableWord;
    var c', e := AddTable(c, t, k, va, page), EntryAt(c, u, l, a);
    assert LinkedAt(c, owner, u, a);
    if u == t && Index(a, l) == Index(va, k) {
      TableWordBits(page);
      AddedEntry(c, t, k, va, page);
      AddedTableIsZero(c, t, k, va, page);
      ZeroedEnds(c', page, k + 1, a);
    } else {
      assert EntryAt(c', u, l, a) == e;
      if Descends(e, l) { AddTableEnd(c, owner, t, k, va, page, Addr(e), l + 1, a, level); }
    }
  }

  lemma AddedTableIsZero(c: Cells, t: Frame, level: Level, va: nat, page: Frame)
    requires page != t
    ensures forall i :: Read(AddTable(c, t, level, va, page), page, i) == 0
  {
  }

  /** A table hung above the level of a block is in nobody's way. */
  lemma AddTableEnds(c: Cells, owner: Owner, root: Frame, space: nat, t: Frame, k: Level, va: nat, page: Frame,
                     level: Level)
    requires Tree(c, owner) && IsRoot(owner, root, space) && InPlace(owner, t, k, va) && Fresh(owner, page)
    requires k < level && !IsValid(EntryAt(c, t, k, va))
    ensures SameEnds(c, root, AddTable(c, t, k, va, page), root, level)
  {
    hide Tree, AddTable, WalkEnd, EntryAt;
    var c' := AddTable(c, t, k, va, page);
    forall a: nat ensures EndsBy(c', root, a, level) <==> EndsBy(c, root, a, level) {
      RootInPlace(owner, root, space, a);
      AddTableEnd(c, owner, t, k, va, page, root, 0, a, level);
    }
  }

  lemma {:induction false} PutLeafEnd(c: Cells, owner: Owner, t: Frame, level: Level, va: nat, word: nat, u: Frame,
                                      l: Level, a: nat)
    requires Tree(c, owner) && InPlace(owner, t, level, va) && InPlace(owner, u, l, a)
    requires !Descends(EntryAt(c, t, level, va), level) && !Descends(word, level)
    ensures WalkEnd(PutLeaf(c, t, level, va, word), u, l, a) == WalkEnd(c, u, l, a)
    decreases 3 - l
  {
    hide Index, Selected, IsValid, IsTable, Addr;
    var c', e := PutLeaf(c, t, level, va, word), EntryAt(c, u, l, a);
    assert LinkedAt(c, owner, u, a);
    if !(u == t && Index(a, l) == Index(va, level)) {
      assert EntryAt(c', u, l, a) == e;
      if Descends(e, l) { PutLeafEnd(c, owner, t, level, va, word, Addr(e), l + 1, a); }
    }
  }

  lemma PutLeafEnds(c: Cells, owner: Owner, root: Frame, space: nat, t: Frame, level: Level, va: nat, word: nat)
    requires Tree(c, owner) && IsRoot(owner, root, space) && InPlace(owner, t, level, va)
    requires !Descends(EntryAt(c, t, level, va), level) && !Descends(word, level)
    ensures SameEnds(c, root, PutLeaf(c, t, level, va, word), root, level)
  {
    hide Tree, WalkEnd, EntryAt, PutLeaf, Descends;
    var c' := PutLeaf(c, t, level, va, word);
    forall a: nat ensures EndsBy(c', root, a, level) <==> EndsBy(c, root, a, level) {
      RootInPlace(owner, root, space, a);
      PutLeafEnd(c, owner, t, level, va, word, root, 0, a);
    }
  }

  // ----------------------------------------------------------------------------- what a free slot is

  lemma {:induction false} EndVia(c: Cells, u: Frame, l: Level, va: nat, level: Level, t: Frame)
    requires l <= level && Descend(c, u, l, va, level) == Some(t)
    ensures WalkEnd(c, u, l, va) == WalkEnd(c, t, level, va)
    decreases level - l
  {
    hide Index, IsValid, IsTable, Addr;
    if l < level { EndVia(c, Addr(EntryAt(c, u, l, va)), l + 1, va, level, t); }
  }

  /** Once there is a table at the block's level, the block's place is free exactly if the entry there is
      invalid. */
  lemma FreeExactly(c: Cells, root: Frame, va: nat, level: Level, t: Frame)
    requires root != NULL && Descend(c, root, 0, va, level) == Some(t)
    ensures Free(c, root, va, level) <==> !IsValid(EntryAt(c, t, level, va))
  {
    hide Index, IsValid, IsTable, Addr, Descend;
    EndVia(c, root, 0, va, level, t);
    WalkVia(c, root, 0, va, level, t);
  }

  lemma EndsSelf(c: Cells, r: Frame, level: Level)
    ensures SameEnds(c, r, c, r, level)
  {
  }

  /** A block in the way is no free place, and a place stays free where leaves and ends stay. */
  lemma FreeAfter(c: Cells, r: Frame, c': Cells, r': Frame, va: nat, level: Level)
    requires SameEnds(c, r, c', r', level) && Lookup(c', r', va) == Lookup(c, r, va)
    ensures Free(c', r', va, level) <==> Free(c, r, va, level)
    ensures BlockAbove(c, r, va, level) ==> !Free(c, r, va, level)
  {
    hide Lookup, EndsBy;
  }

  lemma LeafEnds(word: nat, level: Level)
    requires IsLeafWord(level, word)
    ensures !Descends(word, level)
  {
  }

  // --------------------------------------------------------------------------------- ranges of blocks

  /** The places of all blocks from start to end are free. */
  ghost predicate RangeFree(c: Cells, r: Frame, level: Level, start: nat, end: nat) {
    forall va: nat :: start <= va < end && va % Span(level) == 0 ==> Free(c, r, va, level)
  }

  /** How many pages or blocks a range takes. */
  function Steps(start: nat, end: nat, level: Level): nat
    decreases end - start
  {
    if start < end then 1 + Steps(start + Span(level), end, level) else 0
  }

  lemma {:induction false} StepsOf(start: nat, n: nat, level: Level)
    ensures Steps(start, start + n * Span(level), level) == n
    decreases n
  {
    hide Span;
    if n > 0 { StepsOf(start + Span(level), n - 1, level); }
    assert start + Span(level) + (n - 1) * Span(level) == start + n * Span(level);
  }

  /** What mapping a range asks for beside pages for tables: of blocks, that both ends start aligned and
      that all places are free. */
  ghost predicate Mappable(c: Cells, r: Frame, level: Level, start: nat, end: nat, pStart: nat) {
    end <= start || level == 3
    || (start % Span(level) == 0 && pStart % Span(level) == 0 && RangeFree(c, r, level, start, end))
  }

  /** What is mapped up to an address leaves the place of the block there as it was. */
  lemma FreeStays(c: Cells, r: Frame, c1: Cells, r1: Frame, level: Level, start: nat, va: nat, pStart: nat, flags: nat)
    requires RangeMapped(c, r, c1, r1, level, start, va, pStart, flags) && SameEnds(c, r, c1, r1, level)
    requires Window(va) == Window(start)
    ensures Free(c1, r1, va, level) <==> Free(c, r, va, level)
  {
    hide Lookup, EndsBy, Window, RangeLeaf;
  }

  lemma OneMoreFree(c: Cells, r: Frame, level: Level, start: nat, va: nat)
    requires RangeFree(c, r, level, start, va) && va % Span(level) == 0 && Free(c, r, va, level)
    ensures RangeFree(c, r, level, start, va + Span(level))
  {
    hide Free, Span;
    forall a: nat | start <= a < va + Span(level) && a % Span(level) == 0 ensures Free(c, r, a, level) {
      if va <= a { NoMultipleBetween(va, a, Span(level)); }
    }
  }

  lemma NoMultipleBetween(x: nat, y: nat, n: nat)
    requires n > 0 && x % n == 0 && y % n == 0 && x <= y < x + n
    ensures x == y
  {
    hide Times;
    QuotientRest(x, n);
    QuotientRest(y, n);
    TimesOrder(x / n, y / n, n);
    TimesSum(y / n - x / n, x / n, n);
    TimesRest(y / n - x / n, n, 0);
    if y / n > x / n { TimesLeast(y / n - x / n, n); }
  }

  lemma TimesLeast(k: nat, n: nat)
    requires k > 0
    ensures Times(k, n) >= n
  {
    MulMonotone(1, k, n);
  }

  /** Both addresses of a later block are aligned exactly if both of the range are. */
  lemma LaterAligned(start: nat, va: nat, pStart: nat, n: nat)
    requires n > 0 && start <= va && start % n == 0 && va % n == 0
    ensures (pStart + (va - start)) % n == 0 <==> pStart % n == 0
  {
    hide Times;
    var i, j, k := va / n, start / n, pStart / n;
    QuotientRest(va, n);
    QuotientRest(start, n);
    QuotientRest(pStart, n);
    TimesOrder(j, i, n);
    TimesSum(i - j, j, n);
    TimesSum(i - j, k, n);
    TimesRest(i - j + k, n, pStart % n);
  }

  /** A range that begins with a place that is not free cannot be mapped. */
  lemma Unmappable(c: Cells, r: Frame, level: Level, start: nat, end: nat, va: nat, pStart: nat)
    requires level < 3 && start <= va < end && (start % Span(level) == 0 && start != va ==> va % Span(level) == 0)
    requires !(va % Span(level) == 0 && (pStart + (va - start)) % Span(level) == 0 && Free(c, r, va, level))
    ensures !Mappable(c, r, level, start, end, pStart)
  {
    hide Free, Span;
    if start % Span(level) == 0 == va % Span(level) { LaterAligned(start, va, pStart, Span(level)); }
  }

  lemma NothingFree(c: Cells, r: Frame, level: Level, start: nat)
    ensures RangeFree(c, r, level, start, start) && SameEnds(c, r, c, r, level)
  {
  }

  /** A step takes at most four pages, and leaves those for the other steps. */
  lemma PagesForStep(pool: seq<Frame>, owner: Owner, pool': seq<Frame>, owner': Owner, va: nat, end: nat, level: Level)
    requires Grown(pool, owner, pool', owner', level + 1) && va < end
    ensures HasPages(pool, 4 * Steps(va, end, level)) ==>
              HasPages(pool, level + 1) && HasPages(pool', 4 * Steps(va + Span(level), end, level))
  {
    var n := 4 * Steps(va + Span(level), end, level);
    if HasPages(pool, 4 + n) {
      forall i | 0 <= i < level + 1 + n ensures pool[i] != NULL { assert pool[i] == pool[..4 + n][i]; }
      RestOfFirst(pool, owner, pool', owner', level + 1, n);
    }
  }

  lemma RangeMappable(c: Cells, r: Frame, level: Level, start: nat, end: nat, va: nat, pStart: nat)
    requires end <= va && (start < va ==> start % Span(level) == 0)
    requires level < 3 ==> RangeFree(c, r, level, start, va) && (start < va ==> pStart % Span(level) == 0)
    ensures Mappable(c, r, level, start, end, pStart)
  {
    hide Free, Span;
  }
}
