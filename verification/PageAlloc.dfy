/** The page allocator in place: list heads, one link word and one status word per page. */
module PageAlloc {
  import opened Bits
  import opened Buddy
  import MemoryMap
  import opened Sequences

  const NONE: int := -1

  /** A page status word: [order][free][head][valid], the order from bit 3 up. */
  function Status(order: nat, free: bool): nat {
    order * 8 + (if free then 4 else 0) + 2 + 1
  }

  /** The merge test on a status word: valid, free, head and of this order. */
  predicate IsFreeHead(word: nat, order: nat) {
    word % 2 == 1 && (word / 4) % 2 == 1 && (word / 2) % 2 == 1 && word / 8 == order
  }

  /** Clearing the free bit. */
  function Taken(word: nat): nat {
    if (word / 4) % 2 == 1 then word - 4 else word
  }

  // ----------------------------------------------------------- arrays that represent the lists

  function HeadOf(s: seq<nat>): int {
    if s == [] then NONE else s[0]
  }

  /** The nodes of the list are chained, in order, through their link words. */
  ghost predicate Chained(next: seq<int>, s: seq<nat>) {
    && (forall i :: 0 <= i < |s| ==> s[i] < |next|)
    && (forall i :: 0 <= i < |s| ==> next[s[i]] == HeadOf(s[i + 1..]))
  }

  ghost predicate Chains(heads: seq<int>, next: seq<int>, L: Lists) {
    && |heads| == |L| == MAX_ORDER + 1
    && (forall o :: 0 <= o < |L| ==> heads[o] == HeadOf(L[o]) && Chained(next, L[o]))
  }

  /** A status word says free head of an order exactly when its page is on the list of that order. */
  ghost predicate Marks(bitmap: seq<nat>, L: Lists) {
    && |bitmap| == MAX_TOTAL_PAGES && |L| == MAX_ORDER + 1
    && (forall o, p :: 0 <= o < |L| && p in L[o] ==> p < MAX_TOTAL_PAGES)
    && (forall o, p: nat {:trigger IsFreeHead(bitmap[p], o)} :: 0 <= o < |L| && p < MAX_TOTAL_PAGES ==>
          (IsFreeHead(bitmap[p], o) <==> p in L[o]))
  }

  /** No page is on two lists. */
  lemma MarksExclusive(bitmap: seq<nat>, L: Lists, o: nat, o': nat, p: nat)
    requires Marks(bitmap, L) && o < |L| && o' < |L| && p in L[o] && p in L[o']
    ensures o == o'
  {
    assert IsFreeHead(bitmap[p], o) && IsFreeHead(bitmap[p], o');
  }

  lemma ChainedElsewhere(next: seq<int>, s: seq<nat>, p: nat, x: int)
    requires Chained(next, s) && p !in s && p < |next|
    ensures Chained(next[p := x], s)
  {
  }

  lemma ChainedTail(next: seq<int>, s: seq<nat>)
    requires Chained(next, s) && s != []
    ensures Chained(next, s[1..]) && next[s[0]] == HeadOf(s[1..])
  {
  }

  lemma ChainedCons(next: seq<int>, s: seq<nat>, p: nat)
    requires Chained(next, s) && p < |next| && next[p] == HeadOf(s)
    ensures Chained(next, [p] + s)
  {
  }

  lemma PushChains(heads: seq<int>, next: seq<int>, L: Lists, o: nat, p: nat)
    requires Chains(heads, next, L) && Unlisted(L, p) && o < |L| && p < |next|
    ensures Chains(heads[o := p], next[p := heads[o]], Push(L, o, p))
  {
  }

  lemma PopChains(heads: seq<int>, next: seq<int>, L: Lists, o: nat)
    requires Chains(heads, next, L) && o < |L| && L[o] != []
    ensures L[o][0] < |next| && Chains(heads[o := next[L[o][0]]], next, L[o := L[o][1..]])
  {
  }

  /** Unlinking the node after s[k - 1] rewrites only that node's link word. */
  lemma {:induction false} UnlinkChained(next: seq<int>, s: seq<nat>, k: nat)
    requires Chained(next, s) && Distinct(s) && 0 < k < |s|
    ensures Chained(next[s[k - 1] := next[s[k]]], Unlink(s, s[k]))
    decreases k
  {
    hide Chained, Unlink, Distinct, HeadOf;
    var p, x := s[k - 1], s[k];
    ChainedInRange(next, s, k - 1);
    ChainedInRange(next, s, k);
    var next' := next[p := next[x]];
    var t := s[1..];
    UnlinkTail(s, k);
    ChainedTail(next, s);
    if k == 1 {
      ChainedTail(next, t);
      ChainedElsewhere(next, t[1..], s[0], next[x]);
      ChainedCons(next', t[1..], s[0]);
    } else {
      UnlinkChained(next, t, k - 1);
      ChainedInRange(next, s, 0);
      ChainedCons(next', Unlink(t, x), s[0]);
    }
  }

  lemma ChainedInRange(next: seq<int>, s: seq<nat>, k: nat)
    requires Chained(next, s) && k < |s|
    ensures s[k] < |next|
  {
  }

  /** Unlinking the node at place k, seen from the first node. */
  lemma UnlinkTail(s: seq<nat>, k: nat)
    requires Distinct(s) && 0 < k < |s|
    ensures var (t, x) := (s[1..], s[k]);
      && Distinct(t) && t[k - 1] == x && Unlink(s, x) == [s[0]] + Unlink(t, x)
      && (k == 1 ==> Unlink(t, x) == t[1..] && s[0] !in t[1..])
      && (k > 1 ==> t[k - 2] == s[k - 1] && HeadOf(Unlink(t, x)) == HeadOf(t) && s[0] != s[k - 1])
  {
    var t := s[1..];
    assert t[k - 1] == s[k] && t[0] == s[1];
  }

  lemma PushMarks(bitmap: seq<nat>, L: Lists, o: nat, p: nat)
    requires Marks(bitmap, L) && Unlisted(L, p) && o < |L| && p < MAX_TOTAL_PAGES
    ensures Marks(bitmap[p := Status(o, true)], Push(L, o, p))
  {
  }

  lemma TakeMarks(bitmap: seq<nat>, L: Lists, o: nat, p: nat, word: nat)
    requires Marks(bitmap, L) && NoRepeats(L) && o < |L| && p in L[o]
    requires forall k :: !IsFreeHead(word, k)
    ensures Marks(bitmap[p := word], L[o := Unlink(L[o], p)])
  {
    UnlinkMembers(L[o], p);
    forall k | 0 <= k < |L| && p in L[k] ensures k == o { MarksExclusive(bitmap, L, o, k, p); }
  }

  lemma ListedInRange(bitmap: seq<nat>, L: Lists, o: nat, p: nat)
    requires Marks(bitmap, L) && o <= MAX_ORDER && (o < |L| ==> p in L[o])
    ensures |bitmap| == MAX_TOTAL_PAGES && |L| == MAX_ORDER + 1 && p < MAX_TOTAL_PAGES
  {
  }

  lemma MarkTells(bitmap: seq<nat>, L: Lists, o: nat, p: nat)
    requires Marks(bitmap, L) && o <= MAX_ORDER && p < MAX_TOTAL_PAGES
    ensures |bitmap| == MAX_TOTAL_PAGES && |L| == MAX_ORDER + 1 && (IsFreeHead(bitmap[p], o) <==> p in L[o])
  {
  }

  lemma TakenIsNotFree(word: nat)
    ensures forall k :: !IsFreeHead(Taken(word), k)
  {
    if (word / 4) % 2 == 1 { assert (word - 4) / 4 == word / 4 - 1; }
    assert (Taken(word) / 4) % 2 == 0;
  }

  /** A page that is the head of its list leaves the rest of the list behind. */
  lemma HeadIsFirst(heads: seq<int>, next: seq<int>, L: Lists, o: nat, p: nat)
    requires Chains(heads, next, L) && NoRepeats(L) && o < |L| && p in L[o]
    ensures L[o] != [] && heads[o] == L[o][0]
    ensures heads[o] == p ==> Unlink(L[o], p) == L[o][1..]
  {
  }

  lemma NeverFreeHead(order: nat)
    ensures forall k :: !IsFreeHead(Status(order, false), k)
  {
  }

  /** Rewriting the status word of a page that is on no list. */
  lemma OtherMarks(bitmap: seq<nat>, L: Lists, p: nat, word: nat)
    requires Marks(bitmap, L) && Unlisted(L, p) && p < MAX_TOTAL_PAGES
    requires forall k :: !IsFreeHead(word, k)
    ensures Marks(bitmap[p := word], L)
  {
  }

  lemma UnlinkChains(heads: seq<int>, next: seq<int>, L: Lists, o: nat, k: nat, bitmap: seq<nat>)
    requires Chains(heads, next, L) && Marks(bitmap, L) && NoRepeats(L) && o < |L| && 0 < k < |L[o]|
    ensures Chains(heads, next[L[o][k - 1] := next[L[o][k]]], L[o := Unlink(L[o], L[o][k])])
  {
    var s := L[o];
    var p, x := s[k - 1], next[s[k]];
    UnlinkChained(next, s, k);
    assert HeadOf(Unlink(s, s[k])) == HeadOf(s) by { assert s[0] != s[k]; }
    forall i | 0 <= i < |L| && i != o ensures Chained(next[p := x], L[i]) {
      if p in L[i] { MarksExclusive(bitmap, L, i, o, p); }
      ChainedElsewhere(next, L[i], p, x);
    }
  }

  // --------------------------------------------------------------------------- the memory map

  /** The page ranges of the first n entries of the kernel's memory map that are usable. */
  function UsableRanges(memoryMap: seq<MemoryMap.Entry>, n: nat): seq<Range>
    requires n <= |memoryMap|
  {
    if n == 0 then []
    else
      var before := UsableRanges(memoryMap, n - 1);
      var d := memoryMap[n - 1];
      if d.usable then before + [Range(d.start / MemoryMap.PAGE_SIZE, d.pages)] else before
  }

  lemma {:induction false} AddRangesPrefix(a: seq<Range>, b: seq<Range>, n: nat)
    requires n <= |a| && n <= |b| && a[..n] == b[..n]
    ensures AddRanges(a, n) == AddRanges(b, n) && UsablePages(a, n) == UsablePages(b, n)
  {
    if n > 0 {
      assert a[..n - 1] == a[..n][..n - 1] == b[..n][..n - 1] == b[..n - 1];
      assert a[n - 1] == a[..n][n - 1] == b[..n][n - 1] == b[n - 1];
      AddRangesPrefix(a, b, n - 1);
    }
  }

  lemma {:induction false} UsableRangesGrow(memoryMap: seq<MemoryMap.Entry>, i: nat, j: nat)
    requires i <= j <= |memoryMap|
    ensures UsableRanges(memoryMap, i) <= UsableRanges(memoryMap, j)
    decreases j
  {
    if i < j { UsableRangesGrow(memoryMap, i, j - 1); }
  }

  lemma AddRangesOne(ranges: seq<Range>, r: Range)
    ensures AddRanges(ranges + [r], |ranges| + 1) == AddRange(AddRanges(ranges, |ranges|), r.start, r.count)
    ensures UsablePages(ranges + [r], |ranges| + 1) == UsablePages(ranges, |ranges|) + RangePages(r)
  {
    assert (ranges + [r])[..|ranges|] == ranges == ranges[..|ranges|];
    AddRangesPrefix(ranges + [r], ranges, |ranges|);
  }

  /** What the loop of page_alloc_init knows of the usable descriptor it has reached. */
  lemma NextRange(memoryMap: seq<MemoryMap.Entry>, i: nat, before: seq<Range>)
    requires i < |memoryMap| && memoryMap[i].usable && before == UsableRanges(memoryMap, i)
    requires Disjoint(UsableRanges(memoryMap, |memoryMap|))
    ensures var (start, count) := (memoryMap[i].start / MemoryMap.PAGE_SIZE, memoryMap[i].pages);
      var after := UsableRanges(memoryMap, i + 1);
      && start + count <= MAX_TOTAL_PAGES && Untouched(UsablePages(before, |before|), start, start + count)
      && |after| == |before| + 1
      && AddRanges(after, |after|) == AddRange(AddRanges(before, |before|), start, count)
      && UsablePages(after, |after|) == UsablePages(before, |before|) + RangePages(Range(start, count))
  {
    hide Holds, AddRange, AddRanges, RangePages, UsablePages, Untouched;
    var all := UsableRanges(memoryMap, |memoryMap|);
    var r := Range(memoryMap[i].start / MemoryMap.PAGE_SIZE, memoryMap[i].pages);
    UsableRangesGrow(memoryMap, i + 1, |memoryMap|);
    AddRangesOne(before, r);
    assert before + [r] <= all;
    assert all[|before|] == r && all[..|before|] == before == before[..|before|];
    AddRangesPrefix(all, before, |before|);
    InitTiles(all, |before|);
  }

  lemma SplitDownOnce(L: Lists, p: nat, c: nat, o: nat)
    requires |L| == MAX_ORDER + 1 && o < c <= MAX_ORDER
    ensures |Push(L, c - 1, p + Pow2(c - 1))| == |L|
    ensures SplitDown(L, p, c, o) == SplitDown(Push(L, c - 1, p + Pow2(c - 1)), p, c - 1, o)
  {
  }

  lemma AddRangeOnce(L: Lists, at: nat, remaining: nat)
    requires |L| == MAX_ORDER + 1 && remaining > 0
    ensures var o := LargestFit(at, remaining, |L| - 1);
      AddRange(L, at, remaining) == AddRange(Push(L, o, at), at + Pow2(o), remaining - Pow2(o))
  {
  }

  lemma EmptyRange(start: nat)
    ensures RangePages(Range(start, 0)) == {}
  {
  }

  lemma NothingHeld()
    ensures Holds(NoLists(), {}, {})
  {
  }

  lemma NothingMarked(bitmap: seq<nat>)
    requires |bitmap| == MAX_TOTAL_PAGES && forall p :: 0 <= p < |bitmap| ==> bitmap[p] == 0
    ensures Marks(bitmap, NoLists())
  {
    assert forall k :: !IsFreeHead(0, k);
  }

  // ------------------------------------------------------------------------------ the allocator

  class PageAllocator {
    const freeLists: array<int>
    const nextPage: array<int>
    const bitmap: array<nat>

    /** The free lists the arrays represent, the blocks callers hold, and all the pages given. */
    ghost var lists: Lists
    ghost var live: set<Block>
    ghost var usable: set<nat>

    /** The arrays have the sizes of the source's static ones. */
    ghost predicate Allocated() {
      && freeLists.Length == MAX_ORDER + 1 && nextPage.Length == MAX_TOTAL_PAGES && bitmap.Length == MAX_TOTAL_PAGES
      && freeLists != nextPage && bitmap as object != freeLists && bitmap as object != nextPage
    }

    ghost predicate Represents()
      reads this, freeLists, nextPage, bitmap
    {
      && Allocated() && NoRepeats(lists)
      && Chains(freeLists[..], nextPage[..], lists)
      && Marks(bitmap[..], lists)
    }

    ghost predicate Valid()
      reads this, freeLists, nextPage, bitmap
    {
      Represents() && Holds(lists, live, usable)
    }

    /** The static state before page_alloc_init: no lists, and a clear bitmap. */
    constructor ()
      ensures Valid() && lists == NoLists() && live == {} && usable == {}
      ensures fresh(freeLists) && fresh(nextPage) && fresh(bitmap)
    {
      freeLists := new int[MAX_ORDER + 1](_ => NONE);
      nextPage := new int[MAX_TOTAL_PAGES](_ => NONE);
      bitmap := new nat[MAX_TOTAL_PAGES](_ => 0);
      lists, live, usable := NoLists(), {}, {};
      new;
      NothingHeld();
      NothingMarked(bitmap[..]);
      assert Chains(freeLists[..], nextPage[..], lists);
    }

    method FreeListPush(order: nat, page: nat) returns (ok: bool)
      requires Represents() && Unlisted(lists, page)
      modifies this`lists, freeLists, nextPage, bitmap
      ensures ok == (order <= MAX_ORDER && page < MAX_TOTAL_PAGES)
      ensures Represents()
      ensures lists == if ok then Push(old(lists), order, page) else old(lists)
    {
      if order > MAX_ORDER { return false; }
      if page >= MAX_TOTAL_PAGES { return false; }
      PushChains(freeLists[..], nextPage[..], lists, order, page);
      PushMarks(bitmap[..], lists, order, page);
      PushSet(lists, order, page);
      nextPage[page] := freeLists[order];
      freeLists[order] := page;
      bitmap[page] := Status(order, true);
      lists := Push(lists, order, page);
      assert nextPage[..] == old(nextPage[..])[page := old(freeLists[order])];
      assert freeLists[..] == old(freeLists[..])[order := page];
      assert bitmap[..] == old(bitmap[..])[page := Status(order, true)];
      return true;
    }

    method FreeListPop(order: nat) returns (found: Option<nat>)
      requires Represents() && order <= MAX_ORDER
      modifies this`lists, freeLists, bitmap
      ensures Represents()
      ensures found.None? <==> old(lists[order]) == []
      ensures lists == if found.None? then old(lists) else old(lists)[order := old(lists[order])[1..]]
      ensures found.Some? ==> found.value == old(lists[order])[0]
    {
      var page := freeLists[order];
      if page == NONE { return None; }
      assert page == lists[order][0] && Unlink(lists[order], page) == lists[order][1..];
      PopChains(freeLists[..], nextPage[..], lists, order);
      TakeMarks(bitmap[..], lists, order, page, Status(order, false));
      UnlinkSet(lists, order, page);
      bitmap[page] := Status(order, false);
      freeLists[order] := nextPage[page];
      lists := lists[order := lists[order][1..]];
      assert freeLists[..] == old(freeLists[..])[order := old(nextPage[page])];
      assert bitmap[..] == old(bitmap[..])[page := Status(order, false)];
      return Some(page);
    }

    /** Walk the list of the order to the node before the buddy. */
    method FindPredecessor(order: nat, buddy: nat) returns (current: nat, ghost k: nat)
      requires Represents() && order <= MAX_ORDER && buddy in lists[order] && freeLists[order] != buddy
      ensures current < nextPage.Length && nextPage[current] == buddy && current in lists[order]
      ensures k + 1 < |lists[order]| && lists[order][k] == current && lists[order][k + 1] == buddy
    {
      ghost var s := lists[order];
      current := freeLists[order];
      k := 0;
      while nextPage[current] != buddy
        invariant k < |s| && current == s[k] && current < nextPage.Length
        invariant buddy in s[k + 1..]
        decreases |s| - k
      {
        assert nextPage[..][s[k]] == HeadOf(s[k + 1..]);
        current := nextPage[current];
        k := k + 1;
      }
      assert nextPage[..][s[k]] == HeadOf(s[k + 1..]);
    }

    /** Unlink the buddy from the list of the order and clear its free bit. */
    method UnlinkBuddy(order: nat, buddy: nat)
      requires Represents() && order <= MAX_ORDER && buddy in lists[order]
      modifies this`lists, freeLists, nextPage, bitmap
      ensures Represents()
      ensures lists == old(lists)[order := Unlink(old(lists[order]), buddy)]
    {
      hide Chains, Marks, NoRepeats, Unlink, Taken;
      ListedInRange(bitmap[..], lists, order, buddy);
      TakenIsNotFree(bitmap[buddy]);
      UnlinkSet(lists, order, buddy);
      TakeMarks(bitmap[..], lists, order, buddy, Taken(bitmap[buddy]));
      HeadIsFirst(freeLists[..], nextPage[..], lists, order, buddy);
      if freeLists[order] == buddy {
        PopChains(freeLists[..], nextPage[..], lists, order);
        freeLists[order] := nextPage[buddy];
        assert freeLists[..] == old(freeLists[..])[order := nextPage[buddy]];
      } else {
        var current, k := FindPredecessor(order, buddy);
        UnlinkChains(freeLists[..], nextPage[..], lists, order, k + 1, bitmap[..]);
        nextPage[current] := nextPage[buddy];
        assert nextPage[..] == old(nextPage[..])[current := old(nextPage[buddy])];
      }
      bitmap[buddy] := Taken(bitmap[buddy]);
      assert bitmap[..] == old(bitmap[..])[buddy := Taken(old(bitmap[buddy]))];
      lists := lists[order := Unlink(lists[order], buddy)];
    }

    /** The first loop of page_alloc_block: pop from the smallest order that has a free block. */
    method PopSmallest(order: nat) returns (current: nat, page: nat)
      requires Valid()
      modifies this`lists, freeLists, bitmap
      ensures Represents() && current == FirstNonEmpty(old(lists), order)
      ensures current > MAX_ORDER ==> lists == old(lists)
      ensures current <= MAX_ORDER ==>
                page == old(lists)[current][0] && lists == old(lists)[current := old(lists)[current][1..]]
    {
      current, page := order, 0;
      while current <= MAX_ORDER
        invariant order <= current && Represents() && lists == old(lists)
        invariant FirstNonEmpty(lists, order) == FirstNonEmpty(lists, current)
      {
        var popped := FreeListPop(current);
        if popped.Some? {
          page := popped.value;
          return;
        }
        current := current + 1;
      }
    }

    /** The second loop: halve the block, pushing the upper half, until it has the order wanted. */
    method SplitTo(order: nat, from: nat, page: nat)
      requires Represents() && order <= from <= MAX_ORDER == |lists| - 1
      requires Block(from, page) !in live && Holds(lists, live + {Block(from, page)}, usable)
      modifies this`lists, freeLists, nextPage, bitmap
      ensures Represents() && lists == SplitDown(old(lists), page, from, order)
      ensures Block(order, page) !in live && Holds(lists, live + {Block(order, page)}, usable)
    {
      hide Represents, Holds, Push, Pow2;
      var current := from;
      ghost var goal := SplitDown(lists, page, from, order);
      while current > order
        invariant order <= current <= MAX_ORDER == |lists| - 1 && Represents()
        invariant Block(current, page) !in live && Holds(lists, live + {Block(current, page)}, usable)
        invariant SplitDown(lists, page, current, order) == goal
      {
        SplitDownOnce(lists, page, current, order);
        current := current - 1;
        PushHalf(current, page);
      }
    }

    method PushHalf(order: nat, page: nat)
      requires Represents() && order < MAX_ORDER
      requires Block(order + 1, page) !in live && Holds(lists, live + {Block(order + 1, page)}, usable)
      modifies this`lists, freeLists, nextPage, bitmap
      ensures Represents() && lists == Push(old(lists), order, page + Pow2(order))
      ensures Block(order, page) !in live && Holds(lists, live + {Block(order, page)}, usable)
    {
      hide Holds;
      SplitStep(lists, page, order, live, usable);
      var pushed := FreeListPush(order, page + Pow2(order));
    }

    method AllocateBlock(order: nat) returns (found: Option<nat>)
      requires Valid()
      modifies this`lists, this`live, freeLists, nextPage, bitmap
      ensures Valid()
      ensures found.Some? <==> AllocBlock(old(lists), order).Some?
      ensures found.None? ==> lists == old(lists) && live == old(live)
      ensures found.Some? ==> (found.value, lists) == AllocBlock(old(lists), order).value
      ensures found.Some? ==> Block(order, found.value) !in old(live) && live == old(live) + {Block(order, found.value)}
    {
      var current, page := PopSmallest(order);
      if current > MAX_ORDER { return None; }
      PopStep(old(lists), current, live, usable);
      SplitTo(order, current, page);
      var block := Block(order, page);
      HeldIsUnlisted(lists, live + {block}, usable, block, page);
      assert page < MAX_TOTAL_PAGES by { assert block in FreeSet(lists) + (live + {block}); }
      NeverFreeHead(order);
      OtherMarks(bitmap[..], lists, page, Status(order, false));
      ghost var before := bitmap[..];
      bitmap[page] := Status(order, false);
      assert bitmap[..] == before[page := Status(order, false)];
      live := live + {block};
      return Some(page);
    }

    /** One pass of the merge loop: the block joined with its buddy, unless the buddy is not free. */
    method MergeOnce(order: nat, page: nat) returns (lower: Option<nat>)
      requires Represents() && order < MAX_ORDER
      requires Block(order, page) !in live && Holds(lists, live + {Block(order, page)}, usable)
      modifies this`lists, freeLists, nextPage, bitmap
      ensures Represents()
      ensures lower.None? ==> lists == old(lists) && !Mergeable(lists, page, order)
      ensures lower.Some? ==> Block(order + 1, lower.value) !in live
      ensures lower.Some? ==> Holds(lists, live + {Block(order + 1, lower.value)}, usable)
      ensures lower.Some? ==> FreeBlock(lists, lower.value, order + 1) == FreeBlock(old(lists), page, order)
    {
      hide Holds, Xor, Pow2, Chains, NoRepeats, IsFreeHead;
      var buddy := Xor(page, Pow2(order));
      if buddy >= MAX_TOTAL_PAGES { return None; }
      MarkTells(bitmap[..], lists, order, buddy);
      if !IsFreeHead(bitmap[buddy], order) { return None; }
      MergeStep(lists, page, order, live, usable);
      UnlinkBuddy(order, buddy);
      return Some(Lower(page, buddy));
    }

    method Free(page: nat, order: nat)
      requires Valid() && order <= MAX_ORDER && Block(order, page) in live
      modifies this`lists, this`live, freeLists, nextPage, bitmap
      ensures Valid()
      ensures lists == FreeBlock(old(lists), page, order) && live == old(live) - {Block(order, page)}
    {
      hide Holds, Pow2, Chains, NoRepeats, IsFreeHead;
      var current, merged := order, page;
      live := live - {Block(order, page)};
      assert live + {Block(order, page)} == old(live);
      while current < MAX_ORDER
        invariant current <= MAX_ORDER && Represents() && live == old(live) - {Block(order, page)}
        invariant Block(current, merged) !in live && Holds(lists, live + {Block(current, merged)}, usable)
        invariant FreeBlock(lists, merged, current) == FreeBlock(old(lists), page, order)
      {
        var lower := MergeOnce(current, merged);
        if lower == None { break; }
        current, merged := current + 1, lower.value;
      }
      PushStep(lists, merged, current, live, usable);
      var pushed := FreeListPush(current, merged);
    }

    /** The first two loops of page_alloc_init: empty lists and a clear bitmap. */
    method Clear()
      requires Allocated()
      modifies this, freeLists, bitmap
      ensures Valid() && lists == NoLists() && live == {} && usable == {}
    {
      for i := 0 to MAX_ORDER + 1
        invariant forall k :: 0 <= k < i ==> freeLists[k] == NONE
      {
        freeLists[i] := NONE;
      }
      for i := 0 to MAX_TOTAL_PAGES
        invariant forall k :: 0 <= k < i ==> bitmap[k] == 0
        invariant forall k :: 0 <= k <= MAX_ORDER ==> freeLists[k] == NONE
      {
        bitmap[i] := 0;
      }
      lists, live, usable := NoLists(), {}, {};
      NothingHeld();
      NothingMarked(bitmap[..]);
    }

    /** page_alloc_init: clear everything, then push the usable descriptors in order. */
    method Init(memoryMap: seq<MemoryMap.Entry>) returns (ok: bool)
      requires Allocated()
      requires Disjoint(UsableRanges(memoryMap, |memoryMap|))
      modifies this, freeLists, nextPage, bitmap
      ensures ok && Valid() && live == {}
      ensures var ranges := UsableRanges(memoryMap, |memoryMap|);
        lists == AddRanges(ranges, |ranges|) && usable == UsablePages(ranges, |ranges|)
    {
      hide Represents, Holds, Untouched, AddRange, Disjoint, RangePages;
      Clear();
      for i := 0 to |memoryMap|
        invariant Valid() && live == {}
        invariant lists == AddRanges(UsableRanges(memoryMap, i), |UsableRanges(memoryMap, i)|)
        invariant usable == UsablePages(UsableRanges(memoryMap, i), |UsableRanges(memoryMap, i)|)
      {
        if memoryMap[i].usable {
          ghost var before := UsableRanges(memoryMap, i);
          NextRange(memoryMap, i, before);
          ok := AddPages(memoryMap[i].start / MemoryMap.PAGE_SIZE, memoryMap[i].pages);
          if !ok { return; }
        }
      }
      ok := true;
    }

    /** The largest order whose block fits the remaining pages and starts aligned. */
    method FindOrder(at: nat, remaining: nat) returns (order: nat)
      requires remaining > 0
      ensures order == LargestFit(at, remaining, MAX_ORDER)
    {
      order := MAX_ORDER;
      while order > 0
        invariant order <= MAX_ORDER
        invariant LargestFit(at, remaining, MAX_ORDER) == LargestFit(at, remaining, order)
      {
        var blockPages := Pow2(order);
        if blockPages <= remaining && at % blockPages == 0 { break; }
        order := order - 1;
      }
    }

    /** Push the largest block that fits at the start of the remaining pages. */
    method PushLargest(at: nat, remaining: nat) returns (ok: bool, n: nat)
      requires Valid() && live == {} && remaining > 0 && at + remaining <= MAX_TOTAL_PAGES
      requires Untouched(usable, at, at + remaining)
      modifies this`lists, this`usable, freeLists, nextPage, bitmap
      ensures ok && Valid() && n <= remaining && n == Pow2(LargestFit(at, remaining, |old(lists)| - 1))
      ensures lists == Push(old(lists), LargestFit(at, remaining, |old(lists)| - 1), at)
      ensures usable == old(usable) + RangePages(Range(at, n)) && Untouched(usable, at + n, at + remaining)
    {
      var order := FindOrder(at, remaining);
      n := Pow2(order);
      AddStep(lists, at, remaining, usable);
      ok := FreeListPush(order, at);
      usable := usable + RangePages(Range(at, n));
    }

    /** The loop over one usable descriptor. */
    method AddPages(start: nat, count: nat) returns (ok: bool)
      requires Valid() && live == {} && start + count <= MAX_TOTAL_PAGES && |lists| == MAX_ORDER + 1
      requires Untouched(usable, start, start + count)
      modifies this`lists, this`usable, freeLists, nextPage, bitmap
      ensures ok && Valid() && lists == AddRange(old(lists), start, count)
      ensures usable == old(usable) + RangePages(Range(start, count))
    {
      hide Represents, Holds, RangePages, LargestFit, Push, Untouched, Pow2;
      var remaining, at := count, start;
      ghost var goal, before := AddRange(lists, start, count), usable;
      EmptyRange(start);
      while remaining > 0
        invariant 0 <= remaining <= count && at + remaining == start + count
        invariant Valid() && Untouched(usable, at, at + remaining) && |lists| == MAX_ORDER + 1
        invariant AddRange(lists, at, remaining) == goal
        invariant usable == before + RangePages(Range(start, count - remaining))
      {
        AddRangeOnce(lists, at, remaining);
        var pushed, n := PushLargest(at, remaining);
        if !pushed { return false; }
        RangeSplits(before, start, count - remaining, count - remaining + n);
        remaining := remaining - n;
        at := at + n;
      }
      return true;
    }
  }
}
