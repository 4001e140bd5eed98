/** The buddy page allocator on values: what one allocation and one release do to the eleven
    free lists, and what every run of them keeps. Pages are page frame numbers. */
module Buddy {
  import opened Bits
  import opened Sequences

  const MAX_ORDER: nat := 10
  const MAX_TOTAL_PAGES: nat := 0x1000000

  datatype Block = Block(order: nat, page: nat)

  /** lists[o] holds the first pages of the free blocks of 2^o pages, head first. */
  type Lists = seq<seq<nat>>

  predicate Covers(b: Block, x: int) {
    b.page <= x < b.page + Pow2(b.order)
  }

  ghost predicate Covered(S: set<Block>, x: int) {
    exists b :: b in S && Covers(b, x)
  }

  predicate WellPlaced(b: Block) {
    && b.order <= MAX_ORDER
    && b.page % Pow2(b.order) == 0
    && b.page + Pow2(b.order) <= MAX_TOTAL_PAGES
  }

  predicate Apart(a: Block, b: Block) {
    a.page + Pow2(a.order) <= b.page || b.page + Pow2(b.order) <= a.page
  }

  ghost predicate Packed(S: set<Block>) {
    && (forall b :: b in S ==> WellPlaced(b))
    && (forall a, b :: a in S && b in S && a != b ==> Apart(a, b))
  }

  /** The blocks are naturally aligned, overlap nowhere and cover exactly the given pages. */
  ghost predicate Tiles(S: set<Block>, pages: set<nat>) {
    && Packed(S)
    && (forall x: nat :: Covered(S, x) <==> x in pages)
  }

  function BuddyPage(page: nat, order: nat): nat {
    Xor(page, Pow2(order))
  }

  /** No two buddies below the largest order are both in the set. */
  ghost predicate Coalesced(S: set<Block>) {
    forall b :: b in S && b.order < MAX_ORDER ==> Block(b.order, BuddyPage(b.page, b.order)) !in S
  }

  lemma BuddyOfLower(p: nat, k: nat)
    requires p % Pow2(k + 1) == 0
    ensures BuddyPage(p, k) == p + Pow2(k) && BuddyPage(p + Pow2(k), k) == p
    ensures p % Pow2(k) == 0 && (p + Pow2(k)) % Pow2(k) == 0
  {
    AlignedDown(p, Pow2(k));
    HalfAligned(p, Pow2(k));
    HalfAligned(p + Pow2(k), Pow2(k));
    XorFlipsBit(p, k);
    XorFlipsBit(p + Pow2(k), k);
  }

  /** The buddy of an aligned block is the other half of the aligned block of twice the size. */
  lemma BuddyIsOtherHalf(p: nat, k: nat)
    requires p % Pow2(k) == 0
    ensures var q := BuddyPage(p, k); var low := if p < q then p else q;
      && low % Pow2(k + 1) == 0 && q % Pow2(k) == 0
      && ((p == low && q == low + Pow2(k)) || (q == low && p == low + Pow2(k)))
  {
    HalfAligned(p, Pow2(k));
    XorFlipsBit(p, k);
    if p % Pow2(k + 1) == 0 {
      BuddyOfLower(p, k);
    } else {
      BuddyOfLower(p - Pow2(k), k);
    }
  }

  // ------------------------------------------------------------------ splitting and merging

  /** Exchanging blocks for blocks that cover the same pages keeps the coverage. */
  lemma ExchangeCovers(S: set<Block>, gone: set<Block>, come: set<Block>, x: nat)
    requires gone <= S
    requires Covered(gone, x) <==> Covered(come, x)
    ensures Covered(S - gone + come, x) <==> Covered(S, x)
  {
  }

  lemma HalvesCover(k: nat, p: nat, x: nat)
    ensures Covered({Block(k + 1, p)}, x) <==> Covered({Block(k, p), Block(k, p + Pow2(k))}, x)
  {
  }

  lemma SplitTiles(S: set<Block>, k: nat, p: nat, pages: set<nat>)
    requires Tiles(S, pages) && Block(k + 1, p) in S
    ensures Block(k, p) !in S && Block(k, p + Pow2(k)) !in S
    ensures Tiles(S - {Block(k + 1, p)} + {Block(k, p), Block(k, p + Pow2(k))}, pages)
  {
    hide Pow2, BuddyPage;
    Pow2Step(k + 1);
    var whole, low, high := Block(k + 1, p), Block(k, p), Block(k, p + Pow2(k));
    var T := S - {whole} + {low, high};
    assert WellPlaced(whole);
    BuddyOfLower(p, k);
    forall b | b in S && b != whole ensures Apart(b, low) && Apart(b, high) {
      assert Apart(b, whole);
    }
    assert Packed(T);
    forall x: nat ensures Covered(T, x) <==> x in pages {
      HalvesCover(k, p, x);
      ExchangeCovers(S, {whole}, {low, high}, x);
    }
  }

  lemma MergeTiles(S: set<Block>, k: nat, p: nat, pages: set<nat>)
    requires Tiles(S, pages) && Block(k, p) in S && Block(k, p + Pow2(k)) in S
    requires k < MAX_ORDER && p % Pow2(k + 1) == 0
    ensures Block(k + 1, p) !in S
    ensures Tiles(S - {Block(k, p), Block(k, p + Pow2(k))} + {Block(k + 1, p)}, pages)
  {
    hide Pow2, BuddyPage;
    Pow2Step(k + 1);
    var whole, low, high := Block(k + 1, p), Block(k, p), Block(k, p + Pow2(k));
    var T := S - {low, high} + {whole};
    assert WellPlaced(low) && WellPlaced(high);
    assert whole !in S by { assert !Apart(whole, low); }
    forall b | b in S && b != low && b != high ensures Apart(b, whole) {
      assert Apart(b, low) && Apart(b, high);
    }
    assert Packed(T);
    forall x: nat ensures Covered(T, x) <==> x in pages {
      HalvesCover(k, p, x);
      ExchangeCovers(S, {low, high}, {whole}, x);
    }
  }

  // ------------------------------------------------------------------------- the free lists

  ghost function FreeSet(L: Lists): set<Block> {
    set o, p | 0 <= o < |L| && p in L[o] :: Block(o, p)
  }

  ghost predicate NoRepeats(L: Lists) {
    && |L| == MAX_ORDER + 1
    && (forall o :: 0 <= o < |L| ==> Distinct(L[o]))
  }

  /** The list without its first occurrence of p: what unlinking p's node leaves. */
  function Unlink(s: seq<nat>, p: nat): (r: seq<nat>)
    ensures p !in s ==> r == s
  {
    if s == [] then [] else if s[0] == p then s[1..] else [s[0]] + Unlink(s[1..], p)
  }

  lemma {:induction false} UnlinkMembers(s: seq<nat>, p: nat)
    requires Distinct(s)
    ensures Distinct(Unlink(s, p))
    ensures forall q :: q in Unlink(s, p) <==> q in s && q != p
  {
    if s != [] {
      var rest := s[1..];
      assert s == [s[0]] + rest;
      assert forall q :: q in s <==> q == s[0] || q in rest;
      assert s[0] !in rest;
      if s[0] != p {
        UnlinkMembers(rest, p);
        var t := Unlink(rest, p);
        assert Unlink(s, p) == [s[0]] + t;
        assert forall q :: q in Unlink(s, p) <==> q == s[0] || q in t;
      }
    }
  }

  function Push(L: Lists, o: nat, p: nat): (r: Lists)
    requires o < |L|
    ensures |r| == |L| && p in r[o]
  {
    L[o := [p] + L[o]]
  }

  lemma PushSet(L: Lists, o: nat, p: nat)
    requires NoRepeats(L) && o < |L| && p !in L[o]
    ensures NoRepeats(Push(L, o, p))
    ensures FreeSet(Push(L, o, p)) == FreeSet(L) + {Block(o, p)}
  {
  }

  lemma UnlinkSet(L: Lists, o: nat, p: nat)
    requires NoRepeats(L) && o < |L|
    ensures NoRepeats(L[o := Unlink(L[o], p)])
    ensures FreeSet(L[o := Unlink(L[o], p)]) == FreeSet(L) - {Block(o, p)}
  {
    UnlinkMembers(L[o], p);
  }

  // ----------------------------------------------------------------------------- allocation

  /** The first order from o up whose list is not empty; above MAX_ORDER when there is none. */
  function FirstNonEmpty(L: Lists, o: nat): (c: nat)
    requires |L| == MAX_ORDER + 1
    ensures o <= c
    ensures o <= MAX_ORDER ==> c <= MAX_ORDER + 1
    ensures c <= MAX_ORDER ==> L[c] != []
    ensures forall k :: o <= k < c && k <= MAX_ORDER ==> L[k] == []
    decreases MAX_ORDER + 1 - o
  {
    if o > MAX_ORDER || L[o] != [] then o else FirstNonEmpty(L, o + 1)
  }

  /** Halve the block of order c at p down to order o, each time pushing the upper half. */
  function SplitDown(L: Lists, p: nat, c: nat, o: nat): (r: Lists)
    requires |L| == MAX_ORDER + 1 && o <= c <= MAX_ORDER
    ensures |r| == |L|
    decreases c
  {
    if c == o then L else SplitDown(Push(L, c - 1, p + Pow2(c - 1)), p, c - 1, o)
  }

  /** page_alloc_block: the page number found and the lists left, or None when out of memory. */
  function AllocBlock(L: Lists, o: nat): (r: Option<(nat, Lists)>)
    requires |L| == MAX_ORDER + 1
    ensures r.Some? ==> |r.value.1| == |L|
  {
    var c := FirstNonEmpty(L, o);
    if c > MAX_ORDER then None
    else Some((L[c][0], SplitDown(L[c := L[c][1..]], L[c][0], c, o)))
  }

  /** page_alloc_free: merge with the buddy while it is free at this order, then push. */
  function FreeBlock(L: Lists, p: nat, o: nat): (r: Lists)
    requires |L| == MAX_ORDER + 1 && o <= MAX_ORDER
    ensures |r| == |L|
    decreases MAX_ORDER - o
  {
    var q := BuddyPage(p, o);
    if Mergeable(L, p, o) then FreeBlock(L[o := Unlink(L[o], q)], Lower(p, q), o + 1)
    else Push(L, o, p)
  }

  /** The lists and a set of blocks outside them together tile the pages. */
  ghost predicate Holds(L: Lists, held: set<Block>, pages: set<nat>) {
    && NoRepeats(L)
    && FreeSet(L) !! held
    && Tiles(FreeSet(L) + held, pages)
  }

  lemma HeldPlaced(L: Lists, held: set<Block>, pages: set<nat>, b: Block)
    requires Holds(L, held, pages) && b in held
    ensures WellPlaced(b) && Packed(FreeSet(L))
  {
    assert b in FreeSet(L) + held;
  }

  lemma SplitStep(L: Lists, p: nat, k: nat, live: set<Block>, pages: set<nat>)
    requires k < MAX_ORDER && Block(k + 1, p) !in live
    requires Holds(L, live + {Block(k + 1, p)}, pages)
    ensures Block(k, p) !in live
    ensures Holds(Push(L, k, p + Pow2(k)), live + {Block(k, p)}, pages)
    ensures Coalesced(FreeSet(L)) ==> Coalesced(FreeSet(Push(L, k, p + Pow2(k))))
    ensures Unlisted(L, p + Pow2(k)) && p + Pow2(k) < MAX_TOTAL_PAGES
  {
    hide Pow2, BuddyPage, Tiles, Coalesced, Packed;
    Pow2Step(k + 1);
    var q := p + Pow2(k);
    var S := FreeSet(L) + (live + {Block(k + 1, p)});
    HeldIsUnlisted(L, live + {Block(k + 1, p)}, pages, Block(k + 1, p), q);
    SplitTiles(S, k, p, pages);
    PushSet(L, k, q);
    assert FreeSet(Push(L, k, q)) + (live + {Block(k, p)}) ==
           S - {Block(k + 1, p)} + {Block(k, p), Block(k, q)};
    HeldPlaced(L, live + {Block(k + 1, p)}, pages, Block(k + 1, p));
    BuddyOfLower(p, k);
    if Coalesced(FreeSet(L)) { PushCoalesced(L, k, q); }
  }

  ghost predicate Unlisted(L: Lists, p: nat) {
    forall o :: 0 <= o < |L| ==> p !in L[o]
  }

  /** No page of a held block is on any free list. */
  lemma HeldIsUnlisted(L: Lists, held: set<Block>, pages: set<nat>, b: Block, x: nat)
    requires Holds(L, held, pages) && b in held && Covers(b, x)
    ensures Unlisted(L, x)
  {
    forall o | 0 <= o < |L| ensures x !in L[o] {
      assert !Apart(b, Block(o, x));
      assert Block(o, x) !in FreeSet(L);
    }
  }

  lemma SplitDownUnfolds(L: Lists, p: nat, c: nat, o: nat)
    requires |L| == MAX_ORDER + 1 && o <= c <= MAX_ORDER
    ensures SplitDown(L, p, c, o) == if c == o then L else SplitDown(Push(L, c - 1, p + Pow2(c - 1)), p, c - 1, o)
  {
    hide Push, Pow2;
  }

  lemma {:induction false} SplitDownHolds(L: Lists, p: nat, c: nat, o: nat, live: set<Block>, pages: set<nat>)
    requires o <= c <= MAX_ORDER == |L| - 1 && Block(c, p) !in live
    requires Holds(L, live + {Block(c, p)}, pages)
    ensures Holds(SplitDown(L, p, c, o), live + {Block(o, p)}, pages) && Block(o, p) !in live
    ensures Coalesced(FreeSet(L)) ==> Coalesced(FreeSet(SplitDown(L, p, c, o)))
    decreases c
  {
    hide Holds, Coalesced, Pow2, Push, Unlisted, FreeSet;
    SplitDownUnfolds(L, p, c, o);
    if c > o {
      SplitStep(L, p, c - 1, live, pages);
      SplitDownHolds(Push(L, c - 1, p + Pow2(c - 1)), p, c - 1, o, live, pages);
    }
  }

  lemma BuddyInvolution(p: nat, k: nat)
    requires p % Pow2(k) == 0
    ensures BuddyPage(BuddyPage(p, k), k) == p
  {
    HalfAligned(p, Pow2(k));
    if p % Pow2(k + 1) == 0 {
      BuddyOfLower(p, k);
    } else {
      BuddyOfLower(p - Pow2(k), k);
    }
  }

  lemma PopStep(L: Lists, c: nat, live: set<Block>, pages: set<nat>)
    requires Holds(L, live, pages) && c <= MAX_ORDER && L[c] != []
    ensures Block(c, L[c][0]) !in live
    ensures Holds(L[c := L[c][1..]], live + {Block(c, L[c][0])}, pages)
    ensures Coalesced(FreeSet(L)) ==> Coalesced(FreeSet(L[c := L[c][1..]]))
  {
  }

  /** Allocation moves exactly one block of the requested order from the free to the live blocks. */
  lemma AllocKeeps(L: Lists, o: nat, live: set<Block>, pages: set<nat>)
    requires Holds(L, live, pages) && AllocBlock(L, o).Some?
    ensures var (p, M) := AllocBlock(L, o).value;
      && Block(o, p) !in live && Holds(M, live + {Block(o, p)}, pages)
      && (Coalesced(FreeSet(L)) ==> Coalesced(FreeSet(M)))
  {
    var c := FirstNonEmpty(L, o);
    PopStep(L, c, live, pages);
    SplitDownHolds(L[c := L[c][1..]], L[c][0], c, o, live, pages);
  }

  /** The merge test at one order. */
  predicate Mergeable(L: Lists, p: nat, o: nat)
    requires |L| == MAX_ORDER + 1
  {
    o < MAX_ORDER && BuddyPage(p, o) < MAX_TOTAL_PAGES && BuddyPage(p, o) in L[o]
  }

  function Lower(p: nat, q: nat): nat {
    if p > q then q else p
  }

  lemma MergeStep(L: Lists, p: nat, o: nat, live: set<Block>, pages: set<nat>)
    requires Block(o, p) !in live && Holds(L, live + {Block(o, p)}, pages) && Mergeable(L, p, o)
    ensures var q := BuddyPage(p, o); var low := Lower(p, q); var M := L[o := Unlink(L[o], q)];
      && Block(o + 1, low) !in live && Holds(M, live + {Block(o + 1, low)}, pages)
      && (Coalesced(FreeSet(L)) ==> Coalesced(FreeSet(M)))
  {
    hide Pow2, BuddyPage;
    var q := BuddyPage(p, o);
    var low := Lower(p, q);
    var S := FreeSet(L) + (live + {Block(o, p)});
    assert WellPlaced(Block(o, p));
    BuddyIsOtherHalf(p, o);
    assert Block(o, q) in FreeSet(L);
    UnlinkSet(L, o, q);
    MergeTiles(S, o, low, pages);
    assert FreeSet(L[o := Unlink(L[o], q)]) + (live + {Block(o + 1, low)}) ==
           S - {Block(o, low), Block(o, low + Pow2(o))} + {Block(o + 1, low)};
  }

  lemma PushStep(L: Lists, p: nat, o: nat, live: set<Block>, pages: set<nat>)
    requires o <= MAX_ORDER && Block(o, p) !in live
    requires Holds(L, live + {Block(o, p)}, pages) && !Mergeable(L, p, o)
    ensures Holds(Push(L, o, p), live, pages)
    ensures Coalesced(FreeSet(L)) ==> Coalesced(FreeSet(Push(L, o, p)))
    ensures Unlisted(L, p) && p < MAX_TOTAL_PAGES
  {
    var q := BuddyPage(p, o);
    assert WellPlaced(Block(o, p));
    HeldIsUnlisted(L, live + {Block(o, p)}, pages, Block(o, p), p);
    assert o < MAX_ORDER ==> Block(o, q) !in FreeSet(L) by {
      BuddyIsOtherHalf(p, o);
      if Block(o, q) in FreeSet(L) { assert WellPlaced(Block(o, q)); }
    }
    PushSet(L, o, p);
    assert FreeSet(Push(L, o, p)) + live == FreeSet(L) + (live + {Block(o, p)});
    if Coalesced(FreeSet(L)) { PushCoalesced(L, o, p); }
  }

  /** Release returns exactly the block's pages and leaves no free buddies unmerged. */
  lemma {:induction false} FreeKeeps(L: Lists, p: nat, o: nat, live: set<Block>, pages: set<nat>)
    requires o <= MAX_ORDER && Block(o, p) !in live && Holds(L, live + {Block(o, p)}, pages)
    ensures Holds(FreeBlock(L, p, o), live, pages)
    ensures Coalesced(FreeSet(L)) ==> Coalesced(FreeSet(FreeBlock(L, p, o)))
    decreases MAX_ORDER - o
  {
    hide Tiles, FreeSet, Coalesced, BuddyPage, Unlink, Pow2;
    if Mergeable(L, p, o) {
      var q := BuddyPage(p, o);
      MergeStep(L, p, o, live, pages);
      FreeKeeps(L[o := Unlink(L[o], q)], Lower(p, q), o + 1, live, pages);
    } else {
      PushStep(L, p, o, live, pages);
    }
  }

  lemma PushCoalesced(L: Lists, o: nat, p: nat)
    requires NoRepeats(L) && o <= MAX_ORDER && p !in L[o] && p % Pow2(o) == 0
    requires Packed(FreeSet(L)) && Coalesced(FreeSet(L))
    requires o < MAX_ORDER ==> Block(o, BuddyPage(p, o)) !in FreeSet(L)
    ensures Coalesced(FreeSet(Push(L, o, p)))
  {
    PushSet(L, o, p);
    var F := FreeSet(Push(L, o, p));
    forall b | b in F && b.order < MAX_ORDER
      ensures Block(b.order, BuddyPage(b.page, b.order)) !in F
    {
      assert b.page % Pow2(b.order) == 0 by { assert b == Block(o, p) || WellPlaced(b); }
      BuddyInvolution(b.page, b.order);
      BuddyIsOtherHalf(b.page, b.order);
    }
  }

  /** Splitting pushes one upper half onto each list below and touches no other. */
  lemma {:induction false} SplitDownLists(L: Lists, p: nat, c: nat, o: nat, k: nat)
    requires |L| == MAX_ORDER + 1 && o <= c <= MAX_ORDER && k <= MAX_ORDER
    ensures SplitDown(L, p, c, o)[k] == if o <= k < c then [p + Pow2(k)] + L[k] else L[k]
    decreases c
  {
    hide Pow2;
    SplitDownUnfolds(L, p, c, o);
    if c > o { SplitDownLists(Push(L, c - 1, p + Pow2(c - 1)), p, c - 1, o, k); }
  }

  /** The block comes from the smallest order that has one, the head of its list: an exact fit is taken
      whole, and otherwise the lists from the requested order up to it were empty and get one half each.
      No other list changes. */
  lemma AllocTakesSmallest(L: Lists, o: nat) returns (c: nat)
    requires |L| == MAX_ORDER + 1 && AllocBlock(L, o).Some?
    ensures o <= c <= MAX_ORDER && L[c] != [] && forall k :: o <= k < c ==> L[k] == []
    ensures var (p, M) := AllocBlock(L, o).value;
      && p == L[c][0] && |M| == |L|
      && forall k :: 0 <= k < |L| ==>
           M[k] == if k == c then L[c][1..] else if o <= k < c then [p + Pow2(k)] else L[k]
  {
    hide Pow2, SplitDown;
    c := FirstNonEmpty(L, o);
    var p, M, L' := L[c][0], AllocBlock(L, o).value.1, L[c := L[c][1..]];
    forall k | 0 <= k < |L|
      ensures M[k] == if k == c then L[c][1..] else if o <= k < c then [p + Pow2(k)] else L[k]
    {
      SplitDownLists(L', p, c, o, k);
    }
  }

  /** Allocation fails only when every list from the requested order up is empty. */
  lemma AllocFailsOnlyWhenEmpty(L: Lists, o: nat)
    requires |L| == MAX_ORDER + 1
    ensures AllocBlock(L, o).None? <==> forall b :: b in FreeSet(L) ==> b.order < o
  {
    var c := FirstNonEmpty(L, o);
    if c <= MAX_ORDER {
      assert Block(c, L[c][0]) in FreeSet(L);
    }
  }

  // ------------------------------------------------------- a coalesced free set is canonical

  lemma {:induction false} Pow2Divides(a: nat, b: nat)
    requires b <= a
    ensures Pow2(a) % Pow2(b) == 0
  {
    if a == b {
      DivModUnique(Pow2(a), Pow2(b), 1, 0);
    } else {
      Pow2Divides(a - 1, b);
      var m := Pow2(a - 1) / Pow2(b);
      assert Pow2(a - 1) == m * Pow2(b);
      DivModUnique(Pow2(a), Pow2(b), 2 * m, 0);
    }
  }

  lemma MultiplesStepApart(x: nat, y: nat, m: nat)
    requires m > 0 && x % m == 0 && y % m == 0 && x < y
    ensures x + m <= y
  {
    var i, j := x / m, y / m;
    assert x == i * m && y == j * m;
    if j <= i { MulMonotone(j, i, m); }
    MulMonotone(i + 1, j, m);
    assert (i + 1) * m == i * m + m;
  }

  lemma MultipleSum(x: nat, n: nat, m: nat)
    requires m > 0 && x % m == 0 && n % m == 0
    ensures (x + n) % m == 0
  {
    var i, j := x / m, n / m;
    assert x + n == (i + j) * m;
    MulMod(i + j, m);
  }

  /** Naturally aligned blocks nest: one that meets a larger one lies inside it. */
  lemma Nested(a: Block, b: Block)
    requires WellPlaced(a) && WellPlaced(b) && b.order <= a.order && !Apart(a, b)
    ensures a.page <= b.page && b.page + Pow2(b.order) <= a.page + Pow2(a.order)
    ensures a.order == b.order ==> a == b
  {
    var m := Pow2(b.order);
    LargerAlignment(a.page, a.order, b.order);
    Pow2Divides(a.order, b.order);
    MultipleSum(a.page, Pow2(a.order), m);
    if b.page < a.page { MultiplesStepApart(b.page, a.page, m); }
    MultiplesStepApart(b.page, a.page + Pow2(a.order), m);
  }

  lemma {:induction false} LargerAlignment(p: nat, a: nat, b: nat)
    requires b <= a && p % Pow2(a) == 0
    ensures p % Pow2(b) == 0
  {
    if b < a {
      AlignedDown(p, Pow2(a - 1));
      LargerAlignment(p, a - 1, b);
    }
  }

  ghost predicate AllCovered(S: set<Block>, b: Block) {
    forall x: nat :: Covers(b, x) ==> Covered(S, x)
  }

  lemma NotBothHalves(S: set<Block>, p: nat, k: nat)
    requires Coalesced(S) && k < MAX_ORDER && p % Pow2(k + 1) == 0
    ensures Block(k, p) !in S || Block(k, p + Pow2(k)) !in S
  {
    hide Pow2, BuddyPage;
    BuddyOfLower(p, k);
  }

  /** In a coalesced set, an aligned region that is wholly free lies inside a single free block. */
  lemma {:induction false} WhollyFreeIsOneBlock(S: set<Block>, b: Block) returns (a: Block)
    requires Packed(S) && Coalesced(S) && WellPlaced(b) && AllCovered(S, b)
    ensures a in S && b.order <= a.order && a.page <= b.page
    ensures b.page + Pow2(b.order) <= a.page + Pow2(a.order)
    decreases b.order
  {
    hide Pow2, Coalesced, BuddyPage;
    Pow2Step(0);
    if b.order == 0 {
      assert Covers(b, b.page);
      assert Covered(S, b.page);
      a :| a in S && Covers(a, b.page);
    } else {
      var k, p := b.order - 1, b.page;
      var low, high := Block(k, p), Block(k, p + Pow2(k));
      Pow2Step(b.order);
      BuddyOfLower(p, k);
      forall x: nat | Covers(low, x) || Covers(high, x) ensures Covered(S, x) {
        assert Covers(b, x);
      }
      a := WhollyFreeIsOneBlock(S, low);
      var a' := WhollyFreeIsOneBlock(S, high);
      if a.order > k {
        Nested(a, b);
      } else if a'.order > k {
        Nested(a', b);
        a := a';
      } else {
        Nested(a, low);
        Nested(a', high);
        NotBothHalves(S, p, k);
        assert false;
      }
    }
  }

  /** Two coalesced sets of blocks that cover the same pages are the same set. */
  lemma CoalescedIsCanonical(A: set<Block>, B: set<Block>)
    requires Packed(A) && Coalesced(A) && Packed(B) && Coalesced(B)
    requires forall x: nat :: Covered(A, x) <==> Covered(B, x)
    ensures A == B
  {
    forall a | a in A ensures a in B { CanonicalHalf(A, B, a); }
    forall b | b in B ensures b in A { CanonicalHalf(B, A, b); }
  }

  lemma CanonicalHalf(A: set<Block>, B: set<Block>, a: Block)
    requires Packed(A) && Coalesced(A) && Packed(B) && Coalesced(B) && a in A
    requires forall x: nat :: Covered(A, x) <==> Covered(B, x)
    ensures a in B
  {
    var b := WhollyFreeIsOneBlock(B, a);
    var a' := WhollyFreeIsOneBlock(A, b);
    assert a' == a by {
      assert !Apart(a', a);
    }
    Nested(b, a);
  }

  /** What the lists cover is what the live blocks leave. */
  lemma FreePages(L: Lists, live: set<Block>, pages: set<nat>, x: nat)
    requires Holds(L, live, pages)
    ensures Covered(FreeSet(L), x) <==> x in pages && !Covered(live, x)
  {
  }

  /** Allocating a block and releasing it again restores the set of free blocks exactly. */
  lemma AllocThenFree(L: Lists, o: nat, live: set<Block>, pages: set<nat>)
    requires Holds(L, live, pages) && Coalesced(FreeSet(L)) && AllocBlock(L, o).Some?
    ensures var (p, M) := AllocBlock(L, o).value;
      o <= MAX_ORDER && FreeSet(FreeBlock(M, p, o)) == FreeSet(L)
  {
    var (p, M) := AllocBlock(L, o).value;
    AllocKeeps(L, o, live, pages);
    FreeKeeps(M, p, o, live, pages);
    var N := FreeBlock(M, p, o);
    forall x: nat ensures Covered(FreeSet(L), x) <==> Covered(FreeSet(N), x) {
      FreePages(L, live, pages, x);
      FreePages(N, live, pages, x);
    }
    CoalescedIsCanonical(FreeSet(L), FreeSet(N));
  }

  /** Allocation of order o succeeds exactly when some aligned run of 2^o pages is wholly free. */
  lemma AllocSucceedsExactly(L: Lists, o: nat, live: set<Block>, pages: set<nat>)
    requires Holds(L, live, pages) && Coalesced(FreeSet(L)) && o <= MAX_ORDER
    ensures AllocBlock(L, o).Some? <==>
            exists b :: WellPlaced(b) && b.order == o &&
                        forall x: nat :: Covers(b, x) ==> x in pages && !Covered(live, x)
  {
    AllocFailsOnlyWhenEmpty(L, o);
    if AllocBlock(L, o).Some? {
      var (p, M) := AllocBlock(L, o).value;
      AllocKeeps(L, o, live, pages);
      var b := Block(o, p);
      assert b in FreeSet(M) + (live + {b});
      assert WellPlaced(b);
      forall x: nat | Covers(b, x) ensures x in pages && !Covered(live, x) {
        assert Covered(FreeSet(M) + (live + {b}), x);
        assert !Covered(live, x) by {
          assert forall c :: c in live ==> Apart(b, c);
        }
      }
    }
    forall b | WellPlaced(b) && b.order == o && forall x: nat :: Covers(b, x) ==> x in pages && !Covered(live, x)
      ensures AllocBlock(L, o).Some?
    {
      forall x: nat | Covers(b, x) ensures Covered(FreeSet(L), x) { FreePages(L, live, pages, x); }
      var a := WhollyFreeIsOneBlock(FreeSet(L), b);
    }
  }

  // -------------------------------------------------------------------------- initialisation

  /** One usable descriptor of the memory map: first page and number of pages. */
  datatype Range = Range(start: nat, count: nat)

  /** The largest order whose block fits in the remaining pages and starts aligned. */
  function LargestFit(start: nat, remaining: nat, o: nat): (r: nat)
    requires remaining > 0
    ensures r <= o && Pow2(r) <= remaining && start % Pow2(r) == 0
  {
    if o == 0 || (Pow2(o) <= remaining && start % Pow2(o) == 0) then o
    else LargestFit(start, remaining, o - 1)
  }

  lemma {:induction false} LargestFitIsMaximal(start: nat, remaining: nat, o: nat, k: nat)
    requires remaining > 0 && LargestFit(start, remaining, o) < k <= o
    ensures !(Pow2(k) <= remaining && start % Pow2(k) == 0)
  {
    if k < o { LargestFitIsMaximal(start, remaining, o - 1, k); }
  }

  function AddRange(L: Lists, start: nat, remaining: nat): (r: Lists)
    requires |L| == MAX_ORDER + 1
    ensures |r| == |L|
    decreases remaining
  {
    if remaining == 0 then L
    else
      var o := LargestFit(start, remaining, |L| - 1);
      AddRange(Push(L, o, start), start + Pow2(o), remaining - Pow2(o))
  }

  function NoLists(): (r: Lists)
    ensures |r| == MAX_ORDER + 1 && forall o :: 0 <= o < |r| ==> r[o] == []
  {
    [[], [], [], [], [], [], [], [], [], [], []]
  }

  /** The lists after the first n ranges. */
  function AddRanges(ranges: seq<Range>, n: nat): (r: Lists)
    requires n <= |ranges|
    ensures |r| == MAX_ORDER + 1
  {
    if n == 0 then NoLists()
    else AddRange(AddRanges(ranges, n - 1), ranges[n - 1].start, ranges[n - 1].count)
  }

  predicate InRange(r: Range, x: nat) {
    r.start <= x < r.start + r.count
  }

  function RangePages(r: Range): set<nat> {
    set x: nat | r.start <= x < r.start + r.count && InRange(r, x)
  }

  /** The pages of the first n ranges. */
  function UsablePages(ranges: seq<Range>, n: nat): set<nat>
    requires n <= |ranges|
  {
    if n == 0 then {} else UsablePages(ranges, n - 1) + RangePages(ranges[n - 1])
  }

  /** The two ranges have no page in common. */
  predicate Clear(r: Range, t: Range) {
    r.count == 0 || t.count == 0 || r.start + r.count <= t.start || t.start + t.count <= r.start
  }

  /** The ranges lie below the bitmap's limit and do not overlap. */
  ghost predicate Disjoint(ranges: seq<Range>) {
    && (forall r :: r in ranges ==> r.start + r.count <= MAX_TOTAL_PAGES)
    && (forall i, j :: 0 <= i < |ranges| && 0 <= j < |ranges| && i != j ==> Clear(ranges[i], ranges[j]))
  }

  /** Range i ends where range j begins, and both are large enough to put a block of order k at the
      boundary: the two blocks are buddies. */
  ghost predicate BuddiesAcross(ranges: seq<Range>, i: nat, j: nat, k: nat) {
    && i < |ranges| && j < |ranges| && k < MAX_ORDER
    && ranges[i].start + ranges[i].count == ranges[j].start && ranges[j].start % Pow2(k + 1) == Pow2(k)
    && Pow2(k) <= ranges[i].count && Pow2(k) <= ranges[j].count
  }

  ghost predicate NoBuddiesAcross(ranges: seq<Range>) {
    forall i, j, k :: !BuddiesAcross(ranges, i, j, k)
  }

  ghost predicate Untouched(pages: set<nat>, from: nat, to: nat) {
    forall x: nat :: from <= x < to ==> x !in pages
  }

  lemma PushTiles(S: set<Block>, b: Block, pages: set<nat>)
    requires Tiles(S, pages) && WellPlaced(b)
    requires forall x: nat :: Covers(b, x) ==> x !in pages
    ensures b !in S
    ensures Tiles(S + {b}, pages + RangePages(Range(b.page, Pow2(b.order))))
  {
    var T := S + {b};
    forall c | c in S ensures Apart(c, b) {
      if !Apart(c, b) {
        var x := if c.page < b.page then b.page else c.page;
        assert Covers(c, x) && Covers(b, x);
        assert Covered(S, x);
      }
    }
    assert b !in S by { assert !Apart(b, b); }
    forall x: nat ensures Covered(T, x) <==> x in pages + RangePages(Range(b.page, Pow2(b.order))) {
      if Covered(T, x) {
        var c :| c in T && Covers(c, x);
        if c in S { assert Covered(S, x); }
      }
      if x in pages {
        assert Covered(S, x);
        var c :| c in S && Covers(c, x);
        assert c in T;
      }
      if x in RangePages(Range(b.page, Pow2(b.order))) { assert b in T && Covers(b, x); }
    }
  }

  lemma FreeBlockCovers(L: Lists, pages: set<nat>, b: Block, x: nat)
    requires Holds(L, {}, pages) && b in FreeSet(L) && Covers(b, x)
    ensures x in pages
  {
  }

  lemma RangeSplits(pages: set<nat>, at: nat, n: nat, remaining: nat)
    requires n <= remaining
    ensures pages + RangePages(Range(at, n)) + RangePages(Range(at + n, remaining - n))
         == pages + RangePages(Range(at, remaining))
  {
  }

  lemma AddStep(L: Lists, at: nat, remaining: nat, pages: set<nat>)
    requires remaining > 0 && at + remaining <= MAX_TOTAL_PAGES
    requires Holds(L, {}, pages) && Untouched(pages, at, at + remaining)
    ensures var o := LargestFit(at, remaining, |L| - 1);
      && Unlisted(L, at) && FreeSet(Push(L, o, at)) == FreeSet(L) + {Block(o, at)}
      && Holds(Push(L, o, at), {}, pages + RangePages(Range(at, Pow2(o))))
      && Untouched(pages + RangePages(Range(at, Pow2(o))), at + Pow2(o), at + remaining)
  {
    var o := LargestFit(at, remaining, |L| - 1);
    assert FreeSet(L) + {} == FreeSet(L);
    PushTiles(FreeSet(L), Block(o, at), pages);
    forall k | 0 <= k < |L| ensures at !in L[k] {
      if Block(k, at) in FreeSet(L) { FreeBlockCovers(L, pages, Block(k, at), at); }
    }
    PushSet(L, o, at);
    assert FreeSet(Push(L, o, at)) + {} == FreeSet(L) + {Block(o, at)};
  }

  lemma {:induction false} AddRangeHolds(L: Lists, at: nat, remaining: nat, pages: set<nat>, M: Lists, all: set<nat>)
    requires Holds(L, {}, pages) && at + remaining <= MAX_TOTAL_PAGES && Untouched(pages, at, at + remaining)
    requires M == AddRange(L, at, remaining) && all == pages + RangePages(Range(at, remaining))
    ensures Holds(M, {}, all)
    decreases remaining
  {
    hide Holds, Untouched, LargestFit, Pow2, FreeSet;
    if remaining > 0 {
      var o := LargestFit(at, remaining, |L| - 1);
      var n, L' := Pow2(o), Push(L, o, at);
      RangeSplits(pages, at, n, remaining);
      AddStep(L, at, remaining, pages);
      AddRangeHolds(L', at + n, remaining - n, pages + RangePages(Range(at, n)), M, all);
    } else {
      assert all == pages;
    }
  }

  /** Blocks pushed for [from, at) of a range that ends at to could not have been larger. */
  ghost predicate Maximal(L: Lists, from: nat, at: nat, to: nat) {
    forall b :: b in FreeSet(L) && from <= b.page < at && b.order < MAX_ORDER ==>
      !(b.page % Pow2(b.order + 1) == 0 && b.page + Pow2(b.order + 1) <= to)
  }

  /** No listed block outside [from, to) has its buddy in there. */
  ghost predicate Sealed(L: Lists, from: nat, to: nat) {
    forall b :: b in FreeSet(L) && b.order < MAX_ORDER ==>
      && (b.page < from ==> b.page + Pow2(b.order) <= from)
      && (b.page + Pow2(b.order) == from && from % Pow2(b.order + 1) == Pow2(b.order) ==> to < from + Pow2(b.order))
      && (b.page == to && to % Pow2(b.order + 1) == Pow2(b.order) ==> to < from + Pow2(b.order))
  }

  lemma BuddyNotYetListed(L: Lists, from: nat, at: nat, to: nat, pages: set<nat>, o: nat)
    requires from <= at < to && Holds(L, {}, pages) && Untouched(pages, at, to)
    requires Sealed(L, from, to) && Maximal(L, from, at, to)
    requires o < MAX_ORDER && at % Pow2(o) == 0 && at + Pow2(o) <= to
    ensures Block(o, BuddyPage(at, o)) !in FreeSet(L)
  {
    hide Holds, Untouched, FreeSet, BuddyPage, Pow2;
    var q := BuddyPage(at, o);
    BuddyIsOtherHalf(at, o);
    Pow2Step(o + 1);
    if Block(o, q) in FreeSet(L) && at <= q < to { UntouchedIsUnlisted(L, pages, Block(o, q), at, to); }
    if q < at {
      assert q + Pow2(o) == at && q + Pow2(o + 1) <= to;
      assert at % Pow2(o + 1) == Pow2(o) by { HalfAligned(q, Pow2(o)); }
    } else if to <= q {
      assert q == at + Pow2(o) == to;
      assert q % Pow2(o + 1) == Pow2(o) by { HalfAligned(at, Pow2(o)); }
    }
  }

  lemma UntouchedIsUnlisted(L: Lists, pages: set<nat>, b: Block, at: nat, to: nat)
    requires Holds(L, {}, pages) && Untouched(pages, at, to) && at <= b.page < to
    ensures b !in FreeSet(L)
  {
    if b in FreeSet(L) {
      FreeBlockCovers(L, pages, b, b.page);
      assert false;
    }
  }

  lemma MaximalStep(L: Lists, from: nat, at: nat, remaining: nat, pages: set<nat>)
    requires from <= at && remaining > 0 && at + remaining <= MAX_TOTAL_PAGES
    requires Holds(L, {}, pages) && Untouched(pages, at, at + remaining)
    requires Maximal(L, from, at, at + remaining)
    ensures var o := LargestFit(at, remaining, |L| - 1);
      Maximal(Push(L, o, at), from, at + Pow2(o), at + remaining)
  {
    var o := LargestFit(at, remaining, |L| - 1);
    AddStep(L, at, remaining, pages);
    var M := Push(L, o, at);
    forall b | b in FreeSet(M) && from <= b.page < at + Pow2(o) && b.order < MAX_ORDER
      ensures !(b.page % Pow2(b.order + 1) == 0 && b.page + Pow2(b.order + 1) <= at + remaining)
    {
      if b in FreeSet(L) {
        FreeBlockCovers(L, pages, b, b.page);
      } else {
        LargestFitIsMaximal(at, remaining, |L| - 1, o + 1);
      }
    }
  }

  lemma SealedStep(L: Lists, from: nat, at: nat, to: nat, o: nat)
    requires o < |L| && Sealed(L, from, to) && from <= at < to
    requires FreeSet(Push(L, o, at)) == FreeSet(L) + {Block(o, at)}
    ensures Sealed(Push(L, o, at), from, to)
  {
    hide FreeSet, Push, Pow2;
  }

  lemma {:induction false} AddRangeCoalesced(L: Lists, from: nat, at: nat, remaining: nat, pages: set<nat>, M: Lists)
    requires from <= at && at + remaining <= MAX_TOTAL_PAGES && |L| == MAX_ORDER + 1
    requires Holds(L, {}, pages) && Coalesced(FreeSet(L)) && Untouched(pages, at, at + remaining)
    requires Sealed(L, from, at + remaining) && Maximal(L, from, at, at + remaining)
    requires M == AddRange(L, at, remaining)
    ensures Coalesced(FreeSet(M))
    decreases remaining
  {
    hide Holds, Coalesced, Sealed, Maximal, Untouched, Push, FreeSet, Unlisted, Pow2, LargestFit, RangePages, AddRange;
    AddRangeUnfolds(L, at, remaining);
    if remaining > 0 {
      var o := LargestFit(at, remaining, |L| - 1);
      var n, L' := Pow2(o), Push(L, o, at);
      AddStep(L, at, remaining, pages);
      if o < MAX_ORDER { BuddyNotYetListed(L, from, at, at + remaining, pages, o); }
      PushHeld(L, pages, o, at);
      MaximalStep(L, from, at, remaining, pages);
      SealedStep(L, from, at, at + remaining, o);
      AddRangeCoalesced(L', from, at + n, remaining - n, pages + RangePages(Range(at, n)), M);
    }
  }

  lemma AddRangeUnfolds(L: Lists, at: nat, remaining: nat)
    requires |L| == MAX_ORDER + 1
    ensures remaining == 0 ==> AddRange(L, at, remaining) == L
    ensures remaining > 0 ==> var o := LargestFit(at, remaining, |L| - 1);
      AddRange(L, at, remaining) == AddRange(Push(L, o, at), at + Pow2(o), remaining - Pow2(o))
  {
  }

  lemma PushHeld(L: Lists, pages: set<nat>, o: nat, p: nat)
    requires Holds(L, {}, pages) && Coalesced(FreeSet(L)) && o <= MAX_ORDER && Unlisted(L, p) && p % Pow2(o) == 0
    requires o < MAX_ORDER ==> Block(o, BuddyPage(p, o)) !in FreeSet(L)
    ensures Coalesced(FreeSet(Push(L, o, p))) && |Push(L, o, p)| == |L|
  {
    hide Coalesced;
    assert FreeSet(L) + {} == FreeSet(L);
    PushCoalesced(L, o, p);
  }

  lemma {:induction false} NotUsable(ranges: seq<Range>, n: nat, x: nat)
    requires n <= |ranges| && forall i :: 0 <= i < n ==> !InRange(ranges[i], x)
    ensures x !in UsablePages(ranges, n)
  {
    if n > 0 { NotUsable(ranges, n - 1, x); }
  }

  /** After page_alloc_init the lists hold exactly the usable pages. */
  lemma {:induction false} InitTiles(ranges: seq<Range>, n: nat)
    requires n <= |ranges| && Disjoint(ranges)
    ensures Holds(AddRanges(ranges, n), {}, UsablePages(ranges, n))
    ensures n < |ranges| ==> Untouched(UsablePages(ranges, n), ranges[n].start, ranges[n].start + ranges[n].count)
  {
    if n == 0 {
      assert FreeSet(NoLists()) == {};
    } else {
      InitTiles(ranges, n - 1);
      AddRangeHolds(AddRanges(ranges, n - 1), ranges[n - 1].start, ranges[n - 1].count, UsablePages(ranges, n - 1),
                    AddRanges(ranges, n), UsablePages(ranges, n));
    }
    if n < |ranges| {
      forall x: nat | InRange(ranges[n], x) ensures x !in UsablePages(ranges, n) {
        forall i | 0 <= i < n ensures !InRange(ranges[i], x) { assert Clear(ranges[i], ranges[n]); }
        NotUsable(ranges, n, x);
      }
    }
  }

  // ------------------------------------------------------------------ where blocks come to lie

  predicate Lies(b: Block, r: Range) {
    r.start <= b.page && b.page + Pow2(b.order) <= r.start + r.count
  }

  /** A range adds blocks inside it and takes none away. */
  lemma {:induction false} AddRangeInside(L: Lists, at: nat, remaining: nat, o: nat, p: nat)
    requires |L| == MAX_ORDER + 1 && o <= MAX_ORDER
    ensures p in L[o] ==> p in AddRange(L, at, remaining)[o]
    ensures p in AddRange(L, at, remaining)[o] ==> p in L[o] || Lies(Block(o, p), Range(at, remaining))
    decreases remaining
  {
    hide Pow2, AddRange, LargestFit;
    AddRangeUnfolds(L, at, remaining);
    if remaining > 0 {
      var k := LargestFit(at, remaining, |L| - 1);
      AddRangeInside(Push(L, k, at), at + Pow2(k), remaining - Pow2(k), o, p);
    }
  }

  /** Every free block lies inside one of the ranges. */
  lemma {:induction false} BlocksLieInside(ranges: seq<Range>, n: nat, b: Block)
    requires n <= |ranges| && b in FreeSet(AddRanges(ranges, n))
    ensures exists m :: 0 <= m < n && Lies(b, ranges[m])
  {
    AddRangeInside(AddRanges(ranges, n - 1), ranges[n - 1].start, ranges[n - 1].count, b.order, b.page);
    if b.page in AddRanges(ranges, n - 1)[b.order] { BlocksLieInside(ranges, n - 1, b); }
  }

  lemma {:induction false} BlocksStay(ranges: seq<Range>, m: nat, n: nat, o: nat, p: nat)
    requires m <= n <= |ranges| && o <= MAX_ORDER && p in AddRanges(ranges, m)[o]
    ensures p in AddRanges(ranges, n)[o]
    decreases n
  {
    if m < n {
      BlocksStay(ranges, m, n - 1, o, p);
      AddRangeInside(AddRanges(ranges, n - 1), ranges[n - 1].start, ranges[n - 1].count, o, p);
    }
  }

  /** A range that is large enough begins with the largest block its start allows. */
  lemma FirstBlock(L: Lists, at: nat, count: nat, k: nat)
    requires |L| == MAX_ORDER + 1 && k < MAX_ORDER && at % Pow2(k + 1) == Pow2(k) <= count
    ensures at in AddRange(L, at, count)[k]
  {
    hide Pow2, Push, AddRange;
    FitAtStart(at, count, k);
    AddRangeUnfolds(L, at, count);
    AddRangeInside(Push(L, k, at), at + Pow2(k), count - Pow2(k), k, at);
  }

  lemma FitAtStart(at: nat, count: nat, k: nat)
    requires k < MAX_ORDER && 0 < count && at % Pow2(k + 1) == Pow2(k) <= count
    ensures LargestFit(at, count, MAX_ORDER) == k
  {
    hide Pow2;
    var o := LargestFit(at, count, MAX_ORDER);
    HalfWayAligned(at, k);
    if o < k { LargestFitIsMaximal(at, count, MAX_ORDER, k); }
    if o > k { LargerAlignment(at, o, k + 1); }
  }

  lemma HalfWayAligned(x: nat, k: nat)
    requires x % Pow2(k + 1) == Pow2(k)
    ensures x >= Pow2(k) && x % Pow2(k) == 0 && (x - Pow2(k)) % Pow2(k + 1) == 0 && (x - Pow2(k)) % Pow2(k) == 0
  {
    OddMultiple(x, Pow2(k));
  }

  lemma OddMultiple(x: nat, m: nat)
    requires m > 0 && x % (2 * m) == m
    ensures x >= m && x % m == 0 && (x - m) % (2 * m) == 0 && (x - m) % m == 0
  {
    var q := x / (2 * m);
    assert x == q * (2 * m) + m;
    assert x == (2 * q + 1) * m;
    MulMod(2 * q + 1, m);
    MulMonotone(0, q, 2 * m);
    DivModUnique(x - m, 2 * m, q, 0);
    AlignedDown(x - m, m);
  }

  /** And it ends with the largest block its end allows. */
  lemma {:induction false} LastBlock(L: Lists, at: nat, remaining: nat, k: nat)
    requires |L| == MAX_ORDER + 1 && k < MAX_ORDER && at + remaining <= MAX_TOTAL_PAGES
    requires (at + remaining) % Pow2(k + 1) == Pow2(k) <= remaining
    ensures at + remaining - Pow2(k) in AddRange(L, at, remaining)[k]
    decreases remaining
  {
    hide Pow2, Push, AddRange, LargestFit;
    var end, o := at + remaining, LargestFit(at, remaining, |L| - 1);
    AddRangeUnfolds(L, at, remaining);
    HalfWayAligned(end, k);
    if at + Pow2(k) == end {
      FitAtEnd(at, remaining, k);
      AddRangeInside(Push(L, k, at), end, 0, k, at);
    } else {
      StopsBefore(at, o, end, k);
      LastBlock(Push(L, o, at), at + Pow2(o), remaining - Pow2(o), k);
    }
  }

  lemma FitAtEnd(at: nat, remaining: nat, k: nat)
    requires k < MAX_ORDER && remaining == Pow2(k) && at % Pow2(k) == 0
    ensures LargestFit(at, remaining, MAX_ORDER) == k
  {
    hide Pow2;
    var o := LargestFit(at, remaining, MAX_ORDER);
    if o < k { LargestFitIsMaximal(at, remaining, MAX_ORDER, k); }
    if o > k { PowerGrows(k, o); }
  }

  lemma {:induction false} PowerGrows(k: nat, o: nat)
    requires k < o
    ensures Pow2(k) < Pow2(o)
  {
    if k < o - 1 { PowerGrows(k, o - 1); }
  }

  /** An aligned block that starts before the last one ends before it. */
  lemma StopsBefore(at: nat, o: nat, end: nat, k: nat)
    requires o <= MAX_ORDER && k < MAX_ORDER && end <= MAX_TOTAL_PAGES && end % Pow2(k + 1) == Pow2(k)
    requires at % Pow2(o) == 0 && at + Pow2(k) < end && at + Pow2(o) <= end
    ensures at + Pow2(o) + Pow2(k) <= end
  {
    hide Pow2;
    HalfWayAligned(end, k);
    var a, b := Block(o, at), Block(k, end - Pow2(k));
    if !Apart(a, b) {
      if o <= k {
        Nested(b, a);
      } else {
        Nested(a, b);
        assert end % Pow2(o) == 0 by { MultipleSum(at, Pow2(o), Pow2(o)); }
        LargerAlignment(end, o, k + 1);
      }
      assert false;
    }
  }

  // ------------------------------------------------------------ when initialisation is coalesced

  lemma RangeIsSealed(ranges: seq<Range>, n: nat, L: Lists, from: nat, to: nat)
    requires n < |ranges| && Disjoint(ranges) && NoBuddiesAcross(ranges) && L == AddRanges(ranges, n)
    requires from == ranges[n].start && to == from + ranges[n].count && from < to
    ensures Sealed(L, from, to)
  {
    hide FreeSet, AddRanges;
    forall b | b in FreeSet(L) && b.order < MAX_ORDER
      ensures b.page < from ==> b.page + Pow2(b.order) <= from
      ensures b.page + Pow2(b.order) == from && from % Pow2(b.order + 1) == Pow2(b.order) ==> to < from + Pow2(b.order)
      ensures b.page == to && to % Pow2(b.order + 1) == Pow2(b.order) ==> to < from + Pow2(b.order)
    {
      BlocksLieInside(ranges, n, b);
      var m :| 0 <= m < n && Lies(b, ranges[m]);
      assert Clear(ranges[m], ranges[n]);
      assert !BuddiesAcross(ranges, m, n, b.order) && !BuddiesAcross(ranges, n, m, b.order);
    }
  }

  lemma {:induction false} InitCoalesced(ranges: seq<Range>, n: nat)
    requires n <= |ranges| && Disjoint(ranges) && NoBuddiesAcross(ranges)
    ensures Coalesced(FreeSet(AddRanges(ranges, n)))
  {
    hide NoBuddiesAcross;
    if n == 0 {
      assert FreeSet(NoLists()) == {};
    } else {
      InitCoalesced(ranges, n - 1);
      InitTiles(ranges, n - 1);
      var L, pages := AddRanges(ranges, n - 1), UsablePages(ranges, n - 1);
      OneMoreCoalesced(ranges, n - 1, L, pages, AddRanges(ranges, n));
    }
  }

  lemma OneMoreCoalesced(ranges: seq<Range>, n: nat, L: Lists, pages: set<nat>, M: Lists)
    requires n < |ranges| && Disjoint(ranges) && NoBuddiesAcross(ranges) && L == AddRanges(ranges, n)
    requires Holds(L, {}, pages) && Coalesced(FreeSet(L)) && M == AddRange(L, ranges[n].start, ranges[n].count)
    requires Untouched(pages, ranges[n].start, ranges[n].start + ranges[n].count)
    ensures Coalesced(FreeSet(M))
  {
    hide AddRanges, NoBuddiesAcross, Coalesced, Holds, Sealed, Untouched;
    var from, count := ranges[n].start, ranges[n].count;
    if count > 0 {
      RangeIsSealed(ranges, n, L, from, from + count);
      AddRangeCoalesced(L, from, from, count, pages, M);
    }
  }

  lemma BelowLimit(ranges: seq<Range>, i: nat)
    requires Disjoint(ranges) && i < |ranges|
    ensures ranges[i].start + ranges[i].count <= MAX_TOTAL_PAGES
  {
  }

  lemma OneMoreRange(ranges: seq<Range>, n: nat)
    requires n < |ranges|
    ensures AddRanges(ranges, n + 1) == AddRange(AddRanges(ranges, n), ranges[n].start, ranges[n].count)
  {
  }

  /** Two blocks that meet at a boundary stay free buddies. */
  lemma BuddiesAcrossStay(ranges: seq<Range>, i: nat, j: nat, k: nat)
    requires Disjoint(ranges) && BuddiesAcross(ranges, i, j, k)
    ensures !Coalesced(FreeSet(AddRanges(ranges, |ranges|)))
  {
    hide Pow2, AddRange, AddRanges, Disjoint, BuddyPage;
    var x, L := ranges[j].start, AddRanges(ranges, |ranges|);
    assert ranges[i].start + ranges[i].count <= MAX_TOTAL_PAGES by { BelowLimit(ranges, i); }
    OneMoreRange(ranges, i);
    OneMoreRange(ranges, j);
    HalfWayAligned(x, k);
    LastBlock(AddRanges(ranges, i), ranges[i].start, ranges[i].count, k);
    FirstBlock(AddRanges(ranges, j), x, ranges[j].count, k);
    BlocksStay(ranges, i + 1, |ranges|, k, x - Pow2(k));
    BlocksStay(ranges, j + 1, |ranges|, k, x);
    BuddyOfLower(x - Pow2(k), k);
    assert Block(k, x) in FreeSet(L) && Block(k, x - Pow2(k)) in FreeSet(L);
  }

  /** Initialisation leaves no two buddies both free if and only if no two ranges meet where both are
      large enough for a block that the boundary separates from its buddy. */
  lemma InitCoalescedExactly(ranges: seq<Range>)
    requires Disjoint(ranges)
    ensures Coalesced(FreeSet(AddRanges(ranges, |ranges|))) <==> NoBuddiesAcross(ranges)
  {
    hide Disjoint, Coalesced, AddRanges, BuddiesAcross;
    if NoBuddiesAcross(ranges) {
      InitCoalesced(ranges, |ranges|);
    } else {
      var i, j, k :| BuddiesAcross(ranges, i, j, k);
      BuddiesAcrossStay(ranges, i, j, k);
    }
  }

  // ------------------------------------------------------------------------- runs of requests

  /** The allocator and, beside it, the blocks its callers hold. */
  datatype State = State(lists: Lists, live: set<Block>)

  datatype Request = Allocate(order: nat) | Release(block: Block)

  /** A caller releases only what it holds, with the order it asked for. */
  ghost predicate Allowed(s: State, r: Request) {
    r.Release? ==> r.block in s.live && r.block.order <= MAX_ORDER
  }

  ghost function Serve(s: State, r: Request): State
    requires |s.lists| == MAX_ORDER + 1 && Allowed(s, r)
  {
    match r
    case Allocate(o) =>
      (match AllocBlock(s.lists, o)
       case None => s
       case Some(found) => State(found.1, s.live + {Block(o, found.0)}))
    case Release(b) => State(FreeBlock(s.lists, b.page, b.order), s.live - {b})
  }

  ghost predicate Run(ranges: seq<Range>, trace: seq<State>) {
    && |trace| > 0
    && trace[0] == State(AddRanges(ranges, |ranges|), {})
    && (forall i :: 0 < i < |trace| ==>
          CanFollow(trace[i - 1], trace[i]))
  }

  ghost predicate CanFollow(s: State, t: State) {
    |s.lists| == MAX_ORDER + 1 && exists r :: Allowed(s, r) && t == Serve(s, r)
  }

  /** Conservation: at every point of every run the free and the live blocks partition exactly the
      usable pages, each aligned to its own size. */
  lemma {:induction false} Conservation(ranges: seq<Range>, trace: seq<State>, i: nat)
    requires Disjoint(ranges) && Run(ranges, trace) && i < |trace|
    ensures Holds(trace[i].lists, trace[i].live, UsablePages(ranges, |ranges|))
  {
    var pages := UsablePages(ranges, |ranges|);
    if i == 0 {
      InitTiles(ranges, |ranges|);
    } else {
      Conservation(ranges, trace, i - 1);
      ServeKeeps(trace[i - 1], trace[i], pages);
    }
  }

  /** When no ranges meet between buddies, no two free buddies are ever left unmerged. */
  lemma {:induction false} AlwaysCoalesced(ranges: seq<Range>, trace: seq<State>, i: nat)
    requires Disjoint(ranges) && NoBuddiesAcross(ranges) && Run(ranges, trace) && i < |trace|
    ensures Coalesced(FreeSet(trace[i].lists))
  {
    if i == 0 {
      InitCoalesced(ranges, |ranges|);
    } else {
      AlwaysCoalesced(ranges, trace, i - 1);
      Conservation(ranges, trace, i - 1);
      ServeKeeps(trace[i - 1], trace[i], UsablePages(ranges, |ranges|));
    }
  }

  /** And that condition on the ranges is exact. */
  lemma AlwaysCoalescedExactly(ranges: seq<Range>)
    requires Disjoint(ranges)
    ensures (forall trace: seq<State>, i ::
               Run(ranges, trace) && 0 <= i < |trace| ==> Coalesced(FreeSet(trace[i].lists)))
            <==> NoBuddiesAcross(ranges)
  {
    hide Disjoint, Coalesced, NoBuddiesAcross, AddRanges;
    if NoBuddiesAcross(ranges) {
      forall trace: seq<State>, i | Run(ranges, trace) && 0 <= i < |trace| ensures Coalesced(FreeSet(trace[i].lists)) {
        AlwaysCoalesced(ranges, trace, i);
      }
    } else {
      InitCoalescedExactly(ranges);
      var trace := [State(AddRanges(ranges, |ranges|), {})];
      assert Run(ranges, trace) && !Coalesced(FreeSet(trace[0].lists));
    }
  }

  lemma ServeKeeps(s: State, t: State, pages: set<nat>)
    requires CanFollow(s, t) && Holds(s.lists, s.live, pages)
    ensures Holds(t.lists, t.live, pages)
    ensures Coalesced(FreeSet(s.lists)) ==> Coalesced(FreeSet(t.lists))
  {
    var r :| Allowed(s, r) && t == Serve(s, r);
    match r
    case Allocate(o) =>
      if AllocBlock(s.lists, o).Some? { AllocKeeps(s.lists, o, s.live, pages); }
    case Release(b) =>
      assert s.live == (s.live - {b}) + {b};
      FreeKeeps(s.lists, b.page, b.order, s.live - {b}, pages);
  }

  // ------------------------------------------------------------- the unlink walk as written

  /** page_alloc_free searches its buddy from the list head without ever moving to the next node.
      Searching: the walk stands at the head; Left: it left the loop; Halted: an assert failed. */
  datatype Walk = Searching(list: seq<nat>) | Left(list: seq<nat>) | Halted

  /** One pass through the walk's loop. A node without a successor halts: address 0 is not mapped. */
  function WalkStep(w: Walk, buddy: nat): Walk {
    match w
    case Searching(s) =>
      if s == [] then Left(s)
      else if |s| == 1 then Halted
      else if s[1] == buddy then Left([s[0]] + s[2..])
      else w
    case _ => w
  }

  function WalkSteps(w: Walk, buddy: nat, n: nat): Walk
    decreases n
  {
    if n == 0 then w else WalkSteps(WalkStep(w, buddy), buddy, n - 1)
  }

  /** The list the walk leaves behind; None when it never leaves its loop. */
  function WalkResult(s: seq<nat>, buddy: nat): Option<seq<nat>> {
    if s == [] then Some(s)
    else if |s| >= 2 && s[1] == buddy then Some([s[0]] + s[2..])
    else None
  }

  lemma {:induction false} WalkResultIsExact(s: seq<nat>, buddy: nat, n: nat)
    ensures WalkSteps(Searching(s), buddy, n).Left? ==>
              WalkResult(s, buddy) == Some(WalkSteps(Searching(s), buddy, n).list)
    ensures WalkResult(s, buddy).Some? && n > 0 ==> WalkSteps(Searching(s), buddy, n).Left?
  {
    if n > 0 {
      var w := WalkStep(Searching(s), buddy);
      if w.Searching? { WalkResultIsExact(s, buddy, n - 1); } else { WalkRests(w, buddy, n - 1); }
    }
  }

  lemma {:induction false} WalkRests(w: Walk, buddy: nat, n: nat)
    requires !w.Searching?
    ensures WalkSteps(w, buddy, n) == w
  {
    if n > 0 { WalkRests(w, buddy, n - 1); }
  }

  /** page_alloc_free with that walk: None when it does not return. */
  function FreeAsWritten(L: Lists, p: nat, o: nat): (r: Option<Lists>)
    requires |L| == MAX_ORDER + 1 && o <= MAX_ORDER
    decreases MAX_ORDER - o
  {
    if Mergeable(L, p, o) then
      match WalkResult(L[o], BuddyPage(p, o))
      case None => None
      case Some(rest) => FreeAsWritten(L[o := rest], Lower(p, BuddyPage(p, o)), o + 1)
    else Some(Push(L, o, p))
  }

  /** At every order the release reaches, a free buddy is the second node of its list. */
  predicate BuddiesSecond(L: Lists, p: nat, o: nat)
    requires |L| == MAX_ORDER + 1 && o <= MAX_ORDER
    decreases MAX_ORDER - o
  {
    Mergeable(L, p, o) ==>
      |L[o]| >= 2 && L[o][1] == BuddyPage(p, o) && BuddiesSecond(L, Lower(p, BuddyPage(p, o)), o + 1)
  }

  lemma {:induction false} BuddiesSecondAbove(L: Lists, M: Lists, p: nat, o: nat)
    requires |L| == |M| == MAX_ORDER + 1 && o <= MAX_ORDER
    requires forall k :: o <= k <= MAX_ORDER ==> L[k] == M[k]
    ensures BuddiesSecond(L, p, o) == BuddiesSecond(M, p, o)
    decreases MAX_ORDER - o
  {
    if Mergeable(L, p, o) { BuddiesSecondAbove(L, M, Lower(p, BuddyPage(p, o)), o + 1); }
  }

  /** The code as written returns exactly when each buddy it merges is second on its list, and when
      it returns it has done what its comment says. */
  lemma {:induction false} FreeAsWrittenExactly(L: Lists, p: nat, o: nat)
    requires NoRepeats(L) && o <= MAX_ORDER
    ensures FreeAsWritten(L, p, o).Some? <==> BuddiesSecond(L, p, o)
    ensures FreeAsWritten(L, p, o).Some? ==> FreeAsWritten(L, p, o).value == FreeBlock(L, p, o)
    decreases MAX_ORDER - o
  {
    if Mergeable(L, p, o) {
      var q := BuddyPage(p, o);
      if |L[o]| >= 2 && L[o][1] == q {
        var rest := [L[o][0]] + L[o][2..];
        assert Unlink(L[o][1..], q) == L[o][2..];
        assert rest == Unlink(L[o], q);
        UnlinkSet(L, o, q);
        BuddiesSecondAbove(L, L[o := rest], Lower(p, q), o + 1);
        FreeAsWrittenExactly(L[o := rest], Lower(p, q), o + 1);
      }
    }
  }

  /** Whenever an allocation had to split, releasing its block at once never returns as written. */
  lemma ReleaseAfterSplitNeverReturns(L: Lists, o: nat, live: set<Block>, pages: set<nat>)
    requires Holds(L, live, pages) && AllocBlock(L, o).Some? && o <= MAX_ORDER && L[o] == []
    ensures var (p, M) := AllocBlock(L, o).value; FreeAsWritten(M, p, o).None?
  {
    hide Tiles, FreeSet, SplitDown, BuddyPage, Pow2, FreeAsWritten;
    var c := FirstNonEmpty(L, o);
    var p := L[c][0];
    SplitDownLists(L[c := L[c][1..]], p, c, o, o);
    HeadIsWellPlaced(L, c, live, pages);
    LargerAlignment(p, c, o + 1);
    BuddyOfLower(p, o);
    SplitStaysBelow(p, c, o);
    OnlyBuddyIsStuck(AllocBlock(L, o).value.1, p, o);
  }

  lemma HeadIsWellPlaced(L: Lists, c: nat, live: set<Block>, pages: set<nat>)
    requires Holds(L, live, pages) && c <= MAX_ORDER && L[c] != []
    ensures WellPlaced(Block(c, L[c][0]))
  {
    assert Block(c, L[c][0]) in FreeSet(L) + live;
  }

  lemma OnlyBuddyIsStuck(L: Lists, p: nat, o: nat)
    requires |L| == MAX_ORDER + 1 && o < MAX_ORDER && BuddyPage(p, o) < MAX_TOTAL_PAGES && L[o] == [BuddyPage(p, o)]
    ensures FreeAsWritten(L, p, o).None?
  {
    hide BuddyPage;
  }

  lemma {:induction false} SplitStaysBelow(p: nat, c: nat, o: nat)
    requires o < c
    ensures p + Pow2(o) < p + Pow2(c)
  {
    if c - 1 > o { SplitStaysBelow(p, c - 1, o); }
  }
}
