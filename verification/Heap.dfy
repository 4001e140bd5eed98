/** The kernel heap on values: its blocks in address order and its free list, and what allocation,
    growth, splitting and coalescing keep of them. */
module Heap {
  import opened Bits
  import opened Sequences

  /** sizeof(block_header_t): two bytes padded to eight, and six 64-bit fields. */
  const HEADER: nat := 56
  const PAGE_SIZE: nat := 4096
  const DEFAULT_SIZE: nat := 0x40_0000
  const WORD: nat := 0x1_0000_0000_0000_0000

  /** A block: where its header is, the size of its payload, and whether it is free. */
  datatype Block = Block(address: nat, size: nat, free: bool)

  function EndOf(b: Block): nat {
    b.address + HEADER + b.size
  }

  /** The blocks follow one another from base to end without gap or overlap. */
  ghost predicate Tiled(bs: seq<Block>, base: nat, end: nat) {
    && |bs| > 0 && bs[0].address == base && EndOf(bs[|bs| - 1]) == end
    && (forall i :: 0 <= i < |bs| - 1 ==> EndOf(bs[i]) == bs[i + 1].address)
  }

  /** There is a free block with its header at the address. */
  ghost predicate FreeHeader(bs: seq<Block>, a: nat) {
    exists i :: 0 <= i < |bs| && bs[i].address == a && bs[i].free
  }

  /** The free list holds the headers of exactly the free blocks, each once. */
  ghost predicate ListsFree(bs: seq<Block>, fl: seq<nat>) {
    Distinct(fl) && forall a: nat :: a in fl <==> FreeHeader(bs, a)
  }

  ghost predicate NoFreeNeighbours(bs: seq<Block>) {
    forall i :: 0 <= i < |bs| - 1 ==> !(bs[i].free && bs[i + 1].free)
  }

  /** What holds of the heap between calls. */
  ghost predicate Sound(bs: seq<Block>, fl: seq<nat>, base: nat, end: nat) {
    Tiled(bs, base, end) && ListsFree(bs, fl) && NoFreeNeighbours(bs) && base <= end && (end - base) % PAGE_SIZE == 0
  }

  lemma {:induction false} InOrder(bs: seq<Block>, base: nat, end: nat, i: nat, j: nat)
    requires Tiled(bs, base, end) && i < j < |bs|
    ensures EndOf(bs[i]) <= bs[j].address
    decreases j
  {
    assert EndOf(bs[j - 1]) == bs[j].address;
    if i < j - 1 { InOrder(bs, base, end, i, j - 1); }
  }

  lemma Addresses(bs: seq<Block>, base: nat, end: nat, i: nat, j: nat)
    requires Tiled(bs, base, end) && i < |bs| && j < |bs| && bs[i].address == bs[j].address
    ensures i == j
  {
    if i < j { InOrder(bs, base, end, i, j); } else if j < i { InOrder(bs, base, end, j, i); }
  }

  /** The payloads of two blocks share no byte, and no payload reaches a header. */
  lemma PayloadsApart(bs: seq<Block>, base: nat, end: nat, i: nat, j: nat)
    requires Tiled(bs, base, end) && i < |bs| && j < |bs| && i != j
    ensures EndOf(bs[i]) <= bs[j].address || EndOf(bs[j]) <= bs[i].address
    ensures base <= bs[i].address && EndOf(bs[i]) <= end
  {
    if i < j { InOrder(bs, base, end, i, j); } else { InOrder(bs, base, end, j, i); }
    if i > 0 { InOrder(bs, base, end, 0, i); }
    if i < |bs| - 1 { InOrder(bs, base, end, i, |bs| - 1); }
  }

  // ---------------------------------------------------------------------------- the free list

  function Without(fl: seq<nat>, a: nat): seq<nat> {
    if fl == [] then [] else if fl[0] == a then fl[1..] else [fl[0]] + Without(fl[1..], a)
  }

  lemma {:induction false} WithoutMembers(fl: seq<nat>, a: nat)
    requires Distinct(fl)
    ensures Distinct(Without(fl, a))
    ensures forall x: nat :: x in Without(fl, a) <==> x in fl && x != a
  {
    if fl != [] {
      var rest := fl[1..];
      assert fl == [fl[0]] + rest;
      assert forall x: nat :: x in fl <==> x == fl[0] || x in rest;
      assert fl[0] !in rest;
      if fl[0] != a {
        WithoutMembers(rest, a);
        assert Without(fl, a) == [fl[0]] + Without(rest, a);
      }
    }
  }

  lemma Pushed(fl: seq<nat>, a: nat)
    requires Distinct(fl) && a !in fl
    ensures Distinct([a] + fl) && forall x: nat :: x in [a] + fl <==> x == a || x in fl
  {
  }

  // ------------------------------------------------------------------------------- allocation

  /** Cut a free block to the size wanted and take it; what is left beyond a header becomes a free
      block of its own, first on the free list. */
  function Taken(bs: seq<Block>, i: nat, size: nat): seq<Block>
    requires i < |bs| && size <= bs[i].size
  {
    var b := bs[i];
    if b.size - size <= HEADER then bs[i := Block(b.address, b.size, false)]
    else bs[..i] + [Block(b.address, size, false), Remainder(b, size)] + bs[i + 1..]
  }

  function Remainder(b: Block, size: nat): Block
    requires size + HEADER < b.size
  {
    Block(b.address + size + HEADER, b.size - size - HEADER, true)
  }

  function TakenList(bs: seq<Block>, fl: seq<nat>, i: nat, size: nat): seq<nat>
    requires i < |bs| && size <= bs[i].size
  {
    var b := bs[i];
    Without(if b.size - size <= HEADER then fl else [Remainder(b, size).address] + fl, b.address)
  }

  /** Two neighbours may both be free only if one of them is block i. */
  ghost predicate FreeNeighboursOnlyAt(bs: seq<Block>, i: nat) {
    forall j :: 0 <= j < |bs| - 1 && bs[j].free && bs[j + 1].free ==> j == i || j + 1 == i
  }

  /** Growth may have put block i behind a free last block; every other heap is as between calls. */
  ghost predicate AboutToTake(bs: seq<Block>, fl: seq<nat>, base: nat, end: nat, i: nat) {
    && Tiled(bs, base, end) && ListsFree(bs, fl) && base <= end && (end - base) % PAGE_SIZE == 0
    && i < |bs| && bs[i].free && FreeNeighboursOnlyAt(bs, i) && (i + 1 < |bs| ==> !bs[i + 1].free)
  }

  /** Where the other blocks are after block i has been cut. */
  lemma TakenAt(bs: seq<Block>, i: nat, size: nat, k: nat)
    requires i < |bs| && size <= bs[i].size && k < |bs| && k != i
    ensures var ts := Taken(bs, i, size);
      if k < i then ts[k] == bs[k] else k + |ts| - |bs| < |ts| && ts[k + |ts| - |bs|] == bs[k]
  {
  }

  lemma TakenHere(bs: seq<Block>, i: nat, size: nat)
    requires i < |bs| && size <= bs[i].size
    ensures var ts := Taken(bs, i, size);
      && |bs| <= |ts| <= |bs| + 1 && ts[i].address == bs[i].address
      && (if |ts| == |bs| then EndOf(ts[i]) == EndOf(bs[i])
          else bs[i].size - size > HEADER && ts[i + 1] == Remainder(bs[i], size)
               && EndOf(ts[i]) == ts[i + 1].address && EndOf(ts[i + 1]) == EndOf(bs[i]))
  {
  }

  lemma TakeTiles(bs: seq<Block>, base: nat, end: nat, i: nat, size: nat)
    requires Tiled(bs, base, end) && i < |bs| && size <= bs[i].size
    ensures Tiled(Taken(bs, i, size), base, end)
  {
    hide Taken, Remainder, EndOf;
    var ts := Taken(bs, i, size);
    var extra := |ts| - |bs|;
    TakenHere(bs, i, size);
    forall j | 0 <= j < |ts| - 1 ensures EndOf(ts[j]) == ts[j + 1].address {
      if j < i {
        TakenAt(bs, i, size, j);
        if j + 1 < i { TakenAt(bs, i, size, j + 1); }
        assert EndOf(bs[j]) == bs[j + 1].address;
      } else if j >= i + extra {
        if j > i + extra { TakenAt(bs, i, size, j - extra); }
        TakenAt(bs, i, size, j - extra + 1);
        assert EndOf(bs[j - extra]) == bs[j - extra + 1].address;
      }
    }
    if 0 < i { TakenAt(bs, i, size, 0); }
    if i < |bs| - 1 { TakenAt(bs, i, size, |bs| - 1); }
  }

  /** An address inside block i is no header. */
  lemma InsideIsNoHeader(bs: seq<Block>, base: nat, end: nat, i: nat, a: nat, j: nat)
    requires Tiled(bs, base, end) && i < |bs| && j < |bs| && bs[i].address < a < EndOf(bs[i])
    ensures bs[j].address != a
  {
    if i < j { InOrder(bs, base, end, i, j); } else if j < i { InOrder(bs, base, end, j, i); }
  }

  lemma TakenFree(bs: seq<Block>, base: nat, end: nat, i: nat, size: nat, a: nat)
    requires Tiled(bs, base, end) && i < |bs| && bs[i].free && size <= bs[i].size
    ensures FreeHeader(Taken(bs, i, size), a) <==>
            (FreeHeader(bs, a) && a != bs[i].address)
            || (bs[i].size - size > HEADER && a == Remainder(bs[i], size).address)
  {
    hide Tiled, Taken, Remainder;
    var ts := Taken(bs, i, size);
    var extra := |ts| - |bs|;
    TakenHere(bs, i, size);
    TakenHead(bs, i, size);
    if FreeHeader(ts, a) {
      var j :| 0 <= j < |ts| && ts[j].address == a && ts[j].free;
      if j != i && !(extra == 1 && j == i + 1) {
        var k := if j > i then j - extra else j;
        TakenAt(bs, i, size, k);
        if bs[k].address == bs[i].address { Addresses(bs, base, end, i, k); }
      }
    }
    if FreeHeader(bs, a) && a != bs[i].address {
      var j :| 0 <= j < |bs| && bs[j].address == a && bs[j].free;
      TakenAt(bs, i, size, j);
    }
  }

  lemma TakenHead(bs: seq<Block>, i: nat, size: nat)
    requires i < |bs| && size <= bs[i].size
    ensures var ts := Taken(bs, i, size);
      !ts[i].free && (|ts| == |bs| + 1 <==> bs[i].size - size > HEADER) && (|ts| == |bs| + 1 ==> ts[i + 1].free)
  {
  }

  lemma TakeLists(bs: seq<Block>, fl: seq<nat>, base: nat, end: nat, i: nat, size: nat)
    requires Tiled(bs, base, end) && ListsFree(bs, fl) && i < |bs| && bs[i].free && size <= bs[i].size
    ensures ListsFree(Taken(bs, i, size), TakenList(bs, fl, i, size))
  {
    hide FreeHeader, Taken, Without;
    var b := bs[i];
    var longer := if b.size - size <= HEADER then fl else [Remainder(b, size).address] + fl;
    if b.size - size > HEADER {
      RemainderIsNew(bs, base, end, i, size);
      Pushed(fl, Remainder(b, size).address);
    }
    WithoutMembers(longer, b.address);
    forall a: nat ensures a in TakenList(bs, fl, i, size) <==> FreeHeader(Taken(bs, i, size), a) {
      TakenFree(bs, base, end, i, size, a);
    }
  }

  lemma RemainderIsNew(bs: seq<Block>, base: nat, end: nat, i: nat, size: nat)
    requires Tiled(bs, base, end) && i < |bs| && size + HEADER < bs[i].size
    ensures !FreeHeader(bs, Remainder(bs[i], size).address)
  {
    forall j | 0 <= j < |bs| ensures bs[j].address != Remainder(bs[i], size).address {
      InsideIsNoHeader(bs, base, end, i, Remainder(bs[i], size).address, j);
    }
  }

  lemma TakeNeighbours(bs: seq<Block>, i: nat, size: nat)
    requires i < |bs| && size <= bs[i].size && FreeNeighboursOnlyAt(bs, i) && (i + 1 < |bs| ==> !bs[i + 1].free)
    ensures NoFreeNeighbours(Taken(bs, i, size))
  {
  }

  /** Taking a block keeps the heap sound: the rest stays tiled, listed and coalesced. */
  lemma TakeKeeps(bs: seq<Block>, fl: seq<nat>, base: nat, end: nat, i: nat, size: nat)
    requires AboutToTake(bs, fl, base, end, i) && size <= bs[i].size
    ensures Sound(Taken(bs, i, size), TakenList(bs, fl, i, size), base, end)
    ensures var t := Taken(bs, i, size)[i]; t.address == bs[i].address && !t.free && size <= t.size <= size + HEADER
  {
    TakeTiles(bs, base, end, i, size);
    TakeLists(bs, fl, base, end, i, size);
    TakeNeighbours(bs, i, size);
  }

  // ------------------------------------------------------------------------------------ growth

  /** The pages growth asks for, with the 64-bit sum of the source. */
  function GrowthPages(size: nat): nat {
    var bytes := (size + HEADER) % WORD;
    if bytes % PAGE_SIZE != 0 then bytes / PAGE_SIZE + 1 else bytes / PAGE_SIZE
  }

  /** Growth makes room for the request exactly when the request and its header fit in 64 bits, and
      then with as few pages as possible. For a larger request the sum wraps and asks for at most one
      page: the code maps it and goes on to link and split a block that is too small, where Allocate
      below answers None. */
  lemma GrowthFitsExactly(size: nat)
    requires size < WORD
    ensures GrowthPages(size) * PAGE_SIZE >= size + HEADER <==> size + HEADER < WORD
    ensures (GrowthPages(size) - 1) * PAGE_SIZE < size + HEADER
    ensures size + HEADER >= WORD ==> GrowthPages(size) <= 1
  {
  }

  function Grown(bs: seq<Block>, end: nat, pages: nat): seq<Block>
    requires pages > 0
  {
    bs + [Block(end, pages * PAGE_SIZE - HEADER, true)]
  }

  lemma GrownFree(bs: seq<Block>, end: nat, pages: nat, a: nat)
    requires pages > 0
    ensures FreeHeader(Grown(bs, end, pages), a) <==> FreeHeader(bs, a) || a == end
  {
    var gs := Grown(bs, end, pages);
    if FreeHeader(bs, a) {
      var j :| 0 <= j < |bs| && bs[j].address == a && bs[j].free;
      assert gs[j] == bs[j];
    }
    assert gs[|bs|].address == end && gs[|bs|].free;
  }

  lemma EndIsNew(bs: seq<Block>, base: nat, end: nat)
    requires Tiled(bs, base, end)
    ensures !FreeHeader(bs, end)
  {
    forall j | 0 <= j < |bs| ensures bs[j].address != end {
      if j < |bs| - 1 { InOrder(bs, base, end, j, |bs| - 1); }
    }
  }

  /** New pages behind the last block become one free block, which is about to be taken. */
  lemma GrowthKeeps(bs: seq<Block>, fl: seq<nat>, base: nat, end: nat, pages: nat)
    requires Sound(bs, fl, base, end) && pages > 0
    ensures AboutToTake(Grown(bs, end, pages), [end] + fl, base, end + pages * PAGE_SIZE, |bs|)
  {
    var gs := Grown(bs, end, pages);
    forall i | 0 <= i < |gs| - 1 ensures EndOf(gs[i]) == gs[i + 1].address {
      if i < |bs| - 1 { assert EndOf(bs[i]) == bs[i + 1].address; }
    }
    forall a: nat ensures FreeHeader(gs, a) <==> FreeHeader(bs, a) || a == end { GrownFree(bs, end, pages, a); }
    EndIsNew(bs, base, end);
    Pushed(fl, end);
    assert (end + pages * PAGE_SIZE - base) % PAGE_SIZE == 0 by {
      DivModUnique(end - base + pages * PAGE_SIZE, PAGE_SIZE, (end - base) / PAGE_SIZE + pages, 0);
    }
  }

  /** A block of a sound heap that is found free is about to be taken. */
  lemma FoundIsReady(bs: seq<Block>, fl: seq<nat>, base: nat, end: nat, i: nat)
    requires Sound(bs, fl, base, end) && i < |bs| && bs[i].free
    ensures AboutToTake(bs, fl, base, end, i)
  {
  }

  // ----------------------------------------------------------------------------------- release

  function FreeAt(bs: seq<Block>, i: int): bool {
    0 <= i < |bs| && bs[i].free
  }

  /** The block a release leaves at the place of block i: it and its free neighbours in one. */
  function Merged(bs: seq<Block>, i: nat): Block
    requires i < |bs|
  {
    var first := if FreeAt(bs, i - 1) then bs[i - 1] else bs[i];
    var last := if FreeAt(bs, i + 1) then bs[i + 1] else bs[i];
    var size := if EndOf(last) >= first.address + HEADER then EndOf(last) - first.address - HEADER else 0;
    Block(first.address, size, true)
  }

  function Released(bs: seq<Block>, i: nat): seq<Block>
    requires i < |bs|
  {
    bs[..if FreeAt(bs, i - 1) then i - 1 else i] + [Merged(bs, i)] + bs[if FreeAt(bs, i + 1) then i + 2 else i + 1..]
  }

  /** The next block leaves the free list; the merged block is on it already when the previous block
      was free, and is pushed otherwise. */
  function ReleasedList(bs: seq<Block>, fl: seq<nat>, i: nat): seq<nat>
    requires i < |bs|
  {
    var rest := if FreeAt(bs, i + 1) then Without(fl, bs[i + 1].address) else fl;
    if FreeAt(bs, i - 1) then rest else [bs[i].address] + rest
  }

  /** The place of the merged block, and how many blocks it has taken in. */
  function MergePlace(bs: seq<Block>, i: nat): nat {
    if FreeAt(bs, i - 1) then i - 1 else i
  }

  function TakenIn(bs: seq<Block>, i: nat): nat {
    (if FreeAt(bs, i - 1) then 1 else 0) + if FreeAt(bs, i + 1) then 1 else 0
  }

  /** Where the other blocks are after a release. */
  lemma ReleasedAt(bs: seq<Block>, i: nat, k: nat)
    requires i < |bs| && k < |bs|
    ensures var (rs, m, skip) := (Released(bs, i), MergePlace(bs, i), TakenIn(bs, i));
      && |rs| == |bs| - skip && m < |rs| && rs[m] == Merged(bs, i)
      && (k < m ==> rs[k] == bs[k]) && (k > m + skip ==> rs[k - skip] == bs[k])
  {
    var (m, skip) := (MergePlace(bs, i), TakenIn(bs, i));
    var front, back := bs[..m] + [Merged(bs, i)], bs[m + skip + 1..];
    assert Released(bs, i) == front + back;
    if k > m + skip { assert (front + back)[k - skip] == back[k - skip - |front|]; }
  }

  lemma ReleaseTiles(bs: seq<Block>, base: nat, end: nat, i: nat)
    requires Tiled(bs, base, end) && i < |bs|
    ensures Tiled(Released(bs, i), base, end)
  {
    hide Released;
    var rs, m, skip := Released(bs, i), MergePlace(bs, i), TakenIn(bs, i);
    ReleasedAt(bs, i, i);
    if i > 0 { assert EndOf(bs[i - 1]) == bs[i].address; }
    if i + 1 < |bs| { assert EndOf(bs[i]) == bs[i + 1].address; }
    forall j | 0 <= j < |rs| - 1 ensures EndOf(rs[j]) == rs[j + 1].address {
      if j < m {
        ReleasedAt(bs, i, j);
        if j + 1 < m { ReleasedAt(bs, i, j + 1); }
        assert EndOf(bs[j]) == bs[j + 1].address;
      } else {
        if j > m { ReleasedAt(bs, i, j + skip); }
        ReleasedAt(bs, i, j + skip + 1);
        assert EndOf(bs[j + skip]) == bs[j + skip + 1].address;
      }
    }
    if m > 0 { ReleasedAt(bs, i, 0); }
    if m + skip < |bs| - 1 { ReleasedAt(bs, i, |bs| - 1); }
  }

  lemma ReleaseNeighbours(bs: seq<Block>, i: nat)
    requires i < |bs| && NoFreeNeighbours(bs) && !bs[i].free
    ensures NoFreeNeighbours(Released(bs, i))
  {
  }

  lemma ReleasedFree(bs: seq<Block>, base: nat, end: nat, i: nat, a: nat)
    requires Tiled(bs, base, end) && i < |bs| && !bs[i].free
    ensures FreeHeader(Released(bs, i), a) <==>
            (FreeHeader(bs, a) && !(FreeAt(bs, i + 1) && a == bs[i + 1].address)) || a == Merged(bs, i).address
  {
    hide Tiled, Released, Merged, FreeAt;
    var rs, m, skip := Released(bs, i), MergePlace(bs, i), TakenIn(bs, i);
    ReleasedAt(bs, i, i);
    if FreeHeader(rs, a) {
      var j :| 0 <= j < |rs| && rs[j].address == a && rs[j].free;
      if j != m {
        var k := if j < m then j else j + skip;
        ReleasedAt(bs, i, k);
        if FreeAt(bs, i + 1) && bs[k].address == bs[i + 1].address { Addresses(bs, base, end, k, i + 1); }
      }
    }
    if FreeHeader(bs, a) {
      var k :| 0 <= k < |bs| && bs[k].address == a && bs[k].free;
      ReleasedAt(bs, i, k);
    }
    MergedIsFree(bs, i);
  }

  lemma MergedIsFree(bs: seq<Block>, i: nat)
    requires i < |bs|
    ensures Merged(bs, i).free && Merged(bs, i).address == bs[MergePlace(bs, i)].address
  {
  }

  lemma ReleaseLists(bs: seq<Block>, fl: seq<nat>, base: nat, end: nat, i: nat)
    requires Tiled(bs, base, end) && ListsFree(bs, fl) && i < |bs| && !bs[i].free
    ensures ListsFree(Released(bs, i), ReleasedList(bs, fl, i))
  {
    hide FreeHeader, Released, Without;
    var rest := if FreeAt(bs, i + 1) then Without(fl, bs[i + 1].address) else fl;
    if FreeAt(bs, i + 1) { WithoutMembers(fl, bs[i + 1].address); }
    OwnHeaderOnly(bs, base, end, i);
    if !FreeAt(bs, i - 1) { Pushed(rest, bs[i].address); }
    forall a: nat ensures a in ReleasedList(bs, fl, i) <==> FreeHeader(Released(bs, i), a) {
      ReleasedFree(bs, base, end, i, a);
    }
  }

  lemma OwnHeaderOnly(bs: seq<Block>, base: nat, end: nat, i: nat)
    requires Tiled(bs, base, end) && i < |bs| && !bs[i].free
    ensures !FreeHeader(bs, bs[i].address)
    ensures FreeAt(bs, i - 1) ==> FreeHeader(bs, bs[i - 1].address)
    ensures FreeAt(bs, i - 1) && FreeAt(bs, i + 1) ==> bs[i - 1].address != bs[i + 1].address
  {
    forall j | 0 <= j < |bs| && j != i ensures bs[j].address != bs[i].address {
      if bs[j].address == bs[i].address { Addresses(bs, base, end, i, j); }
    }
    if 0 < i < |bs| - 1 { InOrder(bs, base, end, i - 1, i + 1); }
  }

  /** Releasing a block keeps the heap sound and puts its payload into a free block. */
  lemma ReleaseKeeps(bs: seq<Block>, fl: seq<nat>, base: nat, end: nat, i: nat)
    requires Sound(bs, fl, base, end) && i < |bs| && !bs[i].free
    ensures Sound(Released(bs, i), ReleasedList(bs, fl, i), base, end)
    ensures Merged(bs, i).address <= bs[i].address && EndOf(bs[i]) <= EndOf(Merged(bs, i))
  {
    ReleaseTiles(bs, base, end, i);
    ReleaseLists(bs, fl, base, end, i);
    ReleaseNeighbours(bs, i);
    if i > 0 { assert EndOf(bs[i - 1]) == bs[i].address; }
    if i + 1 < |bs| { assert EndOf(bs[i]) == bs[i + 1].address; }
  }

  // ------------------------------------------------------------------------------ whole calls

  datatype State = State(blocks: seq<Block>, free: seq<nat>, end: nat)

  /** The index of the block whose header is at the address, or |bs|. */
  function IndexOf(bs: seq<Block>, a: nat): (i: nat)
    ensures i <= |bs| && (i < |bs| ==> bs[i].address == a)
    ensures forall j :: 0 <= j < i ==> bs[j].address != a
  {
    if bs == [] || bs[0].address == a then 0 else 1 + IndexOf(bs[1..], a)
  }

  /** find_free_block: the first block on the free list that is large enough. */
  function FirstFit(bs: seq<Block>, fl: seq<nat>, size: nat): (r: Option<nat>)
    ensures r.Some? ==> r.value < |bs| && bs[r.value].size >= size && bs[r.value].address in fl
  {
    if fl == [] then None
    else
      var i := IndexOf(bs, fl[0]);
      if i < |bs| && bs[i].size >= size then Some(i) else FirstFit(bs, fl[1..], size)
  }

  predicate TooSmall(bs: seq<Block>, a: nat, size: nat) {
    var i := IndexOf(bs, a);
    i == |bs| || bs[i].size < size
  }

  /** The fit is the first on the free list: all listed before it are too small, and if there is none
      all listed are. */
  lemma {:induction false} FitIsFirst(bs: seq<Block>, fl: seq<nat>, size: nat) returns (k: nat)
    ensures k <= |fl| && forall j :: 0 <= j < k ==> TooSmall(bs, fl[j], size)
    ensures FirstFit(bs, fl, size) == if k < |fl| then Some(IndexOf(bs, fl[k])) else None
  {
    if fl == [] || !TooSmall(bs, fl[0], size) {
      k := 0;
    } else {
      var n := FitIsFirst(bs, fl[1..], size);
      k := n + 1;
    }
  }

  lemma ListedIsFree(bs: seq<Block>, fl: seq<nat>, base: nat, end: nat, i: nat)
    requires Tiled(bs, base, end) && ListsFree(bs, fl) && i < |bs|
    ensures bs[i].free <==> bs[i].address in fl
  {
    if bs[i].address in fl {
      assert FreeHeader(bs, bs[i].address);
      var j :| 0 <= j < |bs| && bs[j].address == bs[i].address && bs[j].free;
      Addresses(bs, base, end, i, j);
    }
  }

  /** A fit is found whenever some free block is large enough. */
  lemma {:induction false} FirstFitFinds(bs: seq<Block>, fl: seq<nat>, base: nat, end: nat, size: nat, i: nat)
    requires Tiled(bs, base, end) && i < |bs| && bs[i].address in fl && size <= bs[i].size
    ensures FirstFit(bs, fl, size).Some?
  {
    if fl[0] == bs[i].address {
      var j := IndexOf(bs, fl[0]);
      if j < |bs| { Addresses(bs, base, end, i, j); }
    } else {
      assert fl == [fl[0]] + fl[1..];
      FirstFitFinds(bs, fl[1..], base, end, size, i);
    }
  }

  /** block_allocator_allocate. If no free block fits, pages are needed; granted says whether all of
      them could be had. The result is the payload's address. For a request whose sum with its header
      wraps see GrowthFitsExactly. */
  function Allocate(s: State, size: nat, granted: bool): (State, Option<nat>) {
    match FirstFit(s.blocks, s.free, size)
    case Some(i) =>
      (State(Taken(s.blocks, i, size), TakenList(s.blocks, s.free, i, size), s.end), Some(s.blocks[i].address + HEADER))
    case None =>
      var pages := GrowthPages(size);
      if !granted || pages * PAGE_SIZE < size + HEADER then (s, None)
      else
        var bs, fl := Grown(s.blocks, s.end, pages), [s.end] + s.free;
        (State(Taken(bs, |s.blocks|, size), TakenList(bs, fl, |s.blocks|, size), s.end + pages * PAGE_SIZE),
         Some(s.end + HEADER))
  }

  /** block_allocator_free of a live block's payload. */
  function Release(s: State, i: nat): State
    requires i < |s.blocks|
  {
    State(Released(s.blocks, i), ReleasedList(s.blocks, s.free, i), s.end)
  }

  ghost predicate Live(s: State, b: Block) {
    b in s.blocks && !b.free
  }

  ghost predicate SoundState(s: State, base: nat) {
    Sound(s.blocks, s.free, base, s.end)
  }

  /** An allocation keeps the heap sound and every live block; a successful one yields a new live
      block, large enough and larger by no more than a header. */
  lemma AllocateKeeps(s: State, base: nat, size: nat, granted: bool)
    requires SoundState(s, base) && size + HEADER < WORD
    ensures var (t, p) := Allocate(s, size, granted);
      && SoundState(t, base) && s.end <= t.end
      && (forall b :: Live(s, b) ==> Live(t, b))
      && (p.None? ==> t == s && !granted)
      && (p.Some? ==> exists b ::
            Live(t, b) && !Live(s, b) && b.address + HEADER == p.value && size <= b.size <= size + HEADER)
  {
    hide Sound, Taken, TakenList, Tiled, ListsFree;
    GrowthFitsExactly(size);
    match FirstFit(s.blocks, s.free, size)
    case Some(i) =>
      FoundFit(s, base, size, i);
      TakeKeeps(s.blocks, s.free, base, s.end, i, size);
      TakenLive(s.blocks, base, s.end, i, size);
    case None =>
      if granted {
        var pages := GrowthPages(size);
        GrowthKeeps(s.blocks, s.free, base, s.end, pages);
        var bs, fl, end := Grown(s.blocks, s.end, pages), [s.end] + s.free, s.end + pages * PAGE_SIZE;
        ReadyIsTiled(bs, fl, base, end, |s.blocks|);
        TakeKeeps(bs, fl, base, end, |s.blocks|, size);
        TakenLive(bs, base, end, |s.blocks|, size);
      }
  }

  ghost predicate HasFit(s: State, size: nat) {
    exists i :: 0 <= i < |s.blocks| && s.blocks[i].free && size <= s.blocks[i].size
  }

  /** An allocation succeeds if and only if some free block is large enough or the pages can be had. It takes
      the first such block on the free list if there is one, and only otherwise grows the heap, by as few
      pages as hold the request. */
  lemma AllocatesFirstFit(s: State, base: nat, size: nat, granted: bool) returns (k: nat)
    requires SoundState(s, base) && size + HEADER < WORD
    ensures k <= |s.free| && (k < |s.free| <==> HasFit(s, size))
    ensures forall j :: 0 <= j < k ==> TooSmall(s.blocks, s.free[j], size)
    ensures k < |s.free| ==> !TooSmall(s.blocks, s.free[k], size)
    ensures var (t, p) := Allocate(s, size, granted);
      && p == (if HasFit(s, size) then Some(s.free[k] + HEADER) else if granted then Some(s.end + HEADER) else None)
      && t.end == s.end + (if granted && !HasFit(s, size) then GrowthPages(size) * PAGE_SIZE else 0)
      && size + HEADER <= GrowthPages(size) * PAGE_SIZE < size + HEADER + PAGE_SIZE
  {
    hide Taken, TakenList;
    GrowthFitsExactly(size);
    k := FitIsFirst(s.blocks, s.free, size);
    FitIsListed(s, base, size, k);
  }

  lemma FitIsListed(s: State, base: nat, size: nat, k: nat)
    requires SoundState(s, base) && k <= |s.free|
    requires FirstFit(s.blocks, s.free, size) == if k < |s.free| then Some(IndexOf(s.blocks, s.free[k])) else None
    ensures k < |s.free| <==> HasFit(s, size)
    ensures k < |s.free| ==> !TooSmall(s.blocks, s.free[k], size)
  {
    hide FirstFit, Tiled, ListsFree, NoFreeNeighbours;
    if k < |s.free| {
      var i := IndexOf(s.blocks, s.free[k]);
      ListedIsFree(s.blocks, s.free, base, s.end, i);
    }
    if i :| 0 <= i < |s.blocks| && s.blocks[i].free && size <= s.blocks[i].size {
      ListedIsFree(s.blocks, s.free, base, s.end, i);
      FirstFitFinds(s.blocks, s.free, base, s.end, size, i);
    }
  }

  lemma FoundFit(s: State, base: nat, size: nat, i: nat)
    requires SoundState(s, base) && FirstFit(s.blocks, s.free, size) == Some(i)
    ensures AboutToTake(s.blocks, s.free, base, s.end, i) && Tiled(s.blocks, base, s.end)
  {
    ListedIsFree(s.blocks, s.free, base, s.end, i);
    FoundIsReady(s.blocks, s.free, base, s.end, i);
  }

  lemma ReadyIsTiled(bs: seq<Block>, fl: seq<nat>, base: nat, end: nat, i: nat)
    requires AboutToTake(bs, fl, base, end, i)
    ensures Tiled(bs, base, end)
  {
  }

  /** Taking a free block keeps all live blocks and adds the taken one. */
  lemma TakenLive(bs: seq<Block>, base: nat, end: nat, i: nat, size: nat)
    requires Tiled(bs, base, end) && i < |bs| && bs[i].free && size <= bs[i].size
    ensures var ts := Taken(bs, i, size);
      && (forall b :: b in bs && !b.free ==> b in ts)
      && ts[i] in ts && ts[i].address == bs[i].address && size <= ts[i].size <= size + HEADER && !ts[i].free
      && ts[i] !in bs
  {
    var ts := Taken(bs, i, size);
    forall b | b in bs && !b.free ensures b in ts {
      var j :| 0 <= j < |bs| && bs[j] == b;
      assert ts[if j > i then j + (|ts| - |bs|) else j] == b;
    }
    forall j | 0 <= j < |bs| ensures bs[j] != ts[i] {
      if bs[j].address == bs[i].address { Addresses(bs, base, end, i, j); }
    }
  }

  lemma StaysLive(bs: seq<Block>, i: nat, b: Block)
    requires i < |bs| && b in bs && !b.free && b != bs[i]
    ensures b in Released(bs, i)
  {
  }

  lemma WasLive(bs: seq<Block>, base: nat, end: nat, i: nat, b: Block)
    requires Tiled(bs, base, end) && i < |bs| && b in Released(bs, i) && !b.free
    ensures b in bs && b != bs[i]
  {
    var m, after := if FreeAt(bs, i - 1) then i - 1 else i, if FreeAt(bs, i + 1) then i + 2 else i + 1;
    var j :| (0 <= j < m || after <= j < |bs|) && bs[j] == b;
    if bs[j] == bs[i] { Addresses(bs, base, end, j, i); }
  }

  /** A release takes exactly the released block from the live ones. */
  lemma ReleasedLive(bs: seq<Block>, base: nat, end: nat, i: nat)
    requires Tiled(bs, base, end) && i < |bs| && !bs[i].free
    ensures forall b :: b in Released(bs, i) && !b.free <==> b in bs && !b.free && b != bs[i]
  {
    hide Tiled, Released;
    forall b | b in bs && !b.free && b != bs[i] ensures b in Released(bs, i) { StaysLive(bs, i, b); }
    forall b | b in Released(bs, i) && !b.free ensures b in bs && b != bs[i] { WasLive(bs, base, end, i, b); }
  }

  /** A release keeps the heap sound and every other live block. */
  lemma ReleaseStateKeeps(s: State, base: nat, i: nat)
    requires SoundState(s, base) && i < |s.blocks| && !s.blocks[i].free
    ensures SoundState(Release(s, i), base)
    ensures forall b :: Live(Release(s, i), b) <==> Live(s, b) && b != s.blocks[i]
  {
    hide Released, ReleasedList, ListsFree, Tiled, NoFreeNeighbours;
    ReleaseKeeps(s.blocks, s.free, base, s.end, i);
    ReleasedLive(s.blocks, base, s.end, i);
  }

  /** block_allocator_init: one free block of 4 MiB. */
  function Initial(base: nat): State {
    State([Block(base, DEFAULT_SIZE - HEADER, true)], [base], base + DEFAULT_SIZE)
  }

  datatype Call = Alloc(size: nat, granted: bool) | Free(index: nat)

  ghost predicate CanFollow(s: State, t: State) {
    exists c :: Allowed(s, c) && t == After(s, c)
  }

  /** Sizes fit in 64 bits with a header, and only live blocks are released. */
  ghost predicate Allowed(s: State, c: Call) {
    match c
    case Alloc(size, _) => size + HEADER < WORD
    case Free(i) => i < |s.blocks| && !s.blocks[i].free
  }

  ghost function After(s: State, c: Call): State
    requires Allowed(s, c)
  {
    match c
    case Alloc(size, granted) => Allocate(s, size, granted).0
    case Free(i) => Release(s, i)
  }

  /** In every run from initialisation the heap stays tiled to a page boundary, the free list is
      exact, and no two neighbours are both free. */
  lemma {:induction false} AlwaysSound(trace: seq<State>, base: nat, n: nat)
    requires n < |trace| && trace[0] == Initial(base)
    requires forall k :: 0 < k < |trace| ==> CanFollow(trace[k - 1], trace[k])
    ensures SoundState(trace[n], base)
  {
    hide Sound, Allocate, Release;
    if n == 0 {
      InitialIsSound(base);
    } else {
      AlwaysSound(trace, base, n - 1);
      CallKeeps(trace[n - 1], trace[n], base);
    }
  }

  lemma CallKeeps(s: State, t: State, base: nat)
    requires SoundState(s, base) && CanFollow(s, t)
    ensures SoundState(t, base)
  {
    hide Sound, Allocate, Release;
    var c :| Allowed(s, c) && t == After(s, c);
    match c
    case Alloc(size, granted) => AllocateKeeps(s, base, size, granted);
    case Free(i) => ReleaseStateKeeps(s, base, i);
  }

  lemma InitialIsSound(base: nat)
    ensures SoundState(Initial(base), base)
  {
  }
}
