/** block_allocator.c in place: the headers in memory, the two lists threaded through them, and the
    operations that relink them. */
module BlockAllocator {
  import opened Heap
  import opened Sequences

  const MAGIC: nat := 0x56

  datatype Header = Header(magic: nat, isFree: bool, size: nat, offset: nat, prev: nat, next: nat, freeNext: nat,
                           freePrev: nat)

  /** Header memory, by address. */
  type Headers = map<nat, Header>

  // -------------------------------------------------------------------- what the headers mean

  function AddressesOf(bs: seq<Block>): (s: seq<nat>)
    ensures |s| == |bs| && forall i :: 0 <= i < |bs| ==> s[i] == bs[i].address
  {
    seq(|bs|, i requires 0 <= i < |bs| => bs[i].address)
  }

  /** The list of all blocks: next and prev follow the sequence. */
  ghost predicate BlockChain(h: Headers, head: nat, s: seq<nat>) {
    && Distinct(s) && NULL !in s && head == At(s, 0)
    && (forall i :: 0 <= i < |s| ==> s[i] in h && h[s[i]].next == At(s, i + 1) && h[s[i]].prev == At(s, i - 1))
  }

  /** The list of free blocks: free_list_next and free_list_prev follow the sequence. */
  ghost predicate FreeChain(h: Headers, head: nat, s: seq<nat>) {
    && Distinct(s) && NULL !in s && head == At(s, 0)
    && (forall i :: 0 <= i < |s| ==> s[i] in h && h[s[i]].freeNext == At(s, i + 1) && h[s[i]].freePrev == At(s, i - 1))
  }

  ghost predicate Describes(x: Header, b: Block, base: nat) {
    x.magic == MAGIC && x.isFree == b.free && x.size == b.size && b.address + HEADER == base + x.offset
  }

  ghost predicate Described(h: Headers, base: nat, bs: seq<Block>) {
    forall i :: 0 <= i < |bs| ==> bs[i].address in h && Describes(h[bs[i].address], bs[i], base)
  }

  // ------------------------------------------------------------------------ relinking the lists

  function SetNext(h: Headers, a: nat, x: nat): Headers
    requires a in h
  {
    h[a := h[a].(next := x)]
  }

  function SetPrev(h: Headers, a: nat, x: nat): Headers
    requires a in h
  {
    h[a := h[a].(prev := x)]
  }

  /** The headers differ in their block list links at most. */
  ghost predicate BlockLinksOnly(h: Headers, h': Headers) {
    h'.Keys == h.Keys && forall a :: a in h ==> h'[a].(next := h[a].next, prev := h[a].prev) == h[a]
  }

  /** The headers differ in their free list links at most. */
  ghost predicate FreeLinksOnly(h: Headers, h': Headers) {
    h'.Keys == h.Keys && forall a :: a in h ==> h'[a].(freeNext := h[a].freeNext, freePrev := h[a].freePrev) == h[a]
  }

  /** remove_block_from_block_list on the headers. */
  function BlockUnlinked(h: Headers, a: nat): Headers
    requires a in h && (h[a].prev != NULL ==> h[a].prev in h) && (h[a].next != NULL ==> h[a].next in h)
  {
    var p, n := h[a].prev, h[a].next;
    var h1 := if p != NULL then SetNext(h, p, n) else h;
    var h2 := if n != NULL then SetPrev(h1, n, p) else h1;
    h2[a := h2[a].(next := NULL, prev := NULL)]
  }

  /** remove_block_from_free_list on the headers. */
  function FreeUnlinked(h: Headers, a: nat): (h': Headers)
    requires a in h && (h[a].freePrev != NULL ==> h[a].freePrev in h) && (h[a].freeNext != NULL ==> h[a].freeNext in h)
    ensures h'.Keys == h.Keys
  {
    var p, n := h[a].freePrev, h[a].freeNext;
    var h1 := if p != NULL then h[p := h[p].(freeNext := n)] else h;
    var h2 := if n != NULL then h1[n := h1[n].(freePrev := p)] else h1;
    h2[a := h2[a].(freeNext := NULL, freePrev := NULL)]
  }

  function FreeLinked(h: Headers, head: nat, a: nat): Headers
    requires a in h && (head != NULL ==> head in h)
  {
    var h1 := h[a := h[a].(freePrev := NULL, freeNext := head)];
    if head != NULL then h1[head := h1[head].(freePrev := a)] else h1
  }

  lemma ChainEnds(h: Headers, head: nat, s: seq<nat>, k: nat)
    requires BlockChain(h, head, s) && k < |s|
    ensures s[k] in h && h[s[k]].prev == At(s, k - 1) && h[s[k]].next == At(s, k + 1)
    ensures k > 0 ==> s[k - 1] in h && s[k - 1] != NULL
    ensures k + 1 < |s| ==> s[k + 1] in h && s[k + 1] != NULL
  {
  }

  lemma FreeChainEnds(h: Headers, head: nat, s: seq<nat>, k: nat)
    requires FreeChain(h, head, s) && k < |s|
    ensures s[k] in h && h[s[k]].freePrev == At(s, k - 1) && h[s[k]].freeNext == At(s, k + 1)
    ensures k > 0 ==> s[k - 1] in h && s[k - 1] != NULL
    ensures k + 1 < |s| ==> s[k + 1] in h && s[k + 1] != NULL
  {
  }

  /** Every header after an unlinking: the neighbours point past the node, the node nowhere. */
  lemma BlockUnlinkedFields(h: Headers, a: nat)
    requires a in h && a != h[a].prev && a != h[a].next
    requires (h[a].prev != NULL ==> h[a].prev in h) && (h[a].next != NULL ==> h[a].next in h)
    ensures var h', p, n := BlockUnlinked(h, a), h[a].prev, h[a].next;
      && BlockLinksOnly(h, h')
      && (forall x :: x in h && x != a ==>
            && h'[x].next == (if x == p && p != NULL then n else h[x].next)
            && h'[x].prev == (if x == n && n != NULL then p else h[x].prev))
  {
  }

  lemma FreeUnlinkedFields(h: Headers, a: nat)
    requires a in h && a != h[a].freePrev && a != h[a].freeNext
    requires (h[a].freePrev != NULL ==> h[a].freePrev in h) && (h[a].freeNext != NULL ==> h[a].freeNext in h)
    ensures var h', p, n := FreeUnlinked(h, a), h[a].freePrev, h[a].freeNext;
      && FreeLinksOnly(h, h')
      && (forall x :: x in h && x != a ==>
            && h'[x].freeNext == (if x == p && p != NULL then n else h[x].freeNext)
            && h'[x].freePrev == (if x == n && n != NULL then p else h[x].freePrev))
  {
  }

  lemma BlockUnlinkedChain(h: Headers, head: nat, s: seq<nat>, k: nat)
    requires BlockChain(h, head, s) && k < |s|
    ensures BlockChain(BlockUnlinked(h, s[k]), if k > 0 then head else At(s, k + 1), Cut(s, k))
    ensures BlockLinksOnly(h, BlockUnlinked(h, s[k]))
  {
    hide BlockUnlinked, Cut;
    ChainEnds(h, head, s, k);
    BlockUnlinkedFields(h, s[k]);
    var h', t := BlockUnlinked(h, s[k]), Cut(s, k);
    CutShape(s, k);
    forall i | 0 <= i < |t| ensures t[i] in h' && h'[t[i]].next == At(t, i + 1) && h'[t[i]].prev == At(t, i - 1) {
      CutParts(s, k, i);
      ChainEnds(h, head, s, if i < k then i else i + 1);
    }
  }

  lemma FreeUnlinkedChain(h: Headers, head: nat, s: seq<nat>, k: nat)
    requires FreeChain(h, head, s) && k < |s|
    ensures FreeChain(FreeUnlinked(h, s[k]), if k > 0 then head else At(s, k + 1), Cut(s, k))
    ensures FreeLinksOnly(h, FreeUnlinked(h, s[k]))
  {
    hide FreeUnlinked, Cut;
    FreeChainEnds(h, head, s, k);
    FreeUnlinkedFields(h, s[k]);
    var h', t := FreeUnlinked(h, s[k]), Cut(s, k);
    CutShape(s, k);
    forall i | 0 <= i < |t|
      ensures t[i] in h' && h'[t[i]].freeNext == At(t, i + 1) && h'[t[i]].freePrev == At(t, i - 1)
    {
      CutParts(s, k, i);
      FreeChainEnds(h, head, s, if i < k then i else i + 1);
    }
  }

  lemma FreeLinkedFields(h: Headers, head: nat, a: nat)
    requires a in h && (head != NULL ==> head in h) && a != head
    ensures var h' := FreeLinked(h, head, a);
      && FreeLinksOnly(h, h') && h'[a].freeNext == head && h'[a].freePrev == NULL
      && (forall x :: x in h && x != a ==>
            h'[x].freeNext == h[x].freeNext && h'[x].freePrev == if x == head && head != NULL then a else h[x].freePrev)
  {
  }

  lemma FreeLinkedChain(h: Headers, head: nat, s: seq<nat>, a: nat)
    requires FreeChain(h, head, s) && a in h && a !in s && a != NULL
    ensures FreeChain(FreeLinked(h, head, a), a, [a] + s) && FreeLinksOnly(h, FreeLinked(h, head, a))
  {
    hide FreeLinked, Distinct, At;
    AtEnds(s);
    AtEnds([a] + s);
    var h', t := FreeLinked(h, head, a), [a] + s;
    PushShape(s, a);
    FreeLinkedFields(h, head, a);
    forall i | 0 <= i < |t|
      ensures t[i] in h' && h'[t[i]].freeNext == At(t, i + 1) && h'[t[i]].freePrev == At(t, i - 1)
    {
      if i > 0 {
        PushParts(s, a, i);
        FreeChainEnds(h, head, s, i - 1);
      }
    }
  }

  // -------------------------------------------------------------- headers that represent a heap

  ghost predicate Represents(h: Headers, base: nat, blockHead: nat, freeHead: nat, bs: seq<Block>, fl: seq<nat>) {
    && BlockChain(h, blockHead, AddressesOf(bs)) && FreeChain(h, freeHead, fl) && Described(h, base, bs)
  }

  lemma FreeLinksKeep(h: Headers, h': Headers, base: nat, blockHead: nat, bs: seq<Block>)
    requires FreeLinksOnly(h, h') && BlockChain(h, blockHead, AddressesOf(bs)) && Described(h, base, bs)
    ensures BlockChain(h', blockHead, AddressesOf(bs)) && Described(h', base, bs)
  {
  }

  lemma BlockLinksKeep(h: Headers, h': Headers, freeHead: nat, fl: seq<nat>)
    requires BlockLinksOnly(h, h') && FreeChain(h, freeHead, fl)
    ensures FreeChain(h', freeHead, fl)
    ensures forall a :: a in h ==> h'[a].(next := 0, prev := 0) == h[a].(next := 0, prev := 0)
  {
  }

  /** Pushing a block that is not listed onto the free list. */
  lemma PushRepresents(h: Headers, base: nat, blockHead: nat, freeHead: nat, bs: seq<Block>, fl: seq<nat>, a: nat)
    requires Represents(h, base, blockHead, freeHead, bs, fl) && a in h && a !in fl && a != NULL
    ensures Represents(FreeLinked(h, freeHead, a), base, blockHead, a, bs, [a] + fl)
  {
    hide FreeLinked, Described, BlockChain, AddressesOf;
    FreeLinkedChain(h, freeHead, fl, a);
    FreeLinksKeep(h, FreeLinked(h, freeHead, a), base, blockHead, bs);
  }

  lemma {:induction false} WithoutIsCut(fl: seq<nat>, k: nat)
    requires Distinct(fl) && k < |fl|
    ensures Without(fl, fl[k]) == Cut(fl, k)
  {
    if k > 0 {
      var rest := fl[1..];
      WithoutIsCut(rest, k - 1);
      assert rest[k - 1] == fl[k] && fl[0] != fl[k];
      assert Without(fl, fl[k]) == [fl[0]] + Cut(rest, k - 1);
      assert rest[..k - 1] == fl[1..k] && rest[k..] == fl[k + 1..];
      assert [fl[0]] + fl[1..k] == fl[..k];
    }
  }

  /** Removing a listed block from the free list. */
  lemma PullRepresents(h: Headers, base: nat, blockHead: nat, freeHead: nat, bs: seq<Block>, fl: seq<nat>, a: nat)
    requires Represents(h, base, blockHead, freeHead, bs, fl) && a in fl
    ensures a in h && (h[a].freePrev != NULL ==> h[a].freePrev in h) && (h[a].freeNext != NULL ==> h[a].freeNext in h)
    ensures var head' := if h[a].freePrev != NULL then freeHead else h[a].freeNext;
      Represents(FreeUnlinked(h, a), base, blockHead, head', bs, Without(fl, a))
  {
    hide FreeUnlinked, Described, BlockChain, AddressesOf, Cut;
    var k :| 0 <= k < |fl| && fl[k] == a;
    FreeChainEnds(h, freeHead, fl, k);
    FreeUnlinkedChain(h, freeHead, fl, k);
    WithoutIsCut(fl, k);
    FreeLinksKeep(h, FreeUnlinked(h, a), base, blockHead, bs);
  }

  /** Changing the free mark and the size in one header. */
  lemma SetRepresents(h: Headers, base: nat, blockHead: nat, freeHead: nat, bs: seq<Block>, fl: seq<nat>, i: nat,
                      size: nat, free: bool)
    requires Represents(h, base, blockHead, freeHead, bs, fl) && i < |bs|
    ensures bs[i].address in h
    ensures Represents(h[bs[i].address := h[bs[i].address].(size := size, isFree := free)], base, blockHead, freeHead,
                       bs[i := Block(bs[i].address, size, free)], fl)
  {
    hide AddressesOf, BlockChain, FreeChain, Described;
    ChainEnds(h, blockHead, AddressesOf(bs), i);
    var a := bs[i].address;
    var h' := h[a := h[a].(size := size, isFree := free)];
    SameAddresses(bs, bs[i := Block(a, size, free)]);
    SameLinks(h, h', blockHead, AddressesOf(bs), freeHead, fl);
    SetDescribed(h, base, bs, i, size, free, blockHead);
  }

  lemma SameLinks(h: Headers, h': Headers, blockHead: nat, s: seq<nat>, freeHead: nat, fl: seq<nat>)
    requires BlockChain(h, blockHead, s) && FreeChain(h, freeHead, fl) && h'.Keys == h.Keys
    requires forall a :: a in h ==> h'[a].next == h[a].next && h'[a].prev == h[a].prev
    requires forall a :: a in h ==> h'[a].freeNext == h[a].freeNext && h'[a].freePrev == h[a].freePrev
    ensures BlockChain(h', blockHead, s) && FreeChain(h', freeHead, fl)
  {
  }

  lemma SetDescribed(h: Headers, base: nat, bs: seq<Block>, i: nat, size: nat, free: bool, blockHead: nat)
    requires Described(h, base, bs) && i < |bs| && BlockChain(h, blockHead, AddressesOf(bs))
    ensures var a := bs[i].address;
      a in h && Described(h[a := h[a].(size := size, isFree := free)], base, bs[i := Block(a, size, free)])
  {
  }

  lemma SameAddresses(bs: seq<Block>, cs: seq<Block>)
    requires |bs| == |cs| && forall j :: 0 <= j < |bs| ==> cs[j].address == bs[j].address
    ensures AddressesOf(bs) == AddressesOf(cs)
  {
  }

  /** Unlinking a block from the list of all blocks. */
  lemma UnlinkRepresents(h: Headers, base: nat, blockHead: nat, freeHead: nat, bs: seq<Block>, fl: seq<nat>, i: nat)
    requires Represents(h, base, blockHead, freeHead, bs, fl) && i < |bs|
    ensures var a := bs[i].address;
      a in h && (h[a].prev != NULL ==> h[a].prev in h) && (h[a].next != NULL ==> h[a].next in h)
    ensures Represents(BlockUnlinked(h, bs[i].address), base,
                       if i > 0 then blockHead else At(AddressesOf(bs), i + 1), freeHead, bs[..i] + bs[i + 1..], fl)
  {
    hide BlockUnlinked, BlockChain, FreeChain, Described, AddressesOf, Cut;
    var s := AddressesOf(bs);
    ChainEnds(h, blockHead, s, i);
    BlockUnlinkedChain(h, blockHead, s, i);
    var h' := BlockUnlinked(h, s[i]);
    BlockLinksKeep(h, h', freeHead, fl);
    CutAddresses(bs, i);
    CutDescribed(h, h', base, bs, i);
  }

  lemma CutAddresses(bs: seq<Block>, i: nat)
    requires i < |bs|
    ensures AddressesOf(bs[..i] + bs[i + 1..]) == Cut(AddressesOf(bs), i)
  {
  }

  lemma CutDescribed(h: Headers, h': Headers, base: nat, bs: seq<Block>, i: nat)
    requires Described(h, base, bs) && i < |bs| && BlockLinksOnly(h, h')
    ensures Described(h', base, bs[..i] + bs[i + 1..])
  {
  }

  // -------------------------------------------------- linking past a block before it is unlinked

  /** The next link that block_allocator_free writes before it unlinks is written again by the
      unlinking of the block behind it. */
  lemma EarlyLinkIsOverwritten(h: Headers, a: nat, p: nat, x: nat)
    requires a in h && p in h && h[a].prev == p && p != NULL && a != p && h[a].next != a && h[a].next != p
    requires h[a].next != NULL ==> h[a].next in h
    ensures BlockUnlinked(SetNext(h, p, x), a) == BlockUnlinked(h, a)
  {
  }

  lemma EarlyLinkPassesUnlink(h: Headers, a: nat, p: nat, x: nat)
    requires a in h && p in h && a != p && h[a].prev != p && h[a].prev != a && h[a].next != a
    requires (h[a].prev != NULL ==> h[a].prev in h) && (h[a].next != NULL ==> h[a].next in h)
    ensures BlockUnlinked(SetNext(h, p, x), a) == SetNext(BlockUnlinked(h, a), p, x)
  {
  }

  lemma EarlyLinkPassesPull(h: Headers, a: nat, p: nat, x: nat)
    requires a in h && p in h && a != p
    requires (h[a].freePrev != NULL ==> h[a].freePrev in h) && (h[a].freeNext != NULL ==> h[a].freeNext in h)
    ensures FreeUnlinked(SetNext(h, p, x), a) == SetNext(FreeUnlinked(h, a), p, x)
  {
  }

  // ---------------------------------------------------------------------- splitting and growing

  /** A header is written at a new address r behind block k and linked in there. */
  function Inserted(h: Headers, a: nat, r: nat, x: Header): Headers
    requires a in h && (h[a].next != NULL ==> h[a].next in h)
  {
    var n := h[a].next;
    var h1 := h[a := h[a].(next := r)][r := x.(prev := a, next := n)];
    if n != NULL then h1[n := h1[n].(prev := r)] else h1
  }

  lemma InsertedFields(h: Headers, a: nat, r: nat, x: Header)
    requires a in h && (h[a].next != NULL ==> h[a].next in h) && r != a && r != h[a].next && a != h[a].next
    ensures var h', n := Inserted(h, a, r, x), h[a].next;
      && h'.Keys == h.Keys + {r} && h'[r] == x.(prev := a, next := n)
      && (forall y :: y in h && y != r ==>
            h'[y] == h[y].(next := if y == a then r else h[y].next,
                           prev := if y == n && n != NULL then r else h[y].prev))
  {
  }

  function Put(s: seq<nat>, k: nat, r: nat): seq<nat>
    requires k < |s|
  {
    s[..k + 1] + [r] + s[k + 1..]
  }

  lemma InsertedChain(h: Headers, head: nat, s: seq<nat>, k: nat, r: nat, x: Header)
    requires BlockChain(h, head, s) && k < |s| && r !in s && r != NULL
    ensures s[k] in h && (h[s[k]].next != NULL ==> h[s[k]].next in h)
    ensures BlockChain(Inserted(h, s[k], r, x), head, Put(s, k, r))
  {
    hide Inserted, Put;
    ChainEnds(h, head, s, k);
    InsertedFields(h, s[k], r, x);
    PutDistinct(s, k, r);
    var h', t := Inserted(h, s[k], r, x), Put(s, k, r);
    forall i | 0 <= i < |t| ensures t[i] in h' && h'[t[i]].next == At(t, i + 1) && h'[t[i]].prev == At(t, i - 1) {
      PutParts(s, k, r, i);
      if i != k + 1 { ChainEnds(h, head, s, if i <= k then i else i - 1); }
    }
  }

  lemma PutParts(s: seq<nat>, k: nat, r: nat, i: nat)
    requires Distinct(s) && NULL !in s && k < |s| && r !in s && i <= |s|
    ensures var t, j := Put(s, k, r), if i <= k then i else i - 1;
      if i == k + 1 then t[i] == r && At(t, i + 1) == At(s, k + 1) && At(t, i - 1) == s[k]
      else && t[i] == s[j] && t[i] != r
           && At(t, i + 1) == (if s[j] == s[k] then r else At(s, j + 1))
           && At(t, i - 1) == (if s[j] == At(s, k + 1) then r else At(s, j - 1))
  {
  }

  lemma PutDistinct(s: seq<nat>, k: nat, r: nat)
    requires Distinct(s) && k < |s| && r !in s && r != NULL && NULL !in s
    ensures Distinct(Put(s, k, r)) && NULL !in Put(s, k, r) && |Put(s, k, r)| == |s| + 1 && At(Put(s, k, r), 0) == s[0]
  {
  }

  /** The blocks with another one put in behind block k. */
  function PutBlock(bs: seq<Block>, k: nat, b: Block): seq<Block>
    requires k < |bs|
  {
    bs[..k + 1] + [b] + bs[k + 1..]
  }

  lemma InsertRepresents(h: Headers, base: nat, blockHead: nat, freeHead: nat, bs: seq<Block>, fl: seq<nat>, k: nat,
                         b: Block, x: Header)
    requires Represents(h, base, blockHead, freeHead, bs, fl) && k < |bs| && Describes(x, b, base)
    requires b.address !in AddressesOf(bs) && b.address !in fl && b.address != NULL
    ensures bs[k].address in h && (h[bs[k].address].next != NULL ==> h[bs[k].address].next in h)
    ensures Represents(Inserted(h, bs[k].address, b.address, x), base, blockHead, freeHead, PutBlock(bs, k, b), fl)
  {
    hide Inserted, BlockChain, FreeChain, Described, AddressesOf, Put, PutBlock;
    var s := AddressesOf(bs);
    var r := b.address;
    InsertedChain(h, blockHead, s, k, r, x);
    ChainEnds(h, blockHead, s, k);
    ChainNext(h, blockHead, s, k, r);
    InsertedFields(h, s[k], r, x);
    var h' := Inserted(h, s[k], r, x);
    PutAddresses(bs, k, b);
    InsertedFree(h, h', freeHead, fl, r);
    InsertedDescribed(h, h', base, bs, k, b);
  }

  lemma ChainNext(h: Headers, head: nat, s: seq<nat>, k: nat, r: nat)
    requires BlockChain(h, head, s) && k < |s| && r !in s && r != NULL
    ensures h[s[k]].next != s[k] && h[s[k]].next != r && s[k] != r
  {
  }

  lemma PutAddresses(bs: seq<Block>, k: nat, b: Block)
    requires k < |bs|
    ensures AddressesOf(PutBlock(bs, k, b)) == Put(AddressesOf(bs), k, b.address)
  {
  }

  lemma InsertedFree(h: Headers, h': Headers, freeHead: nat, fl: seq<nat>, r: nat)
    requires FreeChain(h, freeHead, fl) && r !in fl && h'.Keys == h.Keys + {r}
    requires forall y :: y in h && y != r ==> h'[y].freeNext == h[y].freeNext && h'[y].freePrev == h[y].freePrev
    ensures FreeChain(h', freeHead, fl)
  {
  }

  lemma InsertedDescribed(h: Headers, h': Headers, base: nat, bs: seq<Block>, k: nat, b: Block)
    requires Described(h, base, bs) && k < |bs| && b.address !in AddressesOf(bs)
    requires b.address in h' && Describes(h'[b.address], b, base) && h'.Keys == h.Keys + {b.address}
    requires forall y :: y in h && y != b.address ==> h'[y].(next := 0, prev := 0) == h[y].(next := 0, prev := 0)
    ensures Described(h', base, PutBlock(bs, k, b))
  {
  }

  // ------------------------------------------------------------------------------ the allocator

  /** Every page of the heap's region is mapped. */
  ghost predicate RegionMapped(mapped: set<nat>, base: nat, end: nat) {
    forall k: nat :: base + k * PAGE_SIZE < end ==> base + k * PAGE_SIZE in mapped
  }

  /** The n pages from an address on. */
  function PagesFrom(start: nat, n: nat): set<nat> {
    if n == 0 then {} else PagesFrom(start, n - 1) + {start + (n - 1) * PAGE_SIZE}
  }

  class BlockAllocator {
    const virtualBase: nat
    var blockListHead: nat
    var freeListHead: nat
    var headers: Headers
    /** The pages mapped for the heap, by virtual address. */
    var mapped: set<nat>

    ghost var blocks: seq<Block>
    ghost var free: seq<nat>
    ghost var end: nat

    ghost predicate Linked()
      reads this
    {
      virtualBase > 0 && Represents(headers, virtualBase, blockListHead, freeListHead, blocks, free)
    }

    ghost predicate Valid()
      reads this
    {
      Linked() && Sound(blocks, free, virtualBase, end) && RegionMapped(mapped, virtualBase, end)
    }

    ghost function Abstract(): State
      reads this
    {
      State(blocks, free, end)
    }

    method AddBlockToFreeList(a: nat)
      requires a in headers && (freeListHead != NULL ==> freeListHead in headers)
      modifies this`headers, this`freeListHead
      ensures headers == FreeLinked(old(headers), old(freeListHead), a) && freeListHead == a
    {
      headers := headers[a := headers[a].(freePrev := NULL, freeNext := freeListHead)];
      freeListHead := a;
      if headers[a].freeNext != NULL {
        headers := headers[headers[a].freeNext := headers[headers[a].freeNext].(freePrev := a)];
      }
    }

    method RemoveBlockFromFreeList(a: nat)
      requires a in headers && (headers[a].freePrev != NULL ==> headers[a].freePrev in headers)
      requires headers[a].freeNext != NULL ==> headers[a].freeNext in headers
      modifies this`headers, this`freeListHead
      ensures headers == FreeUnlinked(old(headers), a)
      ensures freeListHead == if old(headers)[a].freePrev != NULL then old(freeListHead) else old(headers)[a].freeNext
    {
      var p, n := headers[a].freePrev, headers[a].freeNext;
      if p != NULL {
        headers := headers[p := headers[p].(freeNext := n)];
      } else {
        freeListHead := n;
      }
      if n != NULL { headers := headers[n := headers[n].(freePrev := p)]; }
      headers := headers[a := headers[a].(freeNext := NULL, freePrev := NULL)];
    }

    method RemoveBlockFromBlockList(a: nat)
      requires a in headers && (headers[a].prev != NULL ==> headers[a].prev in headers)
      requires headers[a].next != NULL ==> headers[a].next in headers
      modifies this`headers, this`blockListHead
      ensures headers == BlockUnlinked(old(headers), a)
      ensures blockListHead == if old(headers)[a].prev != NULL then old(blockListHead) else old(headers)[a].next
    {
      var p, n := headers[a].prev, headers[a].next;
      if p != NULL {
        headers := headers[p := headers[p].(next := n)];
      } else {
        blockListHead := n;
      }
      if n != NULL { headers := headers[n := headers[n].(prev := p)]; }
      headers := headers[a := headers[a].(next := NULL, prev := NULL)];
    }

    /** find_free_block: walk the free list to the first block that is large enough. */
    method FindFreeBlock(size: nat) returns (a: nat)
      requires Linked() && Tiled(blocks, virtualBase, end) && ListsFree(blocks, free)
      ensures a == NULL <==> FirstFit(blocks, free, size) == None
      ensures a != NULL ==> a == blocks[FirstFit(blocks, free, size).value].address
    {
      a := freeListHead;
      ghost var k := 0;
      while a != NULL
        invariant 0 <= k <= |free| && a == At(free, k)
        invariant FirstFit(blocks, free, size) == FirstFit(blocks, free[k..], size)
        decreases |free| - k
      {
        FreeEntry(headers, virtualBase, freeListHead, blocks, free, end, k);
        FirstFitStep(blocks, free[k..], size);
        if headers[a].size >= size { return; }
        a := headers[a].freeNext;
        k := k + 1;
      }
    }

    /** get_last_block_header: walk the block list to its end. */
    method GetLastBlockHeader() returns (a: nat)
      requires Linked() && |blocks| > 0
      ensures a == blocks[|blocks| - 1].address
    {
      ghost var s := AddressesOf(blocks);
      a := blockListHead;
      ghost var k := 0;
      ChainEnds(headers, blockListHead, s, 0);
      while headers[a].next != NULL
        invariant 0 <= k < |s| && a == s[k] && a in headers
        decreases |s| - k
      {
        ChainEnds(headers, blockListHead, s, k);
        a := headers[a].next;
        k := k + 1;
        ChainEnds(headers, blockListHead, s, k);
      }
      ChainEnds(headers, blockListHead, s, k);
    }

    /** block_allocator_init: 4 MiB of pages, mapped, and one free block over all of them. */
    constructor (virtualBase: nat)
      requires virtualBase > 0
      ensures Valid() && this.virtualBase == virtualBase && Abstract() == Initial(virtualBase)
    {
      this.virtualBase := virtualBase;
      mapped := PagesFrom(virtualBase, DEFAULT_SIZE / PAGE_SIZE);
      blockListHead := virtualBase;
      freeListHead := virtualBase;
      headers := map[virtualBase := Header(MAGIC, true, DEFAULT_SIZE - HEADER, HEADER, NULL, NULL, NULL, NULL)];
      blocks, free, end := [Block(virtualBase, DEFAULT_SIZE - HEADER, true)], [virtualBase], virtualBase + DEFAULT_SIZE;
      new;
      InitialIsSound(virtualBase);
      PagesCover({}, virtualBase, virtualBase, DEFAULT_SIZE / PAGE_SIZE);
      assert mapped == {} + PagesFrom(virtualBase, DEFAULT_SIZE / PAGE_SIZE);
      assert AddressesOf(blocks) == [virtualBase];
    }

    /** The mapping loop of growth: of the pages asked for, the first `available` can be allocated and
        mapped. */
    method MapPages(start: nat, pages: nat, available: nat) returns (ok: bool)
      modifies this`mapped
      ensures ok <==> pages <= available
      ensures old(mapped) <= mapped && (ok ==> mapped == old(mapped) + PagesFrom(start, pages))
    {
      for p := 0 to pages
        invariant mapped == old(mapped) + PagesFrom(start, p) && p <= available
      {
        if p >= available { return false; }
        mapped := mapped + {start + p * PAGE_SIZE};
      }
      return true;
    }

    /** The growth of find_or_create_free_block: map pages behind the last block, and write and link
        the header of a free block over all of them. */
    method Grow(pages: nat, available: nat) returns (a: nat)
      requires Valid() && pages > 0
      modifies this
      ensures Linked() && RegionMapped(mapped, virtualBase, end) && (a != NULL <==> pages <= available)
      ensures a == NULL ==> Abstract() == old(Abstract())
      ensures a != NULL ==> a == old(end) && mapped == old(mapped) + PagesFrom(old(end), pages)
      ensures a != NULL ==>
        Abstract() == State(Grown(old(blocks), old(end), pages), [a] + old(free), old(end) + pages * PAGE_SIZE)
    {
      hide BlockChain, FreeChain, Described, RegionMapped, AddressesOf, ListsFree, NoFreeNeighbours, FreeLinked,
           PagesFrom, Grown;
      var last := GetLastBlockHeader();
      LastHeader(headers, virtualBase, blockListHead, blocks, end);
      var offset := headers[last].offset + headers[last].size + HEADER;
      ghost var before := mapped;
      var ok := MapPages(virtualBase + offset - HEADER, pages, available);
      MoreMapped(before, mapped, virtualBase, end);
      if !ok { return NULL; }
      PagesCover(before, virtualBase, end, pages);
      a := virtualBase + offset - HEADER;
      NewBlockRepresents(headers, virtualBase, blockListHead, freeListHead, blocks, free, end, pages, offset);
      headers := headers[a := Header(MAGIC, true, pages * PAGE_SIZE - HEADER, offset, NULL, NULL, NULL, NULL)];
      headers := headers[last := headers[last].(next := a)];
      headers := headers[a := headers[a].(prev := last, next := NULL)];
      AddBlockToFreeList(a);
      blocks, free, end := Grown(blocks, end, pages), [a] + free, end + pages * PAGE_SIZE;
    }

    /** find_or_create_free_block. When growth runs out of pages the heap is as it was. */
    method FindOrCreateFreeBlock(size: nat, available: nat) returns (a: nat, ghost i: nat)
      requires Valid() && size + HEADER < WORD
      modifies this
      ensures Linked() && RegionMapped(mapped, virtualBase, end)
      ensures a == NULL ==>
                Abstract() == old(Abstract()) && available < GrowthPages(size) && FirstFit(blocks, free, size) == None
      ensures a != NULL ==>
                AboutToTake(blocks, free, virtualBase, end, i) && a == blocks[i].address && size <= blocks[i].size
      ensures a != NULL ==> Found(old(Abstract()), Abstract(), size, i) && old(end) <= end
      ensures a != NULL ==> mapped == old(mapped) + PagesFrom(old(end), (end - old(end)) / PAGE_SIZE)
      ensures a != NULL ==> FirstFit(old(blocks), old(free), size).Some? || GrowthPages(size) <= available
    {
      hide Represents, RegionMapped, GrowthPages, ListsFree, NoFreeNeighbours, FirstFit;
      a := FindFreeBlock(size);
      if a != NULL {
        i := FirstFit(blocks, free, size).value;
        FoundFit(Abstract(), virtualBase, size, i);
        return;
      }
      GrowthFitsExactly(size);
      GrowthKeeps(blocks, free, virtualBase, end, GrowthPages(size));
      i := |blocks|;
      a := Grow(GrowthPages(size), available);
    }

    /** split_block: what is left of block i beyond the size wanted and a header becomes a free block. */
    method SplitBlock(a: nat, size: nat, ghost i: nat)
      requires Linked() && Tiled(blocks, virtualBase, end) && ListsFree(blocks, free)
      requires i < |blocks| && a == blocks[i].address && blocks[i].free && size <= blocks[i].size
      modifies this`headers, this`freeListHead, this`blocks, this`free
      ensures Linked() && blocks == Split(old(blocks), i, size) && free == SplitList(old(blocks), old(free), i, size)
    {
      hide BlockChain, FreeChain, Described, AddressesOf, ListsFree, Tiled, FreeLinked, Inserted, PutBlock,
           SplitHeaders;
      BlockHeader(headers, virtualBase, blockListHead, blocks, i);
      var delta := headers[a].size - size;
      if delta <= HEADER { return; }
      SplitFits(headers, virtualBase, blockListHead, blocks, free, end, i, size);
      ghost var h' := SplitHeaders(headers, a, size);
      SplitRepresents(headers, h', virtualBase, blockListHead, freeListHead, blocks, free, end, i, a, size,
                      a + size + HEADER);
      SplitSteps(headers, a, size);
      headers := headers[a := headers[a].(size := size)];
      var n := headers[a].next;
      var r := a + size + HEADER;
      headers := headers[a := headers[a].(next := r)];
      headers := headers[r := Header(MAGIC, true, delta - HEADER, headers[a].offset + size + HEADER, a, n, NULL, NULL)];
      if n != NULL { headers := headers[n := headers[n].(prev := r)]; }
      AddBlockToFreeList(r);
      blocks, free := Split(blocks, i, size), SplitList(blocks, free, i, size);
    }

    /** block_allocator_allocate. */
    method Allocate(size: nat, available: nat) returns (address: nat)
      requires Valid() && size + HEADER < WORD
      modifies this
      ensures Valid()
      ensures var (t, p) := Heap.Allocate(old(Abstract()), size, GrowthPages(size) <= available);
        Abstract() == t && address == (if p.Some? then p.value else NULL)
      ensures address != NULL ==> mapped == old(mapped) + PagesFrom(old(end), (end - old(end)) / PAGE_SIZE)
    {
      hide Represents, RegionMapped, GrowthPages, Split, SplitList, Taken, TakenList, FreeUnlinked, Found, Sound, Tiled,
           ListsFree, PagesFrom, Heap.Allocate;
      ghost var s := Abstract();
      var a;
      ghost var i;
      a, i := FindOrCreateFreeBlock(size, available);
      ghost var t := Abstract();
      if a == NULL {
        NothingFits(s, size, available);
        return NULL;
      }
      TakeKeeps(blocks, free, virtualBase, end, i, size);
      TakenAnswers(s, t, virtualBase, size, i, GrowthPages(size) <= available);
      SplitBlock(a, size, i);
      TakeRepresents(headers, virtualBase, blockListHead, freeListHead, t.blocks, t.free, end, i, size);
      headers := headers[a := headers[a].(isFree := false)];
      RemoveBlockFromFreeList(a);
      blocks, free := Taken(t.blocks, i, size), TakenList(t.blocks, t.free, i, size);
      TakenOffset(headers, virtualBase, blockListHead, freeListHead, blocks, free, i);
      return virtualBase + headers[a].offset;
    }

    /** block_allocator_free, both neighbours free: the block before takes in the block and the one
        behind it. */
    method JoinBoth(p: nat, b: nat, n: nat, ghost i: nat)
      requires Linked() && Tiled(blocks, virtualBase, end) && ListsFree(blocks, free)
      requires 0 < i && i + 1 < |blocks| && p == blocks[i - 1].address && b == blocks[i].address
      requires n == blocks[i + 1].address
      requires blocks[i - 1].free && !blocks[i].free && blocks[i + 1].free
      modifies this`headers, this`freeListHead, this`blockListHead, this`blocks, this`free
      ensures Linked() && blocks == Released(old(blocks), i) && free == ReleasedList(old(blocks), old(free), i)
    {
      hide BlockChain, FreeChain, Described, AddressesOf, FreeUnlinked, BlockUnlinked, ListsFree, Tiled, Released,
           ReleasedList;
      MergeBothKnown(headers, virtualBase, blockListHead, blocks, end, i, p, b, n);
      ghost var x := headers[n].next;
      ghost var sum := headers[p].size + 2 * HEADER + headers[b].size + headers[n].size;
      ghost var g := headers[p := headers[p].(size := sum)];
      MergeBothPulled(headers, g, virtualBase, blockListHead, freeListHead, blocks, free, end, i, p, b, n);
      headers := headers[p := headers[p].(next := headers[n].next)];
      headers := headers[p := headers[p].(size := headers[p].size + 2 * HEADER + headers[b].size + headers[n].size)];
      assert headers == SetNext(g, p, x);
      EarlyLinkPassesPull(g, n, p, x);
      RemoveBlockFromFreeList(n);
      MergeBothUnlinked(FreeUnlinked(g, n), headers, virtualBase, blockListHead, freeListHead, blocks, free, end, i, p,
                        b, n, x);
      RemoveBlockFromBlockList(n);
      RemoveBlockFromBlockList(b);
      blocks, free := Released(blocks, i), ReleasedList(blocks, free, i);
    }

    /** block_allocator_free, only the block before is free: it takes in the block. */
    method JoinPrevious(p: nat, b: nat, ghost i: nat)
      requires Linked() && Tiled(blocks, virtualBase, end)
      requires 0 < i < |blocks| && p == blocks[i - 1].address && b == blocks[i].address
      requires blocks[i - 1].free && !FreeAt(blocks, i + 1)
      modifies this`headers, this`blockListHead, this`blocks, this`free
      ensures Linked() && blocks == Released(old(blocks), i) && free == ReleasedList(old(blocks), old(free), i)
    {
      hide Represents, BlockUnlinked, Tiled, Released, ReleasedList;
      MergePrevious(headers, virtualBase, blockListHead, freeListHead, blocks, free, end, i, p, b);
      headers := headers[p := headers[p].(next := headers[b].next)];
      headers := headers[p := headers[p].(size := headers[p].size + HEADER + headers[b].size)];
      RemoveBlockFromBlockList(b);
      blocks, free := Released(blocks, i), ReleasedList(blocks, free, i);
    }

    /** block_allocator_free, only the block behind is free: the block takes it in. */
    method JoinNext(b: nat, n: nat, ghost i: nat)
      requires Linked() && Tiled(blocks, virtualBase, end) && ListsFree(blocks, free)
      requires i + 1 < |blocks| && b == blocks[i].address && n == blocks[i + 1].address
      requires !blocks[i].free && blocks[i + 1].free && !FreeAt(blocks, i - 1)
      modifies this`headers, this`freeListHead, this`blockListHead, this`blocks, this`free
      ensures Linked() && blocks == Released(old(blocks), i) && free == ReleasedList(old(blocks), old(free), i)
    {
      hide Represents, BlockUnlinked, FreeUnlinked, FreeLinked, ListsFree, Tiled, Released, ReleasedList;
      MergeNextUnlinked(headers, virtualBase, blockListHead, freeListHead, blocks, free, end, i, b, n);
      headers := headers[b := headers[b].(next := headers[n].next)];
      headers := headers[b := headers[b].(size := headers[b].size + HEADER + headers[n].size)];
      RemoveBlockFromBlockList(n);
      MergeNextPulled(headers, virtualBase, blockListHead, freeListHead, blocks, free, end, i, b, n);
      RemoveBlockFromFreeList(n);
      MergeNextPushed(headers, virtualBase, blockListHead, freeListHead, blocks, free, end, i, b, n);
      headers := headers[b := headers[b].(isFree := true)];
      AddBlockToFreeList(b);
      blocks, free := Released(blocks, i), ReleasedList(blocks, free, i);
    }

    /** block_allocator_free of the payload of block i: a null address and a block that is free already
        change nothing. */
    method Free(address: nat, ghost i: nat)
      requires Valid()
      requires address == NULL || (i < |blocks| && address == blocks[i].address + HEADER)
      modifies this
      ensures Valid() && mapped == old(mapped)
      ensures Abstract() == if address == NULL || old(blocks)[i].free then old(Abstract())
                            else Release(old(Abstract()), i)
    {
      hide Represents, RegionMapped, Released, ReleasedList, FreeLinked, Sound;
      if address == NULL { return; }
      var b := address - HEADER;
      FreeReady(headers, virtualBase, blockListHead, freeListHead, blocks, free, end, i);
      if headers[b].magic != MAGIC || headers[b].isFree { return; }
      ReleaseStateKeeps(Abstract(), virtualBase, i);
      var p, n := headers[b].prev, headers[b].next;
      var prevFree := p != NULL && headers[p].isFree;
      var nextFree := n != NULL && headers[n].isFree;
      if prevFree && nextFree {
        JoinBoth(p, b, n, i);
      } else if prevFree {
        JoinPrevious(p, b, i);
      } else if nextFree {
        JoinNext(b, n, i);
      } else {
        MergeNone(headers, virtualBase, blockListHead, freeListHead, blocks, free, end, i, b);
        headers := headers[b := headers[b].(isFree := true)];
        AddBlockToFreeList(b);
        blocks, free := Released(blocks, i), ReleasedList(blocks, free, i);
      }
    }
  }

  // ------------------------------------------------------------------------ freeing, step by step

  lemma FreeReady(h: Headers, base: nat, blockHead: nat, freeHead: nat, bs: seq<Block>, fl: seq<nat>, end: nat, i: nat)
    requires Represents(h, base, blockHead, freeHead, bs, fl) && Sound(bs, fl, base, end) && i < |bs|
    ensures var b := bs[i].address;
      && b in h && h[b].magic == MAGIC && h[b].isFree == bs[i].free
      && h[b].prev == (if i > 0 then bs[i - 1].address else NULL)
      && h[b].next == (if i + 1 < |bs| then bs[i + 1].address else NULL)
      && (i > 0 ==> h[b].prev != NULL && h[b].prev in h && h[h[b].prev].isFree == bs[i - 1].free)
      && (i + 1 < |bs| ==> h[b].next != NULL && h[b].next in h && h[h[b].next].isFree == bs[i + 1].free)
    ensures Tiled(bs, base, end) && ListsFree(bs, fl)
  {
    hide BlockChain, FreeChain, Described, AddressesOf;
    BlockHeader(h, base, blockHead, bs, i);
  }

  lemma Apart(bs: seq<Block>, base: nat, end: nat, i: nat)
    requires Tiled(bs, base, end) && i < |bs|
    ensures i > 0 ==> bs[i - 1].address < bs[i].address && EndOf(bs[i - 1]) == bs[i].address
    ensures i + 1 < |bs| ==> bs[i].address < bs[i + 1].address && EndOf(bs[i]) == bs[i + 1].address
  {
  }

  /** Neither neighbour is free. */
  lemma MergeNone(h: Headers, base: nat, blockHead: nat, freeHead: nat, bs: seq<Block>, fl: seq<nat>, end: nat, i: nat,
                  b: nat)
    requires Represents(h, base, blockHead, freeHead, bs, fl) && Tiled(bs, base, end) && ListsFree(bs, fl)
    requires i < |bs| && !bs[i].free && b == bs[i].address && !FreeAt(bs, i - 1) && !FreeAt(bs, i + 1)
    ensures b in h && (freeHead != NULL ==> freeHead in h)
    ensures var h1 := h[b := h[b].(isFree := true)];
      Represents(FreeLinked(h1, freeHead, b), base, blockHead, b, Released(bs, i), ReleasedList(bs, fl, i))
  {
    hide BlockChain, FreeChain, Described, AddressesOf, FreeLinked, ListsFree, Tiled;
    BlockHeader(h, base, blockHead, bs, i);
    SetRepresents(h, base, blockHead, freeHead, bs, fl, i, h[b].size, true);
    var h1 := h[b := h[b].(size := h[b].size, isFree := true)];
    assert h1 == h[b := h[b].(isFree := true)];
    assert Released(bs, i) == bs[i := Block(b, h[b].size, true)];
    assert b !in fl by { UsedIsUnlisted(bs, fl, base, end, i); }
    FreeHeadKnown(h, freeHead, fl);
    PushRepresents(h1, base, blockHead, freeHead, Released(bs, i), fl, b);
  }

  lemma UsedIsUnlisted(bs: seq<Block>, fl: seq<nat>, base: nat, end: nat, i: nat)
    requires Tiled(bs, base, end) && ListsFree(bs, fl) && i < |bs|
    ensures bs[i].address in fl <==> bs[i].free
  {
    ListedIsFree(bs, fl, base, end, i);
  }

  /** Only the block before is free: it takes in the block. */
  lemma MergePrevious(h: Headers, base: nat, blockHead: nat, freeHead: nat, bs: seq<Block>, fl: seq<nat>, end: nat,
                      i: nat, p: nat, b: nat)
    requires Represents(h, base, blockHead, freeHead, bs, fl) && Tiled(bs, base, end)
    requires 0 < i < |bs| && p == bs[i - 1].address && b == bs[i].address && bs[i - 1].free && !FreeAt(bs, i + 1)
    ensures b in h && p in h && b != p && h[b].prev == p && p != NULL && (h[b].next != NULL ==> h[b].next in h)
    ensures var h1 := SetNext(h, p, h[b].next);
      && var h2 := h1[p := h1[p].(size := h1[p].size + HEADER + h1[b].size)];
      && h2[b] == h[b] && h2.Keys == h.Keys
      && Represents(BlockUnlinked(h2, b), base, blockHead, freeHead, Released(bs, i), ReleasedList(bs, fl, i))
  {
    hide BlockChain, FreeChain, Described, AddressesOf, BlockUnlinked, Tiled;
    BlockHeader(h, base, blockHead, bs, i);
    Apart(bs, base, end, i);
    var size := h[p].size + HEADER + h[b].size;
    var h0 := h[p := h[p].(size := size, isFree := true)];
    var bs0 := bs[i - 1 := Block(p, size, true)];
    SetRepresents(h, base, blockHead, freeHead, bs, fl, i - 1, size, true);
    EarlyLinkIsOverwritten(h0, b, p, h[b].next);
    var h1 := SetNext(h, p, h[b].next);
    assert h1[p := h1[p].(size := size)] == SetNext(h0, p, h[b].next);
    UnlinkRepresents(h0, base, blockHead, freeHead, bs0, fl, i);
    assert bs0[..i] + bs0[i + 1..] == Released(bs, i);
  }

  /** The blocks with block i and the one behind in one, still marked used. */
  function JoinedNext(bs: seq<Block>, i: nat): seq<Block>
    requires i + 1 < |bs|
  {
    bs[..i] + [Block(bs[i].address, bs[i].size + HEADER + bs[i + 1].size, false)] + bs[i + 2..]
  }

  lemma MergeNextUnlinked(h: Headers, base: nat, blockHead: nat, freeHead: nat, bs: seq<Block>, fl: seq<nat>, end: nat,
                          i: nat, b: nat, n: nat)
    requires Represents(h, base, blockHead, freeHead, bs, fl) && Tiled(bs, base, end)
    requires i + 1 < |bs| && b == bs[i].address && n == bs[i + 1].address && !bs[i].free
    ensures b in h && n in h && b != n && h[n].prev == b && b != NULL && (h[n].next != NULL ==> h[n].next in h)
    ensures var h1 := SetNext(h, b, h[n].next);
      && var h2 := h1[b := h1[b].(size := h1[b].size + HEADER + h1[n].size)];
      && h2[n] == h[n] && h2.Keys == h.Keys
      && Represents(BlockUnlinked(h2, n), base, blockHead, freeHead, JoinedNext(bs, i), fl)
  {
    hide BlockChain, FreeChain, Described, AddressesOf, BlockUnlinked, Tiled;
    BlockHeader(h, base, blockHead, bs, i);
    BlockHeader(h, base, blockHead, bs, i + 1);
    Apart(bs, base, end, i);
    Apart(bs, base, end, i + 1);
    var size := h[b].size + HEADER + h[n].size;
    var h0 := h[b := h[b].(size := size, isFree := false)];
    var bs0 := bs[i := Block(b, size, false)];
    SetRepresents(h, base, blockHead, freeHead, bs, fl, i, size, false);
    EarlyLinkIsOverwritten(h0, n, b, h[n].next);
    var h1 := SetNext(h, b, h[n].next);
    assert h1[b := h1[b].(size := size)] == SetNext(h0, b, h[n].next);
    UnlinkRepresents(h0, base, blockHead, freeHead, bs0, fl, i + 1);
    assert bs0[..i + 1] + bs0[i + 2..] == JoinedNext(bs, i);
  }

  lemma MergeNextPulled(h: Headers, base: nat, blockHead: nat, freeHead: nat, bs: seq<Block>, fl: seq<nat>, end: nat,
                        i: nat, b: nat, n: nat)
    requires Tiled(bs, base, end) && ListsFree(bs, fl) && i + 1 < |bs| && n == bs[i + 1].address && bs[i + 1].free
    requires Represents(h, base, blockHead, freeHead, JoinedNext(bs, i), fl)
    ensures n in h && (h[n].freePrev != NULL ==> h[n].freePrev in h) && (h[n].freeNext != NULL ==> h[n].freeNext in h)
    ensures Represents(FreeUnlinked(h, n), base, blockHead, if h[n].freePrev != NULL then freeHead else h[n].freeNext,
                       JoinedNext(bs, i), Without(fl, n))
  {
    hide Represents, FreeUnlinked, Tiled, ListsFree, Without, JoinedNext;
    UsedIsUnlisted(bs, fl, base, end, i + 1);
    PullRepresents(h, base, blockHead, freeHead, JoinedNext(bs, i), fl, n);
  }

  lemma MergeNextPushed(h: Headers, base: nat, blockHead: nat, freeHead: nat, bs: seq<Block>, fl: seq<nat>, end: nat,
                        i: nat, b: nat, n: nat)
    requires Tiled(bs, base, end) && ListsFree(bs, fl) && i + 1 < |bs| && b == bs[i].address && n == bs[i + 1].address
    requires !bs[i].free && bs[i + 1].free && !FreeAt(bs, i - 1)
    requires Represents(h, base, blockHead, freeHead, JoinedNext(bs, i), Without(fl, n))
    ensures b in h && (freeHead != NULL ==> freeHead in h)
    ensures Represents(FreeLinked(h[b := h[b].(isFree := true)], freeHead, b), base, blockHead, b,
                       Released(bs, i), ReleasedList(bs, fl, i))
  {
    hide BlockChain, FreeChain, Described, AddressesOf, FreeLinked, Tiled, ListsFree, Without;
    var js := JoinedNext(bs, i);
    BlockHeader(h, base, blockHead, js, i);
    Apart(bs, base, end, i);
    Apart(bs, base, end, i + 1);
    UsedIsUnlisted(bs, fl, base, end, i);
    SetRepresents(h, base, blockHead, freeHead, js, Without(fl, n), i, h[b].size, true);
    var h' := h[b := h[b].(size := h[b].size, isFree := true)];
    assert h' == h[b := h[b].(isFree := true)];
    FreeHeadKnown(h, freeHead, Without(fl, n));
    assert js[i := Block(b, h[b].size, true)] == Released(bs, i);
    assert b !in Without(fl, n) by { WithoutMembers(fl, n) by { ListedOnce(bs, fl); } }
    PushRepresents(h', base, blockHead, freeHead, Released(bs, i), Without(fl, n), b);
  }

  lemma ListedOnce(bs: seq<Block>, fl: seq<nat>)
    requires ListsFree(bs, fl)
    ensures Distinct(fl)
  {
  }

  /** The blocks with block i - 1 grown over block i and the one behind, which are still listed. */
  function Overgrown(bs: seq<Block>, i: nat): seq<Block>
    requires 0 < i && i + 1 < |bs|
  {
    bs[i - 1 := Block(bs[i - 1].address, bs[i - 1].size + 2 * HEADER + bs[i].size + bs[i + 1].size, true)]
  }

  lemma MergeBothKnown(h: Headers, base: nat, blockHead: nat, bs: seq<Block>, end: nat, i: nat, p: nat, b: nat, n: nat)
    requires BlockChain(h, blockHead, AddressesOf(bs)) && Described(h, base, bs) && Tiled(bs, base, end)
    requires 0 < i && i + 1 < |bs| && p == bs[i - 1].address && b == bs[i].address && n == bs[i + 1].address
    ensures p in h && b in h && n in h && p != b && p != n && b != n
  {
    hide BlockChain, AddressesOf, Described, Tiled;
    BlockHeader(h, base, blockHead, bs, i);
    Apart(bs, base, end, i);
    Apart(bs, base, end, i + 1);
  }

  /** g is the heap with only the size of p grown. */
  lemma MergeBothPulled(h: Headers, g: Headers, base: nat, blockHead: nat, freeHead: nat, bs: seq<Block>, fl: seq<nat>,
                        end: nat, i: nat, p: nat, b: nat, n: nat)
    requires Represents(h, base, blockHead, freeHead, bs, fl) && Tiled(bs, base, end) && ListsFree(bs, fl)
    requires 0 < i && i + 1 < |bs| && p == bs[i - 1].address && b == bs[i].address && n == bs[i + 1].address
    requires bs[i - 1].free && bs[i + 1].free && p in h && b in h && n in h && p != n
    requires g == h[p := h[p].(size := h[p].size + 2 * HEADER + h[b].size + h[n].size)]
    ensures n in g && p in g && (g[n].freePrev != NULL ==> g[n].freePrev in g)
    ensures g[n].freeNext != NULL ==> g[n].freeNext in g
    ensures Represents(FreeUnlinked(g, n), base, blockHead, if g[n].freePrev != NULL then freeHead else g[n].freeNext,
                       Overgrown(bs, i), Without(fl, n))
  {
    hide BlockChain, FreeChain, Described, AddressesOf, Tiled, ListsFree, Without;
    BlockHeader(h, base, blockHead, bs, i);
    BlockHeader(h, base, blockHead, bs, i + 1);
    var size := h[p].size + 2 * HEADER + h[b].size + h[n].size;
    assert g == h[p := h[p].(size := size, isFree := true)];
    SetRepresents(h, base, blockHead, freeHead, bs, fl, i - 1, size, true);
    UsedIsUnlisted(bs, fl, base, end, i + 1);
    PullRepresents(g, base, blockHead, freeHead, Overgrown(bs, i), fl, n);
  }

  /** g holds the heap; the headers are g with the next link of p written early. */
  lemma MergeBothUnlinked(g: Headers, h: Headers, base: nat, blockHead: nat, freeHead: nat, bs: seq<Block>,
                          fl: seq<nat>, end: nat, i: nat, p: nat, b: nat, n: nat, x: nat)
    requires 0 < i && i + 1 < |bs| && p == bs[i - 1].address && b == bs[i].address && n == bs[i + 1].address
    requires bs[i - 1].free && bs[i + 1].free && Tiled(bs, base, end)
    requires Represents(g, base, blockHead, freeHead, Overgrown(bs, i), Without(fl, n)) && p in g
    requires h == SetNext(g, p, x)
    ensures n in h && h[n].prev == b && b != NULL && b in h && (h[n].next != NULL ==> h[n].next in h)
    ensures var h1 := BlockUnlinked(h, n);
      && b in h1 && h1[b].prev == p && p != NULL && p in h1 && (h1[b].next != NULL ==> h1[b].next in h1)
      && Represents(BlockUnlinked(h1, b), base, blockHead, freeHead, Released(bs, i), ReleasedList(bs, fl, i))
  {
    hide BlockChain, FreeChain, Described, AddressesOf, BlockUnlinked, Tiled, Without;
    var os := Overgrown(bs, i);
    BlockHeader(g, base, blockHead, os, i);
    BlockHeader(g, base, blockHead, os, i + 1);
    Apart(bs, base, end, i);
    Apart(bs, base, end, i + 1);
    UnlinkRepresents(g, base, blockHead, freeHead, os, Without(fl, n), i + 1);
    EarlyLinkPassesUnlink(g, n, p, x);
    var g1, bs1 := BlockUnlinked(g, n), os[..i + 1] + os[i + 2..];
    BlockHeader(g1, base, blockHead, bs1, i);
    UnlinkRepresents(g1, base, blockHead, freeHead, bs1, Without(fl, n), i);
    EarlyLinkIsOverwritten(g1, b, p, x);
    assert bs1[..i] + bs1[i + 1..] == Released(bs, i);
  }

  // ---------------------------------------------------------------------- splitting, step by step

  /** The blocks between the split and the taking: block i has the size wanted and both parts are
      free. */
  function Split(bs: seq<Block>, i: nat, size: nat): seq<Block>
    requires i < |bs| && size <= bs[i].size
  {
    var b := bs[i];
    if b.size - size <= HEADER then bs else PutBlock(bs[i := Block(b.address, size, true)], i, Remainder(b, size))
  }

  function SplitList(bs: seq<Block>, fl: seq<nat>, i: nat, size: nat): seq<nat>
    requires i < |bs| && size <= bs[i].size
  {
    if bs[i].size - size <= HEADER then fl else [Remainder(bs[i], size).address] + fl
  }

  lemma BlockHeader(h: Headers, base: nat, blockHead: nat, bs: seq<Block>, i: nat)
    requires BlockChain(h, blockHead, AddressesOf(bs)) && Described(h, base, bs) && i < |bs|
    ensures bs[i].address in h && Describes(h[bs[i].address], bs[i], base)
    ensures h[bs[i].address].next == (if i + 1 < |bs| then bs[i + 1].address else NULL)
    ensures h[bs[i].address].prev == (if i > 0 then bs[i - 1].address else NULL)
    ensures i > 0 ==> bs[i - 1].address in h && Describes(h[bs[i - 1].address], bs[i - 1], base)
    ensures i + 1 < |bs| ==> bs[i + 1].address in h && Describes(h[bs[i + 1].address], bs[i + 1], base)
    ensures bs[i].address != NULL && (i > 0 ==> bs[i - 1].address != NULL)
    ensures i + 1 < |bs| ==> bs[i + 1].address != NULL
  {
  }

  /** The headers after split_block has written its own, before the remainder is listed as free. */
  function SplitHeaders(h: Headers, a: nat, size: nat): Headers
    requires a in h && size + HEADER < h[a].size && (h[a].next != NULL ==> h[a].next in h)
  {
    var x := Header(MAGIC, true, h[a].size - size - HEADER, h[a].offset + size + HEADER, NULL, NULL, NULL, NULL);
    Inserted(h[a := h[a].(size := size, isFree := true)], a, a + size + HEADER, x)
  }

  lemma SplitSteps(h: Headers, a: nat, size: nat)
    requires a in h && size + HEADER < h[a].size && h[a].isFree && (h[a].next != NULL ==> h[a].next in h)
    requires a != h[a].next && a + size + HEADER != h[a].next
    ensures var n, r := h[a].next, a + size + HEADER;
      var h0 := h[a := h[a].(size := size)];
      var h1 := h0[a := h0[a].(next := r)];
      var h2 := h1[r := Header(MAGIC, true, h[a].size - size - HEADER, h[a].offset + size + HEADER, a, n, NULL, NULL)];
      SplitHeaders(h, a, size) == (if n != NULL then h2[n := h2[n].(prev := r)] else h2)
  {
  }

  lemma SplitFits(h: Headers, base: nat, blockHead: nat, bs: seq<Block>, fl: seq<nat>, end: nat, i: nat, size: nat)
    requires BlockChain(h, blockHead, AddressesOf(bs)) && Described(h, base, bs) && Tiled(bs, base, end)
    requires ListsFree(bs, fl)
    requires i < |bs| && size + HEADER < bs[i].size
    ensures var a := bs[i].address;
      && a in h && size + HEADER < h[a].size && (h[a].next != NULL ==> h[a].next in h)
      && a != h[a].next && a + size + HEADER != h[a].next
  {
    hide BlockChain, AddressesOf, Described, ListsFree, Tiled;
    BlockHeader(h, base, blockHead, bs, i);
    RemainderIsUnused(bs, fl, base, end, i, size);
  }

  lemma SplitRepresents(h: Headers, h': Headers, base: nat, blockHead: nat, freeHead: nat, bs: seq<Block>, fl: seq<nat>,
                        end: nat, i: nat, a: nat, size: nat, r: nat)
    requires Represents(h, base, blockHead, freeHead, bs, fl) && Tiled(bs, base, end) && ListsFree(bs, fl)
    requires i < |bs| && bs[i].free && size + HEADER < bs[i].size && a == bs[i].address && r == a + size + HEADER
    requires a in h && size + HEADER < h[a].size && (h[a].next != NULL ==> h[a].next in h)
    requires h' == SplitHeaders(h, a, size)
    ensures r in h' && (freeHead != NULL ==> freeHead in h')
    ensures Represents(FreeLinked(h', freeHead, r), base, blockHead, r, Split(bs, i, size), SplitList(bs, fl, i, size))
  {
    hide BlockChain, FreeChain, Described, AddressesOf, ListsFree, Tiled, FreeLinked, Inserted, PutBlock;
    var b := Remainder(bs[i], size);
    BlockHeader(h, base, blockHead, bs, i);
    var x := Header(MAGIC, true, h[a].size - size - HEADER, h[a].offset + size + HEADER, NULL, NULL, NULL, NULL);
    var bs1 := bs[i := Block(a, size, true)];
    SetRepresents(h, base, blockHead, freeHead, bs, fl, i, size, true);
    RemainderIsUnused(bs, fl, base, end, i, size);
    InsertRepresents(h[a := h[a].(size := size, isFree := true)], base, blockHead, freeHead, bs1, fl, i, b, x);
    PutLength(bs1, i, b);
    BlockHeader(h', base, blockHead, PutBlock(bs1, i, b), i + 1);
    FreeHeadKnown(h', freeHead, fl);
    PushRepresents(h', base, blockHead, freeHead, PutBlock(bs1, i, b), fl, b.address);
  }

  lemma PutLength(bs: seq<Block>, k: nat, b: Block)
    requires k < |bs|
    ensures |PutBlock(bs, k, b)| == |bs| + 1 && PutBlock(bs, k, b)[k + 1] == b
  {
  }

  lemma RemainderIsUnused(bs: seq<Block>, fl: seq<nat>, base: nat, end: nat, i: nat, size: nat)
    requires Tiled(bs, base, end) && ListsFree(bs, fl) && i < |bs| && size + HEADER < bs[i].size
    ensures var a := Remainder(bs[i], size).address;
      && a !in AddressesOf(bs) && a !in AddressesOf(bs[i := Block(bs[i].address, size, true)]) && a !in fl
      && (i + 1 < |bs| ==> a != bs[i + 1].address && bs[i].address != bs[i + 1].address)
  {
    var a := Remainder(bs[i], size).address;
    forall j | 0 <= j < |bs| ensures bs[j].address != a { InsideIsNoHeader(bs, base, end, i, a, j); }
    RemainderIsNew(bs, base, end, i, size);
    if i + 1 < |bs| { InOrder(bs, base, end, i, i + 1); }
  }

  // ------------------------------------------------------------------------ taking, step by step

  /** Marking block i used and pulling it off the free list completes the taking. */
  lemma TakeRepresents(h: Headers, base: nat, blockHead: nat, freeHead: nat, bs: seq<Block>, fl: seq<nat>, end: nat,
                       i: nat, size: nat)
    requires i < |bs| && size <= bs[i].size && bs[i].free && Tiled(bs, base, end) && ListsFree(bs, fl)
    requires Represents(h, base, blockHead, freeHead, Split(bs, i, size), SplitList(bs, fl, i, size))
    ensures var a := bs[i].address;
      && a in h && var h' := h[a := h[a].(isFree := false)];
      && (h[a].freePrev != NULL ==> h[a].freePrev in h) && (h[a].freeNext != NULL ==> h[a].freeNext in h)
      && Represents(FreeUnlinked(h', a), base, blockHead, if h[a].freePrev != NULL then freeHead else h[a].freeNext,
                    Taken(bs, i, size), TakenList(bs, fl, i, size))
  {
    hide BlockChain, FreeChain, Described, AddressesOf, Without, FreeUnlinked;
    var a := bs[i].address;
    var ps, ql := Split(bs, i, size), SplitList(bs, fl, i, size);
    SplitThenTaken(bs, fl, i, size);
    assert a in ql by { FreeIsListed(bs, fl, i); }
    assert i < |ps| && ps[i].address == a;
    BlockHeader(h, base, blockHead, ps, i);
    SetRepresents(h, base, blockHead, freeHead, ps, ql, i, h[a].size, false);
    var h' := h[a := h[a].(size := h[a].size, isFree := false)];
    assert h' == h[a := h[a].(isFree := false)];
    PullRepresents(h', base, blockHead, freeHead, Taken(bs, i, size), ql, a);
  }

  lemma FreeIsListed(bs: seq<Block>, fl: seq<nat>, i: nat)
    requires ListsFree(bs, fl) && i < |bs| && bs[i].free
    ensures bs[i].address in fl
  {
  }

  lemma SplitThenTaken(bs: seq<Block>, fl: seq<nat>, i: nat, size: nat)
    requires i < |bs| && size <= bs[i].size && bs[i].free
    ensures var ps := Split(bs, i, size);
      && i < |ps| && ps[i].address == bs[i].address
      && ps[i := Block(bs[i].address, ps[i].size, false)] == Taken(bs, i, size)
    ensures TakenList(bs, fl, i, size) == Without(SplitList(bs, fl, i, size), bs[i].address)
    ensures bs[i].address in fl ==> bs[i].address in SplitList(bs, fl, i, size)
  {
  }

  lemma TakenOffset(h: Headers, base: nat, blockHead: nat, freeHead: nat, bs: seq<Block>, fl: seq<nat>, i: nat)
    requires Represents(h, base, blockHead, freeHead, bs, fl) && i < |bs|
    ensures bs[i].address in h && base + h[bs[i].address].offset == bs[i].address + HEADER
  {
  }

  /** Finding or growing, then taking, is what the specification of an allocation says. */
  lemma TakenAnswers(s: State, t: State, base: nat, size: nat, i: nat, granted: bool)
    requires Found(s, t, size, i) && size + HEADER < WORD
    requires AboutToTake(t.blocks, t.free, base, t.end, i) && size <= t.blocks[i].size
    requires FirstFit(s.blocks, s.free, size).Some? || granted
    ensures Heap.Allocate(s, size, granted) ==
            (State(Taken(t.blocks, i, size), TakenList(t.blocks, t.free, i, size), t.end),
             Some(t.blocks[i].address + HEADER))
    ensures Tiled(t.blocks, base, t.end) && ListsFree(t.blocks, t.free) && t.blocks[i].free
    ensures i < |Taken(t.blocks, i, size)| && Taken(t.blocks, i, size)[i].address == t.blocks[i].address
  {
  }

  lemma NothingFits(s: State, size: nat, available: nat)
    requires FirstFit(s.blocks, s.free, size) == None && available < GrowthPages(size)
    ensures Heap.Allocate(s, size, GrowthPages(size) <= available) == (s, None)
  {
  }

  /** The block that allocation is about to take is the first fit, or the whole of the growth. */
  ghost predicate Found(s: State, t: State, size: nat, i: nat) {
    match FirstFit(s.blocks, s.free, size)
    case Some(j) => t == s && i == j
    case None =>
      var pages := GrowthPages(size);
      && pages > 0 && i == |s.blocks|
      && t == State(Grown(s.blocks, s.end, pages), [s.end] + s.free, s.end + pages * PAGE_SIZE)
  }

  lemma LastHeader(h: Headers, base: nat, blockHead: nat, bs: seq<Block>, end: nat)
    requires BlockChain(h, blockHead, AddressesOf(bs)) && Described(h, base, bs) && Tiled(bs, base, end)
    ensures var last := bs[|bs| - 1].address;
      last in h && h[last].next == NULL && base + h[last].offset + h[last].size == end
  {
    ChainEnds(h, blockHead, AddressesOf(bs), |bs| - 1);
  }

  lemma {:induction false} PagesFromContain(start: nat, n: nat, p: nat)
    requires p < n
    ensures start + p * PAGE_SIZE in PagesFrom(start, n)
  {
    if p < n - 1 { PagesFromContain(start, n - 1, p); }
  }

  /** Mapping the pages behind the heap extends the mapped region by exactly them. */
  lemma {:induction false} PagesCover(mapped: set<nat>, base: nat, end: nat, n: nat)
    requires RegionMapped(mapped, base, end) && base <= end && (end - base) % PAGE_SIZE == 0
    ensures RegionMapped(mapped + PagesFrom(end, n), base, end + n * PAGE_SIZE)
  {
    if n > 0 {
      PagesCover(mapped, base, end, n - 1);
      var last, m := end + (n - 1) * PAGE_SIZE, (end - base) / PAGE_SIZE + n - 1;
      assert last == base + m * PAGE_SIZE;
      forall k: nat | base + k * PAGE_SIZE < end + n * PAGE_SIZE
        ensures base + k * PAGE_SIZE in mapped + PagesFrom(end, n)
      {
        if k < m { assert base + k * PAGE_SIZE < last; } else { assert k == m; }
      }
    }
  }

  lemma MoreMapped(before: set<nat>, mapped: set<nat>, base: nat, end: nat)
    requires RegionMapped(before, base, end) && before <= mapped
    ensures RegionMapped(mapped, base, end)
  {
  }

  /** The header written behind the last block. */
  lemma NewBlockRepresents(h: Headers, base: nat, blockHead: nat, freeHead: nat, bs: seq<Block>, fl: seq<nat>, end: nat,
                           pages: nat, offset: nat)
    requires Represents(h, base, blockHead, freeHead, bs, fl) && Tiled(bs, base, end) && ListsFree(bs, fl) && base > 0
    requires pages > 0 && base + offset == end + HEADER
    ensures var last := bs[|bs| - 1].address;
      var x := Header(MAGIC, true, pages * PAGE_SIZE - HEADER, offset, NULL, NULL, NULL, NULL);
      && last in h && last != end && end != NULL
      && var h1 := h[end := x]; var h2 := h1[last := h1[last].(next := end)];
      && var h' := h2[end := h2[end].(prev := last, next := NULL)];
      && Represents(h', base, blockHead, freeHead, Grown(bs, end, pages), fl) && end !in fl && end in h'
      && (freeHead != NULL ==> freeHead in h')
      && Represents(FreeLinked(h', freeHead, end), base, blockHead, end, Grown(bs, end, pages), [end] + fl)
  {
    hide BlockChain, FreeChain, Described, AddressesOf, FreeLinked, ListsFree;
    var k := |bs| - 1;
    var last, x := bs[k].address, Header(MAGIC, true, pages * PAGE_SIZE - HEADER, offset, NULL, NULL, NULL, NULL);
    var b := Block(end, pages * PAGE_SIZE - HEADER, true);
    EndIsNoAddress(bs, fl, base, end);
    InsertRepresents(h, base, blockHead, freeHead, bs, fl, k, b, x);
    LastHeader(h, base, blockHead, bs, end);
    var h1 := h[end := x];
    var h2 := h1[last := h1[last].(next := end)];
    var h' := h2[end := h2[end].(prev := last, next := NULL)];
    assert h' == Inserted(h, last, end, x);
    assert PutBlock(bs, k, b) == Grown(bs, end, pages);
    FreeHeadKnown(h', freeHead, fl);
    PushRepresents(h', base, blockHead, freeHead, Grown(bs, end, pages), fl, end);
  }

  lemma FreeHeadKnown(h: Headers, freeHead: nat, fl: seq<nat>)
    requires FreeChain(h, freeHead, fl)
    ensures freeHead != NULL ==> freeHead in h
  {
  }

  lemma EndIsNoAddress(bs: seq<Block>, fl: seq<nat>, base: nat, end: nat)
    requires Tiled(bs, base, end) && ListsFree(bs, fl)
    ensures end !in AddressesOf(bs) && end !in fl
    ensures bs[|bs| - 1].address < end && base <= bs[|bs| - 1].address
  {
    EndIsNew(bs, base, end);
    forall j | 0 <= j < |bs| - 1 ensures bs[j].address < end { InOrder(bs, base, end, j, |bs| - 1); }
    if |bs| > 1 { InOrder(bs, base, end, 0, |bs| - 1); }
  }

  /** The block at position k of the free list. */
  lemma FreeEntry(h: Headers, base: nat, freeHead: nat, bs: seq<Block>, fl: seq<nat>, end: nat, k: nat)
    requires FreeChain(h, freeHead, fl) && Described(h, base, bs) && Tiled(bs, base, end) && ListsFree(bs, fl)
    requires k < |fl|
    ensures fl[k] in h && h[fl[k]].freeNext == At(fl, k + 1) && IndexOf(bs, fl[k]) < |bs|
    ensures h[fl[k]].size == bs[IndexOf(bs, fl[k])].size
  {
    assert FreeHeader(bs, fl[k]);
    var i :| 0 <= i < |bs| && bs[i].address == fl[k] && bs[i].free;
    Addresses(bs, base, end, i, IndexOf(bs, fl[k]));
  }

  lemma FirstFitStep(bs: seq<Block>, fl: seq<nat>, size: nat)
    requires fl != []
    ensures var i := IndexOf(bs, fl[0]);
      FirstFit(bs, fl, size) == if i < |bs| && bs[i].size >= size then Some(i) else FirstFit(bs, fl[1..], size)
  {
  }
}
