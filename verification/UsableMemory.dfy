/** From the kernel's memory map to the page allocator: what page_alloc_init is given, and that the two
    regions reserved at boot are no part of it. */
module UsableMemory {
  import opened Bits
  import Buddy
  import opened MemoryMap
  import opened PageAlloc
  import opened Sequences

  /** The entry starts on a page and ends below the page allocator's limit. */
  predicate OnPages(e: Entry) {
    e.start % PAGE_SIZE == 0 && e.start / PAGE_SIZE + e.pages <= Buddy.MAX_TOTAL_PAGES
  }

  predicate AllOnPages(es: seq<Entry>) {
    forall i :: 0 <= i < |es| ==> OnPages(es[i])
  }

  /** The firmware's descriptors start on pages and end below the limit. */
  predicate DescribesPages(ds: seq<Descriptor>) {
    forall i :: 0 <= i < |ds| ==> OnPages(Entry(ds[i].start, ds[i].pages, false))
  }

  function Frames(es: seq<Entry>): seq<Buddy.Range> {
    UsableRanges(es, |es|)
  }

  // --------------------------------------------------------------------------- entries and ranges

  lemma EntryHasPage(e: Entry, p: nat)
    requires OnPages(e)
    ensures InEntry(p * PAGE_SIZE, e) <==> Buddy.InRange(Buddy.Range(e.start / PAGE_SIZE, e.pages), p)
  {
  }

  lemma RangesOne(es: seq<Entry>, n: nat)
    requires n < |es|
    ensures UsableRanges(es, n + 1) ==
            if es[n].usable then UsableRanges(es, n) + [Buddy.Range(es[n].start / PAGE_SIZE, es[n].pages)]
            else UsableRanges(es, n)
  {
  }

  /** The allocator's pages are those at whose addresses the map is usable. */
  lemma {:induction false} FramesExactly(es: seq<Entry>, n: nat, p: nat)
    requires n <= |es| && AllOnPages(es)
    ensures var rs := UsableRanges(es, n);
      p in Buddy.UsablePages(rs, |rs|) <==> exists i :: 0 <= i < n && es[i].usable && InEntry(p * PAGE_SIZE, es[i])
  {
    hide InEntry, OnPages, UsableRanges, Buddy.UsablePages, Buddy.RangePages;
    if n == 0 {
      NoRanges(es);
    } else {
      var before, e := UsableRanges(es, n - 1), es[n - 1];
      FramesExactly(es, n - 1, p);
      RangesOne(es, n - 1);
      if e.usable {
        var r := Buddy.Range(e.start / PAGE_SIZE, e.pages);
        EntryHasPage(e, p);
        AddRangesOne(before, r);
        InRangePages(r, p);
      }
    }
  }

  lemma NoRanges(es: seq<Entry>)
    ensures UsableRanges(es, 0) == [] && Buddy.UsablePages([], 0) == {}
  {
  }

  lemma InRangePages(r: Buddy.Range, p: nat)
    ensures p in Buddy.RangePages(r) <==> Buddy.InRange(r, p)
  {
  }

  /** No address is in two usable entries. */
  ghost predicate UsableApart(es: seq<Entry>) {
    forall i, j, x :: 0 <= i < j < |es| && es[i].usable && es[j].usable && InEntry(x, es[i]) ==> !InEntry(x, es[j])
  }

  lemma {:induction false} RangesFrom(es: seq<Entry>, n: nat, k: nat) returns (i: nat)
    requires n <= |es| && k < |UsableRanges(es, n)|
    ensures i < n && es[i].usable && UsableRanges(es, n)[k] == Buddy.Range(es[i].start / PAGE_SIZE, es[i].pages)
  {
    hide UsableRanges;
    if n == 0 {
      NoRanges(es);
      assert false;
    }
    RangesOne(es, n - 1);
    if k < |UsableRanges(es, n - 1)| {
      i := RangesFrom(es, n - 1, k);
    } else {
      i := n - 1;
    }
  }

  lemma ClearRanges(es: seq<Entry>, i: nat, j: nat)
    requires UsableApart(es) && i < j < |es| && es[i].usable && es[j].usable && OnPages(es[i]) && OnPages(es[j])
    ensures Buddy.Clear(Buddy.Range(es[i].start / PAGE_SIZE, es[i].pages),
                        Buddy.Range(es[j].start / PAGE_SIZE, es[j].pages))
  {
    hide OnPages, InEntry;
    var r, t := Buddy.Range(es[i].start / PAGE_SIZE, es[i].pages), Buddy.Range(es[j].start / PAGE_SIZE, es[j].pages);
    var p := if r.start > t.start then r.start else t.start;
    EntryHasPage(es[i], p);
    EntryHasPage(es[j], p);
    assert InEntry(p * PAGE_SIZE, es[i]) ==> !InEntry(p * PAGE_SIZE, es[j]);
  }

  /** So the ranges are what the theorems on the page allocator ask for. */
  lemma {:induction false} FramesDisjoint(es: seq<Entry>, n: nat)
    requires n <= |es| && AllOnPages(es) && UsableApart(es)
    ensures Buddy.Disjoint(UsableRanges(es, n))
  {
    hide InEntry, UsableApart, UsableRanges;
    if n == 0 {
      NoRanges(es);
    } else {
      FramesDisjoint(es, n - 1);
      RangesOne(es, n - 1);
      var before, rs := UsableRanges(es, n - 1), UsableRanges(es, n);
      forall i, j | 0 <= i < |rs| && 0 <= j < |rs| && i != j ensures Buddy.Clear(rs[i], rs[j]) {
        var k := if i < j then i else j;
        if |before| <= i || |before| <= j {
          var m := RangesFrom(es, n - 1, k);
          ClearRanges(es, m, n - 1);
        }
      }
    }
  }

  // ---------------------------------------------------------------------------- the map that is built

  /** Both regions are cut from the start of descriptors, so they start on pages too. */
  lemma RegionsOnPages(ds: seq<Descriptor>)
    requires Disjoint(ds) && DescribesPages(ds) && Reserved(Reserve(ds))
    ensures var r := Reserve(ds);
      && r.mapArea.start % PAGE_SIZE == 0 && r.mapArea.end == r.mapArea.start + MAP_SIZE
      && r.tables.start % PAGE_SIZE == 0 && r.tables.end == r.tables.start + TABLES_SIZE
  {
    hide Disjoint, Reserve, ZeroSplit;
    var r := Reserve(ds);
    RegionsAt(ds);
    assert OnPages(Entry(ds[r.mapFrom].start, ds[r.mapFrom].pages, false));
    assert OnPages(Entry(ds[r.tablesFrom].start, ds[r.tablesFrom].pages, false));
  }

  /** Every entry made for a descriptor lies in it and starts on a page. */
  lemma PiecesOnPages(d: Descriptor, r: Reservation, i: nat)
    requires OnPages(Entry(d.start, d.pages, false)) && i < |Pieces(d, r)|
    requires r.mapArea.start % PAGE_SIZE == 0 && r.mapArea.end == r.mapArea.start + MAP_SIZE
    requires r.tables.start % PAGE_SIZE == 0 && r.tables.end == r.tables.start + TABLES_SIZE
    requires d.pages >= (if Contains(d, r.mapArea) then MAP_PAGES else 0)
                        + if Contains(d, r.tables) then TABLES_PAGES else 0
    ensures var e := Pieces(d, r)[i]; OnPages(e) && d.start <= e.start && e.start + e.pages * PAGE_SIZE <= End(d)
    ensures Pieces(d, r)[i].usable ==> i == |Pieces(d, r)| - 1
  {
  }

  /** Where an entry of the map comes from. */
  lemma {:induction false} EntryFrom(ds: seq<Descriptor>, r: Reservation, n: nat, i: nat) returns (m: nat, k: nat)
    requires n <= |ds| && i < |BuildUpTo(ds, r, n)|
    ensures m < n && k < |Pieces(ds[m], r)| && BuildUpTo(ds, r, n)[i] == Pieces(ds[m], r)[k]
    ensures i == |BuildUpTo(ds, r, m)| + k
  {
    hide Pieces;
    if i < |BuildUpTo(ds, r, n - 1)| {
      m, k := EntryFrom(ds, r, n - 1, i);
    } else {
      m, k := n - 1, i - |BuildUpTo(ds, r, n - 1)|;
    }
  }

  /** Whatever the regions, the usable entries of the map are apart and lie on pages. */
  lemma BuiltOnPages(ds: seq<Descriptor>)
    requires Disjoint(ds) && DescribesPages(ds) && Reserved(Reserve(ds))
    ensures AllOnPages(Build(ds, Reserve(ds))) && UsableApart(Build(ds, Reserve(ds)))
  {
    hide Pieces, Reserve, Contains, OnPages, Reserved;
    var r := Reserve(ds);
    var es := Build(ds, r);
    RegionsOnPages(ds);
    forall i | 0 <= i < |es| ensures OnPages(es[i]) {
      var m, k := EntryFrom(ds, r, |ds|, i);
      EnoughPages(ds, m);
      PiecesOnPages(ds[m], r, k);
    }
    forall i, j, x | 0 <= i < j < |es| && es[i].usable && es[j].usable && InEntry(x, es[i]) ensures !InEntry(x, es[j]) {
      var m, k := EntryFrom(ds, r, |ds|, i);
      var m', k' := EntryFrom(ds, r, |ds|, j);
      EnoughPages(ds, m);
      EnoughPages(ds, m');
      PiecesOnPages(ds[m], r, k);
      PiecesOnPages(ds[m'], r, k');
      assert (m < m' || m' < m) && In(x, ds[m]);
      assert !In(x, ds[m']);
    }
  }

  /** The page a frame number stands for is in one of the two regions. */
  predicate InRegions(p: nat, r: Reservation) {
    InBump(p * PAGE_SIZE, r.mapArea) || InBump(p * PAGE_SIZE, r.tables)
  }

  /** The page allocator is given disjoint ranges of usable pages, and no page of the two regions, if and
      only if no zero split stands in the way. */
  lemma RegionsStayOutExactly(ds: seq<Descriptor>)
    requires Disjoint(ds) && DescribesPages(ds) && Reserved(Reserve(ds))
    ensures var rs := Frames(Build(ds, Reserve(ds)));
      && Buddy.Disjoint(rs)
      && ((forall p: nat :: p in Buddy.UsablePages(rs, |rs|) ==> !InRegions(p, Reserve(ds)))
          <==> forall f :: !ZeroSplit(ds, f))
  {
    hide Disjoint, DescribesPages, Reserve, Reserved, Build, Pieces, ZeroSplit, UsableRanges, Buddy.Disjoint,
         Buddy.UsablePages;
    var r := Reserve(ds);
    var es := Build(ds, r);
    var rs := Frames(es);
    BuiltOnPages(ds);
    FramesDisjoint(es, |es|);
    if f: nat :| ZeroSplit(ds, f) {
      ZeroSplitIsWrong(ds, f);
      FramesExactly(es, |es|, TABLES_SIZE / PAGE_SIZE);
      assert TABLES_SIZE / PAGE_SIZE * PAGE_SIZE == TABLES_SIZE;
      assert InRegions(TABLES_SIZE / PAGE_SIZE, r);
    } else {
      RightExactly(ds);
      forall p: nat | p in Buddy.UsablePages(rs, |rs|) ensures !InRegions(p, r) {
        FramesExactly(es, |es|, p);
        assert UsableAt(es, p * PAGE_SIZE);
      }
    }
  }

  /** Then no run of the page allocator ever hands out a page of the two regions, so no page table and no
      part of the map is allocated again. */
  lemma RegionsAreNeverHandedOut(ds: seq<Descriptor>, trace: seq<Buddy.State>, i: nat, b: Buddy.Block, p: nat)
    requires Disjoint(ds) && DescribesPages(ds) && Reserved(Reserve(ds)) && forall f :: !ZeroSplit(ds, f)
    requires Buddy.Run(Frames(Build(ds, Reserve(ds))), trace) && i < |trace|
    requires b in trace[i].live && Buddy.Covers(b, p)
    ensures GivenUsable(ds, p * PAGE_SIZE) && !InRegions(p, Reserve(ds))
  {
    hide Disjoint, DescribesPages, Reserve, Reserved, Build, Pieces, ZeroSplit, UsableRanges, Buddy.Disjoint,
         Buddy.UsablePages, Buddy.Run;
    var r := Reserve(ds);
    var es := Build(ds, r);
    var rs := Frames(es);
    BuiltOnPages(ds);
    FramesDisjoint(es, |es|);
    Buddy.Conservation(rs, trace, i);
    HandedOut(trace[i], Buddy.UsablePages(rs, |rs|), b, p);
    FramesExactly(es, |es|, p);
    RightExactly(ds);
    assert UsableAt(es, p * PAGE_SIZE);
  }

  /** Without a zero split the allocator gets exactly the firmware's usable pages outside the regions. */
  lemma AllocatorGetsExactly(ds: seq<Descriptor>, p: nat)
    requires Disjoint(ds) && DescribesPages(ds) && Reserved(Reserve(ds)) && forall f :: !ZeroSplit(ds, f)
    ensures var r := Reserve(ds); var rs := Frames(Build(ds, r));
      p in Buddy.UsablePages(rs, |rs|) <==> GivenUsable(ds, p * PAGE_SIZE) && !InRegions(p, r)
  {
    hide Disjoint, DescribesPages, Reserve, Reserved, Build, Pieces, ZeroSplit, UsableRanges, Buddy.UsablePages;
    var es := Build(ds, Reserve(ds));
    BuiltOnPages(ds);
    FramesExactly(es, |es|, p);
    RightExactly(ds);
    assert UsableAt(es, p * PAGE_SIZE) <==>
      exists i :: 0 <= i < |es| && es[i].usable && InEntry(p * PAGE_SIZE, es[i]);
  }

  /** Even with one, a usable entry lies in a usable descriptor. */
  lemma UsableIsGiven(ds: seq<Descriptor>, x: nat)
    requires Disjoint(ds) && DescribesPages(ds) && Reserved(Reserve(ds)) && UsableAt(Build(ds, Reserve(ds)), x)
    ensures GivenUsable(ds, x)
  {
    hide Disjoint, DescribesPages, Reserve, Reserved, Contains;
    var r := Reserve(ds);
    var es := Build(ds, r);
    var i :| 0 <= i < |es| && es[i].usable && InEntry(x, es[i]);
    RegionsOnPages(ds);
    var m, k := EntryFrom(ds, r, |ds|, i);
    EnoughPages(ds, m);
    assert OnPages(Entry(ds[m].start, ds[m].pages, false)) by { PageAligned(ds, m); }
    PiecesOnPages(ds[m], r, k);
    assert Usable(ds[m]) && In(x, ds[m]);
  }

  lemma PageAligned(ds: seq<Descriptor>, m: nat)
    requires DescribesPages(ds) && m < |ds|
    ensures OnPages(Entry(ds[m].start, ds[m].pages, false))
  {
  }

  /** Memory that runtime services, ACPI or devices go on using, or that is reserved, is never handed out,
      whatever the regions. */
  lemma OtherUseIsLeftAlone(ds: seq<Descriptor>, trace: seq<Buddy.State>, i: nat, b: Buddy.Block, p: nat, m: nat)
    requires Disjoint(ds) && DescribesPages(ds) && Reserved(Reserve(ds))
    requires Buddy.Run(Frames(Build(ds, Reserve(ds))), trace) && i < |trace|
    requires b in trace[i].live && Buddy.Covers(b, p) && m < |ds| && InOtherUse(ds[m])
    ensures !In(p * PAGE_SIZE, ds[m])
  {
    hide DescribesPages, Reserve, Reserved, Build, Pieces, UsableRanges, Buddy.Disjoint, Buddy.UsablePages, Buddy.Run,
         In, Usable, InOtherUse;
    var es := Build(ds, Reserve(ds));
    var rs := Frames(es);
    BuiltOnPages(ds);
    FramesDisjoint(es, |es|);
    Buddy.Conservation(rs, trace, i);
    HandedOut(trace[i], Buddy.UsablePages(rs, |rs|), b, p);
    FramesExactly(es, |es|, p);
    assert UsableAt(es, p * PAGE_SIZE);
    UsableIsGiven(ds, p * PAGE_SIZE);
    var n :| 0 <= n < |ds| && Usable(ds[n]) && In(p * PAGE_SIZE, ds[n]);
    KindsExactly(ds[m]);
    assert n != m;
    assert n < m || m < n;
  }

  lemma HandedOut(s: Buddy.State, pages: set<nat>, b: Buddy.Block, p: nat)
    requires Buddy.Holds(s.lists, s.live, pages) && b in s.live && Buddy.Covers(b, p)
    ensures p in pages
  {
    assert b in Buddy.FreeSet(s.lists) + s.live;
    assert Buddy.Covered(Buddy.FreeSet(s.lists) + s.live, p);
  }
}
