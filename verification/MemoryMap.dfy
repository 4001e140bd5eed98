/** The kernel's memory map, built from the firmware's: two regions are reserved for the map itself and
    for page tables, and every descriptor becomes one to three entries. */
module MemoryMap {
  const PAGE_SIZE: nat := 4096
  /** 1 MiB for the kernel's memory map, 8 MiB for page tables, and the same in pages. */
  const MAP_SIZE: nat := 0x10_0000
  const TABLES_SIZE: nat := 0x80_0000
  const MAP_PAGES: nat := 256
  const TABLES_PAGES: nat := 2048
  /** sizeof(mmap_memory_descriptor_t). */
  const ENTRY_SIZE: nat := 24

  /** A firmware descriptor: its UEFI memory type, where it starts and how many pages it has. */
  datatype Descriptor = Descriptor(kind: nat, start: nat, pages: nat)

  /** An entry of the kernel's map. */
  datatype Entry = Entry(start: nat, pages: nat, usable: bool)

  datatype Bump = Bump(start: nat, end: nat, taken: nat, remaining: nat)

  /** The two bump allocators and the descriptors, by index, that they were cut from. */
  datatype Reservation = Reservation(mapArea: Bump, mapFrom: nat, tables: Bump, tablesFrom: nat)

  /** The memory types of the UEFI specification, section 7.2. */
  const RESERVED: nat := 0
  const LOADER_CODE: nat := 1
  const LOADER_DATA: nat := 2
  const BOOT_SERVICES_CODE: nat := 3
  const BOOT_SERVICES_DATA: nat := 4
  const RUNTIME_SERVICES_CODE: nat := 5
  const RUNTIME_SERVICES_DATA: nat := 6
  const CONVENTIONAL: nat := 7
  const UNUSABLE: nat := 8
  const ACPI_RECLAIM: nat := 9
  const ACPI_NVS: nat := 10
  const MEMORY_MAPPED_IO: nat := 11
  const MEMORY_MAPPED_IO_PORTS: nat := 12
  const PAL_CODE: nat := 13
  const PERSISTENT: nat := 14
  const UNACCEPTED: nat := 15

  /** efi_memory_map_is_usable. */
  predicate Usable(d: Descriptor) {
    || d.kind == CONVENTIONAL || d.kind == LOADER_CODE || d.kind == BOOT_SERVICES_CODE
    || d.kind == BOOT_SERVICES_DATA || d.kind == PERSISTENT
  }

  /** Memory that others go on using: what the loader left, runtime services, ACPI tables, devices, and what
      is reserved, broken or not accepted yet. */
  predicate InOtherUse(d: Descriptor) {
    d.kind in {RESERVED, LOADER_DATA, RUNTIME_SERVICES_CODE, RUNTIME_SERVICES_DATA, UNUSABLE, ACPI_RECLAIM, ACPI_NVS,
               MEMORY_MAPPED_IO, MEMORY_MAPPED_IO_PORTS, PAL_CODE, UNACCEPTED}
  }

  /** Of the types there are, each is one or the other. */
  lemma KindsExactly(d: Descriptor)
    ensures d.kind <= UNACCEPTED ==> (Usable(d) <==> !InOtherUse(d))
    ensures InOtherUse(d) ==> !Usable(d)
  {
  }

  function End(d: Descriptor): nat {
    d.start + d.pages * PAGE_SIZE
  }

  // ------------------------------------------------------------------------------ bump allocators

  function NoBump(): Bump {
    Bump(0, 0, 0, 0)
  }

  /** bump_allocator_invalid. */
  predicate Invalid(b: Bump) {
    b.start == 0 || b.end == 0
  }

  /** bump_allocator_init. */
  function BumpOver(start: nat, size: nat): Bump {
    Bump(start, start + size, 0, size)
  }

  // ------------------------------------------------------------------------------------ reserving

  /** One pass of the loop of mmap_reserve_memory, over descriptor n. */
  function ReserveStep(d: Descriptor, n: nat, r: Reservation): Reservation {
    if !Usable(d) then r
    else
      var size := d.pages * PAGE_SIZE;
      var takeMap := Invalid(r.mapArea) && size >= MAP_SIZE;
      var start := if takeMap then d.start + MAP_SIZE else d.start;
      var left := if takeMap then size - MAP_SIZE else size;
      var takeTables := Invalid(r.tables) && left >= TABLES_SIZE;
      Reservation(if takeMap then BumpOver(d.start, MAP_SIZE) else r.mapArea, if takeMap then n else r.mapFrom,
                  if takeTables then BumpOver(start, TABLES_SIZE) else r.tables, if takeTables then n else r.tablesFrom)
  }

  function ReserveUpTo(ds: seq<Descriptor>, n: nat): Reservation
    requires n <= |ds|
  {
    if n == 0 then Reservation(NoBump(), 0, NoBump(), 0)
    else ReserveStep(ds[n - 1], n - 1, ReserveUpTo(ds, n - 1))
  }

  function Reserve(ds: seq<Descriptor>): Reservation {
    ReserveUpTo(ds, |ds|)
  }

  predicate Reserved(r: Reservation) {
    !Invalid(r.mapArea) && !Invalid(r.tables)
  }

  // ------------------------------------------------------------------------------------- building

  predicate Contains(d: Descriptor, b: Bump) {
    b.start >= d.start && b.end <= End(d)
  }

  /** The entries that mmap_build_memory_map makes for one descriptor. */
  function Pieces(d: Descriptor, r: Reservation): seq<Entry> {
    if !Usable(d) then [Entry(d.start, d.pages, false)]
    else
      var hasMap, hasTables := Contains(d, r.mapArea), Contains(d, r.tables);
      var off := (if hasMap then MAP_SIZE else 0) + (if hasTables then TABLES_SIZE else 0);
      var less := (if hasMap then MAP_PAGES else 0) + (if hasTables then TABLES_PAGES else 0);
      (if hasMap then [Entry(r.mapArea.start, MAP_PAGES, false)] else [])
      + (if hasTables then [Entry(r.tables.start, TABLES_PAGES, false)] else [])
      + [Entry(d.start + off, if d.pages >= less then d.pages - less else 0, true)]
  }

  function BuildUpTo(ds: seq<Descriptor>, r: Reservation, n: nat): seq<Entry>
    requires n <= |ds|
  {
    if n == 0 then [] else BuildUpTo(ds, r, n - 1) + Pieces(ds[n - 1], r)
  }

  function Build(ds: seq<Descriptor>, r: Reservation): seq<Entry> {
    BuildUpTo(ds, r, |ds|)
  }

  // --------------------------------------------------------------------------------- what is right

  predicate In(x: nat, d: Descriptor) {
    d.start <= x < End(d)
  }

  predicate InEntry(x: nat, e: Entry) {
    e.start <= x < e.start + e.pages * PAGE_SIZE
  }

  predicate InBump(x: nat, b: Bump) {
    b.start <= x < b.end
  }

  /** No address is in two descriptors. */
  ghost predicate Disjoint(ds: seq<Descriptor>) {
    forall i, j, x :: 0 <= i < j < |ds| && In(x, ds[i]) ==> !In(x, ds[j])
  }

  ghost predicate EntriesDisjoint(es: seq<Entry>) {
    forall i, j, x :: 0 <= i < j < |es| && InEntry(x, es[i]) ==> !InEntry(x, es[j])
  }

  ghost predicate Mapped(es: seq<Entry>, x: nat) {
    exists i :: 0 <= i < |es| && InEntry(x, es[i])
  }

  ghost predicate Given(ds: seq<Descriptor>, x: nat) {
    exists i :: 0 <= i < |ds| && In(x, ds[i])
  }

  ghost predicate UsableAt(es: seq<Entry>, x: nat) {
    exists i :: 0 <= i < |es| && es[i].usable && InEntry(x, es[i])
  }

  ghost predicate GivenUsable(ds: seq<Descriptor>, x: nat) {
    exists i :: 0 <= i < |ds| && Usable(ds[i]) && In(x, ds[i])
  }

  /** The map covers exactly what the firmware's does, with disjoint entries; both regions are entries
      marked reserved; and usable is exactly what the firmware gave as usable outside them. */
  ghost predicate Right(ds: seq<Descriptor>, r: Reservation, es: seq<Entry>) {
    && (forall x :: Mapped(es, x) <==> Given(ds, x)) && EntriesDisjoint(es)
    && Entry(r.mapArea.start, MAP_PAGES, false) in es && Entry(r.tables.start, TABLES_PAGES, false) in es
    && forall x :: UsableAt(es, x) <==> GivenUsable(ds, x) && !InBump(x, r.mapArea) && !InBump(x, r.tables)
  }

  // ------------------------------------------------------------------------- where the regions are

  predicate Big(d: Descriptor) {
    Usable(d) && d.pages >= MAP_PAGES
  }

  /** The first usable descriptor that is large enough for the map starts at address 0 and would hold
      the page tables as well. The null start then makes the map's allocator look unused. */
  ghost predicate ZeroSplit(ds: seq<Descriptor>, f: nat) {
    && f < |ds| && Big(ds[f]) && ds[f].start == 0 && ds[f].pages >= MAP_PAGES + TABLES_PAGES
    && forall m :: 0 <= m < f ==> !Big(ds[m])
  }

  ghost predicate MapAt(ds: seq<Descriptor>, n: nat, r: Reservation)
    requires n <= |ds|
  {
    if Invalid(r.mapArea) then forall m :: 0 <= m < n && Big(ds[m]) ==> ds[m].start == 0
    else r.mapFrom < n && Big(ds[r.mapFrom]) && r.mapArea == BumpOver(ds[r.mapFrom].start, MAP_SIZE)
  }

  ghost predicate TablesAt(ds: seq<Descriptor>, n: nat, r: Reservation)
    requires n <= |ds|
  {
    Invalid(r.tables) || (
      && r.tablesFrom < n && Usable(ds[r.tablesFrom])
      && r.tables.end == r.tables.start + TABLES_SIZE <= End(ds[r.tablesFrom])
      && if !Invalid(r.mapArea) && r.mapFrom == r.tablesFrom then r.tables.start == ds[r.tablesFrom].start + MAP_SIZE
         else r.tables.start == ds[r.tablesFrom].start || (ZeroSplit(ds, r.tablesFrom) && r.tables.start == MAP_SIZE))
  }

  lemma {:induction false} ReservedAt(ds: seq<Descriptor>, n: nat)
    requires Disjoint(ds) && n <= |ds|
    ensures MapAt(ds, n, ReserveUpTo(ds, n)) && TablesAt(ds, n, ReserveUpTo(ds, n))
  {
    if n > 0 {
      ReservedAt(ds, n - 1);
      MapAtStep(ds, n - 1);
      TablesAtStep(ds, n - 1);
    }
  }

  lemma MapAtStep(ds: seq<Descriptor>, n: nat)
    requires n < |ds| && MapAt(ds, n, ReserveUpTo(ds, n))
    ensures MapAt(ds, n + 1, ReserveUpTo(ds, n + 1))
  {
  }

  lemma TablesAtStep(ds: seq<Descriptor>, n: nat)
    requires Disjoint(ds) && n < |ds| && MapAt(ds, n, ReserveUpTo(ds, n)) && TablesAt(ds, n, ReserveUpTo(ds, n))
    ensures TablesAt(ds, n + 1, ReserveUpTo(ds, n + 1))
  {
    var d, r := ds[n], ReserveUpTo(ds, n);
    if Big(d) && d.start == 0 && Invalid(r.mapArea) {
      forall m | 0 <= m < n ensures !Big(ds[m]) {
        assert Big(ds[m]) ==> In(0, ds[m]) && In(0, d);
      }
    }
  }

  /** The map's region is cut from this descriptor: it is large enough, and none before it was, but for one
      at address 0, which leaves the region looking unused. */
  ghost predicate TakesMap(ds: seq<Descriptor>, n: nat) {
    n < |ds| && Big(ds[n]) && forall m :: 0 <= m < n && Big(ds[m]) ==> ds[m].start == 0
  }

  /** This descriptor can give the map its region for good. */
  ghost predicate GivesMap(ds: seq<Descriptor>, n: nat) {
    n < |ds| && Big(ds[n]) && ds[n].start != 0
  }

  /** This one can give the page tables theirs, from what the map leaves of it. */
  ghost predicate GivesTables(ds: seq<Descriptor>, n: nat) {
    && n < |ds| && Usable(ds[n])
    && ds[n].pages >= TABLES_PAGES + (if TakesMap(ds, n) then MAP_PAGES else 0)
    && (ds[n].start != 0 || TakesMap(ds, n))
  }

  ghost predicate FirstMap(ds: seq<Descriptor>, n: nat) {
    GivesMap(ds, n) && forall m :: 0 <= m < n ==> !GivesMap(ds, m)
  }

  ghost predicate FirstTables(ds: seq<Descriptor>, n: nat) {
    GivesTables(ds, n) && forall m :: 0 <= m < n ==> !GivesTables(ds, m)
  }

  ghost predicate Reservable(ds: seq<Descriptor>) {
    (exists n :: GivesMap(ds, n)) && exists n :: GivesTables(ds, n)
  }

  /** Each region is reserved as soon as a descriptor can give it, and from the first that can. */
  lemma {:induction false} ReservesFirst(ds: seq<Descriptor>, n: nat)
    requires n <= |ds|
    ensures var r := ReserveUpTo(ds, n);
      && (Invalid(r.mapArea) <==> forall m :: 0 <= m < n ==> !GivesMap(ds, m))
      && (!Invalid(r.mapArea) ==>
            r.mapFrom < n && FirstMap(ds, r.mapFrom) && r.mapArea == BumpOver(ds[r.mapFrom].start, MAP_SIZE))
    ensures var r := ReserveUpTo(ds, n);
      && (Invalid(r.tables) <==> forall m :: 0 <= m < n ==> !GivesTables(ds, m))
      && (!Invalid(r.tables) ==>
            r.tablesFrom < n && FirstTables(ds, r.tablesFrom) && r.tables == TablesOf(ds, r.tablesFrom))
  {
    if n > 0 {
      ReservesFirst(ds, n - 1);
      TakesMapNow(ds, n - 1);
      MapStep(ds, n - 1);
      TablesStep(ds, n - 1);
    }
  }

  /** The region for page tables in a descriptor: behind the map's, if that was cut from it too. */
  ghost function TablesOf(ds: seq<Descriptor>, n: nat): Bump
    requires n < |ds|
  {
    BumpOver(ds[n].start + if TakesMap(ds, n) then MAP_SIZE else 0, TABLES_SIZE)
  }

  lemma TakesMapNow(ds: seq<Descriptor>, n: nat)
    requires n < |ds|
    requires Invalid(ReserveUpTo(ds, n).mapArea) <==> forall m :: 0 <= m < n ==> !GivesMap(ds, m)
    ensures TakesMap(ds, n) <==> Big(ds[n]) && Invalid(ReserveUpTo(ds, n).mapArea)
  {
    hide ReserveUpTo, Invalid;
    forall m | 0 <= m < n ensures !GivesMap(ds, m) <==> (Big(ds[m]) ==> ds[m].start == 0) { }
  }

  lemma MapStep(ds: seq<Descriptor>, n: nat)
    requires n < |ds|
    requires var r := ReserveUpTo(ds, n);
      && (Invalid(r.mapArea) <==> forall m :: 0 <= m < n ==> !GivesMap(ds, m))
      && (!Invalid(r.mapArea) ==>
            r.mapFrom < n && FirstMap(ds, r.mapFrom) && r.mapArea == BumpOver(ds[r.mapFrom].start, MAP_SIZE))
    ensures var r := ReserveUpTo(ds, n + 1);
      && (Invalid(r.mapArea) <==> forall m :: 0 <= m < n + 1 ==> !GivesMap(ds, m))
      && (!Invalid(r.mapArea) ==>
            r.mapFrom < n + 1 && FirstMap(ds, r.mapFrom) && r.mapArea == BumpOver(ds[r.mapFrom].start, MAP_SIZE))
  {
    var r, s := ReserveUpTo(ds, n), ReserveUpTo(ds, n + 1);
    if Invalid(r.mapArea) {
      assert !Invalid(s.mapArea) <==> GivesMap(ds, n);
    } else {
      assert s.mapArea == r.mapArea && s.mapFrom == r.mapFrom && GivesMap(ds, r.mapFrom);
    }
  }

  lemma TablesStep(ds: seq<Descriptor>, n: nat)
    requires n < |ds| && (TakesMap(ds, n) <==> Big(ds[n]) && Invalid(ReserveUpTo(ds, n).mapArea))
    requires var r := ReserveUpTo(ds, n);
      && (Invalid(r.tables) <==> forall m :: 0 <= m < n ==> !GivesTables(ds, m))
      && (!Invalid(r.tables) ==>
            r.tablesFrom < n && FirstTables(ds, r.tablesFrom) && r.tables == TablesOf(ds, r.tablesFrom))
    ensures var r := ReserveUpTo(ds, n + 1);
      && (Invalid(r.tables) <==> forall m :: 0 <= m < n + 1 ==> !GivesTables(ds, m))
      && (!Invalid(r.tables) ==>
            r.tablesFrom < n + 1 && FirstTables(ds, r.tablesFrom) && r.tables == TablesOf(ds, r.tablesFrom))
  {
    hide TakesMap;
    var r, s := ReserveUpTo(ds, n), ReserveUpTo(ds, n + 1);
    if Invalid(r.tables) {
      assert !Invalid(s.tables) <==> GivesTables(ds, n);
    } else {
      assert s.tables == r.tables && s.tablesFrom == r.tablesFrom && GivesTables(ds, r.tablesFrom);
    }
  }

  /** Reserving succeeds if and only if some usable descriptor of 256 pages does not start at 0 and some
      usable descriptor has 2048 pages beyond what the map takes of it; and then each region is cut from the
      first such descriptor. */
  lemma ReservesExactly(ds: seq<Descriptor>)
    ensures Reserved(Reserve(ds)) <==> Reservable(ds)
    ensures var r := Reserve(ds); Reserved(r) ==>
      && FirstMap(ds, r.mapFrom) && r.mapArea == BumpOver(ds[r.mapFrom].start, MAP_SIZE)
      && FirstTables(ds, r.tablesFrom) && r.tables == TablesOf(ds, r.tablesFrom)
  {
    hide GivesMap, GivesTables, ReserveUpTo, TablesOf, Invalid;
    ReservesFirst(ds, |ds|);
    OnlyIndices(ds);
  }

  lemma OnlyIndices(ds: seq<Descriptor>)
    ensures forall n: nat :: GivesMap(ds, n) || GivesTables(ds, n) ==> n < |ds|
  {
  }

  /** With a zero split the page tables stay in the descriptor at 0 and the map goes elsewhere. */
  lemma {:induction false} SplitStays(ds: seq<Descriptor>, f: nat, n: nat)
    requires Disjoint(ds) && ZeroSplit(ds, f) && f < n <= |ds|
    ensures var r := ReserveUpTo(ds, n);
      r.tablesFrom == f && r.tables == BumpOver(MAP_SIZE, TABLES_SIZE) && (Invalid(r.mapArea) || r.mapFrom != f)
  {
    if n > f + 1 {
      SplitStays(ds, f, n - 1);
    } else {
      ReservedAt(ds, f);
    }
    ReservedAt(ds, n);
  }

  // -------------------------------------------------------------------------------- entry by entry

  /** A region that the descriptor contains is where the map builder takes it to be. */
  ghost predicate Fits(d: Descriptor, r: Reservation) {
    && Reserved(r) && r.mapArea.end == r.mapArea.start + MAP_SIZE && r.tables.end == r.tables.start + TABLES_SIZE
    && (Usable(d) && Contains(d, r.mapArea) ==> r.mapArea.start == d.start)
    && (Usable(d) && Contains(d, r.tables) ==>
          r.tables.start == d.start + if Contains(d, r.mapArea) then MAP_SIZE else 0)
  }

  /** The entries of one descriptor tile it. */
  lemma PiecesTile(d: Descriptor, r: Reservation)
    requires Fits(d, r)
    ensures forall x :: Mapped(Pieces(d, r), x) <==> In(x, d)
    ensures EntriesDisjoint(Pieces(d, r))
  {
    var es := Pieces(d, r);
    forall x | In(x, d) ensures Mapped(es, x) {
      assert InEntry(x, es[0]) || (|es| > 1 && InEntry(x, es[1])) || (|es| > 2 && InEntry(x, es[2]));
    }
  }

  /** The usable entry of a usable descriptor is what the regions leave of it. */
  lemma PiecesUsable(d: Descriptor, r: Reservation, x: nat)
    requires Fits(d, r)
    requires !Contains(d, r.mapArea) && In(x, d) ==> !InBump(x, r.mapArea)
    requires !Contains(d, r.tables) && In(x, d) ==> !InBump(x, r.tables)
    ensures UsableAt(Pieces(d, r), x) <==> Usable(d) && In(x, d) && !InBump(x, r.mapArea) && !InBump(x, r.tables)
  {
    var es := Pieces(d, r);
    var last := es[|es| - 1];
    assert UsableAt(es, x) <==> last.usable && InEntry(x, last);
  }

  lemma MappedTogether(a: seq<Entry>, b: seq<Entry>, x: nat)
    ensures Mapped(a + b, x) <==> Mapped(a, x) || Mapped(b, x)
  {
    if i :| 0 <= i < |a| && InEntry(x, a[i]) { assert InEntry(x, (a + b)[i]); }
    if i :| 0 <= i < |b| && InEntry(x, b[i]) { assert InEntry(x, (a + b)[|a| + i]); }
  }

  lemma TogetherDisjoint(a: seq<Entry>, b: seq<Entry>)
    requires EntriesDisjoint(a) && EntriesDisjoint(b) && forall x :: Mapped(a, x) ==> !Mapped(b, x)
    ensures EntriesDisjoint(a + b)
  {
    var es := a + b;
    forall i, j, x | 0 <= i < j < |es| && InEntry(x, es[i]) ensures !InEntry(x, es[j]) {
      if i < |a| <= j { assert Mapped(a, x) && !Mapped(b, x); }
    }
  }

  /** The entries of the first n descriptors cover exactly them, once each. */
  lemma {:induction false} BuiltTiles(ds: seq<Descriptor>, r: Reservation, n: nat)
    requires Disjoint(ds) && n <= |ds| && forall m :: 0 <= m < |ds| ==> Fits(ds[m], r)
    ensures var es := BuildUpTo(ds, r, n);
      EntriesDisjoint(es) && forall x :: Mapped(es, x) <==> exists m :: 0 <= m < n && In(x, ds[m])
  {
    hide Fits, Pieces, InEntry;
    if n > 0 {
      var before, last := BuildUpTo(ds, r, n - 1), Pieces(ds[n - 1], r);
      BuiltTiles(ds, r, n - 1);
      PiecesTile(ds[n - 1], r);
      TogetherDisjoint(before, last);
      forall x ensures Mapped(before + last, x) <==> exists m :: 0 <= m < n && In(x, ds[m]) {
        MappedTogether(before, last, x);
      }
    }
  }

  lemma {:induction false} PiecesBuilt(ds: seq<Descriptor>, r: Reservation, n: nat, m: nat, e: Entry)
    requires m < n <= |ds| && e in Pieces(ds[m], r)
    ensures e in BuildUpTo(ds, r, n)
  {
    hide Pieces;
    if m < n - 1 {
      PiecesBuilt(ds, r, n - 1, m, e);
    } else {
      assert ds[m] == ds[n - 1];
    }
  }

  lemma UsableTogether(a: seq<Entry>, b: seq<Entry>, x: nat)
    ensures UsableAt(a + b, x) <==> UsableAt(a, x) || UsableAt(b, x)
  {
    if i :| 0 <= i < |a| && a[i].usable && InEntry(x, a[i]) { assert InEntry(x, (a + b)[i]); }
    if i :| 0 <= i < |b| && b[i].usable && InEntry(x, b[i]) { assert InEntry(x, (a + b)[|a| + i]); }
  }

  lemma {:induction false} BuiltUsable(ds: seq<Descriptor>, r: Reservation, n: nat, x: nat)
    requires n <= |ds|
    ensures UsableAt(BuildUpTo(ds, r, n), x) <==> exists m :: 0 <= m < n && UsableAt(Pieces(ds[m], r), x)
  {
    hide Pieces, UsableAt;
    if n == 0 {
      NothingUsable(x);
    } else {
      BuiltUsable(ds, r, n - 1, x);
      UsableTogether(BuildUpTo(ds, r, n - 1), Pieces(ds[n - 1], r), x);
    }
  }

  lemma NothingUsable(x: nat)
    ensures !UsableAt([], x)
  {
  }

  // ---------------------------------------------------------------------------------- main result

  /** Only the descriptor a region was cut from contains it, and all others stay clear of it. */
  lemma OnlyHolder(ds: seq<Descriptor>, b: Bump, from: nat, m: nat)
    requires Disjoint(ds) && from < |ds| && m < |ds| && Contains(ds[from], b) && b.start < b.end
    ensures Contains(ds[m], b) <==> m == from
    ensures m != from ==> forall x :: In(x, ds[m]) ==> !InBump(x, b)
  {
    forall x | InBump(x, b) ensures In(x, ds[from]) { }
    if m != from {
      assert In(b.start, ds[from]) && InBump(b.start, b);
      assert m < from || from < m;
    }
  }

  lemma HoldersFit(ds: seq<Descriptor>, m: nat)
    requires Disjoint(ds) && Reserved(Reserve(ds)) && m < |ds| && !ZeroSplit(ds, Reserve(ds).tablesFrom)
    ensures var r := Reserve(ds);
      && Fits(ds[m], r)
      && (forall x :: UsableAt(Pieces(ds[m], r), x) <==>
                      Usable(ds[m]) && In(x, ds[m]) && !InBump(x, r.mapArea) && !InBump(x, r.tables))
      && (m == r.mapFrom ==> Entry(r.mapArea.start, MAP_PAGES, false) in Pieces(ds[m], r))
      && (m == r.tablesFrom ==> Entry(r.tables.start, TABLES_PAGES, false) in Pieces(ds[m], r))
      && r.mapFrom < |ds| && r.tablesFrom < |ds|
  {
    hide Disjoint, Reserve, UsableAt;
    var r := Reserve(ds);
    RegionsAt(ds);
    OnlyHolder(ds, r.mapArea, r.mapFrom, m);
    OnlyHolder(ds, r.tables, r.tablesFrom, m);
    forall x ensures UsableAt(Pieces(ds[m], r), x) <==>
                     Usable(ds[m]) && In(x, ds[m]) && !InBump(x, r.mapArea) && !InBump(x, r.tables) {
      PiecesUsable(ds[m], r, x);
    }
  }

  lemma RegionsAt(ds: seq<Descriptor>)
    requires Disjoint(ds) && Reserved(Reserve(ds))
    ensures MapAt(ds, |ds|, Reserve(ds)) && TablesAt(ds, |ds|, Reserve(ds))
  {
    ReservedAt(ds, |ds|);
  }

  /** If both regions could be reserved, the map is right exactly when no zero split stands in the way:
      in particular whenever no usable descriptor starts at address 0. */
  lemma RightExactly(ds: seq<Descriptor>)
    requires Disjoint(ds) && Reserved(Reserve(ds))
    ensures Right(ds, Reserve(ds), Build(ds, Reserve(ds))) <==> forall f :: !ZeroSplit(ds, f)
  {
    hide ZeroSplit, Disjoint, Pieces, Reserve;
    if f: nat :| ZeroSplit(ds, f) {
      ZeroSplitIsWrong(ds, f);
    } else {
      NoSplitIsRight(ds);
    }
  }

  lemma NoSplitIsRight(ds: seq<Descriptor>)
    requires Disjoint(ds) && Reserved(Reserve(ds)) && !ZeroSplit(ds, Reserve(ds).tablesFrom)
    ensures Right(ds, Reserve(ds), Build(ds, Reserve(ds)))
  {
    hide ZeroSplit, Disjoint, Pieces, Reserve, Reserved, UsableAt, EntriesDisjoint, Fits;
    var r := Reserve(ds);
    forall m | 0 <= m < |ds|
      ensures Fits(ds[m], r)
      ensures forall x :: UsableAt(Pieces(ds[m], r), x) <==>
                          Usable(ds[m]) && In(x, ds[m]) && !InBump(x, r.mapArea) && !InBump(x, r.tables)
    {
      HoldersFit(ds, m);
    }
    BuiltTiles(ds, r, |ds|);
    forall x
      ensures UsableAt(Build(ds, r), x) <==> GivenUsable(ds, x) && !InBump(x, r.mapArea) && !InBump(x, r.tables)
    {
      BuiltUsable(ds, r, |ds|, x);
    }
    RegionsAt(ds);
    RegionsMapped(ds);
  }

  lemma RegionsMapped(ds: seq<Descriptor>)
    requires Disjoint(ds) && Reserved(Reserve(ds)) && !ZeroSplit(ds, Reserve(ds).tablesFrom)
    ensures var r := Reserve(ds);
      && Entry(r.mapArea.start, MAP_PAGES, false) in Build(ds, r)
      && Entry(r.tables.start, TABLES_PAGES, false) in Build(ds, r)
  {
    hide ZeroSplit, Disjoint, Pieces, Reserve;
    var r := Reserve(ds);
    RegionsAt(ds);
    HoldersFit(ds, r.mapFrom);
    HoldersFit(ds, r.tablesFrom);
    PiecesBuilt(ds, r, |ds|, r.mapFrom, Entry(r.mapArea.start, MAP_PAGES, false));
    PiecesBuilt(ds, r, |ds|, r.tablesFrom, Entry(r.tables.start, TABLES_PAGES, false));
  }

  /** A zero split hands out the last MiB of the page table region as usable. */
  lemma ZeroSplitIsWrong(ds: seq<Descriptor>, f: nat)
    requires Disjoint(ds) && Reserved(Reserve(ds)) && ZeroSplit(ds, f)
    ensures UsableAt(Build(ds, Reserve(ds)), TABLES_SIZE) && InBump(TABLES_SIZE, Reserve(ds).tables)
  {
    var r := Reserve(ds);
    SplitStays(ds, f, |ds|);
    RegionsAt(ds);
    OnlyHolder(ds, r.mapArea, r.mapFrom, f);
    var e := Entry(TABLES_SIZE, ds[f].pages - TABLES_PAGES, true);
    assert e in Pieces(ds[f], r);
    PiecesBuilt(ds, r, |ds|, f, e);
    assert InEntry(TABLES_SIZE, e);
  }

  // ------------------------------------------------------------------------------------- in place

  /** Once both regions are reserved, later passes change nothing, so the loop may stop. */
  lemma {:induction false} ReservedStays(ds: seq<Descriptor>, n: nat, m: nat)
    requires n <= m <= |ds| && Reserved(ReserveUpTo(ds, n))
    ensures ReserveUpTo(ds, m) == ReserveUpTo(ds, n)
  {
    if n < m { ReservedStays(ds, n, m - 1); }
  }

  lemma EnoughPages(ds: seq<Descriptor>, m: nat)
    requires Disjoint(ds) && Reserved(Reserve(ds)) && m < |ds|
    ensures var d, r := ds[m], Reserve(ds);
      d.pages >= (if Contains(d, r.mapArea) then MAP_PAGES else 0) + if Contains(d, r.tables) then TABLES_PAGES else 0
  {
    hide Disjoint, Reserve;
    var r := Reserve(ds);
    RegionsAt(ds);
    OnlyHolder(ds, r.mapArea, r.mapFrom, m);
    OnlyHolder(ds, r.tables, r.tablesFrom, m);
  }

  lemma PiecesCount(ds: seq<Descriptor>, m: nat)
    requires Disjoint(ds) && Reserved(Reserve(ds)) && m < |ds|
    ensures var r := Reserve(ds);
      |Pieces(ds[m], r)| == 1 + (if m == r.mapFrom then 1 else 0) + if m == r.tablesFrom then 1 else 0
    ensures Reserve(ds).mapFrom < |ds| && Reserve(ds).tablesFrom < |ds|
  {
    hide Disjoint, Reserve;
    var r := Reserve(ds);
    RegionsAt(ds);
    OnlyHolder(ds, r.mapArea, r.mapFrom, m);
    OnlyHolder(ds, r.tables, r.tablesFrom, m);
  }

  lemma {:induction false} EntriesUpTo(ds: seq<Descriptor>, n: nat)
    requires Disjoint(ds) && Reserved(Reserve(ds)) && n <= |ds|
    ensures var r := Reserve(ds);
      |BuildUpTo(ds, r, n)| == n + (if r.mapFrom < n then 1 else 0) + if r.tablesFrom < n then 1 else 0
  {
    hide Disjoint, Reserve, Pieces, Reserved;
    if n > 0 {
      EntriesUpTo(ds, n - 1);
      PiecesCount(ds, n - 1);
    }
  }

  /** The map has an entry for each descriptor and one more for each region. */
  lemma EntriesInAll(ds: seq<Descriptor>)
    requires Disjoint(ds) && Reserved(Reserve(ds))
    ensures |Build(ds, Reserve(ds))| == |ds| + 2
  {
    hide Disjoint, Reserve, Reserved;
    RegionsAt(ds);
    EntriesUpTo(ds, |ds|);
    RegionsInside(ds);
  }

  lemma RegionsInside(ds: seq<Descriptor>)
    requires Disjoint(ds) && Reserved(Reserve(ds))
    ensures Reserve(ds).mapFrom < |ds| && Reserve(ds).tablesFrom < |ds|
  {
    hide Disjoint, Reserve;
    RegionsAt(ds);
  }

  class KernelMemoryMap {
    var mapAllocator: Bump
    var mapDescriptor: nat
    var tableAllocator: Bump
    var tableDescriptor: nat
    /** The entries in the map's region, 24 bytes each. */
    var entries: seq<Entry>

    ghost function View(): Reservation
      reads this
    {
      Reservation(mapAllocator, mapDescriptor, tableAllocator, tableDescriptor)
    }

    /** The map's allocator has handed out room for exactly the entries. */
    ghost predicate Filled(start: nat)
      reads this
    {
      && mapAllocator.start == start && mapAllocator.end == start + MAP_SIZE
      && mapAllocator.taken == |entries| * ENTRY_SIZE && mapAllocator.taken + mapAllocator.remaining == MAP_SIZE
    }

    constructor ()
      ensures entries == []
    {
      mapAllocator, mapDescriptor, tableAllocator, tableDescriptor := NoBump(), 0, NoBump(), 0;
      entries := [];
    }

    /** mmap_reserve_memory. */
    method ReserveMemory(ds: seq<Descriptor>) returns (ok: bool)
      modifies this
      ensures View() == Reserve(ds) && (ok <==> Reserved(Reserve(ds))) && entries == old(entries)
      ensures ok <==> Reservable(ds)
    {
      hide Reservable;
      ReservesExactly(ds);
      mapAllocator, mapDescriptor, tableAllocator, tableDescriptor := NoBump(), 0, NoBump(), 0;
      for n := 0 to |ds|
        invariant View() == ReserveUpTo(ds, n) && entries == old(entries)
      {
        var d := ds[n];
        if !Usable(d) { continue; }
        var start, size := d.start, d.pages * PAGE_SIZE;
        var hasTables, hasMap := !Invalid(tableAllocator), !Invalid(mapAllocator);
        if !hasMap && size >= MAP_SIZE {
          mapAllocator := BumpOver(start, MAP_SIZE);
          start, size := start + MAP_SIZE, size - MAP_SIZE;
          mapDescriptor := n;
        }
        if !hasTables && size >= TABLES_SIZE {
          tableAllocator := BumpOver(start, TABLES_SIZE);
          start, size := start + TABLES_SIZE, size - TABLES_SIZE;
          tableDescriptor := n;
        }
        if hasTables && hasMap {
          ReservedStays(ds, n, |ds|);
          break;
        }
      }
      return !Invalid(tableAllocator) && !Invalid(mapAllocator);
    }

    /** mmap_new_memory_map_entry: fails when the map's region has no room for another entry. */
    method NewEntry(start: nat, pages: nat, usable: bool, ghost first: nat) returns (ok: bool)
      requires Filled(first)
      modifies this`mapAllocator, this`entries
      ensures Filled(first) && (ok <==> (|old(entries)| + 1) * ENTRY_SIZE <= MAP_SIZE)
      ensures entries == if ok then old(entries) + [Entry(start, pages, usable)] else old(entries)
    {
      if mapAllocator.remaining < ENTRY_SIZE { return false; }
      mapAllocator := mapAllocator.(taken := mapAllocator.taken + ENTRY_SIZE,
                                    remaining := mapAllocator.remaining - ENTRY_SIZE);
      entries := entries + [Entry(start, pages, usable)];
      return true;
    }

    /** The entries of one descriptor. */
    method AddPieces(d: Descriptor, ghost r: Reservation) returns (ok: bool)
      requires Filled(r.mapArea.start) && r.mapArea.end == mapAllocator.end && tableAllocator == r.tables
      requires d.pages >= (if Contains(d, r.mapArea) then MAP_PAGES else 0)
                          + if Contains(d, r.tables) then TABLES_PAGES else 0
      modifies this`mapAllocator, this`entries
      ensures Filled(r.mapArea.start) && (ok <==> (|old(entries)| + |Pieces(d, r)|) * ENTRY_SIZE <= MAP_SIZE)
      ensures ok ==> entries == old(entries) + Pieces(d, r)
    {
      var start, pages := d.start, d.pages;
      if !Usable(d) {
        ok := NewEntry(start, pages, false, r.mapArea.start);
        return;
      }
      var hasMap, hasTables := Contains(d, mapAllocator), Contains(d, tableAllocator);
      if hasMap {
        ok := NewEntry(mapAllocator.start, MAP_SIZE / PAGE_SIZE, false, r.mapArea.start);
        if !ok { return; }
        start, pages := start + MAP_SIZE, pages - MAP_SIZE / PAGE_SIZE;
      }
      if hasTables {
        ok := NewEntry(tableAllocator.start, TABLES_SIZE / PAGE_SIZE, false, r.mapArea.start);
        if !ok { return; }
        start, pages := start + TABLES_SIZE, pages - TABLES_SIZE / PAGE_SIZE;
      }
      ok := NewEntry(start, pages, true, r.mapArea.start);
    }

    /** mmap_reserve_memory and then mmap_build_memory_map. It succeeds exactly if both regions can be
        reserved and the map's has room for an entry for each descriptor and one for each region. */
    method MakeMap(ds: seq<Descriptor>) returns (ok: bool)
      requires Disjoint(ds) && entries == []
      modifies this
      ensures ok <==> Reservable(ds) && (|ds| + 2) * ENTRY_SIZE <= MAP_SIZE
      ensures ok ==> entries == Build(ds, Reserve(ds))
      ensures ok ==> (Right(ds, Reserve(ds), entries) <==> forall f :: !ZeroSplit(ds, f))
    {
      hide Disjoint, Pieces, Right, ZeroSplit, Reservable;
      ok := ReserveMemory(ds);
      if !ok { return; }
      ghost var r := Reserve(ds);
      EntriesInAll(ds);
      RegionsAt(ds);
      for n := 0 to |ds|
        invariant Filled(r.mapArea.start) && r.mapArea.end == mapAllocator.end && tableAllocator == r.tables
        invariant entries == BuildUpTo(ds, r, n) && |entries| * ENTRY_SIZE <= MAP_SIZE
      {
        EnoughPages(ds, n);
        ok := AddPieces(ds[n], r);
        BuildGrows(ds, r, n + 1, |ds|);
        if !ok { return; }
      }
      ok := true;
      RightExactly(ds);
    }
  }

  lemma {:induction false} BuildGrows(ds: seq<Descriptor>, r: Reservation, n: nat, m: nat)
    requires n <= m <= |ds|
    ensures |BuildUpTo(ds, r, n)| <= |BuildUpTo(ds, r, m)|
  {
    if n < m { BuildGrows(ds, r, n, m - 1); }
  }
}
