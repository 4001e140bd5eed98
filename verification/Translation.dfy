/** Four-level translation tables (VMSAv8-64, 4 KiB granule, Arm ARM DDI 0487 section D8.3) on
    values: the words of the tables, the walk through them, and what a write to one entry changes. */
module Translation {
  import opened Bits
  import opened Sequences

  /** A table, named by its page frame number; tables are never at frame 0, which NULL stands for. */
  type Frame = nat

  /** One 64-bit word of one table. */
  datatype Cell = Cell(table: Frame, index: nat)

  /** Table memory; a word never written since its page was zeroed is 0. */
  type Cells = map<Cell, nat>

  function Read(c: Cells, t: Frame, i: nat): nat {
    if Cell(t, i) in c then c[Cell(t, i)] else 0
  }

  function Zeroed(c: Cells, page: Frame): Cells {
    map k | k in c && k.table != page :: c[k]
  }

  type Level = n: nat | n < 4

  // ---------------------------------------------------------------- the fields of an address

  /** The bytes that one entry of a table at a level stands for. */
  function Span(level: Level): (r: nat)
    ensures r > 0
  {
    if level == 0 then 0x80_0000_0000 else if level == 1 then 0x4000_0000 else if level == 2 then 0x20_0000 else 0x1000
  }

  /** L0_INDEX .. L3_INDEX: nine bits of the address. */
  function Index(va: nat, level: Level): nat {
    if level == 0 then (va / 0x80_0000_0000) % 512
    else if level == 1 then (va / 0x4000_0000) % 512
    else if level == 2 then (va / 0x20_0000) % 512
    else (va / 0x1000) % 512
  }

  /** The bits below bit 48 that select the entry at a level, and with it everything above it. */
  function Selected(va: nat, level: Level): nat {
    if level == 0 then (va / 0x80_0000_0000) % 0x200
    else if level == 1 then (va / 0x4000_0000) % 0x4_0000
    else if level == 2 then (va / 0x20_0000) % 0x800_0000
    else (va / 0x1000) % 0x10_0000_0000
  }

  /** The bits that select the table at a level: none at the root. */
  function Above(va: nat, level: Level): nat {
    if level == 0 then 0 else Selected(va, level - 1)
  }

  lemma DivideTwice(x: nat, m: nat, n: nat)
    requires m > 0 && n > 0
    ensures m * n > 0 && x / (m * n) == (x / m) / n
  {
    var q, r := x / m, x % m;
    var q', r' := q / n, q % n;
    assert x == q * m + r && q == q' * n + r';
    assert x == q' * (m * n) + (r' * m + r) by { assert (q' * n + r') * m == q' * (m * n) + r' * m; }
    assert r' * m + r < m * n by { MulMonotone(r' + 1, n, m); }
    DivModUnique(x, m * n, q', r' * m + r);
  }

  lemma LowDigit(x: nat, m: nat)
    requires m > 0
    ensures x % (512 * m) == ((x / 512) % m) * 512 + x % 512
  {
    var y, r := x / 512, x % 512;
    var q, z := y / m, y % m;
    assert y == q * m + z;
    assert x == q * (512 * m) + (z * 512 + r);
    DivModUnique(x, 512 * m, q, z * 512 + r);
  }

  /** The selecting bits of an address are those of its table followed by its index. */
  lemma SelectedParts(va: nat, level: Level)
    ensures Selected(va, level) == Above(va, level) * 512 + Index(va, level)
    ensures Index(va, level) < 512
  {
    if level == 1 {
      DivideTwice(va, 0x4000_0000, 512);
      LowDigit(va / 0x4000_0000, 0x200);
    } else if level == 2 {
      DivideTwice(va, 0x20_0000, 512);
      LowDigit(va / 0x20_0000, 0x4_0000);
    } else if level == 3 {
      DivideTwice(va, 0x1000, 512);
      LowDigit(va / 0x1000, 0x800_0000);
    }
  }

  /** Two addresses select the same entry exactly when they select the same table and index in it. */
  lemma SelectedSplits(a: nat, b: nat, level: Level)
    ensures Selected(a, level) == Selected(b, level) <==>
            Above(a, level) == Above(b, level) && Index(a, level) == Index(b, level)
  {
    hide Selected, Index, Above;
    SelectedParts(a, level);
    SelectedParts(b, level);
  }

  // ------------------------------------------------------------------ the fields of an entry

  /** TBL_ENTRY_VALID, bit 0. */
  predicate IsValid(e: nat) { e % 2 == 1 }

  /** TBL_ENTRY_TABLE, bit 1; a valid entry above level 3 without it is a block. */
  predicate IsTable(e: nat) { (e / 2) % 2 == 1 }

  /** The page frame number in bits 12 to 47 (TBL_ENTRY_ADDR_MASK). */
  function Addr(e: nat): Frame { (e / 0x1000) % 0x10_0000_0000 }

  function EntryAt(c: Cells, t: Frame, level: Level, va: nat): nat {
    Read(c, t, Index(va, level))
  }

  /** The walk goes on through a valid entry above the last level that is not a block. */
  predicate Descends(e: nat, level: Level) {
    IsValid(e) && level < 3 && (level == 0 || IsTable(e))
  }

  datatype Leaf = Unmapped | Leaf(level: Level, word: nat)

  /** The leaf entry that the walk from a table reaches for an address. */
  function Walk(c: Cells, t: Frame, level: Level, va: nat): Leaf
    decreases 3 - level
  {
    var e := EntryAt(c, t, level, va);
    if Descends(e, level) then Walk(c, Addr(e), level + 1, va)
    else if IsValid(e) then Leaf(level, e)
    else Unmapped
  }

  /** The address in a leaf entry: bits 30 to 47 of a 1 GiB block, 21 to 47 of a 2 MiB block, 12 to 47
      of a page. */
  function LeafBase(e: nat, level: Level): nat {
    if level == 1 then (e / 0x4000_0000) % 0x4_0000 * 0x4000_0000
    else if level == 2 then (e / 0x20_0000) % 0x800_0000 * 0x20_0000
    else Addr(e) * 0x1000
  }

  /** The leaf entry an address space has for an address; it has none while it has no root. */
  function Lookup(c: Cells, root: Frame, va: nat): Leaf {
    if root == NULL then Unmapped else Walk(c, root, 0, va)
  }

  /** vmap_virtual_to_physical: the physical address, or None when it returns -1. */
  function Translate(c: Cells, root: Frame, va: nat): Option<nat> {
    match Lookup(c, root, va)
    case Unmapped => None
    case Leaf(level, e) => Some(LeafBase(e, level) + va % Span(level))
  }

  // ------------------------------------------------------------------------- the tree of tables

  /** Where a table hangs: in which address space, at which level, under which address bits. */
  datatype Place = Place(space: nat, level: Level, above: nat)

  type Owner = map<Frame, Place>

  ghost predicate LinkedAt(c: Cells, owner: Owner, t: Frame, va: nat)
    requires t in owner
  {
    var level := owner[t].level;
    var e := EntryAt(c, t, level, va);
    Above(va, level) == owner[t].above ==>
      && (level == 0 && IsValid(e) ==> IsTable(e))
      && (Descends(e, level) ==>
            Addr(e) in owner && owner[Addr(e)] == Place(owner[t].space, level + 1, Selected(va, level)))
  }

  /** Every table hangs in exactly one place and every table entry leads to the table of its place. */
  ghost predicate Tree(c: Cells, owner: Owner) {
    && NULL !in owner
    && (forall t, va :: t in owner ==> LinkedAt(c, owner, t, va))
  }

  ghost predicate IsRoot(owner: Owner, root: Frame, space: nat) {
    root in owner && owner[root] == Place(space, 0, 0)
  }

  ghost predicate InPlace(owner: Owner, t: Frame, level: Level, va: nat) {
    t in owner && owner[t].level == level && owner[t].above == Above(va, level)
  }

  // --------------------------------------------------------------------- adding an empty table

  function TableWord(page: Frame): nat {
    1 + 2 + page * 0x1000
  }

  /** A page from alloc_page: zeroed, in no tree, and within the 48-bit physical address space. */
  ghost predicate Fresh(owner: Owner, page: Frame) {
    page !in owner && page != NULL && Addressable(page)
  }

  predicate Addressable(page: Frame) {
    page < 0x10_0000_0000
  }

  function AddTable(c: Cells, t: Frame, level: Level, va: nat, page: Frame): Cells {
    Zeroed(c, page)[Cell(t, Index(va, level)) := TableWord(page)]
  }

  /** An entry that leads to a new table has the two type bits, the table's address, and no attribute that
      would restrict what is mapped below it. */
  lemma TableWordBits(page: Frame)
    requires Addressable(page)
    ensures IsValid(TableWord(page)) && IsTable(TableWord(page)) && Addr(TableWord(page)) == page
    ensures TableWord(page) - Addr(TableWord(page)) * 0x1000 == 3
  {
    TypeBits(3, 0, page);
    DivModUnique(TableWord(page), 0x1000, page, 3);
  }

  lemma ZeroIsInvalid()
    ensures !IsValid(0)
  {
  }

  lemma AddTableKeepsTree(c: Cells, owner: Owner, t: Frame, level: Level, va: nat, page: Frame)
    requires Tree(c, owner) && InPlace(owner, t, level, va) && level < 3 && Fresh(owner, page)
    requires !IsValid(EntryAt(c, t, level, va))
    ensures Tree(AddTable(c, t, level, va, page), owner[page := Place(owner[t].space, level + 1, Selected(va, level))])
  {
    hide Index, Selected, IsValid, IsTable, Addr, TableWord, Above;
    var c' := AddTable(c, t, level, va, page);
    var owner' := owner[page := Place(owner[t].space, level + 1, Selected(va, level))];
    TableWordBits(page);
    ZeroIsInvalid();
    forall u, a | u in owner' ensures LinkedAt(c', owner', u, a) {
      if u == page {
        assert EntryAt(c', u, level + 1, a) == 0;
      } else {
        assert LinkedAt(c, owner, u, a);
        SelectedSplits(a, va, level);
        assert Cell(u, Index(a, owner[u].level)) != Cell(t, Index(va, level)) ==>
          EntryAt(c', u, owner[u].level, a) == EntryAt(c, u, owner[u].level, a);
      }
    }
  }

  /** Hanging an empty table under an invalid entry changes no walk in any address space. */
  lemma {:induction false} AddTableKeepsWalk(c: Cells, owner: Owner, t: Frame, level: Level, va: nat, page: Frame,
                                              u: Frame, l: Level, a: nat)
    requires Tree(c, owner) && InPlace(owner, t, level, va) && level < 3 && Fresh(owner, page)
    requires !IsValid(EntryAt(c, t, level, va)) && InPlace(owner, u, l, a)
    ensures Walk(AddTable(c, t, level, va, page), u, l, a) == Walk(c, u, l, a)
    decreases 3 - l
  {
    hide Index, Selected, IsValid, IsTable, Addr, TableWord;
    ZeroIsInvalid();
    SelectedSplits(a, va, l);
    var c' := AddTable(c, t, level, va, page);
    var e := EntryAt(c, u, l, a);
    assert LinkedAt(c, owner, u, a);
    TableWordBits(page);
    if u == t && Index(a, l) == Index(va, l) {
      assert EntryAt(c', page, level + 1, a) == 0;
      assert Walk(c', page, level + 1, a) == Unmapped;
    } else {
      assert EntryAt(c', u, l, a) == e;
      if Descends(e, l) {
        AddTableKeepsWalk(c, owner, t, level, va, page, Addr(e), l + 1, a);
      }
    }
  }

  lemma SelectedAbove(a: nat, b: nat, level: Level, l: Level)
    requires Selected(a, level) == Selected(b, level) && l <= level
    ensures Selected(a, l) == Selected(b, l)
    decreases level - l
  {
    hide Selected, Index;
    SelectedSplits(a, b, level);
    if l < level { SelectedAbove(a, b, level - 1, l); }
  }

  /** The table that the walk for an address uses at a level, if it gets there. */
  function Descend(c: Cells, t: Frame, l: Level, va: nat, level: Level): Option<Frame>
    requires l <= level
    decreases level - l
  {
    if l == level then Some(t)
    else
      var e := EntryAt(c, t, l, va);
      if Descends(e, l) then Descend(c, Addr(e), l + 1, va, level) else None
  }

  lemma {:induction false} DescendInPlace(c: Cells, owner: Owner, u: Frame, l: Level, va: nat, level: Level)
    requires Tree(c, owner) && InPlace(owner, u, l, va) && l <= level
    ensures var t := Descend(c, u, l, va, level);
      t.Some? ==> InPlace(owner, t.value, level, va) && owner[t.value].space == owner[u].space
    decreases level - l
  {
    hide Index, Selected, IsValid, IsTable, Addr;
    if l < level {
      var e := EntryAt(c, u, l, va);
      assert LinkedAt(c, owner, u, va);
      if Descends(e, l) { DescendInPlace(c, owner, Addr(e), l + 1, va, level); }
    }
  }

  lemma RootInPlace(owner: Owner, root: Frame, space: nat, va: nat)
    requires IsRoot(owner, root, space)
    ensures InPlace(owner, root, 0, va)
  {
  }

  /** One step further down the same walk. */
  lemma {:induction false} DescendOnce(c: Cells, u: Frame, l: Level, va: nat, level: Level, t: Frame)
    requires l <= level < 3 && Descend(c, u, l, va, level) == Some(t) && Descends(EntryAt(c, t, level, va), level)
    ensures Descend(c, u, l, va, level + 1) == Some(Addr(EntryAt(c, t, level, va)))
    decreases level - l
  {
    hide Index, IsValid, IsTable, Addr;
    if l < level { DescendOnce(c, Addr(EntryAt(c, u, l, va)), l + 1, va, level, t); }
  }

  lemma {:induction false} AddTableKeepsDescend(c: Cells, owner: Owner, t: Frame, level: Level, va: nat, page: Frame,
                                                u: Frame, l: Level)
    requires Tree(c, owner) && InPlace(owner, u, l, va) && l <= level < 3 && Fresh(owner, page)
    requires Descend(c, u, l, va, level) == Some(t) && !IsValid(EntryAt(c, t, level, va))
    ensures Descend(AddTable(c, t, level, va, page), u, l, va, level) == Some(t)
    decreases level - l
  {
    hide Index, Selected, IsValid, IsTable, Addr, TableWord;
    if l < level {
      var e := EntryAt(c, u, l, va);
      assert LinkedAt(c, owner, u, va);
      DescendInPlace(c, owner, u, l, va, level);
      assert EntryAt(AddTable(c, t, level, va, page), u, l, va) == e;
      AddTableKeepsDescend(c, owner, t, level, va, page, Addr(e), l + 1);
    }
  }

  /** The walk from a table on the way is the rest of the walk. */
  lemma {:induction false} WalkVia(c: Cells, u: Frame, l: Level, va: nat, level: Level, t: Frame)
    requires l <= level && Descend(c, u, l, va, level) == Some(t)
    ensures Walk(c, u, l, va) == Walk(c, t, level, va)
    decreases level - l
  {
  }

  lemma {:induction false} LeafIsBelow(c: Cells, u: Frame, l: Level, va: nat)
    ensures Walk(c, u, l, va).Leaf? ==> l <= Walk(c, u, l, va).level
    decreases 3 - l
  {
  }

  // --------------------------------------------------------------------------- zeroing a page

  /** No word of a table of the given trees changes. */
  ghost predicate WordsKept(c: Cells, c': Cells, owner: Owner) {
    forall t, i :: t in owner ==> Read(c', t, i) == Read(c, t, i)
  }

  lemma ZeroKeepsWords(c: Cells, owner: Owner, page: Frame)
    requires page !in owner
    ensures WordsKept(c, Zeroed(c, page), owner)
  {
  }

  lemma KeptWordsKeepTree(c: Cells, c': Cells, owner: Owner)
    requires Tree(c, owner) && WordsKept(c, c', owner)
    ensures Tree(c', owner)
  {
    hide Index, Selected, IsValid, IsTable, Addr, Above;
    forall t, va | t in owner ensures LinkedAt(c', owner, t, va) {
      assert LinkedAt(c, owner, t, va);
      assert EntryAt(c', t, owner[t].level, va) == EntryAt(c, t, owner[t].level, va);
    }
  }

  lemma {:induction false} KeptWordsKeepWalk(c: Cells, c': Cells, owner: Owner, u: Frame, l: Level, a: nat)
    requires Tree(c, owner) && WordsKept(c, c', owner) && InPlace(owner, u, l, a)
    ensures Walk(c', u, l, a) == Walk(c, u, l, a)
    decreases 3 - l
  {
    hide Index, Selected, IsValid, IsTable, Addr;
    var e := EntryAt(c, u, l, a);
    assert LinkedAt(c, owner, u, a);
    assert EntryAt(c', u, l, a) == e;
    if Descends(e, l) { KeptWordsKeepWalk(c, c', owner, Addr(e), l + 1, a); }
  }

  // ---------------------------------------------------------------------- writing a leaf entry

  /** Flags that touch neither the address nor the two type bits. */
  predicate AttributesOnly(flags: nat) {
    flags % 4 == 0 && (flags / 0x1000) % 0x10_0000_0000 == 0
  }

  /** The flags with the access flag, bit 10, set. */
  function WithAccess(flags: nat): nat {
    if (flags / 0x400) % 2 == 1 then flags else flags + 0x400
  }

  /** The entry a map operation writes: a page at level 3, a block at levels 1 and 2. The fields do
      not overlap, so joining them bitwise is adding them. */
  function LeafWord(level: Level, pa: nat, flags: nat): nat {
    (if level == 3 then 3 else 1) + WithAccess(flags) + LeafBase(pa, level)
  }

  /** A field of a word is read back whatever stands below and above it. */
  lemma MiddleField(low: nat, field: nat, high: nat, size: nat, count: nat)
    requires low < size && field < count
    ensures ((low + field * size + high * (size * count)) / size) % count == field
  {
    var e := low + field * size + high * (size * count);
    assert e == (field + high * count) * size + low;
    DivModUnique(e, size, field + high * count, low);
    DivModUnique(field + high * count, count, high, field);
  }

  lemma FlagFields(flags: nat) returns (low: nat, high: nat)
    requires AttributesOnly(flags)
    ensures WithAccess(flags) == low + high * 0x1_0000_0000_0000 && low < 0x1000 && low % 4 == 0
    ensures high == flags / 0x1_0000_0000_0000 && (low == flags % 0x1000 || low == flags % 0x1000 + 0x400)
    ensures (low / 0x400) % 2 == 1
  {
    var q, f := flags / 0x1000, flags % 0x1000;
    high := q / 0x10_0000_0000;
    assert q == high * 0x10_0000_0000;
    assert flags == f + q * 0x1000;
    DivModUnique(flags, 0x400, f / 0x400 + 4 * q, f % 0x400);
    DivModUnique(f, 4, flags / 4 - 0x400 * q, 0);
    var d := f / 0x400;
    assert d < 4;
    DivModUnique(d + 4 * q, 2, d / 2 + 2 * q, d % 2);
    if d % 2 == 1 {
      low := f;
    } else {
      low := f + 0x400;
      DivModUnique(low, 4, f / 4 + 0x100, 0);
    }
  }

  lemma TypeBits(bits: nat, low: nat, rest: nat)
    requires bits < 4 && low % 4 == 0
    ensures (bits + low + rest * 0x1000) % 2 == bits % 2 && ((bits + low + rest * 0x1000) / 2) % 2 == bits / 2
    ensures (bits + low + rest * 0x1000) % 4 == bits
  {
    var k := low / 4 + rest * 0x400;
    var e := bits + low + rest * 0x1000;
    assert e == bits + 4 * k;
    DivModUnique(e, 4, k, bits);
    DivModUnique(e, 2, bits / 2 + 2 * k, bits % 2);
    DivModUnique(bits / 2 + 2 * k, 2, k, bits / 2);
  }

  lemma LeafWordBits(level: Level, pa: nat, flags: nat)
    requires AttributesOnly(flags) && level > 0
    ensures IsLeafWord(level, LeafWord(level, pa, flags))
    ensures LeafWord(level, pa, flags) % 4 == if level == 3 then 3 else 1
    ensures LeafBase(LeafWord(level, pa, flags), level) == LeafBase(pa, level)
  {
    var low, high := FlagFields(flags);
    if level == 1 {
      var b := (pa / 0x4000_0000) % 0x4_0000;
      MiddleField(1 + low, b, high, 0x4000_0000, 0x4_0000);
      TypeBits(1, low, b * 0x4_0000 + high * 0x10_0000_0000);
    } else if level == 2 {
      var b := (pa / 0x20_0000) % 0x800_0000;
      MiddleField(1 + low, b, high, 0x20_0000, 0x800_0000);
      TypeBits(1, low, b * 0x200 + high * 0x10_0000_0000);
    } else {
      MiddleField(3 + low, Addr(pa), high, 0x1000, 0x10_0000_0000);
      TypeBits(3, low, Addr(pa) + high * 0x10_0000_0000);
    }
  }

  /** The attribute bits of a leaf entry are those of the flags, with the access flag set. */
  lemma LeafAttributes(level: Level, pa: nat, flags: nat)
    requires AttributesOnly(flags) && level > 0
    ensures var word := LeafWord(level, pa, flags); var low := word % 0x1000 - word % 4;
      && word / 0x1_0000_0000_0000 == flags / 0x1_0000_0000_0000
      && (low == flags % 0x1000 || low == flags % 0x1000 + 0x400) && (low / 0x400) % 2 == 1
  {
    var low, high := FlagFields(flags);
    var bits, base := if level == 3 then 3 else 1, LeafBase(pa, level) / 0x1000;
    LeafBaseFits(pa, level);
    var word := LeafWord(level, pa, flags);
    assert word == (bits + low + base * 0x1000) + high * 0x1_0000_0000_0000;
    DivModUnique(word, 0x1_0000_0000_0000, high, bits + low + base * 0x1000);
    DivModUnique(word, 0x1000, base + high * 0x10_0000_0000, bits + low);
    DivModUnique(word, 4, word / 4, bits) by {
      DivModUnique(word, 4, low / 4 + base * 0x400 + high * 0x4000_0000_0000, bits);
    }
  }

  lemma LeafBaseFits(pa: nat, level: Level)
    requires level > 0
    ensures LeafBase(pa, level) == LeafBase(pa, level) / 0x1000 * 0x1000 < 0x1_0000_0000_0000
  {
    if level == 1 {
      var f := (pa / 0x4000_0000) % 0x4_0000;
      DivModUnique(f * 0x4000_0000, 0x1000, f * 0x4_0000, 0);
    } else if level == 2 {
      var f := (pa / 0x20_0000) % 0x800_0000;
      DivModUnique(f * 0x20_0000, 0x1000, f * 0x200, 0);
    } else {
      DivModUnique(Addr(pa) * 0x1000, 0x1000, Addr(pa), 0);
    }
  }

  /** A valid entry that ends a walk: a page has both type bits set, a block only the first. */
  predicate IsLeafWord(level: Level, word: nat) {
    IsValid(word) && level > 0 && (IsTable(word) <==> level == 3)
  }

  function PutLeaf(c: Cells, t: Frame, level: Level, va: nat, word: nat): Cells {
    c[Cell(t, Index(va, level)) := word]
  }

  lemma PutLeafKeepsTree(c: Cells, owner: Owner, t: Frame, level: Level, va: nat, word: nat)
    requires Tree(c, owner) && InPlace(owner, t, level, va) && IsLeafWord(level, word)
    ensures Tree(PutLeaf(c, t, level, va, word), owner)
  {
    hide Index, Selected, IsValid, IsTable, Addr, Above;
    var c' := PutLeaf(c, t, level, va, word);
    forall u, a | u in owner ensures LinkedAt(c', owner, u, a) {
      assert LinkedAt(c, owner, u, a);
      assert Cell(u, Index(a, owner[u].level)) != Cell(t, Index(va, level)) ==>
          EntryAt(c', u, owner[u].level, a) == EntryAt(c, u, owner[u].level, a);
    }
  }

  /** A leaf write changes no walk that does not select its entry. */
  lemma {:induction false} PutLeafElsewhere(c: Cells, owner: Owner, t: Frame, level: Level, va: nat, word: nat,
                                             u: Frame, l: Level, a: nat)
    requires Tree(c, owner) && InPlace(owner, t, level, va) && InPlace(owner, u, l, a)
    requires owner[u].space != owner[t].space || Selected(a, level) != Selected(va, level)
    ensures Walk(PutLeaf(c, t, level, va, word), u, l, a) == Walk(c, u, l, a)
    decreases 3 - l
  {
    hide Index, Selected, IsValid, IsTable, Addr;
    var e := EntryAt(c, u, l, a);
    assert LinkedAt(c, owner, u, a);
    SelectedSplits(a, va, level);
    assert Cell(u, Index(a, l)) != Cell(t, Index(va, level));
    assert EntryAt(PutLeaf(c, t, level, va, word), u, l, a) == e;
    if Descends(e, l) { PutLeafElsewhere(c, owner, t, level, va, word, Addr(e), l + 1, a); }
  }

  /** A leaf write decides every walk that selects its entry. */
  lemma {:induction false} PutLeafHere(c: Cells, owner: Owner, t: Frame, level: Level, va: nat, word: nat,
                                       u: Frame, l: Level, a: nat)
    requires Tree(c, owner) && InPlace(owner, u, l, va) && l <= level && IsLeafWord(level, word)
    requires Descend(c, u, l, va, level) == Some(t) && Selected(a, level) == Selected(va, level)
    ensures Walk(PutLeaf(c, t, level, va, word), u, l, a) == Leaf(level, word)
    decreases level - l
  {
    hide Selected, IsValid, IsTable, Addr, Index;
    var c' := PutLeaf(c, t, level, va, word);
    SelectedAbove(a, va, level, l);
    SelectedSplits(a, va, l);
    var e := EntryAt(c, u, l, va);
    if l < level {
      assert LinkedAt(c, owner, u, va);
      DescendInPlace(c, owner, u, l, va, level);
      assert EntryAt(c', u, l, a) == e;
      PutLeafHere(c, owner, t, level, va, word, Addr(e), l + 1, a);
    } else {
      assert EntryAt(c', u, l, a) == word;
    }
  }

  // ------------------------------------------------------------------- what address spaces see

  /** No leaf entry of any address space changes. */
  ghost predicate Unmoved(c: Cells, c': Cells, owner: Owner) {
    forall r, s, a :: IsRoot(owner, r, s) ==> Lookup(c', r, a) == Lookup(c, r, a)
  }

  /** No leaf entry of any other address space changes. */
  ghost predicate OthersUnmoved(c: Cells, c': Cells, owner: Owner, space: nat) {
    forall r, s, a :: IsRoot(owner, r, s) && s != space ==> Lookup(c', r, a) == Lookup(c, r, a)
  }

  /** A block entry above a level maps the address. */
  predicate BlockAbove(c: Cells, root: Frame, va: nat, level: Level) {
    var leaf := Lookup(c, root, va);
    leaf.Leaf? && leaf.level < level
  }

  /** Two addresses lie in the same page (level 3) or the same block (levels 1 and 2). */
  predicate Together(a: nat, b: nat, level: Level) {
    Selected(a, level) == Selected(b, level)
  }

  /** An address whose walk reaches a table at a level has no block above it; one whose walk stops
      at a valid entry above it has. */
  lemma ReachedOrBlocked(c: Cells, root: Frame, va: nat, k: Level, level: Level, t: Frame)
    requires root != NULL && k <= level && Descend(c, root, 0, va, k) == Some(t)
    ensures k == level ==> !BlockAbove(c, root, va, level)
    ensures k < level && IsValid(EntryAt(c, t, k, va)) && !Descends(EntryAt(c, t, k, va), k) ==>
              BlockAbove(c, root, va, level)
  {
    hide Index, IsValid, IsTable, Addr, Descend;
    WalkVia(c, root, 0, va, k, t);
    LeafIsBelow(c, t, k, va);
  }

  lemma {:induction false} DescendTogether(c: Cells, u: Frame, l: Level, va: nat, a: nat, level: Level)
    requires l <= level && Together(a, va, level)
    ensures Descend(c, u, l, a, level) == Descend(c, u, l, va, level)
    decreases level - l
  {
    hide Index, Selected, IsValid, IsTable, Addr;
    SelectedAbove(a, va, level, l);
    SelectedSplits(a, va, l);
    assert EntryAt(c, u, l, a) == EntryAt(c, u, l, va);
    if l < level {
      var e := EntryAt(c, u, l, va);
      if Descends(e, l) { DescendTogether(c, Addr(e), l + 1, va, a, level); }
    }
  }

  /** Where the walk for an address ends in an invalid entry, nothing in its block is mapped. */
  lemma NothingThere(c: Cells, root: Frame, va: nat, level: Level, t: Frame)
    requires root != NULL && Descend(c, root, 0, va, level) == Some(t) && !IsValid(EntryAt(c, t, level, va))
    ensures forall a :: Together(a, va, level) ==> Lookup(c, root, a) == Unmapped
  {
    hide Index, Selected, IsValid, IsTable, Addr, Descend;
    forall a | Together(a, va, level) ensures Lookup(c, root, a) == Unmapped {
      DescendTogether(c, root, 0, va, a, level);
      WalkVia(c, root, 0, a, level, t);
      SelectedSplits(a, va, level);
    }
  }

  /** What is written outside every table moves no translation. */
  lemma KeptWordsUnmoved(c: Cells, c': Cells, owner: Owner)
    requires Tree(c, owner) && WordsKept(c, c', owner)
    ensures Unmoved(c, c', owner)
  {
    hide LinkedAt, Walk, Tree, WordsKept, Selected;
    forall r, s, a | IsRoot(owner, r, s) ensures Lookup(c', r, a) == Lookup(c, r, a) {
      KeptWordsKeepWalk(c, c', owner, r, 0, a);
    }
  }

  lemma AddTableUnmoved(c: Cells, owner: Owner, t: Frame, level: Level, va: nat, page: Frame)
    requires Tree(c, owner) && InPlace(owner, t, level, va) && level < 3 && Fresh(owner, page)
    requires !IsValid(EntryAt(c, t, level, va))
    ensures Unmoved(c, AddTable(c, t, level, va, page), owner)
  {
    hide Index, Selected, IsValid, IsTable, Addr, LinkedAt, Walk, Tree, AddTable, Fresh, EntryAt;
    var c' := AddTable(c, t, level, va, page);
    forall r, s, a | IsRoot(owner, r, s) ensures Lookup(c', r, a) == Lookup(c, r, a) {
      AddTableKeepsWalk(c, owner, t, level, va, page, r, 0, a);
    }
  }

  /** Writing a leaf entry where the walk of an address ends sets that entry for its page or block
      and for nothing else, in this or any other address space. */
  lemma PutLeafEffect(c: Cells, owner: Owner, root: Frame, space: nat, t: Frame, level: Level, va: nat, word: nat)
    requires Tree(c, owner) && IsRoot(owner, root, space) && IsLeafWord(level, word)
    requires Descend(c, root, 0, va, level) == Some(t)
    ensures var c' := PutLeaf(c, t, level, va, word);
      && Tree(c', owner)
      && (forall a :: Lookup(c', root, a) == if Together(a, va, level) then Leaf(level, word) else Lookup(c, root, a))
      && OthersUnmoved(c, c', owner, space)
  {
    hide Index, Selected, IsValid, IsTable, Addr, LinkedAt, Walk, Tree, PutLeaf, EntryAt, Descend, IsLeafWord;
    var c' := PutLeaf(c, t, level, va, word);
    assert root != NULL by { TreeHasNoNull(c, owner); }
    DescendInPlace(c, owner, root, 0, va, level);
    PutLeafKeepsTree(c, owner, t, level, va, word);
    forall a ensures Lookup(c', root, a) == if Together(a, va, level) then Leaf(level, word) else Lookup(c, root, a) {
      if Together(a, va, level) {
        PutLeafHere(c, owner, t, level, va, word, root, 0, a);
      } else {
        PutLeafElsewhere(c, owner, t, level, va, word, root, 0, a);
      }
    }
    forall r, s, a | IsRoot(owner, r, s) && s != space ensures Lookup(c', r, a) == Lookup(c, r, a) {
      PutLeafElsewhere(c, owner, t, level, va, word, r, 0, a);
    }
  }

  lemma TreeHasNoNull(c: Cells, owner: Owner)
    requires Tree(c, owner)
    ensures NULL !in owner
  {
  }

  lemma UnmovedSelf(c: Cells, owner: Owner)
    ensures Unmoved(c, c, owner)
  {
  }

  lemma UnmovedTwice(c0: Cells, c1: Cells, c2: Cells, owner0: Owner, owner1: Owner)
    requires Unmoved(c0, c1, owner0) && Unmoved(c1, c2, owner1)
    requires Extends(owner0, owner1)
    ensures Unmoved(c0, c2, owner0)
  {
    hide Lookup;
    forall r, s, a | IsRoot(owner0, r, s) ensures Lookup(c2, r, a) == Lookup(c0, r, a) {
      assert IsRoot(owner1, r, s);
    }
  }

  lemma UnmovedThenOthers(c0: Cells, c1: Cells, c2: Cells, owner0: Owner, owner1: Owner, space: nat)
    requires Unmoved(c0, c1, owner0) && (c1 == c2 || OthersUnmoved(c1, c2, owner1, space))
    requires Extends(owner0, owner1)
    ensures OthersUnmoved(c0, c2, owner0, space)
  {
    hide Lookup;
    forall r, s, a | IsRoot(owner0, r, s) && s != space ensures Lookup(c2, r, a) == Lookup(c0, r, a) {
      assert IsRoot(owner1, r, s);
    }
  }

  ghost predicate Extends(owner: Owner, owner': Owner) {
    forall t :: t in owner ==> t in owner' && owner'[t] == owner[t]
  }

  /** No table became a root but, at most, the given one of its address space. */
  ghost predicate RootsKept(owner: Owner, owner': Owner, root: Frame, space: nat) {
    forall r, s :: IsRoot(owner', r, s) ==> IsRoot(owner, r, s) || (r == root && s == space)
  }

  lemma OthersTwice(c0: Cells, c1: Cells, c2: Cells, owner0: Owner, owner1: Owner, space: nat)
    requires OthersUnmoved(c0, c1, owner0, space) && OthersUnmoved(c1, c2, owner1, space) && Extends(owner0, owner1)
    ensures OthersUnmoved(c0, c2, owner0, space)
  {
    hide Lookup;
    forall r, s, a | IsRoot(owner0, r, s) && s != space ensures Lookup(c2, r, a) == Lookup(c0, r, a) {
      assert IsRoot(owner1, r, s);
    }
  }

  lemma StillSame(c: Cells, c': Cells, owner: Owner, root: Frame, space: nat)
    requires Unmoved(c, c', owner) && IsRoot(owner, root, space)
    ensures forall a :: Lookup(c', root, a) == Lookup(c, root, a)
  {
  }

  lemma StartOfDescent(c: Cells, root: Frame, va: nat)
    ensures Descend(c, root, 0, va, 0) == Some(root)
  {
  }

  lemma EntryIsRead(c: Cells, t: Frame, level: Level, va: nat)
    ensures EntryAt(c, t, level, va) == Read(c, t, Index(va, level))
  {
  }

  /** A zeroed page becomes the root of an address space that maps nothing. */
  lemma NewRoot(c: Cells, owner: Owner, page: Frame, space: nat)
    requires Tree(c, owner) && Fresh(owner, page)
    ensures Tree(Zeroed(c, page), owner[page := Place(space, 0, 0)])
    ensures forall a :: Lookup(Zeroed(c, page), page, a) == Unmapped && Translate(Zeroed(c, page), page, a) == None
  {
    hide Index, Selected, IsValid, IsTable, Addr, Above;
    ZeroIsInvalid();
    var c' := Zeroed(c, page);
    var owner' := owner[page := Place(space, 0, 0)];
    forall u, a | u in owner' ensures LinkedAt(c', owner', u, a) {
      if u == page {
        assert EntryAt(c', u, 0, a) == 0;
      } else {
        assert LinkedAt(c, owner, u, a);
        assert EntryAt(c', u, owner[u].level, a) == EntryAt(c, u, owner[u].level, a);
      }
    }
    forall a ensures Lookup(c', page, a) == Unmapped && Translate(c', page, a) == None {
      assert EntryAt(c', page, 0, a) == 0;
    }
  }

  /** What was mapped translates to the physical page or block with the offset kept. */
  lemma MappedTranslates(c: Cells, root: Frame, a: nat, level: Level, pa: nat, flags: nat)
    requires AttributesOnly(flags) && level > 0 && Lookup(c, root, a) == Leaf(level, LeafWord(level, pa, flags))
    ensures Translate(c, root, a) == Some(LeafBase(pa, level) + a % Span(level))
  {
    hide LeafWord, Lookup, AttributesOnly, LeafBase, Span, IsLeafWord;
    LeafWordBits(level, pa, flags);
  }

  /** A page's entry names its frame. */
  lemma MappedFrame(frame: Frame, flags: nat)
    requires Addressable(frame) && AttributesOnly(flags)
    ensures Addr(LeafWord(3, frame * 0x1000, flags)) == frame
  {
    hide LeafWord, AttributesOnly;
    LeafWordBits(3, frame * 0x1000, flags);
    assert LeafBase(frame * 0x1000, 3) == frame * 0x1000;
  }

  // ------------------------------------------------------------------------- ranges of addresses

  /** The 2^48 addresses that the walk can tell apart from one another. */
  function Window(va: nat): nat {
    va / 0x1_0000_0000_0000
  }

  lemma SelectedInWindow(va: nat, level: Level)
    ensures var count := 0x1_0000_0000_0000 / Span(level);
      va / Span(level) == Window(va) * count + Selected(va, level)
  {
    if level == 0 {
      DivideTwice(va, 0x80_0000_0000, 0x200);
    } else if level == 1 {
      DivideTwice(va, 0x4000_0000, 0x4_0000);
    } else if level == 2 {
      DivideTwice(va, 0x20_0000, 0x800_0000);
    } else {
      DivideTwice(va, 0x1000, 0x10_0000_0000);
    }
  }

  /** Within a window, the addresses together with an aligned one are the Span(level) from it on. */
  lemma TogetherIsInterval(a: nat, va: nat, level: Level)
    requires Window(a) == Window(va) && va % Span(level) == 0
    ensures Together(a, va, level) <==> va <= a < va + Span(level)
    ensures Together(a, va, level) ==> a - a % Span(level) == va
  {
    hide Selected, Window;
    SelectedInWindow(a, level);
    SelectedInWindow(va, level);
    var n := Span(level);
    assert Together(a, va, level) <==> a / n == va / n;
    if va <= a < va + n { DivModUnique(a, n, va / n, a - va); }
  }

  /** The leaf entry that mapping a range from start to physical memory from pStart gives an address. */
  function RangeLeaf(level: Level, start: nat, pStart: nat, flags: nat, a: nat): Leaf
    requires start <= a
  {
    Leaf(level, LeafWord(level, pStart + RoundDown(a - start, Span(level)), flags))
  }

  /** A map operation took root r in c to root r' in c': on success the entry of the page or block of
      an address is the given word, and nothing else changed. */
  ghost predicate Mapped(ok: bool, c: Cells, r: Frame, c': Cells, r': Frame, va: nat, level: Level, word: nat) {
    forall a: nat :: Lookup(c', r', a) == if ok && Together(a, va, level) then Leaf(level, word) else Lookup(c, r, a)
  }

  /** Of the addresses in start's window, exactly [start, stop) are mapped anew. */
  ghost predicate RangeMapped(c: Cells, r: Frame, c': Cells, r': Frame, level: Level, start: nat, stop: nat,
                              pStart: nat, flags: nat) {
    forall a: nat :: Window(a) == Window(start) ==>
      Lookup(c', r', a) == if start <= a < stop then RangeLeaf(level, start, pStart, flags, a) else Lookup(c, r, a)
  }

  /** A range that neither wraps nor leaves the 2^48 addresses of its start. */
  predicate InOneWindow(start: nat, end: nat) {
    end <= (Window(start) + 1) * 0x1_0000_0000_0000
  }

  lemma SameWindow(start: nat, end: nat, va: nat)
    requires InOneWindow(start, end) && start <= va < end
    ensures Window(va) == Window(start)
  {
  }

  /** A failed operation leaves a mapped range as it was. */
  lemma RangeFails(c: Cells, r: Frame, c1: Cells, r1: Frame, c2: Cells, r2: Frame,
                   level: Level, start: nat, va: nat, pStart: nat, flags: nat, word: nat)
    requires RangeMapped(c, r, c1, r1, level, start, va, pStart, flags)
    requires Mapped(false, c1, r1, c2, r2, va, level, word)
    ensures RangeMapped(c, r, c2, r2, level, start, va, pStart, flags)
  {
    hide Lookup, RangeLeaf, Window, Selected;
  }

  /** One more page or block at the end of a mapped range. */
  lemma RangeStep(c: Cells, r: Frame, c1: Cells, r1: Frame, c2: Cells, r2: Frame,
                  level: Level, start: nat, va: nat, pStart: nat, flags: nat)
    requires start <= va && start % Span(level) == 0 && va % Span(level) == 0 && Window(va) == Window(start)
    requires RangeMapped(c, r, c1, r1, level, start, va, pStart, flags)
    requires Mapped(true, c1, r1, c2, r2, va, level, LeafWord(level, pStart + (va - start), flags))
    ensures RangeMapped(c, r, c2, r2, level, start, va + Span(level), pStart, flags)
  {
    hide Lookup, LeafWord, Window, Selected;
    var n := Span(level);
    forall a: nat | Window(a) == Window(start)
      ensures Lookup(c2, r2, a) == if start <= a < va + n then RangeLeaf(level, start, pStart, flags, a)
                                   else Lookup(c, r, a)
    {
      TogetherIsInterval(a, va, level);
      if va <= a < va + n { OffsetInStep(start, va, a, n); }
    }
  }

  lemma OffsetInStep(start: nat, va: nat, a: nat, n: nat)
    requires n > 0 && start <= va <= a < va + n && start % n == 0 && va % n == 0
    ensures RoundDown(a - start, n) == va - start
  {
    hide Times;
    var i, k := va / n, start / n;
    QuotientRest(va, n);
    QuotientRest(start, n);
    TimesOrder(k, i, n);
    TimesSum(i - k, k, n);
    TimesRest(i - k, n, a - va);
  }

  /** Every mapped address of a range translates to the physical start plus its offset. */
  lemma RangeTranslates(c: Cells, root: Frame, level: Level, start: nat, pStart: nat, flags: nat, a: nat)
    requires AttributesOnly(flags) && level > 0 && start <= a
    requires start % Span(level) == 0 && pStart % Span(level) == 0 && pStart + (a - start) < 0x1_0000_0000_0000
    requires Lookup(c, root, a) == RangeLeaf(level, start, pStart, flags, a)
    ensures Translate(c, root, a) == Some(pStart + (a - start))
  {
    hide LeafWord, Lookup, AttributesOnly, LeafBase, Span, RoundDown;
    var n := Span(level);
    var pa := pStart + RoundDown(a - start, n);
    MappedTranslates(c, root, a, level, pa, flags);
    AlignedOffset(start, pStart, a, n);
    AlignedLeafBase(pa, level);
  }

  /** An offset into an aligned range, rounded down, is aligned, and what is cut off is the address's own
      remainder. */
  lemma AlignedOffset(start: nat, pStart: nat, a: nat, n: nat)
    requires n > 0 && start <= a && start % n == 0 && pStart % n == 0
    ensures (pStart + RoundDown(a - start, n)) % n == 0 && RoundDown(a - start, n) + a % n == a - start
  {
    hide Times;
    var x := a - start;
    var i, j, k, r := pStart / n, x / n, start / n, x % n;
    QuotientRest(pStart, n);
    QuotientRest(start, n);
    QuotientRest(x, n);
    TimesSum(i, j, n);
    TimesSum(k, j, n);
    TimesRest(i + j, n, 0);
    TimesRest(k + j, n, r);
  }

  lemma AlignedLeafBase(pa: nat, level: Level)
    requires level > 0 && pa % Span(level) == 0 && pa < 0x1_0000_0000_0000
    ensures LeafBase(pa, level) == pa
  {
  }

  lemma NothingMapped(c: Cells, r: Frame, level: Level, start: nat, pStart: nat, flags: nat, owner: Owner, space: nat)
    ensures RangeMapped(c, r, c, r, level, start, start, pStart, flags) && OthersUnmoved(c, c, owner, space)
  {
  }

  /** Beyond the part of a range already mapped, no block has appeared. */
  lemma StillBlockFree(c: Cells, r: Frame, c': Cells, r': Frame, level: Level, start: nat, va: nat, pStart: nat,
                       flags: nat)
    requires RangeMapped(c, r, c', r', level, start, va, pStart, flags) && Window(va) == Window(start)
    ensures BlockAbove(c', r', va, level) == BlockAbove(c, r, va, level)
  {
  }

  lemma NextMultiple(va: nat, n: nat)
    requires n > 0 && va % n == 0
    ensures (va + n) % n == 0
  {
    DivModUnique(va + n, n, va / n + 1, 0);
  }
}
