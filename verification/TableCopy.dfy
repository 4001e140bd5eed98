/** mmap.c: copying a tree of tables, and the kernel's own tables built from the loader's. */
module TableCopy {
  import opened Bits
  import opened BlockMapping
  import opened Mmu
  import opened PageMapping
  import opened Sequences
  import opened Translation
  import opened Vmap

  // ------------------------------------------------------------------------------ one entry

  /** Everything in a table entry but the address (entry & ~TBL_ENTRY_ADDR_MASK). */
  function Attributes(e: nat): (r: nat)
    ensures r + Addr(e) * 0x1000 == e
  {
    assert e >= Addr(e) * 0x1000 by { assert e / 0x1000 >= Addr(e); }
    e - Addr(e) * 0x1000
  }

  /** The entry of the copy: the attributes of the original, the address of the new table. */
  function Redirected(e: nat, table: Frame): nat {
    Attributes(e) + table * 0x1000
  }

  lemma RedirectedBits(e: nat, table: Frame)
    requires Addressable(table)
    ensures IsValid(Redirected(e, table)) == IsValid(e) && IsTable(Redirected(e, table)) == IsTable(e)
    ensures Addr(Redirected(e, table)) == table && Attributes(Redirected(e, table)) == Attributes(e)
  {
    hide Attributes;
    var low, q := e % 0x1000, e / 0x1000;
    var high := q / 0x10_0000_0000;
    assert q == high * 0x10_0000_0000 + Addr(e);
    assert e == q * 0x1000 + low;
    var e' := Redirected(e, table);
    assert e' == low + table * 0x1000 + high * (0x1000 * 0x10_0000_0000);
    MiddleField(low, table, high, 0x1000, 0x10_0000_0000);
    var bits, rest := low % 4, low - low % 4;
    DivModUnique(rest, 4, low / 4, 0);
    TypeBits(bits, rest, q);
    TypeBits(bits, rest, table + high * 0x10_0000_0000);
  }

  /** The attributes of the table entries on the way to an address. */
  function TableAttributes(c: Cells, t: Frame, level: Level, va: nat): seq<nat>
    decreases 3 - level
  {
    var e := EntryAt(c, t, level, va);
    if Descends(e, level) then [Attributes(e)] + TableAttributes(c, Addr(e), level + 1, va) else []
  }

  /** From table t in c and table t' in c', an address reaches the same leaf entry through table
      entries with the same attributes. */
  ghost predicate Agree(c: Cells, t: Frame, c': Cells, t': Frame, level: Level, va: nat) {
    && Walk(c', t', level, va) == Walk(c, t, level, va)
    && TableAttributes(c', t', level, va) == TableAttributes(c, t, level, va)
  }

  // ------------------------------------------------------------------------- what copying keeps

  lemma {:induction false} KeptWordsAgree(c: Cells, c': Cells, owner: Owner, t: Frame, level: Level, va: nat)
    requires Tree(c, owner) && WordsKept(c, c', owner) && InPlace(owner, t, level, va)
    ensures Agree(c, t, c', t, level, va)
    decreases 3 - level
  {
    hide Index, Selected, IsValid, IsTable, Addr, Attributes;
    var e := EntryAt(c, t, level, va);
    assert EntryAt(c', t, level, va) == e;
    assert LinkedAt(c, owner, t, va);
    if Descends(e, level) { KeptWordsAgree(c, c', owner, Addr(e), level + 1, va); }
  }

  /** Writing one entry changes no walk that does not select it. */
  lemma {:induction false} WriteElsewhere(c: Cells, owner: Owner, t: Frame, i: nat, word: nat, u: Frame, l: Level,
                                          a: nat)
    requires Tree(c, owner) && t in owner && InPlace(owner, u, l, a)
    requires owner[u].space != owner[t].space || l > owner[t].level ||
             Above(a, owner[t].level) != owner[t].above || Index(a, owner[t].level) != i
    ensures Agree(c, u, c[Cell(t, i) := word], u, l, a)
    decreases 3 - l
  {
    hide Index, Selected, IsValid, IsTable, Addr, Attributes;
    var e := EntryAt(c, u, l, a);
    assert LinkedAt(c, owner, u, a);
    assert EntryAt(c[Cell(t, i) := word], u, l, a) == e;
    if Descends(e, l) { WriteElsewhere(c, owner, t, i, word, Addr(e), l + 1, a); }
  }

  // ------------------------------------------------------------------------ copying one table

  /** How many tables a full tree has at a level. */
  function Tables(level: Level): nat {
    if level == 0 then 1 else if level == 1 then 0x200 else if level == 2 then 0x4_0000 else 0x800_0000
  }

  /** The first address under entry i of the table above. */
  function FirstAddress(level: Level, above: nat, i: nat): nat {
    (above * 512 + i) * Span(level)
  }

  lemma SelectedOfMultiple(level: Level, x: nat)
    requires x < 0x1_0000_0000_0000 / Span(level)
    ensures Selected(x * Span(level), level) == x
  {
    if level == 0 {
      DivModUnique(x * 0x80_0000_0000, 0x80_0000_0000, x, 0);
    } else if level == 1 {
      DivModUnique(x * 0x4000_0000, 0x4000_0000, x, 0);
    } else if level == 2 {
      DivModUnique(x * 0x20_0000, 0x20_0000, x, 0);
    } else {
      DivModUnique(x * 0x1000, 0x1000, x, 0);
    }
  }

  lemma FirstAddressParts(level: Level, above: nat, i: nat)
    requires above < Tables(level) && i < 512
    ensures Above(FirstAddress(level, above, i), level) == above && Index(FirstAddress(level, above, i), level) == i
    ensures Selected(FirstAddress(level, above, i), level) == above * 512 + i
    ensures level < 3 ==> above * 512 + i < Tables(level + 1)
  {
    hide Selected, Index, Above;
    var x := above * 512 + i;
    var a := FirstAddress(level, above, i);
    SelectedOfMultiple(level, x);
    SelectedParts(a, level);
    DivModUnique(x, 512, Above(a, level), Index(a, level));
    DivModUnique(x, 512, above, i);
  }

  /** The copy at t' of the table at t agrees with it on the first n entries. */
  ghost predicate CopiedTo(c: Cells, t: Frame, c': Cells, t': Frame, level: Level, above: nat, n: nat) {
    forall a: nat :: Above(a, level) == above && Index(a, level) < n ==> Agree(c, t, c', t', level, a)
  }

  ghost predicate AgreeUnder(c: Cells, t: Frame, c': Cells, t': Frame, level: Level, above: nat) {
    forall a: nat :: Above(a, level) == above ==> Agree(c, t, c', t', level, a)
  }

  ghost predicate ZeroFrom(c: Cells, t: Frame, n: nat) {
    forall i :: n <= i < 512 ==> Read(c, t, i) == 0
  }

  /** The word is what the copy holds for entry e of the source: the same leaf, or the same
      attributes with the address of a table that agrees with e's. */
  ghost predicate EntryCopied(c: Cells, e: nat, c': Cells, owner: Owner, p: Place, i: nat, word: nat) {
    if Descends(e, p.level) then
      && Addr(word) in owner && owner[Addr(word)] == Place(p.space, p.level + 1, p.above * 512 + i)
      && Descends(word, p.level) && IsTable(word) && Attributes(word) == Attributes(e)
      && AgreeUnder(c, Addr(e), c', Addr(word), p.level + 1, p.above * 512 + i)
    else if IsValid(e) then word == e
    else word == 0
  }

  /** A new table of zeros hung anywhere keeps the tree. */
  lemma NewTable(c: Cells, owner: Owner, page: Frame, p: Place)
    requires Tree(c, owner) && Fresh(owner, page)
    ensures Tree(Zeroed(c, page), owner[page := p]) && ZeroFrom(Zeroed(c, page), page, 0)
    ensures WordsKept(c, Zeroed(c, page), owner)
  {
    hide Index, Selected, IsValid, IsTable, Addr, Above;
    ZeroIsInvalid();
    var c', owner' := Zeroed(c, page), owner[page := p];
    forall u, a | u in owner' ensures LinkedAt(c', owner', u, a) {
      if u == page {
        assert EntryAt(c', u, p.level, a) == 0;
      } else {
        assert LinkedAt(c, owner, u, a);
        assert EntryAt(c', u, owner[u].level, a) == EntryAt(c, u, owner[u].level, a);
      }
    }
  }

  lemma WriteKeepsTree(c: Cells, owner: Owner, t: Frame, i: nat, word: nat)
    requires Tree(c, owner) && t in owner && i < 512
    requires owner[t].level == 0 && IsValid(word) ==> IsTable(word)
    requires Descends(word, owner[t].level) ==> Addr(word) in owner
    requires Descends(word, owner[t].level) ==>
      owner[Addr(word)] == Place(owner[t].space, owner[t].level + 1, owner[t].above * 512 + i)
    ensures Tree(c[Cell(t, i) := word], owner)
  {
    hide Index, Selected, IsValid, IsTable, Addr, Above;
    var c' := c[Cell(t, i) := word];
    forall u, a | u in owner ensures LinkedAt(c', owner, u, a) {
      assert LinkedAt(c, owner, u, a);
      SelectedParts(a, owner[u].level);
      assert Cell(u, Index(a, owner[u].level)) != Cell(t, i) ==>
        EntryAt(c', u, owner[u].level, a) == EntryAt(c, u, owner[u].level, a);
    }
  }

  /** Writing the copied entry extends the agreement by that entry. */
  lemma CopyEntry(c: Cells, t: Frame, c1: Cells, owner: Owner, t': Frame, p: Place, i: nat, word: nat)
    requires Tree(c1, owner) && t' in owner && owner[t'] == p && i < 512 && p.above < Tables(p.level)
    requires CopiedTo(c, t, c1, t', p.level, p.above, i) && EntryCopied(c, Read(c, t, i), c1, owner, p, i, word)
    requires p.level == 0 && IsValid(Read(c, t, i)) ==> IsTable(Read(c, t, i))
    ensures Tree(c1[Cell(t', i) := word], owner)
    ensures CopiedTo(c, t, c1[Cell(t', i) := word], t', p.level, p.above, i + 1)
  {
    hide Index, Selected, IsValid, IsTable, Addr, Above, Attributes;
    ZeroIsInvalid();
    var c2 := c1[Cell(t', i) := word];
    var level := p.level;
    WriteKeepsTree(c1, owner, t', i, word);
    forall a: nat | Above(a, level) == p.above && Index(a, level) < i + 1 ensures Agree(c, t, c2, t', level, a) {
      if Index(a, level) < i {
        AboveInPlace(owner, t', a);
        WriteElsewhere(c1, owner, t', i, word, t', level, a);
      } else {
        AgreeAtEntry(c, t, c1, owner, t', p, i, word, a);
      }
    }
  }

  lemma AboveInPlace(owner: Owner, t: Frame, a: nat)
    requires t in owner && Above(a, owner[t].level) == owner[t].above
    ensures InPlace(owner, t, owner[t].level, a)
  {
  }

  lemma AgreeAtEntry(c: Cells, t: Frame, c1: Cells, owner: Owner, t': Frame, p: Place, i: nat, word: nat, a: nat)
    requires Tree(c1, owner) && t' in owner && owner[t'] == p
    requires EntryCopied(c, Read(c, t, i), c1, owner, p, i, word)
    requires Above(a, p.level) == p.above && Index(a, p.level) == i
    ensures Agree(c, t, c1[Cell(t', i) := word], t', p.level, a)
  {
    hide Index, Selected, IsValid, IsTable, Addr, Attributes;
    ZeroIsInvalid();
    var c2 := c1[Cell(t', i) := word];
    var e := Read(c, t, i);
    SelectedParts(a, p.level);
    assert EntryAt(c, t, p.level, a) == e && EntryAt(c2, t', p.level, a) == word;
    if Descends(e, p.level) {
      AboveInPlace(owner, Addr(word), a);
      WriteElsewhere(c1, owner, t', i, word, Addr(word), p.level + 1, a);
    }
  }

  // ------------------------------------------------------------------------- copying the tree

  /** The pages that became tables came from the pool and hang in the copy's address space. */
  ghost predicate CopyGrown(owner: Owner, pool: seq<Frame>, owner': Owner, pool': seq<Frame>, space: nat) {
    && Extends(owner, owner')
    && (forall t :: t in owner' && t !in owner ==> t in pool && owner'[t].space == space)
    && (forall t :: t in pool' ==> t in pool)
  }

  lemma CopyGrownTwice(o0: Owner, p0: seq<Frame>, o1: Owner, p1: seq<Frame>, o2: Owner, p2: seq<Frame>, space: nat)
    requires CopyGrown(o0, p0, o1, p1, space) && CopyGrown(o1, p1, o2, p2, space)
    ensures CopyGrown(o0, p0, o2, p2, space)
  {
  }

  lemma KeptTwice(c0: Cells, c1: Cells, c2: Cells, owner0: Owner, owner1: Owner)
    requires WordsKept(c0, c1, owner0) && WordsKept(c1, c2, owner1) && Extends(owner0, owner1)
    ensures WordsKept(c0, c2, owner0)
  {
  }

  lemma WriteOutside(c: Cells, c1: Cells, owner: Owner, t: Frame, i: nat, word: nat)
    requires WordsKept(c, c1, owner) && t !in owner
    ensures WordsKept(c, c1[Cell(t, i) := word], owner)
  {
  }

  /** What earlier entries of the copy reach survives the copying of a later entry. */
  lemma CopyStaysCopied(c: Cells, t: Frame, c1: Cells, c2: Cells, owner: Owner, t': Frame, level: Level, above: nat,
                        n: nat)
    requires Tree(c1, owner) && WordsKept(c1, c2, owner) && t' in owner && owner[t'].level == level
    requires owner[t'].above == above
    requires CopiedTo(c, t, c1, t', level, above, n) && ZeroFrom(c1, t', n)
    ensures CopiedTo(c, t, c2, t', level, above, n) && ZeroFrom(c2, t', n)
  {
    hide Tree, Walk, TableAttributes, Index, Above;
    forall a: nat | Above(a, level) == above && Index(a, level) < n ensures Agree(c, t, c2, t', level, a) {
      AboveInPlace(owner, t', a);
      KeptWordsAgree(c1, c2, owner, t', level, a);
    }
  }

  /** The entry of a table that leads on leads to the table of its place. */
  lemma ChildOf(c: Cells, owner: Owner, t: Frame, i: nat)
    requires Tree(c, owner) && t in owner && i < 512 && owner[t].above < Tables(owner[t].level)
    ensures var e := Read(c, t, i); var p := owner[t];
      && (p.level == 0 && IsValid(e) ==> IsTable(e))
      && (Descends(e, p.level) ==> Addr(e) in owner && owner[Addr(e)] == Place(p.space, p.level + 1, p.above * 512 + i))
      && (Descends(e, p.level) ==> p.above * 512 + i < Tables(p.level + 1))
  {
    hide IsValid, IsTable, Addr, Index, Above, Selected;
    FirstAddressParts(owner[t].level, owner[t].above, i);
    assert LinkedAt(c, owner, t, FirstAddress(owner[t].level, owner[t].above, i));
  }

  /** A copied child table gives the copied entry. */
  lemma ChildCopied(c: Cells, c1: Cells, owner: Owner, e: nat, c2: Cells, owner2: Owner, p: Place, i: nat, child: Frame)
    requires Tree(c, owner) && WordsKept(c, c1, owner) && Descends(e, p.level) && IsTable(e) && Addressable(child)
    requires Addr(e) in owner && owner[Addr(e)].level == p.level + 1 && owner[Addr(e)].above == p.above * 512 + i
    requires child in owner2 && owner2[child] == Place(p.space, p.level + 1, p.above * 512 + i)
    requires AgreeUnder(c1, Addr(e), c2, child, p.level + 1, p.above * 512 + i)
    ensures EntryCopied(c, e, c2, owner2, p, i, Redirected(e, child))
  {
    hide Tree, WordsKept, IsValid, IsTable, Addr, Attributes, Redirected, Walk, TableAttributes, Above;
    RedirectedBits(e, child);
    var level: Level, above := p.level + 1, p.above * 512 + i;
    forall a: nat | Above(a, level) == above ensures Agree(c, Addr(e), c2, child, level, a) {
      AboveInPlace(owner, Addr(e), a);
      KeptWordsAgree(c, c1, owner, Addr(e), level, a);
    }
  }

  lemma LeafCopied(c: Cells, e: nat, c1: Cells, owner: Owner, p: Place, i: nat)
    requires !Descends(e, p.level)
    ensures EntryCopied(c, e, c1, owner, p, i, if IsValid(e) then e else 0)
  {
  }

  lemma AllCopied(c: Cells, t: Frame, c': Cells, t': Frame, level: Level, above: nat)
    requires CopiedTo(c, t, c', t', level, above, 512)
    ensures AgreeUnder(c, t, c', t', level, above)
  {
  }

  /** The number of tables in the tree under a table, itself included. */
  function TablesUnder(c: Cells, t: Frame, level: Level): nat
    decreases 3 - level, 513
  {
    1 + TablesIn(c, t, level, 512)
  }

  /** Those under the first n entries. */
  function TablesIn(c: Cells, t: Frame, level: Level, n: nat): nat
    decreases 3 - level, n
  {
    if n == 0 then 0
    else
      var e := Read(c, t, n - 1);
      TablesIn(c, t, level, n - 1) + if Descends(e, level) then TablesUnder(c, Addr(e), level + 1) else 0
  }

  lemma {:induction false} TablesGrow(c: Cells, t: Frame, level: Level, n: nat, m: nat)
    requires n <= m
    ensures TablesIn(c, t, level, n) <= TablesIn(c, t, level, m)
    decreases m
  {
    if n < m { TablesGrow(c, t, level, n, m - 1); }
  }

  lemma {:induction false} KeptTables(c: Cells, c': Cells, owner: Owner, t: Frame, level: Level, n: nat)
    requires Tree(c, owner) && WordsKept(c, c', owner) && n <= 512
    requires t in owner && owner[t].level == level && owner[t].above < Tables(level)
    ensures TablesIn(c', t, level, n) == TablesIn(c, t, level, n)
    decreases 3 - level, n
  {
    hide Tree, WordsKept, IsValid, IsTable, Addr, Tables;
    if n > 0 {
      var e := Read(c, t, n - 1);
      KeptTables(c, c', owner, t, level, n - 1);
      KeptWord(c, c', owner, t, n - 1);
      ChildOf(c, owner, t, n - 1);
      if Descends(e, level) { KeptTables(c, c', owner, Addr(e), level + 1, 512); }
    }
  }

  lemma KeptCount(c: Cells, c': Cells, owner: Owner, t: Frame, level: Level)
    requires Tree(c, owner) && WordsKept(c, c', owner)
    requires t in owner && owner[t].level == level && owner[t].above < Tables(level)
    ensures TablesUnder(c', t, level) == TablesUnder(c, t, level)
  {
    hide Tree, WordsKept, Tables;
    KeptTables(c, c', owner, t, level, 512);
  }

  /** Exactly the first n pages have been taken, and none of them was null. */
  ghost predicate Used(pool: seq<Frame>, pool': seq<Frame>, n: nat): (used: bool)
    ensures used ==> HasPages(pool, n)
  {
    HasPages(pool, n) && pool' == pool[n..]
  }

  /** Where so many pages have been taken, n more can be had if and only if all of them could. */
  lemma UsedTwice(pool: seq<Frame>, pool1: seq<Frame>, pool2: seq<Frame>, used: nat, n: nat)
    requires Used(pool, pool1, used)
    ensures HasPages(pool, used + n) <==> HasPages(pool1, n)
    ensures Used(pool1, pool2, n) ==> Used(pool, pool2, used + n)
  {
    if HasPages(pool1, n) {
      forall i | 0 <= i < used + n ensures pool[i] != NULL {
        if i < used { assert pool[i] == pool[..used][i]; } else { assert pool[i] == pool1[..n][i - used]; }
      }
    }
    if HasPages(pool, used + n) {
      forall i | 0 <= i < n ensures pool1[i] != NULL { assert pool1[i] == pool[..used + n][used + i]; }
    }
  }

  lemma FewerPages(pool: seq<Frame>, n: nat, m: nat)
    requires n <= m && HasPages(pool, m)
    ensures HasPages(pool, n)
  {
    forall i | 0 <= i < n ensures pool[i] != NULL { assert pool[i] == pool[..m][i]; }
  }

  lemma FirstPage(pool: seq<Frame>)
    ensures HasPages(pool, 1) <==> pool != [] && pool[0] != NULL
    ensures pool != [] && pool[0] != NULL ==> Used(pool, pool[1..], 1)
  {
    if pool != [] { assert pool[..1] == [pool[0]]; }
  }

  // ------------------------------------------------------------------------------ one copy, entry by entry

  /** The first i entries of table t have been copied to t', which hangs at place p; all else is as it
      was, but for pages that became tables of the copy. */
  ghost predicate Copying(c: Cells, owner: Owner, pool: seq<Frame>, t: Frame, t': Frame, p: Place,
                          c1: Cells, owner1: Owner, pool1: seq<Frame>, i: nat) {
    && WordsKept(c, c1, owner) && CopyGrown(owner, pool, owner1, pool1, p.space)
    && t' !in owner && t' in owner1 && owner1[t'] == p && t' in pool
    && CopiedTo(c, t, c1, t', p.level, p.above, i) && ZeroFrom(c1, t', i)
  }

  lemma CopyGrownPool(owner: Owner, pool: seq<Frame>, pool': seq<Frame>, space: nat)
    requires pool' == pool || (pool != [] && pool' == pool[1..])
    ensures CopyGrown(owner, pool, owner, pool', space)
  {
  }

  lemma CopyStarts(c: Cells, c1: Cells, owner: Owner, pool: seq<Frame>, t: Frame, t': Frame, p: Place)
    requires Tree(c, owner) && pool != [] && t' == pool[0] && Fresh(owner, t') && c1 == Zeroed(c, t')
    ensures Tree(c1, owner[t' := p]) && Copying(c, owner, pool, t, t', p, c1, owner[t' := p], pool[1..], 0)
  {
    hide Tree, WordsKept, CopiedTo, Tables;
    ZeroKeepsWords(c, owner, t');
    NewTable(c, owner, t', p);
    NothingCopied(c, t, c1, t', p.level, p.above);
  }

  /** What the copy is to read is still what the source holds, and where it leads. */
  lemma EntryKept(c: Cells, owner: Owner, pool: seq<Frame>, t: Frame, t': Frame, p: Place,
                  c1: Cells, owner1: Owner, pool1: seq<Frame>, i: nat)
    requires Tree(c, owner) && Copying(c, owner, pool, t, t', p, c1, owner1, pool1, i) && i < 512
    requires t in owner && owner[t].level == p.level && owner[t].above == p.above && p.above < Tables(p.level)
    ensures Read(c1, t, i) == Read(c, t, i) && WordsKept(c, c1, owner) && Extends(owner, owner1)
    ensures var e := Read(c, t, i);
      && (p.level == 0 && IsValid(e) ==> IsTable(e))
      && (Descends(e, p.level) <==> IsValid(e) && IsTable(e) && p.level < 3)
      && (Descends(e, p.level) ==>
            Addr(e) in owner && owner[Addr(e)] == Place(owner[t].space, p.level + 1, p.above * 512 + i))
      && (Descends(e, p.level) ==> p.above * 512 + i < Tables(p.level + 1))
  {
    hide Tree, WordsKept, CopiedTo, ZeroFrom, IsValid, IsTable, Addr, Tables;
    KeptWord(c, c1, owner, t, i);
    ChildOf(c, owner, t, i);
  }

  lemma CopySkips(c: Cells, owner: Owner, pool: seq<Frame>, t: Frame, t': Frame, p: Place,
                  c1: Cells, owner1: Owner, pool1: seq<Frame>, i: nat)
    requires Tree(c1, owner1) && Copying(c, owner, pool, t, t', p, c1, owner1, pool1, i) && i < 512
    requires !IsValid(Read(c, t, i)) && p.above < Tables(p.level)
    ensures Copying(c, owner, pool, t, t', p, c1, owner1, pool1, i + 1)
  {
    hide Tree, WordsKept, CopyGrown, CopiedTo, ZeroFrom, EntryCopied, IsValid, Tables;
    LeafCopied(c, Read(c, t, i), c1, owner1, p, i);
    CopyEntry(c, t, c1, owner1, t', p, i, 0);
    SkippedEntry(c, t, c1, t', p.level, p.above, i);
  }

  /** The copy of a child leaves what has been copied before. */
  lemma CopyStays(c: Cells, owner: Owner, pool: seq<Frame>, t: Frame, t': Frame, p: Place,
                  c1: Cells, owner1: Owner, pool1: seq<Frame>, c2: Cells, owner2: Owner, pool2: seq<Frame>, i: nat)
    requires Tree(c1, owner1) && Copying(c, owner, pool, t, t', p, c1, owner1, pool1, i)
    requires WordsKept(c1, c2, owner1) && CopyGrown(owner1, pool1, owner2, pool2, p.space)
    ensures Copying(c, owner, pool, t, t', p, c2, owner2, pool2, i)
    ensures WordsKept(c, c2, owner) && CopyGrown(owner, pool, owner2, pool2, p.space)
  {
    hide Tree, WordsKept, CopiedTo, ZeroFrom;
    KeptTwice(c, c1, c2, owner, owner1);
    CopyGrownTwice(owner, pool, owner1, pool1, owner2, pool2, p.space);
    CopyStaysCopied(c, t, c1, c2, owner1, t', p.level, p.above, i);
  }

  lemma CopyWrites(c: Cells, owner: Owner, pool: seq<Frame>, t: Frame, t': Frame, p: Place,
                   c1: Cells, owner1: Owner, pool1: seq<Frame>, i: nat, word: nat)
    requires Tree(c1, owner1) && Copying(c, owner, pool, t, t', p, c1, owner1, pool1, i) && i < 512
    requires EntryCopied(c, Read(c, t, i), c1, owner1, p, i, word) && p.above < Tables(p.level)
    requires p.level == 0 && IsValid(Read(c, t, i)) ==> IsTable(Read(c, t, i))
    ensures var c2 := c1[Cell(t', i) := word];
      Tree(c2, owner1) && Copying(c, owner, pool, t, t', p, c2, owner1, pool1, i + 1)
  {
    hide Tree, WordsKept, CopyGrown, CopiedTo, ZeroFrom, EntryCopied, IsValid, IsTable, Tables;
    CopyEntry(c, t, c1, owner1, t', p, i, word);
    WriteOutside(c, c1, owner, t', i, word);
    WriteLeavesZeros(c1, t', i, word);
  }

  lemma CopyDone(c: Cells, owner: Owner, pool: seq<Frame>, t: Frame, t': Frame, p: Place,
                 c1: Cells, owner1: Owner, pool1: seq<Frame>)
    requires Copying(c, owner, pool, t, t', p, c1, owner1, pool1, 512)
    ensures WordsKept(c, c1, owner) && CopyGrown(owner, pool, owner1, pool1, p.space)
    ensures AgreeUnder(c, t, c1, t', p.level, p.above)
    ensures t' in owner1 && t' !in owner && owner1[t'] == p
  {
    hide WordsKept, CopiedTo, CopyGrown, AgreeUnder;
    AllCopied(c, t, c1, t', p.level, p.above);
  }

  /** recursive_copy_table: a new tree in address space `space` that every address walks as it walks
      the source; no word of the source, or of any other tree, changes. */
  method RecursiveCopy(memory: PhysicalMemory, src: Frame, level: Level, ghost above: nat, ghost space: nat)
    returns (dst: Frame)
    requires memory.Valid() && src in memory.owner && memory.owner[src].level == level
    requires memory.owner[src].above == above
    requires above < Tables(level)
    modifies memory`cells, memory`pool, memory`owner
    ensures memory.Valid() && WordsKept(old(memory.cells), memory.cells, old(memory.owner))
    ensures CopyGrown(old(memory.owner), old(memory.pool), memory.owner, memory.pool, space)
    ensures dst != NULL ==> Addressable(dst) && dst in memory.owner && dst !in old(memory.owner)
    ensures dst != NULL ==> memory.owner[dst] == Place(space, level, above)
    ensures dst != NULL ==> AgreeUnder(old(memory.cells), src, memory.cells, dst, level, above)
    ensures dst != NULL <==> HasPages(old(memory.pool), TablesUnder(old(memory.cells), src, level))
    ensures dst != NULL ==> Used(old(memory.pool), memory.pool, TablesUnder(old(memory.cells), src, level))
    decreases 3 - level
  {
    hide HasPages, Used, TablesIn, TablesUnder, Descends, Copying, CopyGrown, Tree, WordsKept, AgreeUnder, EntryCopied,
         IsTable, IsValid, Addr, Tables, Redirected, Unmoved;
    ghost var c, owner, pool := memory.cells, memory.owner, memory.pool;
    ghost var p := Place(space, level, above);
    dst := memory.AllocPage();
    FirstPage(pool);
    CountFrom(c, src, level, pool, 0);
    CopyGrownPool(owner, pool, memory.pool, space);
    if dst == NULL { return; }
    CopyStarts(c, memory.cells, owner, pool, src, dst, p);
    memory.owner := owner[dst := p];
    for i := 0 to 512
      invariant memory.Valid() && Copying(c, owner, pool, src, dst, p, memory.cells, memory.owner, memory.pool, i)
      invariant Used(pool, memory.pool, 1 + TablesIn(c, src, level, i))
    {
      CountFrom(c, src, level, pool, i);
      ghost var c1, owner1, pool1 := memory.cells, memory.owner, memory.pool;
      var entry := Read(memory.cells, src, i);
      EntryKept(c, owner, pool, src, dst, p, c1, owner1, pool1, i);
      if !IsValid(entry) {
        CopySkips(c, owner, pool, src, dst, p, c1, owner1, pool1, i);
        continue;
      }
      var word := entry;
      if IsTable(entry) && level < 3 {
        var child := RecursiveCopy(memory, Addr(entry), level + 1, above * 512 + i, space);
        CopyStays(c, owner, pool, src, dst, p, c1, owner1, pool1, memory.cells, memory.owner, memory.pool, i);
        KeptCount(c, c1, owner, Addr(entry), level + 1);
        UsedTwice(pool, pool1, memory.pool, 1 + TablesIn(c, src, level, i), TablesUnder(c, Addr(entry), level + 1));
        if child == NULL { dst := NULL; return; }
        ChildCopied(c, c1, owner, entry, memory.cells, memory.owner, p, i, child);
        word := Redirected(entry, child);
      } else {
        LeafCopied(c, entry, c1, owner1, p, i);
      }
      CopyWrites(c, owner, pool, src, dst, p, memory.cells, memory.owner, memory.pool, i, word);
      memory.cells := memory.cells[Cell(dst, i) := word];
    }
    CopyDone(c, owner, pool, src, dst, p, memory.cells, memory.owner, memory.pool);
  }

  /** The count up to the next entry, within the count of all. */
  lemma CountFrom(c: Cells, t: Frame, level: Level, pool: seq<Frame>, i: nat)
    requires i < 512
    ensures TablesIn(c, t, level, 0) == 0 && TablesUnder(c, t, level) == 1 + TablesIn(c, t, level, 512)
    ensures var e := Read(c, t, i);
      TablesIn(c, t, level, i + 1) ==
        TablesIn(c, t, level, i) + if Descends(e, level) then TablesUnder(c, Addr(e), level + 1) else 0
    ensures HasPages(pool, TablesUnder(c, t, level)) ==>
              HasPages(pool, 1 + TablesIn(c, t, level, i + 1)) && HasPages(pool, 1 + TablesIn(c, t, level, i))
  {
    hide HasPages;
    TablesGrow(c, t, level, i, i + 1);
    TablesGrow(c, t, level, i + 1, 512);
    if HasPages(pool, TablesUnder(c, t, level)) {
      FewerPages(pool, 1 + TablesIn(c, t, level, i + 1), TablesUnder(c, t, level));
      FewerPages(pool, 1 + TablesIn(c, t, level, i), TablesUnder(c, t, level));
    }
  }

  lemma KeptWord(c: Cells, c': Cells, owner: Owner, t: Frame, i: nat)
    requires WordsKept(c, c', owner) && t in owner
    ensures Read(c', t, i) == Read(c, t, i)
  {
  }

  lemma NothingCopied(c: Cells, t: Frame, c': Cells, t': Frame, level: Level, above: nat)
    ensures CopiedTo(c, t, c', t', level, above, 0)
  {
  }

  lemma WriteLeavesZeros(c: Cells, t: Frame, i: nat, word: nat)
    requires ZeroFrom(c, t, i)
    ensures ZeroFrom(c[Cell(t, i) := word], t, i + 1)
  {
    var c' := c[Cell(t, i) := word];
    forall j | i + 1 <= j < 512 ensures Read(c', t, j) == 0 { assert Read(c, t, j) == 0; }
  }

  /** An invalid entry is not written: the copy's entry is zero already. */
  lemma SkippedEntry(c: Cells, t: Frame, c1: Cells, t': Frame, level: Level, above: nat, i: nat)
    requires i < 512 && ZeroFrom(c1, t', i)
    requires CopiedTo(c, t, c1[Cell(t', i) := 0], t', level, above, i + 1)
    ensures CopiedTo(c, t, c1, t', level, above, i + 1) && ZeroFrom(c1, t', i + 1)
  {
    hide Index, Above;
    forall a: nat | Above(a, level) == above && Index(a, level) < i + 1 ensures Agree(c, t, c1, t', level, a) {
      SameReadsAgree(c1, c1[Cell(t', i) := 0], t', level, a);
    }
  }

  lemma {:induction false} SameReadsAgree(c: Cells, c': Cells, t: Frame, level: Level, a: nat)
    requires forall u, i :: Read(c', u, i) == Read(c, u, i)
    ensures Agree(c, t, c', t, level, a)
    decreases 3 - level
  {
  }

  // ----------------------------------------------------------------------- the kernel's tables

  const MMAP_VIRTUAL_BASE: nat := 0xFFFF_5000_0000_0000
  const MMAP_PHYSICAL_REGION: nat := 0x4_0000_0000

  /** Where the first 16 GiB of physical memory appear. */
  predicate InKernelRegion(a: nat) {
    MMAP_VIRTUAL_BASE <= a < MMAP_VIRTUAL_BASE + MMAP_PHYSICAL_REGION
  }

  /** Every address has the same leaf entry, reached with the same attributes, under both roots. */
  ghost predicate SameTree(c: Cells, r: Frame, c': Cells, r': Frame) {
    forall a: nat ::
      Lookup(c', r', a) == Lookup(c, r, a) && TableAttributes(c', r', 0, a) == TableAttributes(c, r, 0, a)
  }

  lemma AgreeingRoots(c: Cells, r: Frame, c': Cells, r': Frame)
    requires AgreeUnder(c, r, c', r', 0, 0) && r != NULL && r' != NULL
    ensures SameTree(c, r, c', r')
  {
    hide Walk, TableAttributes;
    forall a: nat
      ensures Lookup(c', r', a) == Lookup(c, r, a) && TableAttributes(c', r', 0, a) == TableAttributes(c, r, 0, a)
    {
      assert Agree(c, r, c', r', 0, a);
    }
  }

  /** The flags of that region: for the kernel alone, never executable, normal inner sharable memory. */
  const REGION_FLAGS: nat := EL1_RW + NEVER_EXECUTE + NORMAL_MEMORY + INNER_SHARABLE + ACCESS

  lemma RegionFlags()
    ensures AttributesOnly(REGION_FLAGS) && WithAccess(REGION_FLAGS) == REGION_FLAGS && Accessed(REGION_FLAGS)
    ensures !UserAccess(REGION_FLAGS) && !ReadOnly(REGION_FLAGS)
    ensures !KernelExecutes(REGION_FLAGS) && !UserExecutes(REGION_FLAGS)
    ensures MemoryType(REGION_FLAGS) == 3 && Sharing(REGION_FLAGS) == 3
  {
  }

  /** mmap_build_ttbr1_table: copy the loader's tables, then map the first 16 GiB of physical memory
      at the kernel's virtual base. The loader's own address space is left as it was. */
  method BuildKernelTables(memory: PhysicalMemory, loaderRoot: Frame, ghost loader: nat, ghost space: nat)
    returns (ok: bool, kernel: Vmap)
    requires memory.Valid() && IsRoot(memory.owner, loaderRoot, loader) && loader != space
    modifies memory`cells, memory`pool, memory`owner
    ensures kernel.memory == memory && fresh(kernel)
    ensures ok ==> kernel.Valid()
    ensures ok ==> KernelMeans(old(memory.cells), loaderRoot, memory.cells, kernel.root)
    ensures ok ==>
              RangeFree(old(memory.cells), loaderRoot, 1, MMAP_VIRTUAL_BASE, MMAP_VIRTUAL_BASE + MMAP_PHYSICAL_REGION)
    ensures HasPages(old(memory.pool), TablesUnder(old(memory.cells), loaderRoot, 0) + 64) ==>
      (ok <==> RangeFree(old(memory.cells), loaderRoot, 1, MMAP_VIRTUAL_BASE, MMAP_VIRTUAL_BASE + MMAP_PHYSICAL_REGION))
    ensures forall a: nat :: Lookup(memory.cells, loaderRoot, a) == Lookup(old(memory.cells), loaderRoot, a)
  {
    hide Tree, Unmoved, OthersUnmoved, Lookup, AgreeUnder, LeafWord, AttributesOnly, WordsKept, RangeMapped, HasPages,
         RangeFree, TablesUnder, Steps, SameTree, RangeMeans, KernelMeans;
    ghost var c, owner, pool := memory.cells, memory.owner, memory.pool;
    ghost var end := MMAP_VIRTUAL_BASE + MMAP_PHYSICAL_REGION;
    kernel := new Vmap(memory, space);
    TreeHasNoNull(c, owner);
    RegionFlags();
    if HasPages(pool, TablesUnder(c, loaderRoot, 0) + 64) {
      FewerPages(pool, TablesUnder(c, loaderRoot, 0), TablesUnder(c, loaderRoot, 0) + 64);
    }
    var root := RecursiveCopy(memory, loaderRoot, 0, 0, space);
    ghost var c1, owner1 := memory.cells, memory.owner;
    KeptWordsUnmoved(c, c1, owner);
    StillSame(c, c1, owner, loaderRoot, loader);
    if root == NULL { return false, kernel; }
    AgreeingRoots(c, loaderRoot, c1, root);
    CopyMeans(c, owner, loaderRoot, loader, c1, owner1, root, space);
    UsedTwice(pool, memory.pool, memory.pool, TablesUnder(c, loaderRoot, 0), 64);
    SameRangeFree(c, loaderRoot, c1, root, 1, MMAP_VIRTUAL_BASE, end);
    kernel.root := root;
    ghost var stop: nat;
    KernelRegion();
    ok, stop := kernel.MapRange(1, MMAP_VIRTUAL_BASE, MMAP_VIRTUAL_BASE + MMAP_PHYSICAL_REGION, 0, REGION_FLAGS);
    OthersSame(c1, memory.cells, owner1, space, loaderRoot, loader);
    if ok { KernelRegionMeans(c, loaderRoot, c1, root, memory.cells, kernel.root, stop); }
  }

  /** In the kernel's half of the addresses the 16 GiB region leads to the first 16 GiB of physical memory
      with the region's flags, and everything else is as root r has it, for the processor and for the
      translation by software. */
  ghost predicate KernelMeans(c: Cells, r: Frame, c': Cells, r': Frame) {
    forall a: nat :: Window(a) == Window(MMAP_VIRTUAL_BASE) ==>
      if InKernelRegion(a) then
        && Hardware(c', r', a) == Access(a - MMAP_VIRTUAL_BASE, REGION_FLAGS)
        && Translate(c', r', a) == Some(a - MMAP_VIRTUAL_BASE)
      else Hardware(c', r', a) == Hardware(c, r, a) && Translate(c', r', a) == Translate(c, r, a)
  }

  /** A copy means the same to the processor. */
  lemma CopyMeans(c: Cells, owner: Owner, r: Frame, s: nat, c': Cells, owner': Owner, r': Frame, s': nat)
    requires Tree(c, owner) && IsRoot(owner, r, s) && Tree(c', owner') && IsRoot(owner', r', s')
    requires SameTree(c, r, c', r')
    ensures forall a: nat :: Hardware(c', r', a) == Hardware(c, r, a) && Translate(c', r', a) == Translate(c, r, a)
  {
    hide Tree, Lookup, TableAttributes, Hardware, AccessOf, LeafBase, Span;
    forall a: nat ensures Hardware(c', r', a) == Hardware(c, r, a) && Translate(c', r', a) == Translate(c, r, a) {
      HardwareSees(c, owner, r, s, a);
      HardwareSees(c', owner', r', s', a);
    }
  }

  lemma KernelRegion()
    ensures MMAP_VIRTUAL_BASE % Span(1) == 0
    ensures Steps(MMAP_VIRTUAL_BASE, MMAP_VIRTUAL_BASE + MMAP_PHYSICAL_REGION, 1) == 16
    ensures InOneWindow(MMAP_VIRTUAL_BASE, MMAP_VIRTUAL_BASE + MMAP_PHYSICAL_REGION)
  {
    StepsOf(MMAP_VIRTUAL_BASE, 16, 1);
  }

  /** The number of attributes collected on the way is the level at which the walk ends. */
  lemma {:induction false} AttributesTellEnd(c: Cells, t: Frame, level: Level, a: nat)
    ensures level + |TableAttributes(c, t, level, a)| == WalkEnd(c, t, level, a)
    decreases 3 - level
  {
    hide Index, IsValid, IsTable, Addr, Attributes;
    var e := EntryAt(c, t, level, a);
    if Descends(e, level) { AttributesTellEnd(c, Addr(e), level + 1, a); }
  }

  /** A copy has the same free places. */
  lemma SameRangeFree(c: Cells, r: Frame, c': Cells, r': Frame, level: Level, start: nat, end: nat)
    requires SameTree(c, r, c', r') && r != NULL && r' != NULL
    ensures RangeFree(c', r', level, start, end) <==> RangeFree(c, r, level, start, end)
  {
    hide Lookup, TableAttributes, WalkEnd, Span;
    forall a: nat ensures Free(c', r', a, level) <==> Free(c, r, a, level) {
      AttributesTellEnd(c, r, 0, a);
      AttributesTellEnd(c', r', 0, a);
    }
  }

  lemma OthersSame(c: Cells, c': Cells, owner: Owner, space: nat, r: Frame, s: nat)
    requires OthersUnmoved(c, c', owner, space) && IsRoot(owner, r, s) && s != space
    ensures forall a: nat :: Lookup(c', r, a) == Lookup(c, r, a)
  {
  }

  lemma KernelRegionMeans(c: Cells, r: Frame, c1: Cells, r1: Frame, c2: Cells, r2: Frame, stop: nat)
    requires forall a: nat :: Hardware(c1, r1, a) == Hardware(c, r, a) && Translate(c1, r1, a) == Translate(c, r, a)
    requires stop % Span(1) == 0
    requires MMAP_VIRTUAL_BASE + MMAP_PHYSICAL_REGION <= stop < MMAP_VIRTUAL_BASE + MMAP_PHYSICAL_REGION + Span(1)
    requires RangeMeans(c1, r1, c2, r2, 1, MMAP_VIRTUAL_BASE, stop, 0, REGION_FLAGS)
    ensures KernelMeans(c, r, c2, r2)
  {
    hide Hardware, Translate, WithAccess, RangeAccess, Granule;
    assert stop == MMAP_VIRTUAL_BASE + MMAP_PHYSICAL_REGION;
    RegionFlags();
    GranuleIsSpan(1);
    forall a: nat | InKernelRegion(a)
      ensures RangeAccess(1, MMAP_VIRTUAL_BASE, 0, REGION_FLAGS, a) == Access(a - MMAP_VIRTUAL_BASE, REGION_FLAGS)
    {
      AlignedRangeAccess(1, MMAP_VIRTUAL_BASE, 0, REGION_FLAGS, a);
    }
  }
}
