/** address_space.c: the pages that translation tables and mappings take from the page allocator.
    Successive single-page requests to the allocator are what the table code sees as its pool. */
module FrameSupply {
  import Buddy
  import PageMapping
  import T = Translation

  /** The frames that the next n single-page requests get; fewer when memory runs out. */
  function Supply(L: Buddy.Lists, n: nat): seq<nat>
    requires |L| == Buddy.MAX_ORDER + 1
    decreases n
  {
    if n == 0 then []
    else match Buddy.AllocBlock(L, 0)
      case None => []
      case Some(found) => [found.0] + Supply(found.1, n - 1)
  }

  /** Usable pages, none of them twice, and none in a block that a caller holds. */
  ghost predicate Unused(s: seq<nat>, live: set<Buddy.Block>, pages: set<nat>) {
    && (forall i :: 0 <= i < |s| ==> s[i] in pages && !Buddy.Covered(live, s[i]) && s[i] < Buddy.MAX_TOTAL_PAGES)
    && (forall i, j :: 0 <= i < j < |s| ==> s[i] != s[j])
  }

  lemma {:induction false} SupplyIsUnused(L: Buddy.Lists, live: set<Buddy.Block>, pages: set<nat>, n: nat)
    requires Buddy.Holds(L, live, pages) && |L| == Buddy.MAX_ORDER + 1
    ensures Unused(Supply(L, n), live, pages)
    decreases n
  {
    hide Buddy.Holds, Buddy.AllocBlock, Buddy.Covered, Unused, Buddy.Coalesced;
    if n > 0 && Buddy.AllocBlock(L, 0).Some? {
      var (p, M) := Buddy.AllocBlock(L, 0).value;
      Buddy.AllocKeeps(L, 0, live, pages);
      SupplyIsUnused(M, live + {Buddy.Block(0, p)}, pages, n - 1);
      HeldPage(M, live, pages, Buddy.Block(0, p));
      OneMoreUnused(p, Supply(M, n - 1), live, pages);
    } else {
      NoneUnused(live, pages);
    }
  }

  lemma NoneUnused(live: set<Buddy.Block>, pages: set<nat>)
    ensures Unused([], live, pages)
  {
  }

  lemma OneMoreUnused(p: nat, rest: seq<nat>, live: set<Buddy.Block>, pages: set<nat>)
    requires Unused(rest, live + {Buddy.Block(0, p)}, pages)
    requires p in pages && !Buddy.Covered(live, p) && p < Buddy.MAX_TOTAL_PAGES
    ensures Unused([p] + rest, live, pages)
  {
  }

  lemma HeldPage(M: Buddy.Lists, live: set<Buddy.Block>, pages: set<nat>, b: Buddy.Block)
    requires Buddy.Holds(M, live + {b}, pages) && b !in live
    ensures b.page in pages && !Buddy.Covered(live, b.page) && b.page < Buddy.MAX_TOTAL_PAGES
  {
  }

  /** The usable pages that no caller holds. */
  ghost function FreeOf(live: set<Buddy.Block>, pages: set<nat>): set<nat> {
    set x | x in pages && !Buddy.Covered(live, x)
  }

  /** Requests go on being granted until every free page has been handed out. */
  lemma {:induction false} SupplyIsAll(L: Buddy.Lists, live: set<Buddy.Block>, pages: set<nat>, n: nat)
    requires Buddy.Holds(L, live, pages) && |L| == Buddy.MAX_ORDER + 1
    ensures |Supply(L, n)| == if n <= |FreeOf(live, pages)| then n else |FreeOf(live, pages)|
    decreases n
  {
    hide Buddy.Holds, Buddy.AllocBlock, Buddy.Covered, FreeOf, Buddy.Coalesced;
    if n > 0 {
      if Buddy.AllocBlock(L, 0).Some? {
        var (p, M) := Buddy.AllocBlock(L, 0).value;
        Buddy.AllocKeeps(L, 0, live, pages);
        SupplyIsAll(M, live + {Buddy.Block(0, p)}, pages, n - 1);
        HeldPage(M, live, pages, Buddy.Block(0, p));
        OneLessFree(live, pages, p);
      } else {
        NoneFree(L, live, pages);
      }
    }
  }

  lemma OneLessFree(live: set<Buddy.Block>, pages: set<nat>, p: nat)
    requires p in pages && !Buddy.Covered(live, p)
    ensures |FreeOf(live + {Buddy.Block(0, p)}, pages)| == |FreeOf(live, pages)| - 1
  {
    var b := Buddy.Block(0, p);
    forall x: nat ensures Buddy.Covered(live + {b}, x) <==> Buddy.Covered(live, x) || x == p {
      if x == p { assert b in live + {b} && Buddy.Covers(b, x); }
    }
    assert FreeOf(live + {b}, pages) == FreeOf(live, pages) - {p};
  }

  lemma NoneFree(L: Buddy.Lists, live: set<Buddy.Block>, pages: set<nat>)
    requires Buddy.Holds(L, live, pages) && |L| == Buddy.MAX_ORDER + 1 && Buddy.AllocBlock(L, 0).None?
    ensures FreeOf(live, pages) == {}
  {
    hide Buddy.Holds, Buddy.AllocBlock, Buddy.FreeSet;
    Buddy.AllocFailsOnlyWhenEmpty(L, 0);
    forall x | x in FreeOf(live, pages) ensures false { Buddy.FreePages(L, live, pages, x); }
  }

  /** So while every table lies in a block that was allocated for it, the allocator's frames are what
      the table code needs: fresh, distinct and addressable. */
  lemma SupplyIsReady(L: Buddy.Lists, live: set<Buddy.Block>, pages: set<nat>, n: nat, owner: T.Owner)
    requires Buddy.Holds(L, live, pages) && forall t :: t in owner ==> Buddy.Covered(live, t)
    ensures PageMapping.PoolReady(Supply(L, n), owner)
  {
    SupplyIsUnused(L, live, pages, n);
  }
}
