/**
 * paging_destroy_address_space: the lower-half tables of a user space and its root go back
 * to the page allocator, each exactly once; data frames and the shared upper half stay.
 */
module Teardown {
  import opened Wrappers
  import opened PageTable
  import opened PageWalk
  import opened Paging
  import P = Pmm
  import B = Bitmap

  /** b is reached by a path that extends q with an index below n. */
  ghost predicate Below(mem: Mem, root: nat, q: seq<nat>, n: nat, b: nat)
  {
    exists p :: |q| < |p| <= 3 && q <= p && p[|q|] < n && Walk(mem, root, p) == Some(b)
  }

  ghost function BelowSet(mem: Mem, root: nat, q: seq<nat>, n: nat): set<nat>
  {
    set b | b in mem && Below(mem, root, q, n, b)
  }

  /** The tables of the lower half, and the root. */
  ghost function LowerTables(mem: Mem, root: nat): set<nat>
  {
    BelowSet(mem, root, [], 256) + {root}
  }

  lemma BelowIntro(mem: Mem, root: nat, q: seq<nat>, n: nat, p: seq<nat>, b: nat)
    requires |q| < |p| <= 3 && q <= p && p[|q|] < n && Walk(mem, root, p) == Some(b) && Tree(mem, root)
    ensures b in BelowSet(mem, root, q, n)
  {
    TreeTable(mem, root, p);
  }

  /** A table whose own path does not extend q with an index below n is not among those. */
  lemma NotBelow(mem: Mem, root: nat, q: seq<nat>, n: nat, p: seq<nat>, b: nat)
    requires Tree(mem, root) && |p| <= 3 && Walk(mem, root, p) == Some(b)
    requires !(|q| < |p| && q <= p && p[|q|] < n)
    ensures b !in BelowSet(mem, root, q, n)
  {
    hide Tree;
    hide Walk;
    if b in BelowSet(mem, root, q, n) {
      var p' :| |q| < |p'| <= 3 && q <= p' && p'[|q|] < n && Walk(mem, root, p') == Some(b);
      TreeUnique(mem, root, p, p');
    }
  }

  /** One more index adds the table it leads to and what lies below that table. */
  lemma BelowStep(mem: Mem, root: nat, q: seq<nat>, n: nat)
    requires Tree(mem, root) && |q| <= 2
    ensures var c := Walk(mem, root, q + [n]);
      BelowSet(mem, root, q, n + 1) == BelowSet(mem, root, q, n)
        + if c.None? then {} else {c.value} + BelowSet(mem, root, q + [n], 512)
  {
    hide Tree;
    hide Walk;
    var c, q' := Walk(mem, root, q + [n]), q + [n];
    var more := BelowSet(mem, root, q, n + 1);
    var parts := BelowSet(mem, root, q, n) + if c.None? then {} else {c.value} + BelowSet(mem, root, q', 512);
    forall b | b in more
      ensures b in parts
    {
      var p :| |q| < |p| <= 3 && q <= p && p[|q|] < n + 1 && Walk(mem, root, p) == Some(b);
      if p[|q|] < n {
        BelowIntro(mem, root, q, n, p, b);
      } else {
        assert q' <= p;
        if c.None? {
          AbsentBelow(mem, root, q', p);
        } else if p != q' {
          IndexBound(mem, root, p, |q'|);
          BelowIntro(mem, root, q', 512, p, b);
        }
      }
    }
    forall b | b in parts
      ensures b in more
    {
      if b in BelowSet(mem, root, q, n) {
        var p :| |q| < |p| <= 3 && q <= p && p[|q|] < n && Walk(mem, root, p) == Some(b);
        BelowIntro(mem, root, q, n + 1, p, b);
      } else if b == c.value {
        assert q'[|q|] == n;
        BelowIntro(mem, root, q, n + 1, q', b);
      } else {
        var p :| |q'| < |p| <= 3 && q' <= p && p[|q'|] < 512 && Walk(mem, root, p) == Some(b);
        assert p[|q|] == q'[|q|] == n;
        BelowIntro(mem, root, q, n + 1, p, b);
      }
    }
  }

  lemma {:induction false} AbsentBelow(mem: Mem, root: nat, q: seq<nat>, p: seq<nat>)
    requires Walk(mem, root, q).None? && q <= p
    ensures Walk(mem, root, p).None?
    decreases |p|
  {
    if p != q { AbsentBelow(mem, root, q, p[..|p| - 1]); }
  }

  /** Every index on a path to a table is below 512. */
  lemma {:induction false} IndexBound(mem: Mem, root: nat, p: seq<nat>, n: nat)
    requires Tree(mem, root) && |p| <= 3 && Walk(mem, root, p).Some? && n < |p|
    ensures p[n] < 512
    decreases |p|
  {
    var r := p[..|p| - 1];
    TreeTable(mem, root, r);
    if n < |p| - 1 { IndexBound(mem, root, r, n); }
  }

  lemma BelowNone(mem: Mem, root: nat, q: seq<nat>)
    ensures BelowSet(mem, root, q, 0) == {}
  {
  }

  /** Freeing what lies below and at one more index. */
  lemma FreedStep(mem: Mem, root: nat, q: seq<nat>, n: nat, free: set<nat>)
    requires Tree(mem, root) && |q| <= 2
    ensures var c := Walk(mem, root, q + [n]);
      free + BelowSet(mem, root, q, n + 1) == free + BelowSet(mem, root, q, n)
        + if c.None? then {} else BelowSet(mem, root, q + [n], 512) + {c.value}
  {
    BelowStep(mem, root, q, n);
  }

  /** Every one of these pages can be freed: pmm_free_page's assertions hold for it. */
  ghost predicate Allocated(pg: Paging, s: set<nat>)
    reads pg, pg.pmm, pg.pmm.bitmap
  {
    forall b :: b in s ==> b < pg.pmm.highestPage && b !in pg.pmm.Free()
  }

  lemma {:induction false} FreshBelow(mem: Mem, root: nat, q: seq<nat>, n: nat, c: nat)
    requires Tree(mem, root) && |q| <= 2 && n < 512 && Walk(mem, root, q + [n]) == Some(c)
    ensures c in BelowSet(mem, root, q, 512) && c !in BelowSet(mem, root, q, n)
    ensures c !in BelowSet(mem, root, q + [n], 512)
    ensures BelowSet(mem, root, q + [n], 512) <= BelowSet(mem, root, q, 512)
    ensures BelowSet(mem, root, q + [n], 512) !! BelowSet(mem, root, q, n)
  {
    hide Tree;
    hide Walk;
    var q' := q + [n];
    assert q'[|q|] == n && q <= q';
    BelowIntro(mem, root, q, 512, q', c);
    NotBelow(mem, root, q, n, q', c);
    NotBelow(mem, root, q', 512, q', c);
    var deeper := BelowSet(mem, root, q', 512);
    forall b | b in deeper
      ensures b in BelowSet(mem, root, q, 512) && b !in BelowSet(mem, root, q, n)
    {
      var p :| |q'| < |p| <= 3 && q' <= p && p[|q'|] < 512 && Walk(mem, root, p) == Some(b);
      assert p[|q|] == q'[|q|] == n;
      BelowIntro(mem, root, q, 512, p, b);
      NotBelow(mem, root, q, n, p, b);
    }
  }

  /** The inner loop: the page tables below a page directory. */
  method FreePageTables(pg: Paging, pd: nat, ghost root: nat, ghost q: seq<nat>)
    requires pg.Valid() && Tree(pg.mem, root) && |q| == 2 && Walk(pg.mem, root, q) == Some(pd)
    requires Allocated(pg, BelowSet(pg.mem, root, q, 512))
    modifies pg.pmm`usedPages, pg.pmm.bitmap
    ensures pg.Valid()
    ensures pg.pmm.Free() == old(pg.pmm.Free()) + BelowSet(pg.mem, root, q, 512)
  {
    hide Paging.Valid;
    hide Tree;
    hide Walk;
    hide Next;
    hide BelowSet;
    hide Present;
    hide Frame;
    hide B.Clear;
    hide P.Minus64;
    TreeTable(pg.mem, root, q);
    BelowNone(pg.mem, root, q);
    var k := 0;
    while k < 512
      invariant k <= 512 && pg.Valid()
      invariant pg.pmm.Free() == old(pg.pmm.Free()) + BelowSet(pg.mem, root, q, k)
    {
      var e := pg.mem[pd][k];
      WalkStep(pg.mem, root, q, k);
      DirectoryEntry(pg.mem, pd, k);
      FreedStep(pg.mem, root, q, k, old(pg.pmm.Free()));
      if Present(e) && !Huge(e) {
        FreshBelow(pg.mem, root, q, k, Frame(e));
        DeepestHasNone(pg.mem, root, q + [k]);
        FreeTable(pg, Frame(e));
      }
      k := k + 1;
    }
  }

  method FreeTable(pg: Paging, page: nat)
    requires pg.Valid() && page < pg.pmm.highestPage && page !in pg.pmm.Free()
    modifies pg.pmm`usedPages, pg.pmm.bitmap
    ensures pg.Valid() && pg.pmm.Free() == old(pg.pmm.Free()) + {page}
  {
    pg.pmm.FreePage(page * P.PAGE_SIZE);
  }

  /** A page directory and the tables below it. */
  method FreeDirectory(pg: Paging, pd: nat, ghost root: nat, ghost q: seq<nat>)
    requires pg.Valid() && Tree(pg.mem, root) && |q| == 2 && Walk(pg.mem, root, q) == Some(pd)
    requires Allocated(pg, BelowSet(pg.mem, root, q, 512) + {pd}) && pd !in BelowSet(pg.mem, root, q, 512)
    modifies pg.pmm`usedPages, pg.pmm.bitmap
    ensures pg.Valid()
    ensures pg.pmm.Free() == old(pg.pmm.Free()) + (BelowSet(pg.mem, root, q, 512) + {pd})
  {
    hide Paging.Valid;
    hide BelowSet;
    hide B.Clear;
    hide P.Minus64;
    FreePageTables(pg, pd, root, q);
    FreeTable(pg, pd);
  }

  /** A page-directory-pointer table and the tables below it. */
  method FreePointerTable(pg: Paging, pdpt: nat, ghost root: nat, ghost q: seq<nat>)
    requires pg.Valid() && Tree(pg.mem, root) && |q| == 1 && Walk(pg.mem, root, q) == Some(pdpt)
    requires Allocated(pg, BelowSet(pg.mem, root, q, 512) + {pdpt}) && pdpt !in BelowSet(pg.mem, root, q, 512)
    modifies pg.pmm`usedPages, pg.pmm.bitmap
    ensures pg.Valid()
    ensures pg.pmm.Free() == old(pg.pmm.Free()) + (BelowSet(pg.mem, root, q, 512) + {pdpt})
  {
    hide Paging.Valid;
    hide BelowSet;
    hide B.Clear;
    hide P.Minus64;
    FreeDirectories(pg, pdpt, root, q);
    FreeTable(pg, pdpt);
  }

  /** The middle loop: the page directories below a page-directory-pointer table. */
  method FreeDirectories(pg: Paging, pdpt: nat, ghost root: nat, ghost q: seq<nat>)
    requires pg.Valid() && Tree(pg.mem, root) && |q| == 1 && Walk(pg.mem, root, q) == Some(pdpt)
    requires Allocated(pg, BelowSet(pg.mem, root, q, 512))
    modifies pg.pmm`usedPages, pg.pmm.bitmap
    ensures pg.Valid()
    ensures pg.pmm.Free() == old(pg.pmm.Free()) + BelowSet(pg.mem, root, q, 512)
  {
    hide Paging.Valid;
    hide Tree;
    hide Walk;
    hide BelowSet;
    hide Present;
    hide Frame;
    hide B.Clear;
    hide P.Minus64;
    TreeTable(pg.mem, root, q);
    BelowNone(pg.mem, root, q);
    var j := 0;
    while j < 512
      invariant j <= 512 && pg.Valid()
      invariant pg.pmm.Free() == old(pg.pmm.Free()) + BelowSet(pg.mem, root, q, j)
    {
      WalkStep(pg.mem, root, q, j);
      FreedStep(pg.mem, root, q, j, old(pg.pmm.Free()));
      if Present(pg.mem[pdpt][j]) {
        var pd := Frame(pg.mem[pdpt][j]);
        FreshBelow(pg.mem, root, q, j, pd);
        FreeDirectory(pg, pd, root, q + [j]);
      }
      j := j + 1;
    }
  }

  /** The outer loop: the lower half of the root table. */
  method FreeLower(pg: Paging, root: nat)
    requires pg.Valid() && Tree(pg.mem, root)
    requires Allocated(pg, BelowSet(pg.mem, root, [], 512))
    modifies pg.pmm`usedPages, pg.pmm.bitmap
    ensures pg.Valid()
    ensures pg.pmm.Free() == old(pg.pmm.Free()) + BelowSet(pg.mem, root, [], 256)
  {
    hide Paging.Valid;
    hide Tree;
    hide Walk;
    hide BelowSet;
    hide Present;
    hide Frame;
    hide B.Clear;
    hide P.Minus64;
    WalkRoot(pg.mem, root);
    TreeTable(pg.mem, root, []);
    BelowNone(pg.mem, root, []);
    var i := 0;
    while i < 256
      invariant i <= 256 && pg.Valid()
      invariant pg.pmm.Free() == old(pg.pmm.Free()) + BelowSet(pg.mem, root, [], i)
    {
      WalkStep(pg.mem, root, [], i);
      FreedStep(pg.mem, root, [], i, old(pg.pmm.Free()));
      if Present(pg.mem[root][i]) {
        var pdpt := Frame(pg.mem[root][i]);
        FreshBelow(pg.mem, root, [], i, pdpt);
        FreePointerTable(pg, pdpt, root, [] + [i]);
      }
      i := i + 1;
    }
  }

  /** paging_destroy_address_space, and with it vmm_destroy_user_space: the free pages grow by
      exactly the lower-half tables and the root, none of which was free, and the used counter
      falls by their number. Every table of the upper half, and every page that is none of the
      space's own tables, stays as it was. */
  method Destroy(pg: Paging, root: nat)
    requires pg.Valid() && pg.Space(root)
    modifies pg.pmm`usedPages, pg.pmm.bitmap
    ensures pg.Valid() && pg.mem == old(pg.mem)
    ensures LowerTables(pg.mem, root) !! old(pg.pmm.Free())
    ensures pg.pmm.Free() == old(pg.pmm.Free()) + LowerTables(pg.mem, root)
    ensures P.Minus64(old(pg.pmm.usedPages), pg.pmm.usedPages) == |LowerTables(pg.mem, root)|
    ensures forall p :: 0 < |p| <= 3 && p[0] >= 256 && Walk(pg.mem, root, p).Some? ==> Walk(pg.mem, root, p).value !in pg.pmm.Free()
    ensures forall f :: f !in Tables(pg.mem, root) ==> (f in pg.pmm.Free() <==> f in old(pg.pmm.Free()))
  {
    hide Tree;
    hide Walk;
    hide LowerTables;
    hide Tables;
    hide AllUsed;
    hide B.Clear;
    hide P.Minus64;
    ghost var free, used, lower := pg.pmm.Free(), pg.pmm.usedPages, LowerTables(pg.mem, root);
    LowerAreTables(pg.mem, root);
    UpperStays(pg.mem, root, free, pg.pmm.highestPage);
    FreeSpace(pg, root);
    UsedFell(pg.pmm.totalPages, used, pg.pmm.usedPages, free, lower, pg.pmm.Free());
  }

  lemma LowerAreTables(mem: Mem, root: nat)
    requires Tree(mem, root)
    ensures LowerTables(mem, root) <= Tables(mem, root)
  {
    hide Walk;
    WalkRoot(mem, root);
    TreeTable(mem, root, []);
  }

  /** No table that is reached through the upper half is among the freed ones. */
  lemma UpperStays(mem: Mem, root: nat, free: set<nat>, highest: nat)
    requires Tree(mem, root) && AllUsed(mem, root, free, highest)
    ensures forall p :: 0 < |p| <= 3 && p[0] >= 256 && Walk(mem, root, p).Some? ==>
      Walk(mem, root, p).value !in free + LowerTables(mem, root)
  {
    hide Tree;
    hide Walk;
    hide BelowSet;
    WalkRoot(mem, root);
    forall p | 0 < |p| <= 3 && p[0] >= 256 && Walk(mem, root, p).Some?
      ensures Walk(mem, root, p).value !in free + LowerTables(mem, root)
    {
      NotBelow(mem, root, [], 256, p, Walk(mem, root, p).value);
      TreeUnique(mem, root, p, []);
    }
  }

  /** The lower half and then the root. */
  method FreeSpace(pg: Paging, root: nat)
    requires pg.Valid() && pg.Space(root)
    modifies pg.pmm`usedPages, pg.pmm.bitmap
    ensures pg.Valid()
    ensures LowerTables(pg.mem, root) !! old(pg.pmm.Free())
    ensures pg.pmm.Free() == old(pg.pmm.Free()) + LowerTables(pg.mem, root)
  {
    hide Paging.Valid;
    hide Tree;
    hide Walk;
    hide BelowSet;
    hide Allocated;
    hide LowerTables;
    hide B.Clear;
    hide P.Minus64;
    SpaceFacts(pg, root);
    FreeLower(pg, root);
    FreeTable(pg, root);
  }

  lemma SpaceFacts(pg: Paging, root: nat)
    requires pg.Valid() && pg.Space(root)
    ensures Allocated(pg, BelowSet(pg.mem, root, [], 512))
    ensures root < pg.pmm.highestPage && root !in pg.pmm.Free() && root !in BelowSet(pg.mem, root, [], 256)
    ensures LowerTables(pg.mem, root) == BelowSet(pg.mem, root, [], 256) + {root}
    ensures LowerTables(pg.mem, root) !! pg.pmm.Free()
  {
    hide Tree;
    hide Walk;
    hide BelowSet;
    hide B.Clear;
    hide P.Minus64;
    LowerAllocated(pg, root);
    RootNotBelow(pg.mem, root);
  }

  lemma UsedFell(total: nat, used: nat, used': nat, free: set<nat>, lower: set<nat>, free': set<nat>)
    requires total < P.U64 && used < P.U64 && used' < P.U64
    requires free !! lower && free' == free + lower
    requires P.Minus64(total, used) == |free| && P.Minus64(total, used') == |free'|
    ensures P.Minus64(used, used') == |lower|
  {
    P.DisjointSize(free, lower);
  }

  lemma RootNotBelow(mem: Mem, root: nat)
    requires Tree(mem, root)
    ensures root !in BelowSet(mem, root, [], 512) && root !in BelowSet(mem, root, [], 256)
  {
    NotBelow(mem, root, [], 512, [], root);
    NotBelow(mem, root, [], 256, [], root);
  }

  lemma LowerAllocated(pg: Paging, root: nat)
    requires pg.Valid() && pg.Space(root)
    ensures Allocated(pg, BelowSet(pg.mem, root, [], 512) + {root})
    ensures BelowSet(pg.mem, root, [], 256) <= BelowSet(pg.mem, root, [], 512)
  {
    WalkRoot(pg.mem, root);
  }

  lemma DeepestHasNone(mem: Mem, root: nat, q: seq<nat>)
    requires |q| == 3
    ensures BelowSet(mem, root, q, 512) == {}
  {
  }
}
