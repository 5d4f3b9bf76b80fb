/**
 * The page-table operations of kernel/mm/paging.c and kernel/mm/vmm.c, changing table pages
 * in place and taking new ones from the page allocator. Tables are named by page number:
 * the source's view of a table through an identity or direct mapping is not modelled.
 */
module Paging {
  import opened Wrappers
  import opened PageTable
  import opened PageWalk
  import opened PageRange
  import P = Pmm
  import B = Bitmap

  class Paging {
    const pmm: P.Pmm
    var mem: Mem

    constructor (pmm: P.Pmm)
      requires pmm.Valid() && pmm.Counted()
      ensures Valid() && this.pmm == pmm && mem == map[]
    {
      this.pmm := pmm;
      mem := map[];
    }

    ghost predicate Valid()
      reads this, pmm, pmm.bitmap
    {
      && pmm.Valid() && pmm.Counted()
      && (forall a :: a in mem ==> |mem[a]| == 512)
    }

    /** The tables below root form a tree of allocated pages. */
    ghost predicate Space(root: nat)
      requires Valid()
      reads this, pmm, pmm.bitmap
    {
      Tree(mem, root) && AllUsed(mem, root, pmm.Free(), pmm.highestPage)
    }

    /** alloc_table_page; None where the source's assertion stops the kernel. */
    method AllocTable() returns (page: Option<nat>)
      requires Valid()
      modifies this`mem, pmm`usedPages, pmm.bitmap
      ensures Valid()
      ensures page.None? ==> mem == old(mem) && pmm.Free() == old(pmm.Free())
      ensures page.None? ==> forall p :: p in pmm.Free() ==> p < P.FIRST_PAGE
      ensures page.Some? ==>
        && page.value in old(pmm.Free()) && P.FIRST_PAGE <= page.value < pmm.highestPage
        && pmm.Free() == old(pmm.Free()) - {page.value} && mem == old(mem)[page.value := Zeros()]
    {
      var phys := pmm.AllocPage();
      if phys == 0 {
        return None;
      }
      mem := mem[phys / P.PAGE_SIZE := seq(512, _ => 0)];
      page := Some(phys / P.PAGE_SIZE);
    }

    /** get_or_create_table for the table that path q leads to. */
    method GetOrCreate(table: nat, index: nat, flags: bv64, ghost root: nat, ghost q: seq<nat>) returns (next: Option<nat>)
      requires Valid() && Space(root) && |q| <= 2 && Walk(mem, root, q) == Some(table) && index < 512
      modifies this`mem, pmm`usedPages, pmm.bitmap
      ensures Valid() && Space(root)
      ensures next.None? ==> mem == old(mem) && pmm.Free() == old(pmm.Free())
      ensures next.Some? ==>
        && Walk(mem, root, q + [index]) == next && Walk(mem, root, q) == Some(table)
        && (forall va :: Translate(mem, root, va) == old(Translate(mem, root, va)))
        && (forall b :: b in old(mem) && b != table && b != next.value ==> b in mem && mem[b] == old(mem)[b])
      ensures Grew(old(mem), root, mem, old(pmm.Free()), pmm.Free(), q + [index])
    {
      hide AllUsed;
      hide B.Clear;
      hide Grew;
      hide Tree;
      hide Walk;
      hide Translate;
      hide Present;
      hide TableEntry;
      hide UserFlag;
      hide Phys;
      hide Frame;
      TreeTable(mem, root, q);
      WalkStep(mem, root, q, index);
      GrewSelf(mem, root, pmm.Free(), q + [index]);
      if !Present(mem[table][index]) {
        next := LinkNew(table, index, flags, root, q);
      } else {
        next := Some(Frame(mem[table][index]));
      }
    }

    /** A new table in an entry that was not present. */
    method LinkNew(table: nat, index: nat, flags: bv64, ghost root: nat, ghost q: seq<nat>) returns (next: Option<nat>)
      requires Valid() && Space(root) && |q| <= 2 && Walk(mem, root, q) == Some(table) && index < 512
      requires IsTable(mem, table) && !Present(mem[table][index])
      modifies this`mem, pmm`usedPages, pmm.bitmap
      ensures Valid() && Space(root)
      ensures next.None? ==> mem == old(mem) && pmm.Free() == old(pmm.Free())
      ensures next.Some? ==>
        && Walk(mem, root, q + [index]) == next && Walk(mem, root, q) == Some(table)
        && (forall va :: Translate(mem, root, va) == old(Translate(mem, root, va)))
        && (forall b :: b in old(mem) && b != table && b != next.value ==> b in mem && mem[b] == old(mem)[b])
      ensures Grew(old(mem), root, mem, old(pmm.Free()), pmm.Free(), q + [index])
    {
      hide Grew;
      hide AllUsed;
      hide Tree;
      hide Walk;
      hide Translate;
      hide Present;
      hide TableEntry;
      hide UserFlag;
      hide Phys;
      hide Frame;
      hide CanLink;
      hide B.Clear;
      GrewSelf(mem, root, pmm.Free(), q + [index]);
      ghost var mem0, free := mem, pmm.Free();
      var page := AllocTable();
      if page.None? {
        return None;
      }
      var e := TableEntry(Phys(page.value), UserFlag(flags));
      CanLinkNew(mem0, root, q, table, index, page.value, flags, free, pmm.highestPage);
      LinkAll(mem0, root, q, table, index, page.value, e);
      LinkGrew(mem0, root, q, table, index, page.value, e, free);
      LinkUsed(mem0, root, q, table, index, page.value, e, free, pmm.highestPage);
      mem := mem[table := mem[table][index := e]];
      assert mem == Linked(mem0, table, index, page.value, e);
      next := page;
    }

    /** Writing one entry of the last table on va's path. */
    method StoreLeaf(table: nat, va: bv64, e: bv64, ghost root: nat)
      requires Valid() && Space(root) && Walk(mem, root, TablePath(va)) == Some(table)
      modifies this`mem
      ensures Valid() && Space(root)
      ensures forall vb :: SamePage(va, vb) ==>
        Translate(mem, root, vb) == if Present(e) then Some(PhysAddr(e, vb)) else None
      ensures forall vb :: !SamePage(va, vb) ==> Translate(mem, root, vb) == old(Translate(mem, root, vb))
      ensures forall b :: b in old(mem) && b != table ==> b in mem && mem[b] == old(mem)[b]
      ensures forall p :: |p| <= 3 ==> Walk(mem, root, p) == old(Walk(mem, root, p))
      ensures mem.Keys == old(mem).Keys
    {
      hide Tree;
      hide Walk;
      hide Translate;
      hide Present;
      hide PhysAddr;
      hide SamePage;
      hide PtIndex;
      hide TablePath;
      ghost var mem0 := mem;
      PathLength(va);
      TreeTable(mem, root, TablePath(va));
      StoreTree(mem, root, TablePath(va), table, PtIndex(va), e);
      forall p | |p| <= 3
        ensures Walk(Stored(mem0, table, PtIndex(va), e), root, p) == Walk(mem0, root, p)
      {
        StoreWalk(mem0, root, TablePath(va), table, PtIndex(va), e, p);
      }
      forall vb
        ensures Translate(Stored(mem0, table, PtIndex(va), e), root, vb) ==
          if SamePage(va, vb) then (if Present(e) then Some(PhysAddr(e, vb)) else None)
          else Translate(mem0, root, vb)
      {
        StoreTranslate(mem0, root, va, table, e, vb);
      }
      mem := mem[table := mem[table][PtIndex(va) := e]];
      assert mem == Stored(mem0, table, PtIndex(va), e);
    }

    /** The three steps of paging_map_page down to the table that holds va's page. */
    method MakeTables(root: nat, va: bv64, flags: bv64) returns (pt: Option<nat>)
      requires Valid() && Space(root)
      modifies this`mem, pmm`usedPages, pmm.bitmap
      ensures Valid() && Space(root)
      ensures pt.Some? ==> Walk(mem, root, TablePath(va)) == pt
      ensures forall vb :: Translate(mem, root, vb) == old(Translate(mem, root, vb))
      ensures forall b :: b in old(mem) && !OnPath(mem, root, va, b) ==> b in mem && mem[b] == old(mem)[b]
      ensures Grew(old(mem), root, mem, old(pmm.Free()), pmm.Free(), TablePath(va))
    {
      hide Valid;
      hide Space;
      hide B.Clear;
      hide Grew;
      hide Tree;
      hide Walk;
      hide Translate;
      hide Pml4Index;
      hide PdptIndex;
      hide PdIndex;
      ghost var m0, f0, path := mem, pmm.Free(), TablePath(va);
      var i, j, k := Pml4Index(va), PdptIndex(va), PdIndex(va);
      WalkRoot(mem, root);
      assert path[..1] == [i] && path[..2] == [i, j] && [] + [i] == [i] && [i] + [j] == [i, j] && [i, j] + [k] == path;
      var pdpt := GetOrCreate(root, i, flags, root, []);
      ghost var m1, f1 := mem, pmm.Free();
      GrewWiden(m0, root, m1, f0, f1, [i], path);
      if pdpt.None? {
        return None;
      }
      var pd := GetOrCreate(pdpt.value, j, flags, root, [i]);
      ghost var m2, f2 := mem, pmm.Free();
      GrewWiden(m1, root, m2, f1, f2, [i, j], path);
      GrewTrans(m0, root, m1, m2, f0, f1, f2, path);
      GrewWalk(m1, root, m2, f1, f2, path, [i]);
      if pd.None? {
        return None;
      }
      pt := GetOrCreate(pd.value, k, flags, root, [i, j]);
      GrewTrans(m0, root, m2, mem, f0, f2, pmm.Free(), path);
      GrewWalk(m2, root, mem, f2, pmm.Free(), path, [i]);
      GrewWalk(m2, root, mem, f2, pmm.Free(), path, [i, j]);
    }

    /** paging_map_page. The page of va, and no other, gets a new translation: the frame of phys
        together with any address bits set in flags. Returns false where an allocation assertion
        stops the kernel; then no translation has changed. */
    method MapPage(root: nat, va: bv64, phys: bv64, flags: bv64) returns (ok: bool)
      requires Valid() && Space(root)
      modifies this`mem, pmm`usedPages, pmm.bitmap
      ensures Valid() && Space(root)
      ensures ok ==> forall vb :: SamePage(va, vb) ==>
        Translate(mem, root, vb) == Some(PhysAddr(LeafEntry(phys, flags), vb))
      ensures forall vb :: !(ok && SamePage(va, vb)) ==> Translate(mem, root, vb) == old(Translate(mem, root, vb))
      ensures forall b :: b in old(mem) && !OnPath(mem, root, va, b) ==> b in mem && mem[b] == old(mem)[b]
      ensures pmm.Free() <= old(pmm.Free())
      ensures Grew(old(mem), root, mem, old(pmm.Free()), pmm.Free(), TablePath(va))
    {
      hide Valid;
      hide Space;
      hide B.Clear;
      hide Grew;
      hide Tree;
      hide Walk;
      hide Translate;
      hide LeafEntry;
      hide PhysAddr;
      hide SamePage;
      hide TablePath;
      ghost var m0, f0, path := mem, pmm.Free(), TablePath(va);
      var pt := MakeTables(root, va, flags);
      GrewFree(m0, root, mem, f0, pmm.Free(), path);
      if pt.None? {
        return false;
      }
      ghost var m1 := mem;
      PathLength(va);
      LeafEntryFacts(phys, flags);
      StoreLeaf(pt.value, va, LeafEntry(phys, flags), root);
      GrewStored(m1, root, mem, pmm.Free(), path);
      GrewTrans(m0, root, m1, mem, f0, pmm.Free(), pmm.Free(), path);
      ok := true;
    }

    /** One step of a walk: the table that entry index of table points to. */
    method NextTable(table: nat, index: nat) returns (next: Option<nat>)
      requires Valid() && IsTable(mem, table) && index < 512
      ensures next == Next(mem, table, index)
    {
      if !Present(mem[table][index]) {
        return None;
      }
      next := Some(Frame(mem[table][index]));
    }

    /** The table that holds va's last entry, where every table on the way is present. */
    method FindTable(root: nat, va: bv64) returns (pt: Option<nat>)
      requires Valid() && Space(root)
      ensures pt == Walk(mem, root, TablePath(va))
      ensures pt.Some? ==> IsTable(mem, pt.value)
    {
      hide Tree;
      hide Walk;
      hide Next;
      WalkTables(mem, root, Pml4Index(va), PdptIndex(va), PdIndex(va));
      TreeTable(mem, root, []);
      var pdpt := NextTable(root, Pml4Index(va));
      if pdpt.None? {
        return None;
      }
      TreeTable(mem, root, [Pml4Index(va)]);
      var pd := NextTable(pdpt.value, PdptIndex(va));
      if pd.None? {
        return None;
      }
      TreeTable(mem, root, [Pml4Index(va), PdptIndex(va)]);
      pt := NextTable(pd.value, PdIndex(va));
      if pt.Some? { TreeTable(mem, root, TablePath(va)); }
    }

    /** paging_unmap_page: the page of va, and no other, has no translation afterwards. */
    method UnmapPage(root: nat, va: bv64)
      requires Valid() && Space(root)
      modifies this`mem
      ensures Valid() && Space(root)
      ensures forall vb :: SamePage(va, vb) ==> Translate(mem, root, vb) == None
      ensures forall vb :: !SamePage(va, vb) ==> Translate(mem, root, vb) == old(Translate(mem, root, vb))
      ensures forall b :: b in old(mem) && Walk(mem, root, TablePath(va)) != Some(b) ==> b in mem && mem[b] == old(mem)[b]
      ensures mem.Keys == old(mem).Keys && forall p :: |p| <= 3 ==> Walk(mem, root, p) == old(Walk(mem, root, p))
    {
      PathLength(va);
      hide Tree;
      hide Walk;
      hide Translate;
      hide SamePage;
      hide TablePath;
      hide Leaf;
      var pt := FindTable(root, va);
      if pt.None? {
        forall vb | SamePage(va, vb)
          ensures Translate(mem, root, vb) == None
        {
          SamePageIndices(va, vb);
          TranslateIsWalk(mem, root, vb);
        }
        return;
      }
      ZeroEntry();
      StoreLeaf(pt.value, va, 0, root);
    }

    /** paging_virt_to_phys: the translation, or 0 where there is none. */
    method VirtToPhys(root: nat, va: bv64) returns (phys: bv64)
      requires Valid() && Space(root)
      ensures phys == match Translate(mem, root, va) case None => 0 case Some(x) => x
    {
      hide Tree;
      hide Walk;
      hide Present;
      hide Huge;
      hide Addr;
      hide Frame;
      hide Pml4Index;
      hide PdptIndex;
      hide PdIndex;
      hide PtIndex;
      WalkTables(mem, root, Pml4Index(va), PdptIndex(va), PdIndex(va));
      TreeTable(mem, root, []);
      var pdpt := NextTable(root, Pml4Index(va));
      if pdpt.None? {
        return 0;
      }
      TreeTable(mem, root, [Pml4Index(va)]);
      var pd := NextTable(pdpt.value, PdptIndex(va));
      if pd.None? {
        return 0;
      }
      TreeTable(mem, root, [Pml4Index(va), PdptIndex(va)]);
      var e := mem[pd.value][PdIndex(va)];
      if Huge(e) {
        return Addr(e) | (va & 0x1F_FFFF);
      }
      if !Present(e) {
        return 0;
      }
      TreeTable(mem, root, TablePath(va));
      var f := mem[Frame(e)][PtIndex(va)];
      if !Present(f) {
        return 0;
      }
      phys := PhysAddr(f, va);
    }

    /** paging_map_range: pages are mapped one after the other, in 64-bit address arithmetic. Fewer than
        numPages are mapped where an allocation assertion stops the kernel. */
    method MapRange(root: nat, virt: bv64, phys: bv64, numPages: nat, flags: bv64) returns (mapped: nat)
      requires Valid() && Space(root)
      modifies this`mem, pmm`usedPages, pmm.bitmap
      ensures Valid() && Space(root) && pmm.Free() <= old(pmm.Free()) && mapped <= numPages
      ensures forall vb ::
        Translate(mem, root, vb) == RangeTranslation(old(Translate(mem, root, vb)), virt, phys, mapped, flags, vb)
    {
      hide Valid;
      hide Space;
      hide B.Clear;
      hide Grew;
      hide OnPath;
      hide Tree;
      hide Walk;
      hide Translate;
      hide SamePage;
      hide LeafEntry;
      hide PhysAddr;
      mapped := 0;
      while mapped < numPages
        invariant mapped <= numPages
        invariant Valid() && Space(root) && pmm.Free() <= old(pmm.Free())
        invariant forall vb ::
          Translate(mem, root, vb) == RangeTranslation(old(Translate(mem, root, vb)), virt, phys, mapped, flags, vb)
      {
        var ok := MapPage(root, Advance(virt, mapped), Advance(phys, mapped), flags);
        if !ok {
          return;
        }
        mapped := mapped + 1;
      }
    }

    /** paging_create_address_space: a root that leads nowhere. None where the allocation assertion stops
        the kernel. */
    method CreateSpace() returns (root: Option<nat>)
      requires Valid()
      modifies this`mem, pmm`usedPages, pmm.bitmap
      ensures Valid()
      ensures root.None? ==> mem == old(mem) && pmm.Free() == old(pmm.Free())
      ensures root.Some? ==>
        && Space(root.value) && root.value in old(pmm.Free()) && pmm.Free() == old(pmm.Free()) - {root.value}
        && mem == old(mem)[root.value := Zeros()]
        && (forall p :: |p| <= 3 && p != [] ==> Walk(mem, root.value, p) == None)
        && (forall va :: Translate(mem, root.value, va) == None)
    {
      hide Tree;
      hide Walk;
      hide Translate;
      root := AllocTable();
      if root.Some? {
        EmptySpace(mem, root.value);
      }
    }

    /** vmm_create_user_space: a new root that shares the upper half of the kernel's. */
    method CreateUserSpace(kernel: nat) returns (user: Option<nat>)
      requires Valid() && Space(kernel)
      modifies this`mem, pmm`usedPages, pmm.bitmap
      ensures Valid() && Space(kernel)
      ensures user.None? ==> mem == old(mem) && pmm.Free() == old(pmm.Free())
      ensures user.Some? ==>
        && Space(user.value) && user.value != kernel && pmm.Free() == old(pmm.Free()) - {user.value}
        && user.value in old(pmm.Free()) && Shares(mem, kernel, user.value)
        && (forall p :: |p| <= 3 ==> Walk(mem, kernel, p) == old(Walk(mem, kernel, p)))
        && mem.Keys == old(mem).Keys + {user.value}
        && (forall b :: b in old(mem) && b != user.value ==> b in mem && mem[b] == old(mem)[b])
      ensures user.Some? ==> forall va ::
        Translate(mem, user.value, va) == if Pml4Index(va) < 256 then None else Translate(mem, kernel, va)
      ensures forall va :: Translate(mem, kernel, va) == old(Translate(mem, kernel, va))
    {
      hide AllUsed;
      hide B.Clear;
      hide Tree;
      hide Walk;
      hide Translate;
      hide Pml4Index;
      ghost var mem0, free := mem, pmm.Free();
      WalkRoot(mem, kernel);
      TreeTable(mem, kernel, []);
      user := CreateSpace();
      if user.None? {
        return;
      }
      var u := user.value;
      NotReached(mem0, kernel, u, free, pmm.highestPage);
      var i := 256;
      assert Zeros() == HalfCopied(mem0[kernel], 256);
      while i < 512
        modifies this`mem
        invariant 256 <= i <= 512
        invariant mem == mem0[u := HalfCopied(mem0[kernel], i)]
      {
        mem := mem[u := mem[u][i := mem[kernel][i]]];
        assert HalfCopied(mem0[kernel], i)[i := mem0[kernel][i]] == HalfCopied(mem0[kernel], i + 1);
        i := i + 1;
      }
      SharedAll(mem0, kernel, u, free, pmm.highestPage);
    }
  }

  lemma {:induction false} EmptyWalk(mem: Mem, root: nat, p: seq<nat>)
    requires root in mem && mem[root] == Zeros()
    ensures Walk(mem, root, p) == if p == [] then Some(root) else None
    decreases |p|
  {
    ZeroEntry();
    hide Present;
    if p != [] { EmptyWalk(mem, root, p[..|p| - 1]); }
  }

  lemma EmptyTranslate(mem: Mem, root: nat, va: bv64)
    requires root in mem && mem[root] == Zeros()
    ensures Translate(mem, root, va) == None
  {
    hide Pml4Index;
    hide Present;
    ZeroEntry();
  }

  /** A zeroed root is a space with no other table and no translation. */
  lemma EmptySpace(mem: Mem, root: nat)
    requires root in mem && mem[root] == Zeros()
    ensures Tree(mem, root) && Walk(mem, root, []) == Some(root)
    ensures forall p :: p != [] ==> Walk(mem, root, p) == None
    ensures forall va :: Translate(mem, root, va) == None
  {
    hide Walk;
    hide Translate;
    hide Huge;
    forall p: seq<nat>
      ensures Walk(mem, root, p) == if p == [] then Some(root) else None
    {
      EmptyWalk(mem, root, p);
    }
    forall va
      ensures Translate(mem, root, va) == None
    {
      EmptyTranslate(mem, root, va);
    }
  }

  /** The user space leads nowhere in its lower half and where the kernel's space leads in its upper half. */
  ghost predicate Shares(mem: Mem, kernel: nat, user: nat)
  {
    forall p :: |p| <= 3 ==>
      Walk(mem, user, p) == if p == [] then Some(user) else if p[0] < 256 then None else Walk(mem, kernel, p)
  }

  /** A zeroed table into which entries 256 to n - 1 of t were copied. */
  ghost function HalfCopied(t: seq<bv64>, n: nat): (r: seq<bv64>)
    requires |t| == 512 && 256 <= n <= 512
    ensures |r| == 512
  {
    seq(512, i requires 0 <= i < 512 => if 256 <= i < n then t[i] else 0)
  }

  ghost function Shared(mem: Mem, kernel: nat, u: nat): Mem
    requires IsTable(mem, kernel)
  {
    mem[u := HalfCopied(mem[kernel], 512)]
  }

  lemma SharedNext(mem: Mem, kernel: nat, u: nat, b: nat, i: nat)
    requires IsTable(mem, kernel) && u != kernel
    ensures Next(Shared(mem, kernel, u), b, i) ==
      if b != u then Next(mem, b, i) else if i < 256 then None else Next(mem, kernel, i)
  {
    ZeroEntry();
    hide Present;
    hide Frame;
  }

  /** In the new space a path leads where it leads in the kernel's, if it starts in the upper half. */
  lemma {:induction false} SharedWalk(mem: Mem, kernel: nat, u: nat, p: seq<nat>)
    requires Tree(mem, kernel) && IsTable(mem, kernel) && |p| <= 3
    requires forall q :: |q| <= 3 ==> Walk(mem, kernel, q) != Some(u)
    ensures Walk(Shared(mem, kernel, u), kernel, p) == Walk(mem, kernel, p)
    ensures Walk(Shared(mem, kernel, u), u, p) ==
      if p == [] then Some(u) else if p[0] < 256 then None else Walk(mem, kernel, p)
    decreases |p|
  {
    hide Tree;
    hide Walk;
    hide Next;
    hide Shared;
    var mem' := Shared(mem, kernel, u);
    WalkRoot(mem, kernel);
    WalkRoot(mem', kernel);
    WalkRoot(mem', u);
    assert u != kernel;
    if p != [] {
      var r, j := p[..|p| - 1], p[|p| - 1];
      assert p == r + [j];
      SharedWalk(mem, kernel, u, r);
      WalkStep(mem, kernel, r, j);
      WalkStep(mem', kernel, r, j);
      WalkStep(mem', u, r, j);
      SharedNext(mem, kernel, u, u, j);
      var b := Walk(mem, kernel, r);
      if b.Some? {
        assert b.value != u;
        SharedNext(mem, kernel, u, b.value, j);
      }
      if r != [] { assert p[0] == r[0]; }
    }
  }

  lemma {:induction false} SharedTree(mem: Mem, kernel: nat, u: nat)
    requires Tree(mem, kernel) && IsTable(mem, kernel)
    requires forall q :: |q| <= 3 ==> Walk(mem, kernel, q) != Some(u)
    ensures Tree(Shared(mem, kernel, u), kernel) && Tree(Shared(mem, kernel, u), u)
  {
    hide Walk;
    hide Huge;
    var mem' := Shared(mem, kernel, u);
    forall p | |p| <= 3
      ensures Walk(mem', kernel, p) == Walk(mem, kernel, p)
      ensures Walk(mem', u, p) == if p == [] then Some(u) else if p[0] < 256 then None else Walk(mem, kernel, p)
    {
      SharedWalk(mem, kernel, u, p);
    }
    forall p | |p| <= 3 && Walk(mem, kernel, p).Some?
      ensures IsTable(mem', Walk(mem, kernel, p).value)
      ensures |p| == 2 ==> NoHuge(mem', Walk(mem, kernel, p).value)
    {
      TreeTable(mem, kernel, p);
      assert Walk(mem, kernel, p).value != u;
    }
    assert IsTable(mem', u);
  }

  /** A free page is no table of the space. */
  lemma NotReached(mem: Mem, root: nat, f: nat, free: set<nat>, highest: nat)
    requires AllUsed(mem, root, free, highest) && f in free
    ensures forall q :: |q| <= 3 ==> Walk(mem, root, q) != Some(f)
    ensures root != f
  {
    WalkRoot(mem, root);
  }

  lemma SharedUsed(mem: Mem, kernel: nat, u: nat, free: set<nat>, highest: nat)
    requires Tree(mem, kernel) && IsTable(mem, kernel) && AllUsed(mem, kernel, free, highest) && u in free && u < highest
    ensures AllUsed(Shared(mem, kernel, u), kernel, free - {u}, highest) && AllUsed(Shared(mem, kernel, u), u, free - {u}, highest)
  {
    hide Tree;
    hide Walk;
    hide Shared;
    NotReached(mem, kernel, u, free, highest);
    forall p | |p| <= 3
      ensures Walk(Shared(mem, kernel, u), kernel, p) == Walk(mem, kernel, p)
      ensures Walk(Shared(mem, kernel, u), u, p).Some? ==>
        Walk(Shared(mem, kernel, u), u, p) == Some(u) || Walk(Shared(mem, kernel, u), u, p) == Walk(mem, kernel, p)
    {
      SharedWalk(mem, kernel, u, p);
    }
  }

  lemma SharedAll(mem: Mem, kernel: nat, u: nat, free: set<nat>, highest: nat)
    requires Tree(mem, kernel) && IsTable(mem, kernel) && AllUsed(mem, kernel, free, highest) && u in free && u < highest
    ensures var mem' := Shared(mem, kernel, u);
      && Tree(mem', kernel) && Tree(mem', u)
      && AllUsed(mem', kernel, free - {u}, highest) && AllUsed(mem', u, free - {u}, highest)
      && (forall p :: |p| <= 3 ==> Walk(mem', kernel, p) == Walk(mem, kernel, p))
      && Shares(mem', kernel, u)
      && (forall va :: Translate(mem', kernel, va) == Translate(mem, kernel, va))
      && (forall va :: Translate(mem', u, va) == if Pml4Index(va) < 256 then None else Translate(mem, kernel, va))
  {
    hide Tree;
    hide Walk;
    hide Translate;
    hide Leaf;
    hide Shared;
    hide Pml4Index;
    hide PdptIndex;
    hide PdIndex;
    hide AllUsed;
    NotReached(mem, kernel, u, free, highest);
    SharedUsed(mem, kernel, u, free, highest);
    var mem' := Shared(mem, kernel, u);
    SharedTree(mem, kernel, u);
    forall p | |p| <= 3
      ensures Walk(mem', kernel, p) == Walk(mem, kernel, p)
      ensures Walk(mem', u, p) == if p == [] then Some(u) else if p[0] < 256 then None else Walk(mem', kernel, p)
    {
      SharedWalk(mem, kernel, u, p);
    }
    forall va
      ensures Translate(mem', kernel, va) == Translate(mem, kernel, va)
      ensures Translate(mem', u, va) == if Pml4Index(va) < 256 then None else Translate(mem, kernel, va)
    {
      var p := TablePath(va);
      SharedWalk(mem, kernel, u, p);
      TranslateIsWalk(mem, kernel, va);
      TranslateIsWalk(mem', kernel, va);
      TranslateIsWalk(mem', u, va);
      var t := Walk(mem, kernel, p);
      if t.Some? {
        SharedLeaf(mem, kernel, u, t.value, va);
      }
    }
  }

  lemma SharedLeaf(mem: Mem, kernel: nat, u: nat, b: nat, va: bv64)
    requires IsTable(mem, kernel) && b != u
    ensures Leaf(Shared(mem, kernel, u), b, va) == Leaf(mem, b, va)
  {
    hide PtIndex;
    hide Present;
    hide PhysAddr;
  }

  /** The mapped page translates to the wanted frame with the page offset exactly when the flags
      set no address bit outside phys. */
  lemma MappedFrame(phys: bv64, flags: bv64)
    ensures (forall vb :: PhysAddr(LeafEntry(phys, flags), vb) == Addr(phys) | (vb & 0xFFF)) <==> Addr(flags) & !phys == 0
  {
    LeafEntryExact(phys, flags);
    if Addr(flags) & !phys != 0 {
      OffsetApart(Addr(LeafEntry(phys, flags)), Addr(phys));
      assert PhysAddr(LeafEntry(phys, flags), 0) != Addr(phys) | (0 & 0xFFF);
    }
  }

  /** A flag word with an address bit maps another frame than the one asked for. */
  lemma FlagsMoveFrame()
    ensures PhysAddr(LeafEntry(0x1000, 0x2000), 0) == 0x3000 && Addr(0x1000) == 0x1000
  {
  }

  lemma OffsetApart(a: bv64, b: bv64)
    requires a != b
    ensures a | (0 & 0xFFF) != b | (0 & 0xFFF)
  {
  }

  /** Every table of the space is an allocated page. */
  ghost predicate AllUsed(mem: Mem, root: nat, free: set<nat>, highest: nat)
  {
    forall p :: |p| <= 3 && Walk(mem, root, p).Some? ==>
      Walk(mem, root, p).value < highest && Walk(mem, root, p).value !in free
  }

  lemma CanLinkNew(mem: Mem, root: nat, q: seq<nat>, a: nat, i: nat, f: nat, flags: bv64, free: set<nat>, highest: nat)
    requires Tree(mem, root) && AllUsed(mem, root, free, highest) && |q| <= 2 && Walk(mem, root, q) == Some(a)
    requires IsTable(mem, a) && i < 512 && !Present(mem[a][i]) && f in free && f < MAX_PAGES
    ensures CanLink(mem, root, q, a, i, f, TableEntry(Phys(f), UserFlag(flags))) && f != a
  {
    hide Tree;
    hide Walk;
    hide Present;
    hide Huge;
    hide TableEntry;
    hide UserFlag;
    hide Phys;
    hide Frame;
    TableEntryFacts(f, flags);
  }

  lemma LinkUsed(mem: Mem, root: nat, q: seq<nat>, a: nat, i: nat, f: nat, e: bv64, free: set<nat>, highest: nat)
    requires CanLink(mem, root, q, a, i, f, e) && AllUsed(mem, root, free, highest) && f in free && f < highest
    ensures AllUsed(Linked(mem, a, i, f, e), root, free - {f}, highest)
  {
    hide Walk;
    hide Tree;
    hide Linked;
    var mem' := Linked(mem, a, i, f, e);
    forall p | |p| <= 3 && Walk(mem', root, p).Some?
      ensures Walk(mem', root, p) == Some(f) || Walk(mem', root, p) == Walk(mem, root, p)
    {
      LinkWalk(mem, root, q, a, i, f, e, p);
    }
  }

  ghost predicate Reached(mem: Mem, root: nat, b: nat)
  {
    exists p :: |p| <= 3 && Walk(mem, root, p) == Some(b)
  }

  /** The tables of a space. */
  ghost function Tables(mem: Mem, root: nat): set<nat>
  {
    set b | b in mem && Reached(mem, root, b)
  }

  /** The space got new tables along path only, taken from the free pages: every other path leads where
      it led, and no page was lost. */
  ghost predicate Grew(mem: Mem, root: nat, mem': Mem, free: set<nat>, free': set<nat>, path: seq<nat>)
  {
    && (forall p :: |p| <= 3 && Walk(mem, root, p).Some? ==> Walk(mem', root, p) == Walk(mem, root, p))
    && (forall p :: |p| <= 3 && Walk(mem', root, p).Some? && Walk(mem', root, p) != Walk(mem, root, p) ==>
          p <= path && p != [] && Walk(mem', root, p).value in free)
    && free' <= free && free' + Tables(mem', root) == free + Tables(mem, root)
  }

  lemma GrewSelf(mem: Mem, root: nat, free: set<nat>, path: seq<nat>)
    ensures Grew(mem, root, mem, free, free, path)
  {
    hide Walk;
    hide Tables;
  }

  lemma GrewFree(mem: Mem, root: nat, mem': Mem, free: set<nat>, free': set<nat>, path: seq<nat>)
    requires Grew(mem, root, mem', free, free', path)
    ensures free' <= free && free' + Tables(mem', root) == free + Tables(mem, root)
  {
  }

  lemma GrewWalk(mem: Mem, root: nat, mem': Mem, free: set<nat>, free': set<nat>, path: seq<nat>, p: seq<nat>)
    requires Grew(mem, root, mem', free, free', path) && |p| <= 3
    ensures Walk(mem, root, p).Some? ==> Walk(mem', root, p) == Walk(mem, root, p)
    ensures Walk(mem', root, p).Some? && Walk(mem', root, p) != Walk(mem, root, p) ==>
      p <= path && p != [] && Walk(mem', root, p).value in free
  {
    hide Walk;
    hide Tables;
  }

  lemma GrewWiden(mem: Mem, root: nat, mem': Mem, free: set<nat>, free': set<nat>, path: seq<nat>, path': seq<nat>)
    requires Grew(mem, root, mem', free, free', path) && path <= path'
    ensures Grew(mem, root, mem', free, free', path')
  {
    hide Walk;
    hide Tables;
    forall p | |p| <= 3 && Walk(mem', root, p).Some? && Walk(mem', root, p) != Walk(mem, root, p)
      ensures p <= path'
    {
      assert p <= path;
      assert path' == path + path'[|path|..];
    }
  }

  lemma GrewTrans(m0: Mem, root: nat, m1: Mem, m2: Mem, f0: set<nat>, f1: set<nat>, f2: set<nat>, path: seq<nat>)
    requires Grew(m0, root, m1, f0, f1, path) && Grew(m1, root, m2, f1, f2, path)
    ensures Grew(m0, root, m2, f0, f2, path)
  {
    hide Walk;
    hide Tables;
    hide Grew;
    GrewFree(m0, root, m1, f0, f1, path);
    GrewFree(m1, root, m2, f1, f2, path);
    forall p | |p| <= 3
      ensures Walk(m0, root, p).Some? ==> Walk(m2, root, p) == Walk(m0, root, p)
      ensures Walk(m2, root, p).Some? && Walk(m2, root, p) != Walk(m0, root, p) ==>
        p <= path && p != [] && Walk(m2, root, p).value in f0
    {
      GrewWalk(m0, root, m1, f0, f1, path, p);
      GrewWalk(m1, root, m2, f1, f2, path, p);
    }
    GrewIntro(m0, root, m2, f0, f2, path);
  }

  lemma GrewIntro(mem: Mem, root: nat, mem': Mem, free: set<nat>, free': set<nat>, path: seq<nat>)
    requires forall p :: |p| <= 3 && Walk(mem, root, p).Some? ==> Walk(mem', root, p) == Walk(mem, root, p)
    requires forall p :: |p| <= 3 && Walk(mem', root, p).Some? && Walk(mem', root, p) != Walk(mem, root, p) ==>
      p <= path && p != [] && Walk(mem', root, p).value in free
    requires free' <= free && free' + Tables(mem', root) == free + Tables(mem, root)
    ensures Grew(mem, root, mem', free, free', path)
  {
  }

  lemma GrewStored(mem: Mem, root: nat, mem': Mem, free: set<nat>, path: seq<nat>)
    requires mem.Keys == mem'.Keys && forall p :: |p| <= 3 ==> Walk(mem', root, p) == Walk(mem, root, p)
    ensures Grew(mem, root, mem', free, free, path)
  {
    hide Walk;
    assert Tables(mem', root) == Tables(mem, root);
  }

  lemma LinkGrew(mem: Mem, root: nat, q: seq<nat>, a: nat, i: nat, f: nat, e: bv64, free: set<nat>)
    requires CanLink(mem, root, q, a, i, f, e) && f in free
    ensures Grew(mem, root, Linked(mem, a, i, f, e), free, free - {f}, q + [i])
  {
    hide Walk;
    hide Tree;
    hide Tables;
    var mem' := Linked(mem, a, i, f, e);
    hide Linked;
    forall p | |p| <= 3
      ensures Walk(mem', root, p) == if p == q + [i] then Some(f) else if q + [i] <= p then None else Walk(mem, root, p)
      ensures Walk(mem, root, p).Some? ==> Walk(mem', root, p) == Walk(mem, root, p)
    {
      LinkWalk(mem, root, q, a, i, f, e, p);
      if q + [i] <= p { LinkedWasAbsent(mem, root, q, a, i, p); }
    }
    LinkTables(mem, root, q, a, i, f, e);
  }

  lemma LinkTables(mem: Mem, root: nat, q: seq<nat>, a: nat, i: nat, f: nat, e: bv64)
    requires CanLink(mem, root, q, a, i, f, e)
    ensures Tables(Linked(mem, a, i, f, e), root) == Tables(mem, root) + {f}
  {
    hide Walk;
    var mem' := Linked(mem, a, i, f, e);
    assert mem'.Keys == mem.Keys + {f};
    hide Tree;
    hide Linked;
    LinkWalk(mem, root, q, a, i, f, e, q + [i]);
    assert Reached(mem', root, f);
    forall b
      ensures Reached(mem', root, b) <==> Reached(mem, root, b) || b == f
    {
      if p :| |p| <= 3 && Walk(mem', root, p) == Some(b) {
        LinkWalk(mem, root, q, a, i, f, e, p);
      }
      if p :| |p| <= 3 && Walk(mem, root, p) == Some(b) {
        LinkWalk(mem, root, q, a, i, f, e, p);
        if q + [i] <= p { LinkedWasAbsent(mem, root, q, a, i, p); }
      }
    }
  }

  /** b is one of the four tables on va's path. */
  ghost predicate OnPath(mem: Mem, root: nat, va: bv64, b: nat)
  {
    var p := TablePath(va);
    b == root || Walk(mem, root, p[..1]) == Some(b) || Walk(mem, root, p[..2]) == Some(b) || Walk(mem, root, p) == Some(b)
  }

  /** A linked table keeps the space a tree, adds only itself to the reachable tables and
      changes no translation. */
  lemma LinkAll(mem: Mem, root: nat, q: seq<nat>, a: nat, i: nat, f: nat, e: bv64)
    requires CanLink(mem, root, q, a, i, f, e)
    ensures var mem' := Linked(mem, a, i, f, e);
      && Tree(mem', root) && Walk(mem', root, q + [i]) == Some(f) && Walk(mem', root, q) == Some(a)
      && (forall va :: Translate(mem', root, va) == Translate(mem, root, va))
  {
    hide Tree;
    hide Walk;
    hide Translate;
    hide Linked;
    LinkTree(mem, root, q, a, i, f, e);
    LinkWalk(mem, root, q, a, i, f, e, q);
    forall va
      ensures Translate(Linked(mem, a, i, f, e), root, va) == Translate(mem, root, va)
    {
      LinkTranslate(mem, root, q, a, i, f, e, va);
    }
  }

  /** Address spaces whose tables were not written translate as before. */
  lemma {:induction false} OtherWalk(mem: Mem, mem': Mem, r: nat, p: seq<nat>)
    requires |p| <= 3
    requires forall q :: |q| <= 3 && Walk(mem, r, q).Some? ==>
      var b := Walk(mem, r, q).value; b in mem && b in mem' && mem'[b] == mem[b]
    ensures Walk(mem', r, p) == Walk(mem, r, p)
    decreases |p|
  {
    hide Next;
    if p != [] {
      var q := p[..|p| - 1];
      OtherWalk(mem, mem', r, q);
      if Walk(mem, r, q).Some? { NextSame(mem, mem', Walk(mem, r, q).value, p[|p| - 1]); }
    }
  }

  lemma NextSame(mem: Mem, mem': Mem, b: nat, i: nat)
    requires b in mem && b in mem' && mem'[b] == mem[b]
    ensures Next(mem', b, i) == Next(mem, b, i)
  {
  }

  /** Isolation: an operation on one space leaves every space that shares none of the written
      tables a tree with the same translations. */
  lemma {:induction false} OtherSpace(mem: Mem, mem': Mem, r: nat)
    requires Tree(mem, r)
    requires forall q :: |q| <= 3 && Walk(mem, r, q).Some? ==>
      var b := Walk(mem, r, q).value; b in mem && b in mem' && mem'[b] == mem[b]
    ensures Tree(mem', r)
    ensures forall va :: Translate(mem', r, va) == Translate(mem, r, va)
  {
    hide Walk;
    hide Translate;
    hide Huge;
    forall p | |p| <= 3
      ensures Walk(mem', r, p) == Walk(mem, r, p)
    {
      OtherWalk(mem, mem', r, p);
    }
    forall p | |p| <= 3 && Walk(mem', r, p).Some?
      ensures IsTable(mem', Walk(mem', r, p).value)
      ensures |p| == 2 ==> NoHuge(mem', Walk(mem', r, p).value)
    {
      TreeTable(mem, r, p);
    }
    assert Tree(mem', r);
    hide Tree;
    forall va
      ensures Translate(mem', r, va) == Translate(mem, r, va)
    {
      TranslateIsWalk(mem, r, va);
      TranslateIsWalk(mem', r, va);
    }
  }
}
