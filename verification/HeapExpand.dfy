/**
 * heap_expand of kernel/mm/heap.c, over the page allocator and the kernel's page tables: frames
 * are taken, mapped behind the heap and linked in as a free block.
 */
module HeapExpand {
  import opened Wrappers
  import opened HeapModel
  import opened HeapLinks
  import S = HeapSteps
  import opened PageRange
  import B = Bitmap
  import P = Pmm
  import T = PageTable
  import W = PageWalk
  import G = Paging
  import H = Heap

  /** PTE_PRESENT | PTE_WRITABLE | PTE_NX */
  const HEAP_FLAGS: bv64 := 0x8000_0000_0000_0003

  /** The return values 0 and -1, and the assertion of alloc_table_page that stops the kernel. */
  datatype Outcome = Grown | Refused | Halted

  /** The n pages from virt translate to the n frames from b, in order. */
  ghost predicate Backed(mem: W.Mem, root: nat, virt: bv64, b: nat, n: nat)
  {
    && b + n <= T.MAX_PAGES
    && forall i, vb :: 0 <= i < n && T.SamePage(Advance(virt, i), vb) ==>
         W.Translate(mem, root, vb) == Some(T.PhysAddr(T.Phys(b + i), vb))
  }

  ghost predicate Beyond(virt: bv64, n: nat, vb: bv64)
  {
    forall i :: 0 <= i < n ==> !T.SamePage(Advance(virt, i), vb)
  }

  lemma PlainHeapFlags()
    ensures T.Addr(HEAP_FLAGS) == 0
  {
  }

  /** What mapping a run of frames does to the translations. */
  lemma RangeBacked(mem: W.Mem, mem': W.Mem, root: nat, virt: bv64, b: nat, n: nat)
    requires b + n <= T.MAX_PAGES && b < T.MAX_PAGES
    requires forall vb ::
      W.Translate(mem', root, vb) == RangeTranslation(W.Translate(mem, root, vb), virt, T.Phys(b), n, HEAP_FLAGS, vb)
    ensures Backed(mem', root, virt, b, n)
    ensures forall vb :: Beyond(virt, n, vb) ==> W.Translate(mem', root, vb) == W.Translate(mem, root, vb)
  {
    hide W.Translate;
    hide T.SamePage;
    hide T.PhysAddr;
    hide T.Phys;
    hide RangeTranslation;
    hide Advance;
    PlainHeapFlags();
    forall i, vb | 0 <= i < n && T.SamePage(Advance(virt, i), vb)
      ensures W.Translate(mem', root, vb) == Some(T.PhysAddr(T.Phys(b + i), vb))
    {
      RangeFrames(W.Translate(mem, root, vb), virt, b, n, HEAP_FLAGS, i, vb);
    }
    forall vb | Beyond(virt, n, vb)
      ensures W.Translate(mem', root, vb) == W.Translate(mem, root, vb)
    {
      RangeOutside(W.Translate(mem, root, vb), virt, T.Phys(b), n, HEAP_FLAGS, vb);
    }
  }

  lemma StillUsed(mem: W.Mem, root: nat, free: set<nat>, free': set<nat>, highest: nat)
    requires G.AllUsed(mem, root, free, highest) && free' <= free
    ensures G.AllUsed(mem, root, free', highest)
  {
  }

  /** pmm_alloc_pages beside a space in order. */
  method TakeFrames(pg: G.Paging, root: nat, n: nat) returns (phys: nat)
    requires pg.Valid() && pg.Space(root)
    modifies pg.pmm`usedPages, pg.pmm.bitmap
    ensures pg.Valid() && pg.Space(root)
    ensures phys == 0 <==> n == 0 || !H.RunOf(old(pg.pmm.Free()), n)
    ensures phys == 0 ==> pg.pmm.Free() == old(pg.pmm.Free())
    ensures phys != 0 ==>
      var b := phys / P.PAGE_SIZE;
      b + n <= T.MAX_PAGES && P.RunAt(old(pg.pmm.Free()), b, n) && pg.pmm.Free() == old(pg.pmm.Free()) - B.Range(b, n)
  {
    hide W.Tree;
    hide G.AllUsed;
    hide P.RunAt;
    hide P.Step;
    hide B.Range;
    hide B.Clear;
    ghost var free := pg.pmm.Free();
    phys := pg.pmm.AllocPages(n);
    StillUsed(pg.mem, root, free, pg.pmm.Free(), pg.pmm.highestPage);
  }

  /** Takes n frames in a row and maps them at virt. */
  method Back(pg: G.Paging, root: nat, virt: bv64, n: nat) returns (r: Outcome)
    requires pg.Valid() && pg.Space(root)
    modifies pg`mem, pg.pmm`usedPages, pg.pmm.bitmap
    ensures pg.Valid() && pg.Space(root)
    ensures r.Refused? <==> n == 0 || !H.RunOf(old(pg.pmm.Free()), n)
    ensures r.Refused? ==> pg.mem == old(pg.mem) && pg.pmm.Free() == old(pg.pmm.Free())
    ensures r.Grown? ==> exists b ::
      && P.RunAt(old(pg.pmm.Free()), b, n) && pg.pmm.Free() <= old(pg.pmm.Free()) - B.Range(b, n)
      && Backed(pg.mem, root, virt, b, n)
    ensures r.Grown? ==> forall vb :: Beyond(virt, n, vb) ==>
      W.Translate(pg.mem, root, vb) == old(W.Translate(pg.mem, root, vb))
  {
    hide G.Paging.Valid;
    hide G.Paging.Space;
    hide Backed;
    hide Beyond;
    hide W.Translate;
    hide T.Phys;
    hide RangeTranslation;
    hide P.RunAt;
    hide B.Range;
    hide B.Clear;
    hide H.RunOf;
    ghost var mem := pg.mem;
    var phys := TakeFrames(pg, root, n);
    if phys == 0 {
      return Refused;
    }
    var b := phys / P.PAGE_SIZE;
    var mapped := pg.MapRange(root, virt, T.Phys(b), n, HEAP_FLAGS);
    if mapped < n {
      return Halted;
    }
    RangeBacked(mem, pg.mem, root, virt, b, n);
    r := Grown;
  }

  /** The address just behind the heap. */
  function End(total: nat): bv64
    requires total <= S.KERNEL_HEAP_SIZE
  {
    (BASE + total) as bv64
  }

  /** heap_expand: adds whole pages behind the heap. It is refused exactly when the heap would
      outgrow its address range or no run of free pages is long enough, for every size a caller can
      pass. A heap that grew is backed by frames that were free and are free no longer, no other
      address changed its translation, and every owned byte is as before. */
  method Expand(heap: H.Heap, pg: G.Paging, kernel: nat, bytes: nat) returns (r: Outcome)
    requires heap.Valid() && pg.Valid() && pg.Space(kernel) && bytes < U64
    modifies heap, pg`mem, pg.pmm`usedPages, pg.pmm.bitmap
    ensures heap.Valid() && pg.Valid() && pg.Space(kernel) && heap.used == old(heap.used)
    ensures r.Refused? <==>
      bytes > 0 && !(old(heap.total) + bytes <= S.KERNEL_HEAP_SIZE && H.RunOf(old(pg.pmm.Free()), H.PagesFor(bytes)))
    ensures !r.Grown? || bytes == 0 ==> heap.blocks == old(heap.blocks) && heap.total == old(heap.total)
    ensures r.Refused? || bytes == 0 ==> pg.mem == old(pg.mem) && pg.pmm.Free() == old(pg.pmm.Free())
    ensures r.Grown? && bytes > 0 ==> var n := H.PagesFor(bytes);
      && heap.total == old(heap.total) + n * S.PAGE_SIZE && heap.total <= S.KERNEL_HEAP_SIZE
      && heap.blocks == Grow(old(heap.blocks), n * S.PAGE_SIZE - HDR)
      && (exists b ::
            && P.RunAt(old(pg.pmm.Free()), b, n) && pg.pmm.Free() <= old(pg.pmm.Free()) - B.Range(b, n)
            && Backed(pg.mem, kernel, End(old(heap.total)), b, n))
      && forall vb :: Beyond(End(old(heap.total)), n, vb) ==>
           W.Translate(pg.mem, kernel, vb) == old(W.Translate(pg.mem, kernel, vb))
    ensures forall x: nat :: Owned(heap.blocks, x) <==> Owned(old(heap.blocks), x)
    ensures forall x :: Owned(heap.blocks, x) ==> SameByte(old(heap.mem), x, heap.mem, x)
  {
    hide G.Paging.Space;
    hide B.Clear;
    hide Used;
    hide Addr;
    hide Linked;
    hide Coalesced;
    hide Owned;
    hide SameByte;
    hide Grow;
    hide H.PagesFor;
    hide P.RunAt;
    hide B.Range;
    hide W.Translate;
    hide W.Tree;
    hide W.Walk;
    hide Backed;
    hide Beyond;
    hide End;
    H.SameBytes(heap.mem);
    if bytes == 0 {
      return Grown;
    }
    H.PagesExact(heap.total, bytes, pg.pmm.Free(), pg.pmm.highestPage);
    if H.Wrapped(heap.total + bytes) > S.KERNEL_HEAP_SIZE {
      return Refused;
    }
    var n := H.Wrapped(bytes + (S.PAGE_SIZE - 1)) / S.PAGE_SIZE;
    r := Back(pg, kernel, End(heap.total), n);
    if r.Grown? {
      heap.Append(n * S.PAGE_SIZE);
    }
  }
}
