/**
 * vmm_init of kernel/mm/vmm.c: the kernel's address space as it is first mapped, and which of its
 * overlapping ranges decides for every address.
 */
module KernelSpace {
  import opened Wrappers
  import opened PageTable
  import opened PageWalk
  import opened PageRange
  import opened Paging
  import P = Pmm
  import B = Bitmap

  const KERNEL_VBASE: bv64 := 0xFFFF_FFFF_8000_0000
  const KERNEL_HEAP_BASE: bv64 := 0xFFFF_FFFF_8200_0000
  const PHYS_MAP_BASE: bv64 := 0xFFFF_FFFF_9200_0000
  const FRAMEBUF_VBASE: bv64 := 0xFFFF_FFFF_C000_0000

  const DIRECT_PAGES: nat := 0x4_0000
  const IDENTITY_PAGES: nat := 1024
  const HEAP_PAGES: nat := 256

  /** PTE_PRESENT | PTE_WRITABLE, and with PTE_GLOBAL, PTE_PWT | PTE_PCD and PTE_NX */
  const PLAIN: bv64 := 0x3
  const GLOBAL: bv64 := 0x103
  const UNCACHED: bv64 := 0x1B
  const NO_EXEC: bv64 := 0x8000_0000_0000_0003

  /** What vmm_init takes from the boot information. */
  datatype Boot = Boot(kernelPhys: bv64, kernelSize: nat, fbBase: bv64, fbPitch: nat, fbHeight: nat)

  const U64: nat := 0x1_0000_0000_0000_0000

  /** The pages of the kernel image, at least 2 MiB, in 64-bit arithmetic. */
  function ImagePages(b: Boot): nat
  {
    var n := ((b.kernelSize + (PAGE_SIZE - 1)) % U64) / PAGE_SIZE;
    if n < 512 then 512 else n
  }

  /** The pages of the frame buffer; none where there is no frame buffer. */
  function BufferPages(b: Boot): nat
  {
    if b.fbBase == 0 then 0 else ((b.fbPitch * b.fbHeight + (PAGE_SIZE - 1)) % U64) / PAGE_SIZE
  }

  // ---------- the mappings in order ----------

  /** The translations after the four ranges, each over the ones before. */
  ghost function Ranges(b: Boot, vb: bv64): Option<bv64>
  {
    var image := RangeTranslation(None, KERNEL_VBASE, b.kernelPhys, ImagePages(b), GLOBAL, vb);
    var identity := RangeTranslation(image, 0, 0, IDENTITY_PAGES, PLAIN, vb);
    var direct := RangeTranslation(identity, PHYS_MAP_BASE, 0, DIRECT_PAGES, GLOBAL, vb);
    RangeTranslation(direct, FRAMEBUF_VBASE, b.fbBase, BufferPages(b), UNCACHED, vb)
  }

  /** The translations after the first n heap pages were mapped to these frames. */
  ghost function HeapTranslation(before: Option<bv64>, frames: seq<nat>, n: nat, vb: bv64): Option<bv64>
    requires n <= |frames| && forall i :: 0 <= i < |frames| ==> frames[i] < MAX_PAGES
  {
    if n == 0 then before
    else if SamePage(Advance(KERNEL_HEAP_BASE, n - 1), vb) then Some(PhysAddr(LeafEntry(Phys(frames[n - 1]), NO_EXEC), vb))
    else HeapTranslation(before, frames, n - 1, vb)
  }

  /** vmm_init: a new space with the kernel image, the first 4 MiB, the direct map of the first GiB, the
      frame buffer and the first MiB of the heap. None where an allocation assertion stops the kernel. */
  method Init(pg: Paging, b: Boot) returns (kernel: Option<nat>, frames: seq<nat>)
    requires pg.Valid()
    modifies pg`mem, pg.pmm`usedPages, pg.pmm.bitmap
    ensures pg.Valid()
    ensures kernel.Some? ==>
      && pg.Space(kernel.value) && Taken(frames, HEAP_PAGES, old(pg.pmm.Free()), pg.pmm.Free())
      && forall vb :: Translate(pg.mem, kernel.value, vb) == HeapTranslation(Ranges(b, vb), frames, HEAP_PAGES, vb)
  {
    hide Paging.Valid;
    hide Paging.Space;
    hide Translate;
    hide RangeTranslation;
    hide HeapTranslation;
    hide B.Clear;
    frames := [];
    kernel := MapRanges(pg, b);
    if kernel.None? {
      return;
    }
    var ok;
    ok, frames := MapHeap(pg, kernel.value, b);
    if !ok {
      kernel := None;
    }
  }

  /** n different pages that were free and are free no longer. */
  ghost predicate Taken(frames: seq<nat>, n: nat, free: set<nat>, free': set<nat>)
  {
    && |frames| == n && free' <= free
    && (forall i :: 0 <= i < n ==> frames[i] < MAX_PAGES && frames[i] in free && frames[i] !in free')
    && (forall i, j :: 0 <= i < j < n ==> frames[i] != frames[j])
  }

  method MapRanges(pg: Paging, b: Boot) returns (kernel: Option<nat>)
    requires pg.Valid()
    modifies pg`mem, pg.pmm`usedPages, pg.pmm.bitmap
    ensures pg.Valid() && pg.pmm.Free() <= old(pg.pmm.Free())
    ensures kernel.Some? ==> pg.Space(kernel.value) && forall vb :: Translate(pg.mem, kernel.value, vb) == Ranges(b, vb)
  {
    hide Paging.Valid;
    hide Paging.Space;
    hide Walk;
    hide Translate;
    hide RangeTranslation;
    hide B.Clear;
    kernel := pg.CreateSpace();
    if kernel.None? {
      return;
    }
    var n := pg.MapRange(kernel.value, KERNEL_VBASE, b.kernelPhys, ImagePages(b), GLOBAL);
    if n < ImagePages(b) {
      return None;
    }
    n := pg.MapRange(kernel.value, 0, 0, IDENTITY_PAGES, PLAIN);
    if n < IDENTITY_PAGES {
      return None;
    }
    n := pg.MapRange(kernel.value, PHYS_MAP_BASE, 0, DIRECT_PAGES, GLOBAL);
    if n < DIRECT_PAGES {
      return None;
    }
    n := 0;
    if b.fbBase != 0 {
      n := pg.MapRange(kernel.value, FRAMEBUF_VBASE, b.fbBase, BufferPages(b), UNCACHED);
    } else {
      NoBuffer(b);
    }
    if n < BufferPages(b) {
      return None;
    }
  }

  lemma NoBuffer(b: Boot)
    requires b.fbBase == 0
    ensures forall before, vb :: RangeTranslation(before, FRAMEBUF_VBASE, b.fbBase, BufferPages(b), UNCACHED, vb) == before
  {
  }

  /** The loop over the first heap pages. */
  method MapHeap(pg: Paging, kernel: nat, ghost b: Boot) returns (ok: bool, frames: seq<nat>)
    requires pg.Valid() && pg.Space(kernel) && forall vb :: Translate(pg.mem, kernel, vb) == Ranges(b, vb)
    modifies pg`mem, pg.pmm`usedPages, pg.pmm.bitmap
    ensures pg.Valid()
    ensures ok ==>
      && pg.Space(kernel) && Taken(frames, HEAP_PAGES, old(pg.pmm.Free()), pg.pmm.Free())
      && forall vb :: Translate(pg.mem, kernel, vb) == HeapTranslation(Ranges(b, vb), frames, HEAP_PAGES, vb)
  {
    hide Paging.Valid;
    hide Paging.Space;
    hide Translate;
    hide Ranges;
    hide Taken;
    hide HeapTranslation;
    hide LeafEntry;
    hide PhysAddr;
    hide SamePage;
    hide Grew;
    hide OnPath;
    hide Phys;
    hide B.Clear;
    frames := [];
    ghost var free := pg.pmm.Free();
    TakenNone(free);
    HeapNone(b);
    var i := 0;
    while i < HEAP_PAGES
      invariant i <= HEAP_PAGES && pg.Valid() && pg.Space(kernel) && Taken(frames, i, free, pg.pmm.Free())
      invariant TakenBound(frames, i, free, pg.pmm.Free())
      invariant forall vb :: Translate(pg.mem, kernel, vb) == HeapTranslation(Ranges(b, vb), frames, i, vb)
    {
      ghost var free1 := pg.pmm.Free();
      var page := TakePage(pg, kernel);
      if page.None? {
        return false, frames;
      }
      TakenOne(frames, i, free, free1, page.value);
      ghost var mem, free2 := pg.mem, pg.pmm.Free();
      ok := pg.MapPage(kernel, Advance(KERNEL_HEAP_BASE, i), Phys(page.value), NO_EXEC);
      if !ok {
        return;
      }
      TakenLess(frames + [page.value], i + 1, free, free2, pg.pmm.Free());
      HeapStep(b, frames, i, page.value);
      frames := frames + [page.value];
      i := i + 1;
    }
    ok := true;
  }

  /** pmm_alloc_page beside a space in order. */
  method TakePage(pg: Paging, root: nat) returns (page: Option<nat>)
    requires pg.Valid() && pg.Space(root)
    modifies pg.pmm`usedPages, pg.pmm.bitmap
    ensures pg.Valid() && pg.Space(root)
    ensures page.None? ==> pg.pmm.Free() == old(pg.pmm.Free())
    ensures page.Some? ==>
      page.value < MAX_PAGES && page.value in old(pg.pmm.Free()) && pg.pmm.Free() == old(pg.pmm.Free()) - {page.value}
  {
    hide Tree;
    hide AllUsed;
    hide P.Step;
    hide B.Clear;
    ghost var free := pg.pmm.Free();
    var phys := pg.pmm.AllocPage();
    FewerFree(pg.mem, root, free, pg.pmm.Free(), pg.pmm.highestPage);
    if phys == 0 {
      return None;
    }
    page := Some(phys / P.PAGE_SIZE);
  }

  lemma FewerFree(mem: Mem, root: nat, free: set<nat>, free': set<nat>, highest: nat)
    requires AllUsed(mem, root, free, highest) && free' <= free
    ensures AllUsed(mem, root, free', highest)
  {
  }

  ghost predicate TakenBound(frames: seq<nat>, n: nat, free: set<nat>, free': set<nat>)
  {
    |frames| == n && free' <= free && forall i :: 0 <= i < |frames| ==> frames[i] < MAX_PAGES
  }

  lemma TakenNone(free: set<nat>)
    ensures Taken([], 0, free, free)
  {
  }

  lemma TakenOne(frames: seq<nat>, n: nat, free: set<nat>, free': set<nat>, page: nat)
    requires Taken(frames, n, free, free') && page in free' && page < MAX_PAGES
    ensures Taken(frames + [page], n + 1, free, free' - {page})
  {
  }

  lemma TakenLess(frames: seq<nat>, n: nat, free: set<nat>, free': set<nat>, less: set<nat>)
    requires Taken(frames, n, free, free') && less <= free'
    ensures Taken(frames, n, free, less) && TakenBound(frames, n, free, less)
  {
  }

  lemma HeapNone(b: Boot)
    ensures forall vb :: HeapTranslation(Ranges(b, vb), [], 0, vb) == Ranges(b, vb)
  {
    hide Ranges;
  }

  lemma {:induction false} HeapSame(before: Option<bv64>, frames: seq<nat>, more: seq<nat>, n: nat, vb: bv64)
    requires n <= |frames| && frames <= more && forall i :: 0 <= i < |more| ==> more[i] < MAX_PAGES
    ensures HeapTranslation(before, more, n, vb) == HeapTranslation(before, frames, n, vb)
  {
    hide SamePage;
    hide PhysAddr;
    hide LeafEntry;
    hide Phys;
    if n > 0 { HeapSame(before, frames, more, n - 1, vb); }
  }

  lemma HeapStep(b: Boot, frames: seq<nat>, n: nat, page: nat)
    requires n == |frames| && page < MAX_PAGES && forall i :: 0 <= i < |frames| ==> frames[i] < MAX_PAGES
    ensures forall vb ::
      HeapTranslation(Ranges(b, vb), frames + [page], n + 1, vb) ==
        if SamePage(Advance(KERNEL_HEAP_BASE, n), vb) then Some(PhysAddr(LeafEntry(Phys(page), NO_EXEC), vb))
        else HeapTranslation(Ranges(b, vb), frames, n, vb)
  {
    hide Ranges;
    hide SamePage;
    hide PhysAddr;
    hide LeafEntry;
    hide Phys;
    forall vb: bv64
      ensures HeapTranslation(Ranges(b, vb), frames + [page], n, vb) == HeapTranslation(Ranges(b, vb), frames, n, vb)
    {
      HeapSame(Ranges(b, vb), frames, frames + [page], n, vb);
    }
  }

  // ---------- which range decides ----------

  lemma Bases()
    ensures PageNumber(KERNEL_HEAP_BASE) == 0xF_FFF8_2000 && PageNumber(PHYS_MAP_BASE) == 0xF_FFF9_2000
    ensures PageNumber(FRAMEBUF_VBASE) == 0xF_FFFC_0000
  {
  }

  /** The direct map's view of physical page d, and how far that lies from the other ranges. */
  lemma DirectIndex(vb: bv64)
    requires Index(PHYS_MAP_BASE, vb) < DIRECT_PAGES
    ensures Index(KERNEL_HEAP_BASE, vb) == Index(PHYS_MAP_BASE, vb) + 0x1_0000
    ensures Index(FRAMEBUF_VBASE, vb) ==
      var d := Index(PHYS_MAP_BASE, vb); if d >= BUFFER_SHADOW then d - BUFFER_SHADOW else d + VIRTUAL_PAGES - BUFFER_SHADOW
  {
    hide PageNumber;
    Bases();
    PageNumberBound(vb);
  }

  /** The page of the direct map at which the frame buffer's range begins: physical address 0x2E000000. */
  const BUFFER_SHADOW: nat := 0x2_E000

  lemma {:induction false} HeapElsewhere(before: Option<bv64>, frames: seq<nat>, n: nat, vb: bv64)
    requires n <= |frames| <= HEAP_PAGES && (forall i :: 0 <= i < |frames| ==> frames[i] < MAX_PAGES)
    requires Index(KERNEL_HEAP_BASE, vb) >= HEAP_PAGES
    ensures HeapTranslation(before, frames, n, vb) == before
  {
    hide Index;
    hide Advance;
    hide SamePage;
    hide PhysAddr;
    hide LeafEntry;
    hide Phys;
    if n > 0 {
      IndexPage(KERNEL_HEAP_BASE, vb, n - 1);
      HeapElsewhere(before, frames, n - 1, vb);
    }
  }

  /** The first heap pages translate to their frames, byte for byte, whatever lies under them. */
  lemma {:induction false} HeapBacked(before: Option<bv64>, frames: seq<nat>, n: nat, vb: bv64)
    requires n <= |frames| <= HEAP_PAGES && (forall i :: 0 <= i < |frames| ==> frames[i] < MAX_PAGES)
    requires Index(KERNEL_HEAP_BASE, vb) < n
    ensures HeapTranslation(before, frames, n, vb) == Some(PhysAddr(Phys(frames[Index(KERNEL_HEAP_BASE, vb)]), vb))
  {
    hide Index;
    hide Advance;
    hide SamePage;
    hide PhysAddr;
    hide LeafEntry;
    hide Phys;
    hide Addr;
    IndexPage(KERNEL_HEAP_BASE, vb, n - 1);
    if Index(KERNEL_HEAP_BASE, vb) == n - 1 {
      PlainFlagWords();
      PhysMasked(frames[n - 1]);
      PlainFlags(Phys(frames[n - 1]), NO_EXEC, vb);
    } else {
      HeapBacked(before, frames, n - 1, vb);
    }
  }

  lemma PlainFlagWords()
    ensures Addr(NO_EXEC) == 0 && Addr(GLOBAL) == 0 && Addr(UNCACHED) == 0
  {
  }

  lemma ZeroFrame()
    ensures Phys(0) == 0
  {
  }

  lemma FrameOf(a: bv64, vb: bv64)
    ensures Addr(PhysAddr(a, vb)) == Addr(a)
  {
    MaskedBits(a, vb);
  }

  lemma MaskedBits(a: bv64, vb: bv64)
    ensures ((a & 0x000F_FFFF_FFFF_F000) | (vb & 0xFFF)) & 0x000F_FFFF_FFFF_F000 == a & 0x000F_FFFF_FFFF_F000
  {
  }

  lemma SameFrame(a: bv64, b: bv64, vb: bv64)
    ensures PhysAddr(a, vb) == PhysAddr(b, vb) <==> Addr(a) == Addr(b)
  {
    hide Addr;
    hide PhysAddr;
    FrameOf(a, vb);
    FrameOf(b, vb);
    if Addr(a) == Addr(b) { OneFrame(a, b, vb); }
  }

  lemma OneFrame(a: bv64, b: bv64, vb: bv64)
    requires Addr(a) == Addr(b)
    ensures PhysAddr(a, vb) == PhysAddr(b, vb)
  {
    hide Addr;
  }

  /** The frame buffer's range covers the direct map's view of physical page d. */
  predicate Shadowed(b: Boot, d: nat)
  {
    BUFFER_SHADOW <= d < BUFFER_SHADOW + BufferPages(b)
  }

  /** Every address of the direct map: it translates to its own physical page, except where the frame
      buffer was mapped over it. So the direct map is right at an address exactly when the frame buffer
      does not cover it, or happens to lie at just that page. */
  lemma DirectMap(b: Boot, frames: seq<nat>, vb: bv64)
    requires |frames| == HEAP_PAGES && (forall i :: 0 <= i < |frames| ==> frames[i] < MAX_PAGES)
    requires BufferPages(b) <= VIRTUAL_PAGES - BUFFER_SHADOW
    requires Index(PHYS_MAP_BASE, vb) < DIRECT_PAGES
    ensures var d := Index(PHYS_MAP_BASE, vb);
      var t := HeapTranslation(Ranges(b, vb), frames, HEAP_PAGES, vb);
      && (Shadowed(b, d) ==> t == Some(PhysAddr(LeafEntry(Advance(b.fbBase, d - BUFFER_SHADOW), UNCACHED), vb)))
      && (!Shadowed(b, d) ==> t == Some(PhysAddr(Phys(d), vb)))
      && (t == Some(PhysAddr(Phys(d), vb)) <==> !Shadowed(b, d) || Addr(Advance(b.fbBase, d - BUFFER_SHADOW)) == Phys(d))
  {
    hide Index;
    hide Advance;
    hide SamePage;
    hide PhysAddr;
    hide LeafEntry;
    hide Phys;
    hide Addr;
    hide BufferPages;
    hide HeapTranslation;
    hide RangeTranslation;
    var d := Index(PHYS_MAP_BASE, vb);
    DirectIndex(vb);
    HeapElsewhere(Ranges(b, vb), frames, HEAP_PAGES, vb);
    RangesDirect(b, vb);
    if Shadowed(b, d) { BufferFrame(Advance(b.fbBase, d - BUFFER_SHADOW), d, vb); }
  }

  lemma RangesDirect(b: Boot, vb: bv64)
    requires BufferPages(b) <= VIRTUAL_PAGES && Index(PHYS_MAP_BASE, vb) < DIRECT_PAGES
    ensures Ranges(b, vb) ==
      if Index(FRAMEBUF_VBASE, vb) < BufferPages(b)
      then Some(PhysAddr(LeafEntry(Advance(b.fbBase, Index(FRAMEBUF_VBASE, vb)), UNCACHED), vb))
      else Some(PhysAddr(Phys(Index(PHYS_MAP_BASE, vb)), vb))
  {
    hide Index;
    hide Advance;
    hide SamePage;
    hide PhysAddr;
    hide LeafEntry;
    hide Phys;
    hide Addr;
    hide BufferPages;
    hide ImagePages;
    hide RangeTranslation;
    var d := Index(PHYS_MAP_BASE, vb);
    var image := RangeTranslation(None, KERNEL_VBASE, b.kernelPhys, ImagePages(b), GLOBAL, vb);
    var identity := RangeTranslation(image, 0, 0, IDENTITY_PAGES, PLAIN, vb);
    var direct := RangeTranslation(identity, PHYS_MAP_BASE, 0, DIRECT_PAGES, GLOBAL, vb);
    RangeAt(identity, PHYS_MAP_BASE, 0, DIRECT_PAGES, GLOBAL, vb);
    RangeAt(direct, FRAMEBUF_VBASE, b.fbBase, BufferPages(b), UNCACHED, vb);
    ZeroFrame();
    AdvancePhys(0, d);
    PhysMasked(d);
    PlainFlagWords();
    PlainFlags(Phys(d), GLOBAL, vb);
  }

  /** A frame buffer page is the frame it shadows exactly when its address says so. */
  lemma BufferFrame(p: bv64, d: nat, vb: bv64)
    requires d < MAX_PAGES
    ensures PhysAddr(LeafEntry(p, UNCACHED), vb) == PhysAddr(Phys(d), vb) <==> Addr(p) == Phys(d)
  {
    hide PhysAddr;
    hide LeafEntry;
    hide Phys;
    hide Addr;
    SameFrame(LeafEntry(p, UNCACHED), Phys(d), vb);
    BufferEntry(p);
    PhysMasked(d);
  }

  lemma BufferEntry(p: bv64)
    ensures Addr(LeafEntry(p, UNCACHED)) == Addr(p)
  {
    LeafEntryExact(p, UNCACHED);
    hide LeafEntry;
    PlainFlagWords();
    NothingAdded(p);
  }

  lemma NothingAdded(p: bv64)
    ensures 0 & !p == 0
  {
  }

  /** A frame buffer of 3 MiB at 0xFD000000: the direct map's view of physical address 0x2E000000 is the
      first byte of the frame buffer. */
  lemma BufferShadows(kernelPhys: bv64, frames: seq<nat>)
    requires |frames| == HEAP_PAGES && (forall i :: 0 <= i < |frames| ==> frames[i] < MAX_PAGES)
    ensures var b := Boot(kernelPhys, 0, 0xFD00_0000, 4096, 768);
      && PHYS_MAP_BASE + 0x2E00_0000 == FRAMEBUF_VBASE && BufferPages(b) == 768
      && HeapTranslation(Ranges(b, FRAMEBUF_VBASE), frames, HEAP_PAGES, FRAMEBUF_VBASE) == Some(0xFD00_0000)
  {
    hide Index;
    hide PhysAddr;
    hide LeafEntry;
    hide HeapTranslation;
    hide Ranges;
    hide BufferPages;
    hide Addr;
    hide Phys;
    hide NextPage;
    var b := Boot(kernelPhys, 0, 0xFD00_0000, 4096, 768);
    ShadowIndex();
    ShadowValue();
    ShadowPages(b);
    DirectMap(b, frames, FRAMEBUF_VBASE);
  }

  lemma ShadowPages(b: Boot)
    requires b.fbBase == 0xFD00_0000 && b.fbPitch == 4096 && b.fbHeight == 768
    ensures BufferPages(b) == 768
  {
  }

  lemma ShadowIndex()
    ensures Index(PHYS_MAP_BASE, FRAMEBUF_VBASE) == BUFFER_SHADOW
  {
    hide PageNumber;
    Bases();
  }

  lemma ShadowValue()
    ensures PhysAddr(LeafEntry(0xFD00_0000, UNCACHED), FRAMEBUF_VBASE) == 0xFD00_0000
    ensures PHYS_MAP_BASE + 0x2E00_0000 == FRAMEBUF_VBASE
  {
  }
}
