/**
 * The physical page allocator of kernel/mm/pmm.c: a bitmap with one bit for each 4 KiB
 * page of the first 4 GiB, clear where the page is free, and three page counters.
 */
module Pmm {
  import opened Wrappers
  import opened Bitmap

  const PAGE_SIZE: nat := 4096
  const MAX_PAGES: nat := 0x10_0000
  const FIRST_PAGE: nat := 256
  const U64: nat := 0x1_0000_0000_0000_0000

  /** A memory map descriptor: its type, first physical address and number of pages. */
  datatype MapEntry = MapEntry(kind: nat, physStart: nat, numPages: nat)

  const MMAP_USABLE: nat := 7

  /** The pages pmm_init frees for a usable descriptor, in 64-bit arithmetic. */
  function FirstPage(e: MapEntry): nat
  {
    ((e.physStart + (PAGE_SIZE - 1)) % U64) / PAGE_SIZE
  }

  function EndPage(e: MapEntry): nat
  {
    var end := ((e.physStart + e.numPages * PAGE_SIZE) % U64) / PAGE_SIZE;
    if end > MAX_PAGES then MAX_PAGES else end
  }

  ghost function Pages(e: MapEntry): set<nat>
  {
    if e.kind == MMAP_USABLE && FirstPage(e) < EndPage(e)
    then Range(FirstPage(e), EndPage(e) - FirstPage(e)) else {}
  }

  ghost function AllPages(es: seq<MapEntry>): set<nat>
  {
    if es == [] then {} else AllPages(es[..|es| - 1]) + Pages(es[|es| - 1])
  }

  /** The sum of the region sizes: what total_pages counts. */
  ghost function TotalPages(es: seq<MapEntry>): nat
  {
    if es == [] then 0 else TotalPages(es[..|es| - 1]) + |Pages(es[|es| - 1])|
  }

  ghost predicate Disjoint(es: seq<MapEntry>)
  {
    forall i, j :: 0 <= i < j < |es| ==> Pages(es[i]) !! Pages(es[j])
  }

  lemma {:induction false} InAllPages(es: seq<MapEntry>, i: nat)
    requires i < |es|
    ensures Pages(es[i]) <= AllPages(es)
  {
    if i < |es| - 1 { InAllPages(es[..|es| - 1], i); }
  }

  lemma {:induction false} FromAllPages(es: seq<MapEntry>, p: nat) returns (i: nat)
    requires p in AllPages(es)
    ensures i < |es| && p in Pages(es[i])
  {
    if p in Pages(es[|es| - 1]) { i := |es| - 1; } else { i := FromAllPages(es[..|es| - 1], p); }
  }

  lemma UnionSize(a: set<nat>, b: set<nat>)
    ensures |a + b| <= |a| + |b|
    ensures |a + b| == |a| + |b| <==> a !! b
  {
    assert a + b == a + (b - a);
    assert |a + b| == |a| + |b - a|;
    assert b == (b - a) + (a * b);
    assert |b| == |b - a| + |a * b|;
    if !(a !! b) {
      var x :| x in a && x in b;
      assert x in a * b;
    }
  }

  lemma {:induction false} DisjointStep(es: seq<MapEntry>)
    requires es != []
    ensures var n := |es| - 1;
      Disjoint(es) <==> Disjoint(es[..n]) && AllPages(es[..n]) !! Pages(es[n])
  {
    var n := |es| - 1;
    var pre, e := es[..n], es[n];
    if Disjoint(es) {
      assert forall i, j :: 0 <= i < j < n ==> Pages(es[i]) !! Pages(es[j]);
      forall p | p in AllPages(pre)
        ensures p !in Pages(e)
      {
        var i := FromAllPages(pre, p);
        assert Pages(es[i]) !! Pages(es[n]);
      }
    }
    if Disjoint(pre) && AllPages(pre) !! Pages(e) {
      forall i, j | 0 <= i < j < |es|
        ensures Pages(es[i]) !! Pages(es[j])
      {
        if j == n { InAllPages(pre, i); } else { assert Pages(pre[i]) !! Pages(pre[j]); }
      }
    }
  }

  /** The region sizes add up to the number of usable pages exactly when no regions overlap. */
  lemma {:induction false} TotalIsUnion(es: seq<MapEntry>)
    ensures TotalPages(es) >= |AllPages(es)|
    ensures TotalPages(es) == |AllPages(es)| <==> Disjoint(es)
  {
    if es != [] {
      hide Pages;
      hide Disjoint;
      TotalIsUnion(es[..|es| - 1]);
      UnionSize(AllPages(es[..|es| - 1]), Pages(es[|es| - 1]));
      DisjointStep(es);
    }
  }

  lemma TwoPages(p: nat)
    requires p == 512 || p == 513
    ensures Pages(MapEntry(MMAP_USABLE, p * PAGE_SIZE, 2)) == {p, p + 1}
  {
    var e := MapEntry(MMAP_USABLE, p * PAGE_SIZE, 2);
    assert FirstPage(e) == p && EndPage(e) == p + 2;
    hide FirstPage;
    hide EndPage;
  }

  lemma PagesOfTwo(a: MapEntry, b: MapEntry)
    ensures AllPages([a, b]) == Pages(a) + Pages(b) && TotalPages([a, b]) == |Pages(a)| + |Pages(b)|
  {
    hide Pages;
    assert [a, b][..1] == [a] && [a][..0] == [];
    assert AllPages([a]) == AllPages([]) + Pages(a) && TotalPages([a]) == TotalPages([]) + |Pages(a)|;
  }

  /** Two usable regions of two pages that share one: three pages, counted as four. */
  lemma OverlapCountedTwice()
    ensures var es := [MapEntry(MMAP_USABLE, 512 * PAGE_SIZE, 2), MapEntry(MMAP_USABLE, 513 * PAGE_SIZE, 2)];
      !Disjoint(es) && TotalPages(es) == 4 && AllPages(es) == {512, 513, 514}
  {
    hide Pages;
    hide AllPages;
    hide TotalPages;
    var a, b := MapEntry(MMAP_USABLE, 512 * PAGE_SIZE, 2), MapEntry(MMAP_USABLE, 513 * PAGE_SIZE, 2);
    TwoPages(512);
    TwoPages(513);
    PagesOfTwo(a, b);
    assert 513 in Pages([a, b][0]) && 513 in Pages([a, b][1]);
  }

  /** count free pages from b on. */
  ghost predicate RunAt(free: set<nat>, b: nat, count: nat)
  {
    Range(b, count) <= free
  }

  /** A run of free pages lies below the first page above all free ones. */
  lemma RunFits(free: set<nat>, highest: nat, count: nat)
    requires count > 0 && forall p :: p in free ==> p < highest
    ensures forall b: nat :: RunAt(free, b, count) <==> Fits(free, highest, b, count)
    ensures forall b: nat :: Fits(free, highest, b, count) ==> b + count <= highest
  {
    forall b: nat | RunAt(free, b, count)
      ensures Fits(free, highest, b, count)
    {
      assert b + count - 1 in Range(b, count);
    }
  }

  /** uint64_t subtraction. */
  function Minus64(a: nat, b: nat): (r: nat)
    requires a < U64 && b < U64
    ensures r < U64
  {
    if a >= b then a - b else a + U64 - b
  }

  function Inc64(n: nat): nat
  {
    if n + 1 == U64 then 0 else n + 1
  }

  function Dec64(n: nat): nat
  {
    if n == 0 then U64 - 1 else n - 1
  }

  function Plus64(a: nat, b: nat): (r: nat)
    requires a < U64 && b < U64
    ensures r < U64
  {
    if a + b < U64 then a + b else a + b - U64
  }

  /** Taking r out of the free pages and adding its size to the used ones. */
  lemma TakeCounts(total: nat, used: nat, free: set<nat>, r: set<nat>)
    requires total < U64 && used < U64 && r <= free && |free| <= MAX_PAGES
    requires Minus64(total, used) == |free|
    ensures |r| <= MAX_PAGES && Minus64(total, Plus64(used, |r|)) == |free - r|
  {
    UnionSize(free - r, r);
    assert free == (free - r) + r;
  }

  /** Returning r to the free pages and subtracting its size from the used ones. */
  lemma ReturnCounts(total: nat, used: nat, free: set<nat>, r: set<nat>)
    requires total < U64 && used < U64 && |free| <= MAX_PAGES && |r| <= MAX_PAGES
    requires Minus64(total, used) == |free|
    ensures Minus64(total, Minus64(used, |r|)) == |free + r| <==> r !! free
  {
    UnionSize(free, r);
  }

  function KernelStart(kernStart: nat): nat
  {
    kernStart / PAGE_SIZE
  }

  function KernelPages(kernStart: nat, kernEnd: nat): nat
    requires kernStart <= kernEnd
  {
    (kernEnd - kernStart + (PAGE_SIZE - 1)) / PAGE_SIZE
  }

  lemma {:induction false} TotalMono(es: seq<MapEntry>, i: nat)
    requires i <= |es|
    ensures TotalPages(es[..i]) <= TotalPages(es)
    decreases |es|
  {
    if i < |es| {
      TotalMono(es[..|es| - 1], i);
      assert es[..|es| - 1][..i] == es[..i];
    } else {
      assert es[..i] == es;
    }
  }

  lemma NoRegions(es: seq<MapEntry>)
    requires es == []
    ensures AllPages(es) == {} && TotalPages(es) == 0
  {
  }

  lemma OneRegion(es: seq<MapEntry>, i: nat)
    requires i < |es|
    ensures AllPages(es[..i + 1]) == AllPages(es[..i]) + Pages(es[i])
    ensures TotalPages(es[..i + 1]) == TotalPages(es[..i]) + |Pages(es[i])|
    ensures es[i].kind != MMAP_USABLE ==> Pages(es[i]) == {}
  {
    assert es[..i + 1][..i] == es[..i];
  }

  lemma PagesSize(e: MapEntry)
    requires e.kind == MMAP_USABLE
    ensures EndPage(e) <= MAX_PAGES
    ensures FirstPage(e) < EndPage(e) ==>
      Pages(e) == Range(FirstPage(e), EndPage(e) - FirstPage(e)) && |Pages(e)| == EndPage(e) - FirstPage(e)
    ensures FirstPage(e) >= EndPage(e) ==> Pages(e) == {}
  {
    if FirstPage(e) < EndPage(e) { RangeSize(FirstPage(e), EndPage(e) - FirstPage(e)); }
  }

  /** How many of the n pages from start on are in s. */
  ghost function CountIn(s: set<nat>, start: nat, n: nat): nat
  {
    if n == 0 then 0 else CountIn(s, start, n - 1) + if start + n - 1 in s then 1 else 0
  }

  lemma {:induction false} CountIs(s: set<nat>, start: nat, n: nat)
    ensures CountIn(s, start, n) == |s * Range(start, n)|
  {
    hide Range;
    if n == 0 {
      MeetNone(s, start);
    } else {
      CountIs(s, start, n - 1);
      MeetLast(s, start, n);
    }
  }

  lemma MeetNone(s: set<nat>, start: nat)
    ensures |s * Range(start, 0)| == 0
  {
    assert s * Range(start, 0) == {};
  }

  lemma MeetLast(s: set<nat>, start: nat, n: nat)
    requires n > 0
    ensures |s * Range(start, n)| == |s * Range(start, n - 1)| + if start + n - 1 in s then 1 else 0
  {
    hide Range;
    RangeLast(start, n);
    OneMore(s, Range(start, n - 1), start + n - 1);
  }

  lemma RangeLast(start: nat, n: nat)
    requires n > 0
    ensures Range(start, n) == Range(start, n - 1) + {start + n - 1} && start + n - 1 !in Range(start, n - 1)
  {
  }

  lemma OneMore(s: set<nat>, r: set<nat>, p: nat)
    requires p !in r
    ensures |s * (r + {p})| == |s * r| + if p in s then 1 else 0
  {
    assert s * (r + {p}) == if p in s then s * r + {p} else s * r;
  }

  lemma DisjointSize(a: set<nat>, b: set<nat>)
    requires a !! b
    ensures |a + b| == |a| + |b|
  {
  }

  lemma SplitSize(s: set<nat>, a: set<nat>)
    ensures |s| == |s * a| + |s - a|
  {
    assert s == s * a + (s - a);
    DisjointSize(s * a, s - a);
  }

  lemma ReserveArith(total: nat, n: nat, x: nat, y: nat, z: nat)
    requires total < U64 && n == x + y + z <= total && n <= MAX_PAGES
    ensures x + y < U64 && (Minus64(total, x + y) == z <==> total == n)
  {
  }

  lemma ReserveSizes(free: set<nat>, low: nat, first: nat, count: nat, z: set<nat>)
    requires z == free - Range(0, low) - Range(first, count)
    ensures |free| == CountIn(free, 0, low) + CountIn(free - Range(0, low), first, count) + |z|
  {
    hide Range;
    hide CountIn;
    CountIs(free, 0, low);
    CountIs(free - Range(0, low), first, count);
    SplitSize(free, Range(0, low));
    SplitSize(free - Range(0, low), Range(first, count));
  }

  class Pmm {
    const bitmap: array<bv64>
    var totalPages: nat
    var usedPages: nat
    var highestPage: nat

    ghost predicate Valid()
      reads this, bitmap
    {
      && 64 * bitmap.Length == MAX_PAGES && highestPage <= MAX_PAGES
      && totalPages < U64 && usedPages < U64
    }

    /** The free pages: those whose bit is clear. */
    ghost function Free(): (s: set<nat>)
      reads bitmap
    {
      Clear(bitmap[..])
    }

    /** The counters agree with the bitmap, and no page at or above highestPage is free. */
    ghost predicate Counted()
      requires Valid()
      reads this, bitmap
    {
      && Minus64(totalPages, usedPages) == |Free()|
      && (forall p :: p in Free() ==> p < highestPage)
    }

    /** pmm_init: everything is used, then usable regions are freed, then the first MiB and the
        kernel image are reserved. The counters agree with the bitmap exactly when no two usable
        regions overlap. */
    constructor (entries: seq<MapEntry>, kernStart: nat, kernEnd: nat)
      requires kernStart <= kernEnd && KernelStart(kernStart) + KernelPages(kernStart, kernEnd) <= MAX_PAGES
      requires TotalPages(entries) < U64
      ensures Valid() && fresh(bitmap)
      ensures totalPages == TotalPages(entries)
      ensures Free() == AllPages(entries) - Range(0, FIRST_PAGE)
                        - Range(KernelStart(kernStart), KernelPages(kernStart, kernEnd))
      ensures Counted() <==> Disjoint(entries)
    {
      bitmap := new bv64[MAX_PAGES / 64];
      totalPages, usedPages, highestPage := 0, 0, 0;
      new;
      hide Clear;
      hide Range;
      hide CountIn;
      hide KernelStart;
      hide KernelPages;
      SetAll(bitmap);
      FreeRegions(entries);
      TotalIsUnion(entries);
      ClearSize(bitmap[..]);
      hide AllPages;
      hide TotalPages;
      hide Disjoint;
      var first, count := KernelStart(kernStart), KernelPages(kernStart, kernEnd);
      ghost var free := Free();
      Reserve(0, FIRST_PAGE);
      ghost var x := usedPages;
      Reserve(first, count);
      ghost var y := usedPages - x;
      ReserveSizes(free, FIRST_PAGE, first, count, Free());
      ReserveArith(totalPages, |free|, x, y, |Free()|);
    }

    /** The loop of pmm_init over the memory map. */
    method FreeRegions(entries: seq<MapEntry>)
      requires Valid() && Free() == {} && totalPages == 0 && TotalPages(entries) < U64
      modifies bitmap, this`totalPages, this`highestPage
      ensures Valid() && Free() == AllPages(entries) && totalPages == TotalPages(entries)
      ensures forall p :: p in Free() ==> p < highestPage
    {
      hide Clear;
      hide Pages;
      hide AllPages;
      hide TotalPages;
      var i := 0;
      NoRegions(entries[..0]);
      while i < |entries|
        invariant i <= |entries| && Valid()
        invariant Free() == AllPages(entries[..i]) && totalPages == TotalPages(entries[..i])
        invariant forall p :: p in Free() ==> p < highestPage
      {
        OneRegion(entries, i);
        TotalMono(entries, i + 1);
        if entries[i].kind == MMAP_USABLE {
          FreeRegion(entries[i]);
        }
        i := i + 1;
      }
      assert entries[..i] == entries;
    }

    method FreeRegion(e: MapEntry)
      requires Valid() && e.kind == MMAP_USABLE && totalPages + |Pages(e)| < U64
      requires forall p :: p in Free() ==> p < highestPage
      modifies bitmap, this`totalPages, this`highestPage
      ensures Valid() && Free() == old(Free()) + Pages(e) && totalPages == old(totalPages) + |Pages(e)|
      ensures forall p :: p in Free() ==> p < highestPage
    {
      hide Clear;
      hide FirstPage;
      hide EndPage;
      hide Pages;
      PagesSize(e);
      var first, end := FirstPage(e), EndPage(e);
      if first < end {
        FreeRun(first, end);
      }
      if end > highestPage {
        highestPage := end;
      }
    }

    method FreeRun(first: nat, end: nat)
      requires Valid() && first <= end <= MAX_PAGES && totalPages + (end - first) < U64
      modifies bitmap, this`totalPages
      ensures Valid() && Free() == old(Free()) + Range(first, end - first)
      ensures totalPages == old(totalPages) + (end - first)
    {
      hide Clear;
      var p := first;
      while p < end
        invariant first <= p <= end
        invariant Free() == old(Free()) + Range(first, p - first)
        invariant totalPages == old(totalPages) + (p - first)
      {
        Reset(bitmap, p);
        totalPages := totalPages + 1;
        p := p + 1;
      }
    }

    /** A reservation loop of pmm_init. */
    method Reserve(start: nat, count: nat)
      requires Valid() && start + count <= MAX_PAGES && usedPages + count < U64
      modifies bitmap, this`usedPages
      ensures Valid() && Free() == old(Free()) - Range(start, count)
      ensures usedPages == old(usedPages) + CountIn(old(Free()), start, count) <= old(usedPages) + count
    {
      hide Clear;
      hide Test;
      ghost var free := Free();
      var p := start;
      while p < start + count
        invariant start <= p <= start + count
        invariant Free() == free - Range(start, p - start)
        invariant usedPages == old(usedPages) + CountIn(free, start, p - start)
        invariant CountIn(free, start, p - start) <= p - start
      {
        TestIsUsed(bitmap[..], p);
        if !Test(bitmap[..], p) {
          Set(bitmap, p);
          usedPages := usedPages + 1;
        }
        p := p + 1;
      }
    }

    /** pmm_alloc_page: the lowest free page from page 256 on, as an address; 0 if there is none. */
    method AllocPage() returns (phys: nat)
      requires Valid() && Counted()
      modifies bitmap, this`usedPages
      ensures Valid() && Counted()
      ensures phys == 0 <==> forall p :: p in old(Free()) ==> p < FIRST_PAGE
      ensures phys == 0 ==> Free() == old(Free()) && usedPages == old(usedPages)
      ensures phys != 0 ==>
        && phys % PAGE_SIZE == 0 && FIRST_PAGE <= phys / PAGE_SIZE < highestPage
        && phys / PAGE_SIZE in old(Free())
        && (forall p :: p in old(Free()) && p >= FIRST_PAGE ==> phys / PAGE_SIZE <= p)
        && Free() == old(Free()) - {phys / PAGE_SIZE} && usedPages == Inc64(old(usedPages))
      ensures forall live :: Step(Pool(old(Free()), live), AllocOne) == Pool(Free(), Handed(live, phys, 1))
    {
      hide Clear;
      var page := FindClear(bitmap, highestPage, FIRST_PAGE);
      if page.None? {
        NoPage(Free());
        return 0;
      }
      FirstIsLowest(Free(), page.value);
      Set(bitmap, page.value);
      usedPages := Inc64(usedPages);
      phys := page.value * PAGE_SIZE;
    }

    /** pmm_free_page, whose two assertions are the preconditions. */
    method FreePage(phys: nat)
      requires Valid() && Counted()
      requires phys / PAGE_SIZE < highestPage && phys / PAGE_SIZE !in Free()
      modifies bitmap, this`usedPages
      ensures Valid() && Counted()
      ensures Free() == old(Free()) + {phys / PAGE_SIZE} && usedPages == Dec64(old(usedPages))
      ensures forall live, i :: 0 <= i < |live| && live[i] == Block(phys / PAGE_SIZE, 1) ==>
        Step(Pool(old(Free()), live), Release(i)) == Pool(Free(), Removed(live, i))
    {
      hide Clear;
      hide Removed;
      OnePage(phys / PAGE_SIZE);
      Reset(bitmap, phys / PAGE_SIZE);
      ClearSize(bitmap[..]);
      usedPages := Dec64(usedPages);
    }

    /** pmm_alloc_pages: the lowest run of count free pages from page 256 on; 0 if none fits.
        A count of zero is never satisfied. */
    method AllocPages(count: nat) returns (phys: nat)
      requires Valid() && Counted()
      modifies bitmap, this`usedPages
      ensures Valid() && Counted()
      ensures phys == 0 <==> count == 0 || forall b :: b >= FIRST_PAGE ==> !RunAt(old(Free()), b, count)
      ensures phys == 0 ==> Free() == old(Free()) && usedPages == old(usedPages)
      ensures phys != 0 ==>
        var b := phys / PAGE_SIZE;
        && phys % PAGE_SIZE == 0 && b >= FIRST_PAGE && b + count <= highestPage
        && RunAt(old(Free()), b, count)
        && (forall b' :: FIRST_PAGE <= b' < b ==> !RunAt(old(Free()), b', count))
        && Free() == old(Free()) - Range(b, count)
      ensures forall live :: Step(Pool(old(Free()), live), Alloc(count)) == Pool(Free(), Handed(live, phys, count))
    {
      hide Clear;
      hide Fits;
      hide RunAt;
      var base := FindClearRange(bitmap, highestPage, count, FIRST_PAGE);
      if count > 0 { RunFits(Free(), highestPage, count); }
      if base.None? {
        LowestNone(Free(), count);
        phys := 0;
      } else {
        LowestUnique(Free(), count, base.value);
        Take(base.value, count);
        phys := base.value * PAGE_SIZE;
      }
    }

    method Take(base: nat, count: nat)
      requires Valid() && Counted() && RunAt(Free(), base, count) && base + count <= MAX_PAGES
      modifies bitmap, this`usedPages
      ensures Valid() && Counted() && Free() == old(Free()) - Range(base, count)
    {
      hide Clear;
      ClearSize(bitmap[..]);
      RangeSize(base, count);
      TakeCounts(totalPages, usedPages, Free(), Range(base, count));
      SetRange(bitmap, base, count);
      usedPages := Plus64(usedPages, count);
    }

    /** pmm_free_pages, which asserts nothing. The counters keep agreeing with the bitmap exactly
        when none of the pages was free and none lies at or above highestPage. */
    method FreePages(phys: nat, count: nat)
      requires Valid() && Counted() && phys / PAGE_SIZE + count <= MAX_PAGES
      modifies bitmap, this`usedPages
      ensures Valid() && Free() == old(Free()) + Range(phys / PAGE_SIZE, count)
      ensures Counted() <==>
        Range(phys / PAGE_SIZE, count) !! old(Free()) && (count > 0 ==> phys / PAGE_SIZE + count <= highestPage)
      ensures forall live, i :: 0 <= i < |live| && live[i] == Block(phys / PAGE_SIZE, count) ==>
        Step(Pool(old(Free()), live), Release(i)) == Pool(Free(), Removed(live, i))
    {
      hide Clear;
      ghost var free := Free();
      var b := phys / PAGE_SIZE;
      ClearSize(bitmap[..]);
      RangeSize(b, count);
      ReturnCounts(totalPages, usedPages, free, Range(b, count));
      ResetRange(bitmap, b, count);
      usedPages := Minus64(usedPages, count);
      if count > 0 { assert b + count - 1 in Range(b, count); }
    }

    /** pmm_get_free_pages */
    method FreeCount() returns (n: nat)
      requires Valid() && Counted()
      ensures n == |Free()|
    {
      n := Minus64(totalPages, usedPages);
    }
  }

  // ---------- live allocations over whole runs ----------

  /** Runs requests against the allocator, keeping the list of live allocations that the callers
      keep. The result is the model's run, and every page that was free at the start is free or in
      exactly one live allocation. */
  method Serve(pmm: Pmm, ops: seq<Op>) returns (live: seq<Block>)
    requires pmm.Valid() && pmm.Counted() && Runs(Pool(pmm.Free(), []), ops)
    modifies pmm.bitmap, pmm`usedPages
    ensures pmm.Valid() && pmm.Counted() && Pool(pmm.Free(), live) == Run(Pool(old(pmm.Free()), []), ops)
    ensures Partition(old(pmm.Free()), Pool(pmm.Free(), live))
  {
    hide Step;
    hide Partition;
    live := [];
    ghost var all := pmm.Free();
    PartitionStart(all);
    var k := 0;
    assert ops[0..] == ops;
    while k < |ops|
      invariant k <= |ops| && pmm.Valid() && pmm.Counted()
      invariant Runs(Pool(pmm.Free(), live), ops[k..])
      invariant Run(Pool(pmm.Free(), live), ops[k..]) == Run(Pool(all, []), ops)
      invariant Partition(all, Pool(pmm.Free(), live)) && all == old(pmm.Free())
      invariant forall p :: p in all ==> p < pmm.highestPage
    {
      assert ops[k..][0] == ops[k] && ops[k..][1..] == ops[k + 1..];
      StepPartition(all, Pool(pmm.Free(), live), ops[k]);
      live := ServeOne(pmm, live, ops[k], all);
      k := k + 1;
    }
  }

  /** One request: an allocation of one page or of several, or the release of a live allocation. */
  method ServeOne(pmm: Pmm, live: seq<Block>, op: Op, ghost all: set<nat>) returns (live': seq<Block>)
    requires pmm.Valid() && pmm.Counted() && Enabled(Pool(pmm.Free(), live), op)
    requires Partition(all, Pool(pmm.Free(), live)) && forall p :: p in all ==> p < pmm.highestPage
    modifies pmm.bitmap, pmm`usedPages
    ensures pmm.Valid() && pmm.Counted()
    ensures Pool(pmm.Free(), live') == Step(Pool(old(pmm.Free()), live), op)
  {
    hide Clear;
    hide Range;
    hide IsLowest;
    hide RunAt;
    hide Partition;
    hide Taken;
    match op
    case Alloc(count) =>
      var phys := pmm.AllocPages(count);
      live' := Handed(live, phys, count);
    case AllocOne =>
      var phys := pmm.AllocPage();
      live' := Handed(live, phys, 1);
    case Release(i) =>
      LiveUsed(all, Pool(pmm.Free(), live), i, pmm.highestPage);
      assert live[i].base * PAGE_SIZE / PAGE_SIZE == live[i].base;
      pmm.FreePages(live[i].base * PAGE_SIZE, live[i].count);
      live' := Removed(live, i);
  }

  /** A live allocation: a first page and a page count. */
  datatype Block = Block(base: nat, count: nat)

  /** Allocations made and not yet freed, and the pages free beside them. */
  datatype Pool = Pool(free: set<nat>, live: seq<Block>)

  datatype Op = Alloc(count: nat) | AllocOne | Release(index: nat)

  ghost predicate Enabled(s: Pool, op: Op)
  {
    op.Release? ==> op.index < |s.live|
  }

  /** b is the first place from page 256 on with count free pages in a row. */
  ghost predicate IsLowest(free: set<nat>, count: nat, b: nat)
  {
    && count > 0 && b >= FIRST_PAGE && RunAt(free, b, count)
    && forall b' :: FIRST_PAGE <= b' < b ==> !RunAt(free, b', count)
  }

  ghost function Lowest(free: set<nat>, count: nat): Option<nat>
  {
    if exists b :: IsLowest(free, count, b) then
      var b :| IsLowest(free, count, b);
      Some(b)
    else
      None
  }

  lemma LowestUnique(free: set<nat>, count: nat, b: nat)
    requires IsLowest(free, count, b)
    ensures Lowest(free, count) == Some(b)
  {
    hide RunAt;
    var c := Lowest(free, count).value;
    assert IsLowest(free, count, c);
  }

  lemma LowestNone(free: set<nat>, count: nat)
    requires count == 0 || forall b :: b >= FIRST_PAGE ==> !RunAt(free, b, count)
    ensures Lowest(free, count) == None
  {
  }

  lemma OnePage(p: nat)
    ensures Range(p, 1) == {p}
  {
  }

  lemma NoPage(free: set<nat>)
    requires forall p :: p in free ==> p < FIRST_PAGE
    ensures Lowest(free, 1) == None
  {
    forall b: nat | b >= FIRST_PAGE
      ensures !RunAt(free, b, 1)
    {
      assert b in Range(b, 1);
    }
    LowestNone(free, 1);
  }

  lemma FirstIsLowest(free: set<nat>, b: nat)
    requires b in free && b >= FIRST_PAGE && forall p :: p in free && p >= FIRST_PAGE ==> b <= p
    ensures Lowest(free, 1) == Some(b)
  {
    forall c: nat | FIRST_PAGE <= c < b
      ensures !RunAt(free, c, 1)
    {
      assert c in Range(c, 1);
    }
    LowestUnique(free, 1, b);
  }

  /** An allocation takes the lowest run of free pages, or fails and changes nothing; a release
      returns the pages of one live allocation. */
  ghost function Step(s: Pool, op: Op): Pool
    requires Enabled(s, op)
  {
    match op
    case Alloc(count) => Taken(s, count)
    case AllocOne => Taken(s, 1)
    case Release(i) => Pool(s.free + PagesOf(s.live[i]), Removed(s.live, i))
  }

  ghost function Taken(s: Pool, count: nat): Pool
  {
    match Lowest(s.free, count)
    case None => s
    case Some(b) => Pool(s.free - Range(b, count), s.live + [Block(b, count)])
  }

  /** The live allocations after a call returned phys, which is 0 for a failed one. */
  function Handed(live: seq<Block>, phys: nat, count: nat): seq<Block>
  {
    if phys == 0 then live else live + [Block(phys / PAGE_SIZE, count)]
  }

  ghost function PagesOf(b: Block): set<nat>
  {
    Range(b.base, b.count)
  }

  ghost predicate Apart(live: seq<Block>)
  {
    forall i, j :: 0 <= i < j < |live| ==> PagesOf(live[i]) !! PagesOf(live[j])
  }

  ghost predicate Away(live: seq<Block>, free: set<nat>)
  {
    forall i :: 0 <= i < |live| ==> live[i].count > 0 && PagesOf(live[i]) !! free
  }

  ghost predicate Held(live: seq<Block>, p: nat)
  {
    exists i :: 0 <= i < |live| && p in PagesOf(live[i])
  }

  /** Every page of all is free or in exactly one live allocation, and no other page is either. */
  ghost predicate Partition(all: set<nat>, s: Pool)
  {
    Apart(s.live) && Away(s.live, s.free) && forall p :: p in all <==> p in s.free || Held(s.live, p)
  }

  ghost predicate Runs(s: Pool, ops: seq<Op>)
    decreases |ops|
  {
    ops == [] || (Enabled(s, ops[0]) && Runs(Step(s, ops[0]), ops[1..]))
  }

  ghost function Run(s: Pool, ops: seq<Op>): Pool
    requires Runs(s, ops)
    decreases |ops|
  {
    if ops == [] then s else Run(Step(s, ops[0]), ops[1..])
  }

  lemma PartitionStart(all: set<nat>)
    ensures Partition(all, Pool(all, []))
  {
  }

  lemma TakenPartition(all: set<nat>, s: Pool, count: nat)
    requires Partition(all, s)
    ensures Partition(all, Taken(s, count))
  {
    hide Range;
    hide Held;
    hide Apart;
    hide Away;
    var l := Lowest(s.free, count);
    if l.Some? {
      assert IsLowest(s.free, count, l.value);
      var b := Block(l.value, count);
      assert PagesOf(b) <= s.free;
      AddApart(s.live, s.free, b);
      forall p: nat
        ensures Held(s.live + [b], p) <==> Held(s.live, p) || p in PagesOf(b)
      {
        AddHeld(s.live, b, p);
      }
    }
  }

  lemma AddApart(live: seq<Block>, free: set<nat>, b: Block)
    requires Apart(live) && Away(live, free) && b.count > 0 && PagesOf(b) <= free
    ensures Apart(live + [b]) && Away(live + [b], free - PagesOf(b))
  {
    hide PagesOf;
    assert forall i :: 0 <= i < |live| ==> PagesOf(live[i]) !! PagesOf(b);
  }

  lemma AddHeld(live: seq<Block>, b: Block, p: nat)
    ensures Held(live + [b], p) <==> Held(live, p) || p in PagesOf(b)
  {
    hide PagesOf;
    var live' := live + [b];
    assert live'[|live|] == b && forall i :: 0 <= i < |live| ==> live'[i] == live[i];
  }

  lemma ReleasePartition(all: set<nat>, s: Pool, i: nat)
    requires Partition(all, s) && i < |s.live|
    ensures Partition(all, Step(s, Release(i)))
  {
    hide PagesOf;
    hide Held;
    hide Apart;
    hide Away;
    RemoveApart(s.live, s.free, i);
    forall p: nat
      ensures Held(s.live, p) <==> Held(Removed(s.live, i), p) || p in PagesOf(s.live[i])
    {
      RemoveHeld(s.live, i, p);
    }
  }

  function Removed(live: seq<Block>, i: nat): seq<Block>
    requires i < |live|
  {
    live[..i] + live[i + 1..]
  }

  lemma RemovedAt(live: seq<Block>, i: nat)
    requires i < |live|
    ensures |Removed(live, i)| == |live| - 1
    ensures forall j :: 0 <= j < |live| - 1 ==> Removed(live, i)[j] == live[if j < i then j else j + 1]
  {
  }

  lemma RemoveApart(live: seq<Block>, free: set<nat>, i: nat)
    requires i < |live| && Apart(live) && Away(live, free)
    ensures Apart(Removed(live, i)) && Away(Removed(live, i), free + PagesOf(live[i]))
  {
    hide PagesOf;
    hide Removed;
    RemovedAt(live, i);
    var live' := Removed(live, i);
    forall j | 0 <= j < |live'|
      ensures live'[j].count > 0 && PagesOf(live'[j]) !! free + PagesOf(live[i])
    {
      var k := if j < i then j else j + 1;
      assert if k < i then PagesOf(live[k]) !! PagesOf(live[i]) else PagesOf(live[i]) !! PagesOf(live[k]);
    }
    forall j, k | 0 <= j < k < |live'|
      ensures PagesOf(live'[j]) !! PagesOf(live'[k])
    {
      var j', k' := if j < i then j else j + 1, if k < i then k else k + 1;
      assert PagesOf(live[j']) !! PagesOf(live[k']);
    }
  }

  lemma RemoveHeld(live: seq<Block>, i: nat, p: nat)
    requires i < |live|
    ensures Held(live, p) <==> Held(Removed(live, i), p) || p in PagesOf(live[i])
  {
    hide PagesOf;
    hide Removed;
    RemovedAt(live, i);
    var live' := Removed(live, i);
    if Held(live, p) && p !in PagesOf(live[i]) {
      var j :| 0 <= j < |live| && p in PagesOf(live[j]);
      assert live'[if j < i then j else j - 1] == live[j];
    }
  }

  lemma StepPartition(all: set<nat>, s: Pool, op: Op)
    requires Partition(all, s) && Enabled(s, op)
    ensures Partition(all, Step(s, op))
  {
    hide Partition;
    match op
    case Alloc(count) => TakenPartition(all, s, count);
    case AllocOne => TakenPartition(all, s, 1);
    case Release(i) => ReleasePartition(all, s, i);
  }

  /** The pages of a live allocation can be given back. */
  lemma LiveUsed(all: set<nat>, s: Pool, i: nat, highest: nat)
    requires Partition(all, s) && i < |s.live| && forall p :: p in all ==> p < highest
    ensures PagesOf(s.live[i]) !! s.free && s.live[i].base + s.live[i].count <= highest
  {
    var b := s.live[i];
    assert b.base + b.count - 1 in PagesOf(b) && Held(s.live, b.base + b.count - 1);
  }

  /** After any run of allocations and releases every page that was free at the start is free or in
      exactly one live allocation. */
  lemma {:induction false} RunPartition(all: set<nat>, s: Pool, ops: seq<Op>)
    requires Partition(all, s) && Runs(s, ops)
    ensures Partition(all, Run(s, ops))
    decreases |ops|
  {
    if ops != [] {
      StepPartition(all, s, ops[0]);
      RunPartition(all, Step(s, ops[0]), ops[1..]);
    }
  }
}
