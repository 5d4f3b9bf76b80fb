/**
 * The operations of kernel/mm/heap.c as steps of a state machine over block lists, with pointers
 * named by address as callers name them.
 */
module HeapSteps {
  import opened Wrappers
  import opened HeapModel
  import opened HeapLinks

  const KERNEL_HEAP_SIZE: nat := 0x1000_0000
  const PAGE_SIZE: nat := 4096

  /** The blocks in address order and the size of the heap, or a heap whose list a copy tore. */
  datatype Layout = Layout(blocks: seq<Block>, total: nat) | Torn

  datatype Op = Alloc(size: nat) | Zalloc(size: nat) | Free(ptr: nat) | Realloc(ptr: nat, size: nat) | Expand(pages: nat)

  /** heap_init */
  ghost function Init(): Layout
  {
    Layout([Block(256 * PAGE_SIZE - HDR, true)], 256 * PAGE_SIZE)
  }

  // ---------- the first fit ----------

  ghost function FirstFitIn(bs: seq<Block>, n: nat): (i: nat)
    requires SomeFit(bs, n)
    ensures FirstFit(bs, n, i)
  {
    FirstFitExists(bs, n);
    var i: nat :| FirstFit(bs, n, i);
    i
  }

  lemma {:induction false} FirstFitExists(bs: seq<Block>, n: nat)
    requires SomeFit(bs, n)
    ensures exists i: nat :: FirstFit(bs, n, i)
  {
    var k: nat :| k < |bs| && FitsIn(bs[k], n);
    var i: nat := 0;
    while i < k && !FitsIn(bs[i], n)
      invariant i <= k && forall j :: 0 <= j < i ==> !FitsIn(bs[j], n)
    {
      i := i + 1;
    }
    assert FirstFit(bs, n, i);
  }

  lemma FirstFitUnique(bs: seq<Block>, n: nat, i: nat)
    requires FirstFit(bs, n, i)
    ensures SomeFit(bs, n) && FirstFitIn(bs, n) == i
  {
  }

  // ---------- live pointers ----------

  /** The live block that ptr points to. */
  ghost function IndexOf(bs: seq<Block>, ptr: nat): Option<nat>
  {
    if exists k: nat :: LivePtr(bs, k, ptr) then
      var k: nat :| LivePtr(bs, k, ptr);
      Some(k)
    else
      None
  }

  lemma IndexUnique(bs: seq<Block>, k: nat, ptr: nat)
    requires LivePtr(bs, k, ptr)
    ensures IndexOf(bs, ptr) == Some(k)
  {
    hide Addr;
    var j := IndexOf(bs, ptr).value;
    assert LivePtr(bs, j, ptr);
    if j != k { AddrApart(bs, j, k); }
  }

  lemma {:induction false} AddrPositive(bs: seq<Block>, i: nat)
    requires i <= |bs|
    ensures Addr(bs, i) >= BASE > 0
  {
    if i > 0 { AddrMono(bs, 0, i); }
  }

  lemma NullNotLive(bs: seq<Block>)
    ensures IndexOf(bs, 0) == None
  {
    hide Addr;
    forall k: nat | k <= |bs|
      ensures Addr(bs, k) > 0
    {
      AddrPositive(bs, k);
    }
  }

  /** A live allocation of size bytes at ptr. */
  ghost predicate Live(h: Layout, ptr: nat, size: nat)
  {
    h.Layout? && exists k: nat :: LivePtr(h.blocks, k, ptr) && h.blocks[k].size == size
  }

  // ---------- steps ----------

  /** The payload size of a block of which n bytes are asked for. */
  function TakenSize(b: Block, n: nat): nat
  {
    if b.size >= n + HDR + MIN_BLOCK then n else b.size
  }

  /** The index of block k after block t was taken. */
  ghost function Moved(bs: seq<Block>, t: nat, n: nat, k: nat): nat
    requires t < |bs| && bs[t].size >= n
  {
    if k < t then k else k + |Pieces(bs[t], n)| - 1
  }

  /** An allocation that finds no block, a pointer that is not live and an expansion that does not fit
      change nothing. */
  ghost function Step(h: Layout, op: Op): Layout
    requires h.Layout? ==> h.blocks != []
  {
    if h.Torn? then Torn else
    match op
    case Alloc(size) => h.(blocks := AllocIn(h.blocks, size))
    case Zalloc(size) => if ZeroOverruns(h.blocks, size) then Torn else h.(blocks := AllocIn(h.blocks, size))
    case Free(ptr) =>
      (match IndexOf(h.blocks, ptr)
       case None => h
       case Some(i) => h.(blocks := Release(h.blocks, i)))
    case Realloc(ptr, size) =>
      if ptr == 0 then h.(blocks := AllocIn(h.blocks, size)) else
      (match IndexOf(h.blocks, ptr)
       case None => h
       case Some(i) => ReallocIn(h, i, size))
    case Expand(p) =>
      var bytes := p * PAGE_SIZE;
      if p > 0 && h.total + bytes <= KERNEL_HEAP_SIZE then Layout(Grow(h.blocks, bytes - HDR), h.total + bytes) else h
  }

  ghost function AllocIn(bs: seq<Block>, size: nat): seq<Block>
  {
    var n := Align16(size);
    if size > 0 && SomeFit(bs, n) then Take(bs, FirstFitIn(bs, n), n) else bs
  }

  ghost function ReallocIn(h: Layout, i: nat, size: nat): Layout
    requires h.Layout? && i < |h.blocks|
  {
    var n := Align16(size);
    if size == 0 then h.(blocks := Release(h.blocks, i))
    else if h.blocks[i].size >= size || !SomeFit(h.blocks, n) then h
    else if Overruns(h.blocks, i, size) then Torn
    else h.(blocks := MoveIn(h.blocks, i, n))
  }

  /** Block i is freed after the first fit for n bytes was taken in its place. */
  ghost function MoveIn(bs: seq<Block>, i: nat, n: nat): seq<Block>
    requires i < |bs| && SomeFit(bs, n)
  {
    var t := FirstFitIn(bs, n);
    MovedInside(bs, t, n, i);
    Release(Take(bs, t, n), Moved(bs, t, n, i))
  }

  lemma MovedInside(bs: seq<Block>, t: nat, n: nat, k: nat)
    requires t < |bs| && bs[t].size >= n && k < |bs|
    ensures Moved(bs, t, n, k) < |Take(bs, t, n)|
  {
    SpliceParts(bs, t, t + 1, Pieces(bs[t], n));
  }

  // ---------- sizes that wrap around ----------

  /** kzalloc clears more than the block it takes can hold. */
  ghost predicate ZeroOverruns(bs: seq<Block>, size: nat)
  {
    var n := Align16(size);
    size > 0 && SomeFit(bs, n) && TakenSize(bs[FirstFitIn(bs, n)], n) < size
  }

  /** That happens exactly for a size above 2^64 - 16, which rounds up to 0, on a heap with a free block. */
  lemma ZeroOverrunsExactly(bs: seq<Block>, size: nat)
    requires size < U64
    ensures ZeroOverruns(bs, size) <==> size > U64 - 16 && exists t :: 0 <= t < |bs| && bs[t].free
  {
    hide Align16;
    Align16Enough(size);
    if size > U64 - 16 {
      if t :| 0 <= t < |bs| && bs[t].free {
        assert FitsIn(bs[t], 0);
      }
    }
  }

  /** krealloc copies more than the block it takes can hold. */
  ghost predicate Overruns(bs: seq<Block>, i: nat, size: nat)
    requires i < |bs|
  {
    && bs[i].size < size && SomeFit(bs, Align16(size))
    && TakenSize(bs[FirstFitIn(bs, Align16(size))], Align16(size)) < bs[i].size
  }

  /** That happens exactly for a size above 2^64 - 16, which rounds up to 0, when the block is not empty
      and the first free block is smaller than it, or large enough to be split into an empty block and
      the rest. */
  lemma OverrunsExactly(bs: seq<Block>, i: nat, size: nat)
    requires i < |bs| && bs[i].size <= U64 - 16 && size < U64
    ensures Overruns(bs, i, size) <==>
      && size > U64 - 16 && bs[i].size > 0
      && exists t: nat :: FirstFit(bs, 0, t) && (bs[t].size < bs[i].size || bs[t].size >= HDR + MIN_BLOCK)
  {
    hide Align16;
    Align16Enough(size);
    if size > U64 - 16 {
      if t: nat :| FirstFit(bs, 0, t) {
        FirstFitUnique(bs, 0, t);
        assert Overruns(bs, i, size) <==> bs[i].size > 0 && (bs[t].size < bs[i].size || bs[t].size >= HDR + MIN_BLOCK);
      }
      if SomeFit(bs, 0) { FirstFitExists(bs, 0); }
    }
  }

  /** No block list at all is linked in these headers. */
  ghost predicate NoList(hdr: Headers)
  {
    forall bs :: bs != [] ==> !Linked(hdr, bs)
  }

  /** Copying past the end of a block's payload destroys the header behind it, and with it the list. */
  lemma OverrunTears(hdr: Headers, bs: seq<Block>, t: nat, n: nat)
    requires Linked(hdr, bs) && t + 1 < |bs| && bs[t].size < n
    ensures NoList(KeepHeaders(hdr, Addr(bs, t) + HDR, n))
  {
    hide Addr;
    hide Linked;
    hide KeepHeaders;
    var hdr' := KeepHeaders(hdr, Addr(bs, t) + HDR, n);
    forall cs | cs != []
      ensures !Linked(hdr', cs)
    {
      if Linked(hdr', cs) {
        KeptSame(hdr, Addr(bs, t) + HDR, n);
        SameChain(hdr, hdr', bs, cs, t + 1);
        LinkedHas(hdr', cs, t + 1);
        HeaderHit(hdr, bs, t, n);
        assert false;
      }
    }
  }

  lemma LinkedHas(hdr: Headers, bs: seq<Block>, k: nat)
    requires Linked(hdr, bs) && k < |bs|
    ensures Addr(bs, k) in hdr && hdr[Addr(bs, k)] == HeaderOf(bs, k)
  {
  }

  lemma KeptSame(hdr: Headers, a: nat, n: nat)
    ensures forall x :: x in KeepHeaders(hdr, a, n) ==> x in hdr && KeepHeaders(hdr, a, n)[x] == hdr[x]
  {
  }

  lemma HeaderHit(hdr: Headers, bs: seq<Block>, t: nat, n: nat)
    requires t + 1 < |bs| && bs[t].size < n
    ensures Addr(bs, t + 1) !in KeepHeaders(hdr, Addr(bs, t) + HDR, n)
  {
  }

  /** Two lists linked in the same headers are the same list as far as one of them goes. */
  lemma {:induction false} SameChain(hdr: Headers, hdr': Headers, bs: seq<Block>, cs: seq<Block>, k: nat)
    requires Linked(hdr, bs) && Linked(hdr', cs) && cs != [] && k < |bs|
    requires forall x :: x in hdr' ==> x in hdr && hdr'[x] == hdr[x]
    ensures k < |cs| && Addr(cs, k) == Addr(bs, k)
  {
    hide Linked;
    if k > 0 {
      SameChain(hdr, hdr', bs, cs, k - 1);
      LinkedHas(hdr, bs, k - 1);
      LinkedHas(hdr', cs, k - 1);
      AddrPositive(bs, k);
      assert NextOf(cs, k - 1) == NextOf(bs, k - 1) == Addr(bs, k);
    }
  }

  lemma TakenIs(bs: seq<Block>, t: nat, n: nat)
    requires t < |bs| && bs[t].size >= n
    ensures t < |Take(bs, t, n)| && Take(bs, t, n)[t].size == TakenSize(bs[t], n)
  {
  }

  /** What an overrun leaves: a live block that is too small for the length bytes written to it, and either
      no list that is linked any more or, where that block is the last, bytes written outside the heap. */
  ghost predicate TornBy(bs: seq<Block>, size: nat, length: nat, hdr: Headers, r: nat)
    requires SomeFit(bs, Align16(size))
  {
    var n := Align16(size);
    var t := FirstFitIn(bs, n);
    var bs' := Take(bs, t, n);
    && LivePtr(bs', t, r) && bs'[t].size < length
    && if t + 1 < |bs'| then NoList(hdr) else r + length > Addr(bs', |bs'|)
  }

  lemma OverrunShown(bs: seq<Block>, size: nat, length: nat, t: nat, hdr: Headers)
    requires FirstFit(bs, Align16(size), t) && TakenSize(bs[t], Align16(size)) < length
    requires Linked(hdr, Take(bs, t, Align16(size))) && t < |Take(bs, t, Align16(size))| && !Take(bs, t, Align16(size))[t].free
    ensures SomeFit(bs, Align16(size))
    ensures var r := Addr(Take(bs, t, Align16(size)), t) + HDR; TornBy(bs, size, length, KeepHeaders(hdr, r, length), r)
  {
    hide Align16;
    hide Take;
    hide Linked;
    hide NoList;
    hide KeepHeaders;
    var n := Align16(size);
    FirstFitUnique(bs, n, t);
    TakenIs(bs, t, n);
    if t + 1 < |Take(bs, t, n)| { OverrunTears(hdr, Take(bs, t, n), t, length); }
  }
}
