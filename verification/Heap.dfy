/**
 * The kernel heap of kernel/mm/heap.c: a first-fit allocator over linked block headers, changed
 * in place. Memory is typed by its last write: a header read at an address that was overwritten by
 * payload bytes, or the other way round, does not verify.
 */
module Heap {
  import opened HeapModel
  import opened HeapLinks
  import opened HeapSteps
  import B = Bitmap
  import P = Pmm

  class Heap {
    var hdr: Headers
    var mem: Bytes
    var head: nat
    var total: nat
    var used: nat

    /** The blocks in address order. */
    ghost var blocks: seq<Block>

    /** The blocks tile the heap exactly and are linked in both directions, no two neighbours are
        free, and the counters count them. */
    ghost predicate Valid()
      reads this
    {
      && blocks != [] && head == BASE && Linked(hdr, blocks) && Coalesced(blocks)
      && Addr(blocks, |blocks|) == BASE + total && total % PAGE_SIZE == 0 && total <= KERNEL_HEAP_SIZE
      && used == Used(blocks)
    }

    /** The state the model's steps act on. */
    ghost function State(): Layout
      reads this
    {
      Layout(blocks, total)
    }

    /** heap_init: one free block over the first MiB. */
    constructor ()
      ensures Valid() && State() == Init() && total == 256 * PAGE_SIZE && used == 0 && blocks == [Block(total - HDR, true)]
    {
      var initial := 256 * PAGE_SIZE;
      hdr := map[BASE := Header(MAGIC, initial - HDR, true, 0, 0)];
      mem := map[];
      head := BASE;
      total := initial;
      used := 0;
      blocks := [Block(initial - HDR, true)];
      new;
      UsedOne(blocks[0]);
      assert Addr(blocks, 1) == Addr(blocks, 0) + HDR + blocks[0].size;
    }

    /** Writing a new header destroys what was in its 40 bytes. */
    method WriteHeader(a: nat, h: Header)
      modifies this`hdr, this`mem
      ensures hdr == KeepHeaders(old(hdr), a, HDR)[a := h] && mem == KeepBytes(old(mem), a, HDR)
    {
      hdr := KeepHeaders(hdr, a, HDR)[a := h];
      mem := KeepBytes(mem, a, HDR);
    }

    /** The owner of a payload byte writes it. */
    method Store(x: nat, v: bv8, ghost i: nat)
      requires Valid() && i < |blocks| && !blocks[i].free && Inside(blocks, i, x)
      modifies this`hdr, this`mem
      ensures Valid() && mem == old(mem)[x := v]
    {
      hide Used;
      PayloadLinked(hdr, blocks, i, x, 1);
      hdr := KeepHeaders(hdr, x, 1);
      mem := mem[x := v];
    }

    /** The first fit, found by following next pointers from the head; 0 if there is none. */
    method FindFit(n: nat) returns (block: nat, ghost i: nat)
      requires Valid()
      ensures i <= |blocks| && (block == 0 <==> i == |blocks|)
      ensures forall j :: 0 <= j < i ==> !FitsIn(blocks[j], n)
      ensures i < |blocks| ==> FirstFit(blocks, n, i) && block == Addr(blocks, i)
    {
      hide Used;
      hide Coalesced;
      hide Addr;
      block, i := head, 0;
      AddrZero(blocks);
      while block != 0
        invariant i <= |blocks| && block == if i < |blocks| then Addr(blocks, i) else 0
        invariant forall j :: 0 <= j < i ==> !FitsIn(blocks[j], n)
        decreases |blocks| - i
      {
        assert i < |blocks|;
        assert hdr[block] == HeaderOf(blocks, i);
        if hdr[block].free && hdr[block].size >= n {
          AddrPositive(blocks, i);
          return;
        }
        block, i := hdr[block].next, i + 1;
      }
      if i < |blocks| { AddrPositive(blocks, i); }
    }

    /** kmalloc: fails exactly when no free block fits, and otherwise takes the first fit. */
    method Malloc(size: nat) returns (ptr: nat, ghost i: nat)
      requires Valid() && size < U64
      modifies this
      ensures Valid() && total == old(total)
      ensures ptr == 0 <==> size == 0 || !SomeFit(old(blocks), Align16(size))
      ensures ptr == 0 ==> blocks == old(blocks) && mem == old(mem) && hdr == old(hdr)
      ensures ptr != 0 ==>
        && FirstFit(old(blocks), Align16(size), i) && blocks == Take(old(blocks), i, Align16(size))
        && LivePtr(blocks, i, ptr)
      ensures State() == Step(old(State()), Alloc(size))
      ensures forall x :: Owned(old(blocks), x) ==> SameByte(old(mem), x, mem, x)
    {
      hide Align16;
      hide Take;
      i := 0;
      if size == 0 {
        return 0, 0;
      }
      var n := Align16(size);
      var block;
      block, i := FindFit(n);
      if block == 0 {
        return 0, i;
      }
      FirstFitUnique(blocks, n, i);
      TakeBlock(block, n, i);
      ptr := block + HDR;
    }

    /** The part of kmalloc behind the search: split the block and mark it used. */
    method TakeBlock(block: nat, n: nat, ghost i: nat)
      requires Valid() && i < |blocks| && FitsIn(blocks[i], n) && block == Addr(blocks, i)
      modifies this
      ensures Valid() && total == old(total) && blocks == Take(old(blocks), i, n) && LivePtr(blocks, i, block + HDR)
      ensures forall x :: Owned(old(blocks), x) ==> SameByte(old(mem), x, mem, x)
    {
      hide Used;
      hide Coalesced;
      hide Take;
      hide Addr;
      hide Around;
      hide Linked;
      TakeKeeps(blocks, i, n);
      TakeEnd(blocks, i, n);
      LinkedAt(hdr, blocks, i);
      ghost var bs' := Take(blocks, i, n);
      var h := hdr[block];
      if h.size >= n + HDR + MIN_BLOCK {
        SplitBlock(block, n, i);
      } else {
        TakeWholeLinked(hdr, blocks, i, n);
        hdr := hdr[block := h.(free := false)];
      }
      LinkedAt(hdr, bs', i);
      used := used + hdr[block].size;
      blocks := bs';
    }

    method SplitBlock(block: nat, n: nat, ghost i: nat)
      requires Valid() && i < |blocks| && FitsIn(blocks[i], n) && block == Addr(blocks, i)
      requires blocks[i].size >= n + HDR + MIN_BLOCK
      modifies this`hdr, this`mem
      ensures Linked(hdr, Take(blocks, i, n))
      ensures forall x :: Owned(blocks, x) ==> SameByte(old(mem), x, mem, x)
    {
      hide Used;
      hide Coalesced;
      hide Take;
      hide Addr;
      hide Linked;
      hide Owned;
      hide SameByte;
      var newBlock := block + HDR + n;
      SplitSafe(hdr, mem, blocks, i, n);
      ghost var kept := KeepHeaders(hdr, newBlock, HDR);
      SplitLinked(kept, blocks, i, n);
      SplitApart(blocks, i, n, i);
      LinkedAt(hdr, blocks, i);
      LinkedAt(kept, blocks, i);
      if i + 1 < |blocks| { AddrPositive(blocks, i + 1); }
      var h := hdr[block];
      WriteHeader(newBlock, Header(MAGIC, h.size - n - HDR, true, h.next, block));
      if h.next != 0 {
        AddrApart(blocks, i, i + 1);
        LinkedAt(kept, blocks, i + 1);
        hdr := hdr[h.next := hdr[h.next].(prev := newBlock)];
      }
      assert hdr[block] == h;
      hdr := hdr[block := h.(next := newBlock, size := n, free := false)];
    }

    /** kfree: the freed block is merged with its free neighbours. */
    method Free(ptr: nat, ghost i: nat)
      requires Valid() && (ptr == 0 || LivePtr(blocks, i, ptr))
      modifies this
      ensures Valid() && total == old(total) && mem == old(mem)
      ensures ptr == 0 ==> blocks == old(blocks) && hdr == old(hdr)
      ensures ptr != 0 ==> i < |old(blocks)| && blocks == Release(old(blocks), i)
      ensures State() == Step(old(State()), Op.Free(ptr))
    {
      hide Used;
      hide Addr;
      hide Linked;
      hide Around;
      hide Coalesced;
      hide Release;
      hide Splice;
      hide Over;
      if ptr == 0 {
        NullNotLive(blocks);
        return;
      }
      IndexUnique(blocks, i, ptr);
      var block := ptr - HDR;
      LinkedAt(hdr, blocks, i);
      assert hdr[block].magic == MAGIC && !hdr[block].free;
      ReleaseKeeps(blocks, i);
      ReleaseEnd(blocks, i);
      ReleaseSteps(blocks, i);
      used := used - hdr[block].size;
      ghost var hi := HighEnd(blocks, i);
      ghost var b1 := Splice(blocks, i, hi, [Over(blocks, i, hi)]);
      MergedParts(blocks, i, hi);
      MergeWithNext(block, i);
      MergeWithPrev(block, b1, i);
      blocks := Release(blocks, i);
    }

    /** kfree marks the block free and merges it with the next block if that is free. */
    method MergeWithNext(block: nat, ghost i: nat)
      requires i < |blocks| && Linked(hdr, blocks) && !blocks[i].free && block == Addr(blocks, i)
      modifies this`hdr
      ensures Linked(hdr, Splice(blocks, i, HighEnd(blocks, i), [Over(blocks, i, HighEnd(blocks, i))]))
    {
      hide Addr;
      hide Over;
      hide Linked;
      hide Splice;
      ghost var hi, hdr0 := HighEnd(blocks, i), hdr;
      MergeLinked(hdr, blocks, i, hi);
      MergedSize(blocks, i, hi);
      LinkedAt(hdr, blocks, i);
      if i + 1 < |blocks| {
        LinkedAt(hdr, blocks, i + 1);
        AddrApart(blocks, i, i + 1);
      }
      if hi < |blocks| {
        LinkedAt(hdr, blocks, hi);
        AddrApart(blocks, i, hi);
      }
      hdr := hdr[block := hdr[block].(free := true)];
      var next := hdr[block].next;
      if next != 0 && hdr[next].free {
        hdr := hdr[block := hdr[block].(size := hdr[block].size + HDR + hdr[next].size)];
        hdr := hdr[block := hdr[block].(next := hdr[next].next)];
        next := hdr[block].next;
        if next != 0 {
          hdr := hdr[next := hdr[next].(prev := block)];
        }
      }
      assert hdr == MergedHeaders(hdr0, blocks, i, hi);
    }

    /** kfree merges a free block into the block before it if that is free. */
    method MergeWithPrev(block: nat, ghost bs: seq<Block>, ghost i: nat)
      requires i < |bs| && Linked(hdr, bs) && bs[i].free && block == Addr(bs, i)
      modifies this`hdr
      ensures Linked(hdr, if i > 0 && bs[i - 1].free then Splice(bs, i - 1, i + 1, [Over(bs, i - 1, i + 1)]) else bs)
    {
      hide Addr;
      hide Over;
      hide Linked;
      hide Splice;
      ghost var hdr0 := hdr;
      if i > 0 {
        MergeLinked(hdr, bs, i - 1, i + 1);
        MergedSize(bs, i - 1, i + 1);
      }
      LinkedAt(hdr, bs, i);
      if i > 0 {
        LinkedAt(hdr, bs, i - 1);
        AddrApart(bs, i - 1, i);
      }
      if i + 1 < |bs| {
        LinkedAt(hdr, bs, i + 1);
        AddrApart(bs, i, i + 1);
        if i > 0 { AddrApart(bs, i - 1, i + 1); }
      }
      var prev := hdr[block].prev;
      if prev != 0 && hdr[prev].free {
        hdr := hdr[prev := hdr[prev].(size := hdr[prev].size + HDR + hdr[block].size)];
        hdr := hdr[prev := hdr[prev].(next := hdr[block].next)];
        var next := hdr[block].next;
        if next != 0 {
          hdr := hdr[next := hdr[next].(prev := hdr[block].prev)];
        }
        assert hdr == MergedHeaders(hdr0, bs, i - 1, i + 1);
      }
    }

    /** krealloc. It overruns exactly when the model's step tears the list: for a size that rounds up
        to 0, the copy is longer than the block taken for it. Otherwise the payload keeps its bytes, in
        place if they fit and in a new block if not, and no other live byte changes; on failure nothing
        changes. */
    method Realloc(ptr: nat, newSize: nat, ghost i: nat) returns (r: nat, overrun: bool, ghost j: nat)
      requires Valid() && (ptr == 0 || LivePtr(blocks, i, ptr)) && newSize < U64
      modifies this
      ensures total == old(total)
      ensures overrun <==> ptr != 0 && Overruns(old(blocks), i, newSize)
      ensures (if overrun then Torn else State()) == Step(old(State()), Op.Realloc(ptr, newSize))
      ensures overrun ==> ptr != 0 && SomeFit(old(blocks), Align16(newSize)) && TornBy(old(blocks), newSize, old(blocks[i].size), hdr, r)
      ensures !overrun ==> Valid()
      ensures !overrun ==> (r == 0 <==>
        newSize == 0 || ((ptr == 0 || old(blocks[i].size) < newSize) && !SomeFit(old(blocks), Align16(newSize))))
      ensures !overrun && r == 0 && newSize != 0 ==> blocks == old(blocks) && mem == old(mem)
      ensures !overrun && ptr != 0 && newSize == 0 ==> blocks == Release(old(blocks), i) && mem == old(mem)
      ensures !overrun && r != 0 ==> LivePtr(blocks, j, r) && (blocks[j].size >= newSize || newSize > U64 - 16)
      ensures !overrun && r != 0 && ptr != 0 ==>
        && blocks[j].size >= old(blocks[i].size)
        && forall x: nat :: Inside(old(blocks), i, x) ==> SameByte(old(mem), x, mem, r + (x - ptr))
      ensures !overrun ==> forall x :: Owned(old(blocks), x) && !(ptr != 0 && Inside(old(blocks), i, x)) ==>
        Owned(blocks, x) && SameByte(old(mem), x, mem, x)
    {
      hide Used;
      hide Addr;
      hide Linked;
      hide Coalesced;
      hide Around;
      hide Take;
      hide Release;
      hide Owned;
      hide SameByte;
      hide Align16;
      hide MoveIn;
      hide TornBy;
      j, overrun := i, false;
      SameBytes(mem);
      if ptr == 0 {
        Align16Enough(newSize);
        r, j := Malloc(newSize);
        if r != 0 {
          TakeKeeps(old(blocks), j, Align16(newSize));
          TakeOwnedAll(old(blocks), j, Align16(newSize));
        }
      } else {
        IndexUnique(blocks, i, ptr);
        if newSize == 0 {
          Free(ptr, i);
          ReleaseOwnedAll(old(blocks), i);
          r := 0;
        } else {
          LinkedAt(hdr, blocks, i);
          if hdr[ptr - HDR].size >= newSize {
            r := ptr;
          } else {
            r, overrun, j := Move(ptr, newSize, i);
          }
        }
      }
    }

    /** The part of krealloc that copies to a new block and frees the old one. */
    method Move(ptr: nat, newSize: nat, ghost i: nat) returns (r: nat, overrun: bool, ghost j: nat)
      requires Valid() && LivePtr(blocks, i, ptr) && blocks[i].size < newSize < U64
      modifies this
      ensures total == old(total) && (overrun <==> Overruns(old(blocks), i, newSize))
      ensures overrun ==> SomeFit(old(blocks), Align16(newSize)) && TornBy(old(blocks), newSize, old(blocks[i].size), hdr, r)
      ensures !overrun ==> Valid() && (r == 0 <==> !SomeFit(old(blocks), Align16(newSize)))
      ensures !overrun && r == 0 ==> blocks == old(blocks) && mem == old(mem)
      ensures !overrun && r != 0 ==>
        && blocks == MoveIn(old(blocks), i, Align16(newSize)) && LivePtr(blocks, j, r)
        && (blocks[j].size >= newSize || newSize > U64 - 16) && blocks[j].size >= old(blocks[i].size)
        && forall x: nat :: Inside(old(blocks), i, x) ==> SameByte(old(mem), x, mem, r + (x - ptr))
      ensures !overrun ==> forall x :: Owned(old(blocks), x) && !(r != 0 && Inside(old(blocks), i, x)) ==>
        Owned(blocks, x) && SameByte(old(mem), x, mem, x)
    {
      hide Used;
      hide Addr;
      hide Linked;
      hide Coalesced;
      hide Around;
      hide Take;
      hide Release;
      hide Owned;
      hide SameByte;
      hide Align16;
      hide Inside;
      hide TornBy;
      LinkedAt(hdr, blocks, i);
      var size := hdr[ptr - HDR].size;
      ghost var bs0, mem0, n := blocks, mem, Align16(newSize);
      Align16Enough(newSize);
      overrun := false;
      ghost var t;
      r, t := Malloc(newSize);
      j := t;
      SameBytes(mem);
      if r != 0 {
        ghost var bs1, mem1 := blocks, mem;
        FirstFitUnique(bs0, n, t);
        TakeKeeps(bs0, t, n);
        TakeEnd(bs0, t, n);
        TakenIs(bs0, t, n);
        LinkedAt(hdr, blocks, t);
        overrun := hdr[r - HDR].size < size;
        if overrun {
          OverrunShown(bs0, newSize, size, t, hdr);
        } else {
          PayloadLinked(hdr, blocks, t, r, size);
        }
        Copy(r, ptr, size);
        if overrun {
          // kfree would follow pointers of a list that is no longer there
          return;
        }
        ghost var i1 := TakeLive(bs0, t, n, i, ptr);
        Free(ptr, i1);
        j := ReleaseLive(bs1, i1, t, r);
        MoveBytes(bs0, t, n, i, i1, ptr, size, mem0, mem1, mem);
      }
    }

    /** kzalloc. It overruns exactly when the model's step tears the list; otherwise it is kmalloc, and the
        bytes asked for are zero. */
    method Zalloc(size: nat) returns (ptr: nat, overrun: bool, ghost i: nat)
      requires Valid() && size < U64
      modifies this
      ensures total == old(total) && (overrun <==> ZeroOverruns(old(blocks), size))
      ensures (if overrun then Torn else State()) == Step(old(State()), Op.Zalloc(size))
      ensures overrun ==> SomeFit(old(blocks), Align16(size)) && TornBy(old(blocks), size, size, hdr, ptr)
      ensures !overrun ==> Valid() && (ptr == 0 <==> size == 0 || !SomeFit(old(blocks), Align16(size)))
      ensures !overrun && ptr != 0 ==>
        && LivePtr(blocks, i, ptr) && blocks[i].size >= size
        && forall x: nat :: ptr <= x < ptr + size ==> x in mem && mem[x] == 0
      ensures !overrun ==> forall x :: Owned(old(blocks), x) ==> SameByte(old(mem), x, mem, x)
    {
      hide Used;
      hide Addr;
      hide Linked;
      hide Coalesced;
      hide Take;
      hide Owned;
      hide SameByte;
      hide Align16;
      hide TornBy;
      ghost var bs0, mem0, n := blocks, mem, Align16(size);
      overrun := false;
      ptr, i := Malloc(size);
      if ptr != 0 {
        ghost var mem1 := mem;
        FirstFitUnique(bs0, n, i);
        TakeKeeps(bs0, i, n);
        TakeEnd(bs0, i, n);
        TakenIs(bs0, i, n);
        LinkedAt(hdr, blocks, i);
        overrun := hdr[ptr - HDR].size < size;
        if overrun {
          OverrunShown(bs0, size, size, i, hdr);
        } else {
          PayloadLinked(hdr, blocks, i, ptr, size);
          ClearedBytes(bs0, i, n, ptr, size, mem0, mem1);
        }
        Clear(ptr, size);
      }
    }

    /** memset to zero */
    method Clear(a: nat, n: nat)
      modifies this`hdr, this`mem
      ensures hdr == KeepHeaders(old(hdr), a, n) && mem == Cleared(old(mem), a, n)
    {
      hdr := KeepHeaders(hdr, a, n);
      mem := Cleared(mem, a, n);
    }

    /** memcpy */
    method Copy(dst: nat, src: nat, n: nat)
      modifies this`hdr, this`mem
      ensures hdr == KeepHeaders(old(hdr), dst, n) && mem == Copied(old(mem), dst, src, n)
    {
      hdr := KeepHeaders(hdr, dst, n);
      mem := Copied(mem, dst, src, n);
    }

    /** The part of heap_expand that links the new pages in as a free block. */
    method Append(add: nat)
      requires Valid() && add > 0 && add % PAGE_SIZE == 0 && total + add <= KERNEL_HEAP_SIZE
      modifies this
      ensures Valid() && used == old(used) && total == old(total) + add && blocks == Grow(old(blocks), add - HDR)
      ensures State() == Step(old(State()), Op.Expand(add / PAGE_SIZE))
      ensures forall x: nat :: Owned(blocks, x) <==> Owned(old(blocks), x)
      ensures forall x :: Owned(blocks, x) ==> SameByte(old(mem), x, mem, x)
    {
      hide Used;
      hide Addr;
      hide Linked;
      hide Coalesced;
      hide Owned;
      hide SameByte;
      hide Grow;
      hide Splice;
      hide Over;
      hide KeepHeaders;
      hide KeepBytes;
      hide Step;
      ExpandStep(State(), add);
      var newBlock := BASE + total;
      EndSafe(hdr, mem, blocks, Header(MAGIC, add - HDR, true, 0, 0));
      GrowKeeps(blocks, add - HDR);
      GrowSteps(blocks, add - HDR);
      GrowOwnedAll(blocks, add - HDR);
      WriteHeader(newBlock, Header(MAGIC, add - HDR, true, 0, 0));
      var last := FindLast();
      AppendLinked(hdr, blocks, add - HDR);
      ghost var b1, i := blocks + [Block(add - HDR, true)], |blocks| - 1;
      LinkedAt(hdr, blocks, i);
      AddrApart(blocks, i, i + 1);
      AddrPrefix(b1, blocks, i);
      AddrPrefix(b1, blocks, i + 1);
      ghost var hdr0 := hdr;
      hdr := hdr[last := hdr[last].(next := newBlock)];
      hdr := hdr[newBlock := hdr[newBlock].(prev := last)];
      assert hdr == AppendHeaders(hdr0, blocks, add - HDR);
      total := total + add;
      if hdr[last].free {
        MergeLast(last, newBlock, b1);
      }
      blocks := Grow(blocks, add - HDR);
    }

    /** The last block, found by following next pointers. */
    method FindLast() returns (last: nat)
      requires blocks != [] && head == BASE && Linked(hdr, blocks)
      ensures last == Addr(blocks, |blocks| - 1)
    {
      hide Addr;
      hide Linked;
      last := head;
      ghost var i := 0;
      AddrZero(blocks);
      LinkedAt(hdr, blocks, 0);
      while hdr[last].next != 0
        invariant i < |blocks| && last == Addr(blocks, i) && last in hdr && hdr[last] == HeaderOf(blocks, i)
        decreases |blocks| - i
      {
        last, i := hdr[last].next, i + 1;
        LinkedAt(hdr, blocks, i);
      }
      if i + 1 < |blocks| { LinkedAt(hdr, blocks, i + 1); }
    }

    /** heap_expand merges the new block into a free last block; they are always adjacent. */
    method MergeLast(last: nat, newBlock: nat, ghost b1: seq<Block>)
      requires |b1| >= 2 && Linked(hdr, b1) && last == Addr(b1, |b1| - 2) && newBlock == Addr(b1, |b1| - 1)
      requires b1[|b1| - 2].free
      modifies this`hdr
      ensures Linked(hdr, Splice(b1, |b1| - 2, |b1|, [Over(b1, |b1| - 2, |b1|)]))
    {
      hide Addr;
      hide Linked;
      hide Splice;
      hide Over;
      ghost var i, hdr0 := |b1| - 2, hdr;
      MergeLinked(hdr, b1, i, |b1|);
      MergedSize(b1, i, |b1|);
      MergedSize(b1, i, i + 1);
      OverSize(b1, i, i + 1);
      LinkedAt(hdr, b1, i);
      LinkedAt(hdr, b1, i + 1);
      AddrApart(b1, i, i + 1);
      var lastEnd := last + HDR + hdr[last].size;
      if lastEnd == newBlock {
        hdr := hdr[last := hdr[last].(size := hdr[last].size + HDR + hdr[newBlock].size)];
        hdr := hdr[last := hdr[last].(next := hdr[newBlock].next)];
        if hdr[newBlock].next != 0 {
          // the new block is the last one
          assert false;
        }
      }
      assert hdr == MergedHeaders(hdr0, b1, i, |b1|);
    }

    /** heap_used: the sum of the sizes of the live blocks. */
    method UsedBytes() returns (n: nat)
      requires Valid()
      ensures n == Used(blocks)
    {
      n := used;
    }

    /** heap_free: the free payload bytes and the headers of all blocks but one. */
    method FreeBytes() returns (n: nat)
      requires Valid()
      ensures n == FreeSum(blocks) + HDR * (|blocks| - 1)
    {
      HeapSize(blocks);
      n := total - used - HDR;
    }
  }

  lemma ExpandStep(h: Layout, add: nat)
    requires h.Layout? && h.blocks != [] && add > 0 && add % PAGE_SIZE == 0 && h.total + add <= KERNEL_HEAP_SIZE
    ensures Step(h, Op.Expand(add / PAGE_SIZE)) == Layout(Grow(h.blocks, add - HDR), h.total + add)
  {
    hide Grow;
  }

  /** The new header of a split hits no header in the list and no owned byte. */
  lemma {:induction false} SplitSafe(hdr: Headers, mem: Bytes, bs: seq<Block>, i: nat, n: nat)
    requires Linked(hdr, bs) && i < |bs| && bs[i].free && bs[i].size >= n + HDR
    ensures Linked(KeepHeaders(hdr, Addr(bs, i) + HDR + n, HDR), bs)
    ensures forall x :: Owned(bs, x) ==> SameByte(mem, x, KeepBytes(mem, Addr(bs, i) + HDR + n, HDR), x)
  {
    var a := Addr(bs, i) + HDR + n;
    hide Linked;
    hide Owned;
    hide Addr;
    hide KeepHeaders;
    hide KeepBytes;
    hide SameByte;
    PayloadLinked(hdr, bs, i, a, HDR);
    forall x: nat | Owned(bs, x)
      ensures SameByte(mem, x, KeepBytes(mem, a, HDR), x)
    {
      if a <= x < a + HDR { FreeNotOwned(bs, i, x); }
      KeptByte(mem, a, HDR, x);
    }
  }

  lemma KeptByte(mem: Bytes, a: nat, n: nat, x: nat)
    requires !(a <= x < a + n)
    ensures SameByte(mem, x, KeepBytes(mem, a, n), x)
  {
  }

  /** A live pointer stays live, in a block of the same extent, when another block is taken. */
  lemma {:induction false} TakeLive(bs: seq<Block>, t: nat, n: nat, k: nat, p: nat) returns (k': nat)
    requires t < |bs| && bs[t].free && bs[t].size >= n && LivePtr(bs, k, p)
    ensures var bs' := Take(bs, t, n);
      && LivePtr(bs', k', p) && k' != t && k' == Moved(bs, t, n, k) && bs'[k'].size == bs[k].size
      && forall x: nat :: Inside(bs', k', x) <==> Inside(bs, k, x)
  {
    hide Addr;
    hide Take;
    TakeParts(bs, t, n);
    var bs', d := Take(bs, t, n), |Pieces(bs[t], n)| - 1;
    k' := if k < t then k else k + d;
    if k > t { AroundSuffix(bs, bs', t, t + 1, d, k + d); }
  }

  /** A live pointer stays live when another block is freed. */
  lemma {:induction false} ReleaseLive(bs: seq<Block>, i: nat, k: nat, p: nat) returns (k': nat)
    requires i < |bs| && !bs[i].free && Coalesced(bs) && LivePtr(bs, k, p) && k != i
    ensures LivePtr(Release(bs, i), k', p) && Release(bs, i)[k'].size == bs[k].size
  {
    hide Addr;
    hide Release;
    ReleaseParts(bs, i);
    var bs', lo, hi := Release(bs, i), LowEnd(bs, i), HighEnd(bs, i);
    var d := |bs'| - |bs|;
    k' := if k < lo then k else k + d;
    if k >= hi { AroundSuffix(bs, bs', lo, hi, d, k + d); }
  }

  lemma SameBytes(mem: Bytes)
    ensures forall x :: SameByte(mem, x, mem, x)
  {
  }

  lemma TakeOwnedAll(bs: seq<Block>, i: nat, n: nat)
    requires i < |bs| && bs[i].free && bs[i].size >= n && Coalesced(bs)
    ensures forall x :: Owned(bs, x) ==> Owned(Take(bs, i, n), x)
  {
    hide Owned;
    hide Inside;
    hide Take;
    forall x: nat
      ensures Owned(bs, x) ==> Owned(Take(bs, i, n), x)
    {
      TakeOwned(bs, i, n, x);
    }
  }

  lemma ReleaseOwnedAll(bs: seq<Block>, i: nat)
    requires i < |bs| && !bs[i].free && Coalesced(bs)
    ensures forall x :: Owned(bs, x) && !Inside(bs, i, x) ==> Owned(Release(bs, i), x)
  {
    hide Owned;
    hide Inside;
    hide Release;
    forall x: nat
      ensures Owned(bs, x) && !Inside(bs, i, x) ==> Owned(Release(bs, i), x)
    {
      ReleaseOwned(bs, i, x);
    }
  }

  /** Every live byte after a move: the moved block's at the new place, all others where they were. */
  lemma {:induction false} MoveBytes(bs: seq<Block>, t: nat, n: nat, i: nat, i1: nat, ptr: nat, size: nat,
                                     mem0: Bytes, mem1: Bytes, mem2: Bytes)
    requires t < |bs| && bs[t].free && bs[t].size >= n && Coalesced(bs) && Coalesced(Take(bs, t, n))
    requires LivePtr(bs, i, ptr) && size == bs[i].size && t < |Take(bs, t, n)| && size <= Take(bs, t, n)[t].size <= bs[t].size
    requires i1 < |Take(bs, t, n)| && !Take(bs, t, n)[i1].free && forall x: nat :: Inside(Take(bs, t, n), i1, x) <==> Inside(bs, i, x)
    requires forall x :: Owned(bs, x) ==> SameByte(mem0, x, mem1, x)
    requires mem2 == Copied(mem1, Addr(bs, t) + HDR, ptr, size)
    ensures forall x: nat :: Inside(bs, i, x) ==> SameByte(mem0, x, mem2, Addr(bs, t) + HDR + (x - ptr))
    ensures forall x :: Owned(bs, x) && !Inside(bs, i, x) ==>
      Owned(Release(Take(bs, t, n), i1), x) && SameByte(mem0, x, mem2, x)
  {
    hide Addr;
    hide Take;
    hide Release;
    hide Owned;
    hide SameByte;
    hide Copied;
    hide Coalesced;
    var bs1, r := Take(bs, t, n), Addr(bs, t) + HDR;
    forall x: nat | Inside(bs, i, x)
      ensures SameByte(mem0, x, mem2, r + (x - ptr))
    {
      InsideOwned(bs, i, x);
      CopiedBytes(mem1, r, ptr, size, x - ptr);
      SameTrans(mem0, x, mem1, x, mem2, r + (x - ptr));
    }
    forall x: nat | Owned(bs, x) && !Inside(bs, i, x)
      ensures Owned(Release(bs1, i1), x) && SameByte(mem0, x, mem2, x)
    {
      TakeOwned(bs, t, n, x);
      ReleaseOwned(bs1, i1, x);
      if r <= x < r + size { FreeNotOwned(bs, t, x); }
      CopiedElsewhere(mem1, r, ptr, size, x);
      SameTrans(mem0, x, mem1, x, mem2, x);
    }
  }

  /** Clearing within the taken block touches no byte that was owned before. */
  lemma ClearedBytes(bs: seq<Block>, t: nat, n: nat, ptr: nat, size: nat, mem0: Bytes, mem1: Bytes)
    requires t < |bs| && bs[t].free && bs[t].size >= n && ptr == Addr(bs, t) + HDR && size <= bs[t].size
    requires forall x :: Owned(bs, x) ==> SameByte(mem0, x, mem1, x)
    ensures forall x :: Owned(bs, x) ==> SameByte(mem0, x, Cleared(mem1, ptr, size), x)
  {
    hide Addr;
    hide Owned;
    forall x: nat | Owned(bs, x)
      ensures SameByte(mem0, x, Cleared(mem1, ptr, size), x)
    {
      if ptr <= x < ptr + size { FreeNotOwned(bs, t, x); }
    }
  }

  lemma InsideOwned(bs: seq<Block>, i: nat, x: nat)
    requires i < |bs| && !bs[i].free && Inside(bs, i, x)
    ensures Owned(bs, x)
  {
  }

  lemma SameTrans(m0: Bytes, x0: nat, m1: Bytes, x1: nat, m2: Bytes, x2: nat)
    requires SameByte(m0, x0, m1, x1) && SameByte(m1, x1, m2, x2)
    ensures SameByte(m0, x0, m2, x2)
  {
  }

  /** 64-bit size_t arithmetic. */
  function Wrapped(n: nat): nat
  {
    n % U64
  }

  /** The number of whole pages that hold the bytes. */
  function PagesFor(bytes: nat): nat
  {
    (bytes + (PAGE_SIZE - 1)) / PAGE_SIZE
  }

  /** There are n free pages in a row that the page allocator may give out. */
  ghost predicate RunOf(free: set<nat>, n: nat)
  {
    exists b :: b >= P.FIRST_PAGE && P.RunAt(free, b, n)
  }

  /** The size check precedes the rounding to pages, and both may wrap around; still they let
      through exactly the requests that fit, because total is a multiple of the page size and the
      page allocator has no run as long as a wrapped request needs. */
  lemma PagesExact(total: nat, bytes: nat, free: set<nat>, highest: nat)
    requires total <= KERNEL_HEAP_SIZE && total % PAGE_SIZE == 0 && 0 < bytes < U64
    requires highest <= P.MAX_PAGES && forall p :: p in free ==> p < highest
    ensures var n := Wrapped(bytes + (PAGE_SIZE - 1)) / PAGE_SIZE;
      var passes := Wrapped(total + bytes) <= KERNEL_HEAP_SIZE && n > 0 && RunOf(free, n);
      && (passes <==> total + bytes <= KERNEL_HEAP_SIZE && RunOf(free, PagesFor(bytes)))
      && (passes ==> n == PagesFor(bytes) && total + n * PAGE_SIZE <= KERNEL_HEAP_SIZE)
  {
    hide P.RunAt;
    var n := Wrapped(bytes + (PAGE_SIZE - 1)) / PAGE_SIZE;
    if n > P.MAX_PAGES && RunOf(free, n) {
      hide B.Fits;
      P.RunFits(free, highest, n);
    }
    Wrapping(total, bytes);
    hide Wrapped;
    hide PagesFor;
  }

  lemma Wrapping(total: nat, bytes: nat)
    requires total <= KERNEL_HEAP_SIZE && total % PAGE_SIZE == 0 && 0 < bytes < U64
    ensures var n := Wrapped(bytes + (PAGE_SIZE - 1)) / PAGE_SIZE;
      && (total + bytes <= KERNEL_HEAP_SIZE ==>
            && Wrapped(total + bytes) == total + bytes && n == PagesFor(bytes) > 0
            && total + n * PAGE_SIZE <= KERNEL_HEAP_SIZE)
      && (total + bytes > KERNEL_HEAP_SIZE && Wrapped(total + bytes) <= KERNEL_HEAP_SIZE ==> n == 0 || n > P.MAX_PAGES)
  {
  }

  /** The sum of the sizes of the free blocks. */
  ghost function FreeSum(bs: seq<Block>): nat
  {
    if bs == [] then 0
    else FreeSum(bs[..|bs| - 1]) + if bs[|bs| - 1].free then bs[|bs| - 1].size else 0
  }

  /** Every byte of the heap is live, free or in a header. */
  lemma {:induction false} HeapSize(bs: seq<Block>)
    ensures Addr(bs, |bs|) == BASE + Used(bs) + FreeSum(bs) + HDR * |bs|
  {
    if bs != [] {
      HeapSize(bs[..|bs| - 1]);
      AddrPrefix(bs[..|bs| - 1], bs, |bs| - 1);
    }
  }

  lemma OverSize(bs: seq<Block>, i: nat, j: nat)
    requires i < j <= |bs|
    ensures Addr(bs, i) + HDR + Over(bs, i, j).size == Addr(bs, j)
  {
  }

  lemma GrowOwnedAll(bs: seq<Block>, n: nat)
    requires bs != [] && Coalesced(bs)
    ensures forall x: nat :: Owned(Grow(bs, n), x) <==> Owned(bs, x)
  {
    hide Grow;
    hide Owned;
    forall x: nat
      ensures Owned(Grow(bs, n), x) <==> Owned(bs, x)
    {
      GrowOwned(bs, n, x);
    }
  }

  /** A header written at the end of the heap hits no header in the list and no owned byte. */
  lemma {:induction false} EndSafe(hdr: Headers, mem: Bytes, bs: seq<Block>, h: Header)
    requires Linked(hdr, bs)
    ensures Linked(KeepHeaders(hdr, Addr(bs, |bs|), HDR)[Addr(bs, |bs|) := h], bs)
    ensures forall x: nat :: Owned(bs, x) ==> SameByte(mem, x, KeepBytes(mem, Addr(bs, |bs|), HDR), x)
  {
    hide Linked;
    hide Owned;
    hide Addr;
    hide KeepHeaders;
    hide KeepBytes;
    hide SameByte;
    var e := Addr(bs, |bs|);
    EndLinked(hdr, bs, HDR);
    EndUpdate(KeepHeaders(hdr, e, HDR), bs, h);
    forall x: nat | Owned(bs, x)
      ensures SameByte(mem, x, KeepBytes(mem, e, HDR), x)
    {
      EndNotOwned(bs, x);
      KeptByte(mem, e, HDR, x);
    }
  }

  lemma EndUpdate(hdr: Headers, bs: seq<Block>, h: Header)
    requires Linked(hdr, bs)
    ensures Linked(hdr[Addr(bs, |bs|) := h], bs)
  {
    hide Addr;
    hide HeaderOf;
    forall k | 0 <= k < |bs|
      ensures Addr(bs, k) != Addr(bs, |bs|)
    {
      AddrApart(bs, k, |bs|);
    }
  }

  lemma AddrZero(bs: seq<Block>)
    ensures Addr(bs, 0) == BASE
  {
  }

  /** The size of the free block over one or two blocks. */
  lemma MergedSize(bs: seq<Block>, i: nat, j: nat)
    requires i < j <= |bs| && j <= i + 2
    ensures Over(bs, i, j).size == bs[i].size + if j == i + 2 then HDR + bs[i + 1].size else 0
  {
    assert Addr(bs, i + 1) == Addr(bs, i) + HDR + bs[i].size;
    if j == i + 2 { assert Addr(bs, i + 2) == Addr(bs, i + 1) + HDR + bs[i + 1].size; }
  }

  lemma {:induction false} MergedParts(bs: seq<Block>, i: nat, j: nat)
    requires i < j <= |bs|
    ensures var b1 := Splice(bs, i, j, [Over(bs, i, j)]);
      |b1| == |bs| + 1 - (j - i) && b1[i].free && Addr(b1, i) == Addr(bs, i) && (i > 0 ==> b1[i - 1] == bs[i - 1])
  {
    hide Used;
    hide Splice;
    MergeAround(bs, i, j);
    hide Addr;
  }

  lemma {:induction false} ReleaseEnd(bs: seq<Block>, i: nat)
    requires i < |bs| && !bs[i].free && Coalesced(bs)
    ensures var bs' := Release(bs, i); bs' != [] && Addr(bs', |bs'|) == Addr(bs, |bs|)
  {
    hide Release;
    hide Used;
    ReleaseParts(bs, i);
    hide Addr;
    assert Addr(Release(bs, i), |bs| + (LowEnd(bs, i) + 1 - HighEnd(bs, i))) == Addr(bs, |bs|);
  }

  lemma LinkedAt(hdr: Headers, bs: seq<Block>, k: nat)
    requires Linked(hdr, bs) && k < |bs|
    ensures Addr(bs, k) > 0 && Addr(bs, k) in hdr && hdr[Addr(bs, k)] == HeaderOf(bs, k)
  {
    AddrPositive(bs, k);
  }

  lemma {:induction false} TakeEnd(bs: seq<Block>, i: nat, n: nat)
    requires i < |bs| && bs[i].size >= n
    ensures var bs' := Take(bs, i, n); bs' != [] && i < |bs'| && Addr(bs', |bs'|) == Addr(bs, |bs|) && Addr(bs', i) == Addr(bs, i)
  {
    hide Take;
    hide Addr;
    TakeAround(bs, i, n);
    assert Addr(Take(bs, i, n), |bs| + (|Pieces(bs[i], n)| - 1)) == Addr(bs, |bs|);
  }
}
