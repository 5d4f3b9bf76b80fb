/** What every run of allocations, frees, reallocations and expansions of the kernel heap keeps. */
module HeapRuns {
  import opened Wrappers
  import opened HeapModel
  import opened HeapLinks
  import opened HeapSteps
  import H = Heap

  /** The blocks tile the heap exactly, no two neighbours are free, and the heap has not outgrown its
      address range. */
  ghost predicate Sound(h: Layout)
  {
    h.Layout? ==>
      && h.blocks != [] && Coalesced(h.blocks) && Addr(h.blocks, |h.blocks|) == BASE + h.total
      && h.total % PAGE_SIZE == 0 && h.total <= KERNEL_HEAP_SIZE
  }

  lemma InitSound()
    ensures Sound(Init())
  {
    assert Addr(Init().blocks, 1) == Addr(Init().blocks, 0) + HDR + Init().blocks[0].size;
  }

  lemma {:induction false} AllocSound(h: Layout, size: nat)
    requires h.Layout? && Sound(h)
    ensures Sound(h.(blocks := AllocIn(h.blocks, size)))
  {
    hide Coalesced;
    hide Addr;
    hide Used;
    hide Take;
    hide Around;
    hide Align16;
    var n := Align16(size);
    if size > 0 && SomeFit(h.blocks, n) {
      var i := FirstFitIn(h.blocks, n);
      TakeKeeps(h.blocks, i, n);
      H.TakeEnd(h.blocks, i, n);
    }
  }

  lemma {:induction false} ReleaseSound(h: Layout, i: nat)
    requires h.Layout? && Sound(h) && i < |h.blocks| && !h.blocks[i].free
    ensures Sound(h.(blocks := Release(h.blocks, i)))
  {
    hide Coalesced;
    hide Addr;
    hide Used;
    hide Release;
    hide Around;
    ReleaseKeeps(h.blocks, i);
    H.ReleaseEnd(h.blocks, i);
  }

  lemma {:induction false} MoveSound(h: Layout, i: nat, n: nat, ptr: nat)
    requires h.Layout? && Sound(h) && LivePtr(h.blocks, i, ptr) && SomeFit(h.blocks, n)
    ensures Sound(h.(blocks := MoveIn(h.blocks, i, n)))
  {
    hide Coalesced;
    hide Addr;
    hide Used;
    hide Take;
    hide Release;
    hide Around;
    var t := FirstFitIn(h.blocks, n);
    TakeKeeps(h.blocks, t, n);
    H.TakeEnd(h.blocks, t, n);
    var i1 := H.TakeLive(h.blocks, t, n, i, ptr);
    ReleaseSound(h.(blocks := Take(h.blocks, t, n)), i1);
  }

  /** Every operation keeps the heap sound. */
  lemma {:induction false} StepSound(h: Layout, op: Op)
    requires Sound(h)
    ensures Sound(Step(h, op))
  {
    hide Coalesced;
    hide Addr;
    hide Used;
    hide Release;
    hide MoveIn;
    hide Grow;
    hide AllocIn;
    hide Overruns;
    hide ZeroOverruns;
    hide Align16;
    if h.Layout? {
      match op
      case Alloc(size) => AllocSound(h, size);
      case Zalloc(size) => AllocSound(h, size);
      case Free(ptr) =>
        var i := IndexOf(h.blocks, ptr);
        if i.Some? { ReleaseSound(h, i.value); }
      case Realloc(ptr, size) =>
        AllocSound(h, size);
        var i := IndexOf(h.blocks, ptr);
        if i.Some? {
          ReleaseSound(h, i.value);
          if SomeFit(h.blocks, Align16(size)) { MoveSound(h, i.value, Align16(size), ptr); }
        }
      case Expand(p) =>
        if p > 0 { GrowKeeps(h.blocks, p * PAGE_SIZE - HDR); }
    }
  }

  ghost function Run(h: Layout, ops: seq<Op>): (h': Layout)
    requires Sound(h)
    ensures Sound(h')
    decreases |ops|
  {
    if ops == [] then h
    else
      StepSound(h, ops[0]);
      Run(Step(h, ops[0]), ops[1..])
  }

  /** After any run that tears nothing, every byte of the heap is live, free or in a header. */
  lemma RunAccounts(ops: seq<Op>)
    ensures Sound(Init())
    ensures var h := Run(Init(), ops); h.Layout? ==> h.total == Used(h.blocks) + H.FreeSum(h.blocks) + HDR * |h.blocks|
  {
    hide Run;
    hide Addr;
    hide Used;
    InitSound();
    var h := Run(Init(), ops);
    if h.Layout? { H.HeapSize(h.blocks); }
  }

  // ---------- torn lists ----------

  /** The operation is a reallocation or a cleared allocation that overruns. */
  ghost predicate Tears(h: Layout, op: Op)
  {
    && h.Layout?
    && match op
       case Zalloc(size) => ZeroOverruns(h.blocks, size)
       case Realloc(ptr, size) => ptr != 0 && IndexOf(h.blocks, ptr).Some? && Overruns(h.blocks, IndexOf(h.blocks, ptr).value, size)
       case _ => false
  }

  ghost predicate SomeTears(h: Layout, ops: seq<Op>)
    requires Sound(h)
    decreases |ops|
  {
    ops != [] && (Tears(h, ops[0]) || (StepSound(h, ops[0]); SomeTears(Step(h, ops[0]), ops[1..])))
  }

  lemma StepTorn(h: Layout, op: Op)
    requires h.Layout? && h.blocks != []
    ensures Step(h, op).Torn? <==> Tears(h, op)
  {
    hide Align16;
    hide FirstFitIn;
  }

  /** A run tears the list exactly when one of its reallocations or cleared allocations overruns. */
  lemma {:induction false} RunTorn(h: Layout, ops: seq<Op>)
    requires h.Layout? && Sound(h)
    ensures Run(h, ops).Torn? <==> SomeTears(h, ops)
    decreases |ops|
  {
    hide Coalesced;
    hide Addr;
    hide Step;
    hide Tears;
    if ops != [] {
      StepTorn(h, ops[0]);
      StepSound(h, ops[0]);
      if Step(h, ops[0]).Layout? {
        RunTorn(Step(h, ops[0]), ops[1..]);
      } else {
        TornStays(ops[1..]);
      }
    }
  }

  lemma {:induction false} TornStays(ops: seq<Op>)
    ensures Run(Torn, ops) == Torn
  {
    if ops != [] { TornStays(ops[1..]); }
  }

  /** The heap behind heap_init and one allocation of 16 bytes. */
  ghost function FirstBlocks(): seq<Block>
  {
    [Block(16, false), Block(256 * PAGE_SIZE - 2 * HDR - 16, true)]
  }

  lemma FirstAlloc()
    ensures Step(Init(), Op.Alloc(16)) == Layout(FirstBlocks(), 256 * PAGE_SIZE)
  {
    var bs := Init().blocks;
    assert Align16(16) == 16;
    assert FirstFit(bs, 16, 0);
    FirstFitUnique(bs, 16, 0);
    assert Take(bs, 0, 16) == FirstBlocks();
  }

  /** Its one live pointer, and the free block that a request for 0 bytes takes. */
  lemma FirstPointer()
    ensures IndexOf(FirstBlocks(), BASE + HDR) == Some(0) && FirstFit(FirstBlocks(), 0, 1)
    ensures Take(FirstBlocks(), 1, 0) == [Block(16, false), Block(0, false), Block(256 * PAGE_SIZE - 3 * HDR - 16, true)]
  {
    assert LivePtr(FirstBlocks(), 0, BASE + HDR);
    IndexUnique(FirstBlocks(), 0, BASE + HDR);
  }

  /** The first 16 bytes that are allocated on a fresh heap, grown to 2^64 - 1 bytes: the new block is
      empty, and the copy lands on the header of the free rest. */
  lemma OverrunExample()
    ensures Sound(Init()) && Run(Init(), [Op.Alloc(16), Op.Realloc(BASE + HDR, U64 - 1)]).Torn?
    ensures var bs := Take(FirstBlocks(), 1, 0);
      forall hdr :: Linked(hdr, bs) ==> NoList(KeepHeaders(hdr, Addr(bs, 1) + HDR, 16))
  {
    hide Linked;
    hide NoList;
    hide KeepHeaders;
    InitSound();
    FirstAlloc();
    FirstPointer();
    var bs, op := FirstBlocks(), Op.Realloc(BASE + HDR, U64 - 1);
    OverrunsExactly(bs, 0, U64 - 1);
    StepTorn(Layout(bs, 256 * PAGE_SIZE), op);
    RunTwo(Init(), Op.Alloc(16), op);
    forall hdr | Linked(hdr, Take(bs, 1, 0))
      ensures NoList(KeepHeaders(hdr, Addr(Take(bs, 1, 0), 1) + HDR, 16))
    {
      OverrunTears(hdr, Take(bs, 1, 0), 1, 16);
    }
  }

  lemma RunTwo(h: Layout, a: Op, b: Op)
    requires Sound(h)
    ensures Sound(Step(h, a)) && Run(h, [a, b]) == Step(Step(h, a), b)
  {
    hide Step;
    hide Coalesced;
    hide Addr;
    StepSound(h, a);
    StepSound(Step(h, a), b);
    assert [a, b][1..] == [b] && [b][1..] == [];
    assert Run(Step(Step(h, a), b), []) == Step(Step(h, a), b);
    assert Run(Step(h, a), [b]) == Step(Step(h, a), b);
  }

  // ---------- live allocations ----------

  ghost predicate Names(op: Op, ptr: nat)
  {
    (op.Free? || op.Realloc?) && op.ptr == ptr
  }

  lemma {:induction false} AllocLive(h: Layout, size: nat, p: nat, k: nat)
    requires h.Layout? && LivePtr(h.blocks, k, p)
    ensures Live(h.(blocks := AllocIn(h.blocks, size)), p, h.blocks[k].size)
  {
    hide Addr;
    hide Take;
    hide Align16;
    var n := Align16(size);
    if size > 0 && SomeFit(h.blocks, n) {
      var _ := H.TakeLive(h.blocks, FirstFitIn(h.blocks, n), n, k, p);
    }
  }

  lemma {:induction false} ReleaseKeepsLive(h: Layout, i: nat, p: nat, k: nat)
    requires h.Layout? && Sound(h) && i < |h.blocks| && !h.blocks[i].free && LivePtr(h.blocks, k, p) && k != i
    ensures Live(h.(blocks := Release(h.blocks, i)), p, h.blocks[k].size)
  {
    hide Addr;
    hide Release;
    var _ := H.ReleaseLive(h.blocks, i, k, p);
  }

  lemma {:induction false} MoveLive(h: Layout, i: nat, n: nat, ptr: nat, p: nat, k: nat)
    requires h.Layout? && Sound(h) && LivePtr(h.blocks, i, ptr) && SomeFit(h.blocks, n) && LivePtr(h.blocks, k, p) && k != i
    ensures Live(h.(blocks := MoveIn(h.blocks, i, n)), p, h.blocks[k].size)
  {
    hide Coalesced;
    hide Addr;
    hide Used;
    hide Take;
    hide Release;
    hide Around;
    var t := FirstFitIn(h.blocks, n);
    TakeKeeps(h.blocks, t, n);
    H.TakeEnd(h.blocks, t, n);
    var i1 := H.TakeLive(h.blocks, t, n, i, ptr);
    var k1 := H.TakeLive(h.blocks, t, n, k, p);
    ReleaseKeepsLive(h.(blocks := Take(h.blocks, t, n)), i1, p, k1);
  }

  lemma {:induction false} GrowLive(h: Layout, bytes: nat, total: nat, p: nat, k: nat)
    requires h.Layout? && h.blocks != [] && Coalesced(h.blocks) && LivePtr(h.blocks, k, p)
    ensures Live(Layout(Grow(h.blocks, bytes), total), p, h.blocks[k].size)
  {
    hide Addr;
    hide Used;
    GrowKeeps(h.blocks, bytes);
    assert LivePtr(Grow(h.blocks, bytes), k, p);
  }

  /** An allocation stays live, where it is and with its size, through every operation that does not
      free or move it. */
  lemma {:induction false} StepLive(h: Layout, op: Op, p: nat, size: nat)
    requires Sound(h) && Live(h, p, size) && !Names(op, p) && Step(h, op).Layout?
    ensures Live(Step(h, op), p, size)
  {
    hide Coalesced;
    hide Addr;
    hide Release;
    hide MoveIn;
    hide Grow;
    hide AllocIn;
    hide Overruns;
    hide ZeroOverruns;
    hide Align16;
    var k: nat :| LivePtr(h.blocks, k, p) && h.blocks[k].size == size;
    match op
    case Alloc(s) => AllocLive(h, s, p, k);
    case Zalloc(s) => AllocLive(h, s, p, k);
    case Free(ptr) =>
      var i := IndexOf(h.blocks, ptr);
      if i.Some? { ReleaseKeepsLive(h, i.value, p, k); }
    case Realloc(ptr, s) =>
      AllocLive(h, s, p, k);
      var i := IndexOf(h.blocks, ptr);
      if i.Some? {
        ReleaseKeepsLive(h, i.value, p, k);
        if SomeFit(h.blocks, Align16(s)) { MoveLive(h, i.value, Align16(s), ptr, p, k); }
      }
    case Expand(n) =>
      if n > 0 { GrowLive(h, n * PAGE_SIZE - HDR, h.total + n * PAGE_SIZE, p, k); }
  }

  ghost predicate Untouched(ops: seq<Op>, p: nat)
  {
    forall i :: 0 <= i < |ops| ==> !Names(ops[i], p)
  }

  /** Over any run that tears nothing, an allocation that no operation names stays where it is. */
  lemma {:induction false} RunLive(h: Layout, ops: seq<Op>, p: nat, size: nat)
    requires Sound(h) && Live(h, p, size) && Untouched(ops, p) && Run(h, ops).Layout?
    ensures Live(Run(h, ops), p, size)
    decreases |ops|
  {
    hide Coalesced;
    hide Addr;
    hide Step;
    hide Live;
    hide Names;
    if ops != [] {
      StepSound(h, ops[0]);
      if Step(h, ops[0]).Torn? { TornStays(ops[1..]); } else { StepLive(h, ops[0], p, size); }
      RunLive(Step(h, ops[0]), ops[1..], p, size);
    }
  }

  // ---------- the heap in memory ----------

  /** What the source asks of its callers: pointers are null or live, and sizes have 64 bits. */
  ghost predicate Legal(h: Layout, op: Op)
  {
    match op
    case Alloc(size) => size < U64
    case Zalloc(size) => size < U64
    case Free(ptr) => h.Layout? && (ptr == 0 || IndexOf(h.blocks, ptr).Some?)
    case Realloc(ptr, size) => h.Layout? && size < U64 && (ptr == 0 || IndexOf(h.blocks, ptr).Some?)
    case Expand(_) => true
  }

  ghost predicate LegalRun(h: Layout, ops: seq<Op>)
    requires Sound(h)
    decreases |ops|
  {
    ops == [] || (Legal(h, ops[0]) && (StepSound(h, ops[0]); Step(h, ops[0]).Torn? || LegalRun(Step(h, ops[0]), ops[1..])))
  }

  lemma HeapSound(heap: H.Heap)
    requires heap.Valid()
    ensures Sound(heap.State())
  {
  }

  /** x is a payload byte of the block that the operation frees or moves. */
  ghost predicate Touches(bs: seq<Block>, op: Op, x: nat)
  {
    (op.Free? || op.Realloc?) && IndexOf(bs, op.ptr).Some? && Inside(bs, IndexOf(bs, op.ptr).value, x)
  }

  /** One operation on the heap in memory is one step of the model, and changes no live byte but those of
      the block it names. */
  method ServeOne(heap: H.Heap, op: Op) returns (torn: bool)
    requires heap.Valid() && Legal(heap.State(), op)
    modifies heap
    ensures (if torn then Torn else heap.State()) == Step(old(heap.State()), op)
    ensures !torn ==> heap.Valid()
    ensures !torn ==> forall x :: Owned(old(heap.blocks), x) && !Touches(old(heap.blocks), op, x) ==> SameByte(old(heap.mem), x, heap.mem, x)
  {
    hide Used;
    hide Addr;
    hide Linked;
    hide Coalesced;
    hide Owned;
    hide Inside;
    hide SameByte;
    hide TornBy;
    hide Overruns;
    hide ZeroOverruns;
    hide Take;
    hide Release;
    hide Grow;
    hide Align16;
    torn := false;
    H.SameBytes(heap.mem);
    match op
    case Alloc(size) =>
      var _, _ := heap.Malloc(size);
    case Zalloc(size) =>
      var _, overrun, _ := heap.Zalloc(size);
      torn := overrun;
    case Free(ptr) =>
      heap.Free(ptr, if ptr == 0 then 0 else IndexOf(heap.blocks, ptr).value);
    case Realloc(ptr, size) =>
      NullNotLive(heap.blocks);
      ghost var i := if ptr == 0 then 0 else IndexOf(heap.blocks, ptr).value;
      var _, overrun, _ := heap.Realloc(ptr, size, i);
      torn := overrun;
    case Expand(pages) =>
      if pages > 0 && heap.total + pages * PAGE_SIZE <= KERNEL_HEAP_SIZE {
        heap.Append(pages * PAGE_SIZE);
      }
  }

  /** The bytes of an allocation of size bytes at p are the same in both memories. */
  ghost predicate Unchanged(mem: Bytes, mem': Bytes, p: nat, size: nat)
  {
    forall x: nat :: p <= x < p + size ==> SameByte(mem, x, mem', x)
  }

  lemma UntouchedBytes(h: Layout, op: Op, p: nat, size: nat, mem: Bytes, mem': Bytes)
    requires h.Layout? && Live(h, p, size) && !Names(op, p)
    requires forall x :: Owned(h.blocks, x) && !Touches(h.blocks, op, x) ==> SameByte(mem, x, mem', x)
    ensures Unchanged(mem, mem', p, size)
  {
    hide Addr;
    hide SameByte;
    hide Owned;
    var bs := h.blocks;
    var k: nat :| LivePtr(bs, k, p) && bs[k].size == size;
    forall x: nat | p <= x < p + size
      ensures SameByte(mem, x, mem', x)
    {
      H.InsideOwned(bs, k, x);
      if Touches(bs, op, x) {
        InsideOnce(bs, k, IndexOf(bs, op.ptr).value, x);
        assert false;
      }
    }
  }

  lemma UnchangedTrans(m0: Bytes, m1: Bytes, m2: Bytes, p: nat, size: nat)
    requires Unchanged(m0, m1, p, size) && Unchanged(m1, m2, p, size)
    ensures Unchanged(m0, m2, p, size)
  {
    forall x: nat | p <= x < p + size
      ensures SameByte(m0, x, m2, x)
    {
      H.SameTrans(m0, x, m1, x, m2, x);
    }
  }

  lemma UnchangedSelf(mem: Bytes)
    ensures forall p, size :: Unchanged(mem, mem, p, size)
  {
  }

  /** Every allocation of h that the operations do not name is still there, byte for byte. */
  ghost predicate Preserved(h: Layout, mem: Bytes, ops: seq<Op>, h': Layout, mem': Bytes)
  {
    forall p, size :: Live(h, p, size) && Untouched(ops, p) ==> Live(h', p, size) && Unchanged(mem, mem', p, size)
  }

  lemma PreservedStep(h: Layout, mem: Bytes, ops: seq<Op>, k: nat, h1: Layout, mem1: Bytes, h2: Layout, mem2: Bytes)
    requires k < |ops| && Preserved(h, mem, ops[..k], h1, mem1) && h1.Layout? && Sound(h1) && h2 == Step(h1, ops[k]) && h2.Layout?
    requires forall x :: Owned(h1.blocks, x) && !Touches(h1.blocks, ops[k], x) ==> SameByte(mem1, x, mem2, x)
    ensures Preserved(h, mem, ops[..k + 1], h2, mem2)
  {
    hide Live;
    hide Unchanged;
    hide Coalesced;
    hide Addr;
    hide Step;
    hide Names;
    hide Owned;
    hide Touches;
    hide SameByte;
    forall p, size | Live(h, p, size) && Untouched(ops[..k + 1], p)
      ensures Live(h2, p, size) && Unchanged(mem, mem2, p, size)
    {
      assert ops[..k + 1][k] == ops[k] && forall i :: 0 <= i < k ==> ops[..k][i] == ops[..k + 1][i];
      assert Untouched(ops[..k], p);
      StepLive(h1, ops[k], p, size);
      UntouchedBytes(h1, ops[k], p, size, mem1, mem2);
      UnchangedTrans(mem, mem1, mem2, p, size);
    }
  }

  /** Runs operations on the heap in memory until the list is torn. The result is the model's run, and an
      allocation that no operation names keeps its place and its bytes. */
  method Serve(heap: H.Heap, ops: seq<Op>) returns (torn: bool)
    requires heap.Valid() && Sound(heap.State()) && LegalRun(heap.State(), ops)
    modifies heap
    ensures (if torn then Torn else heap.State()) == Run(old(heap.State()), ops)
    ensures !torn ==> heap.Valid() && Preserved(old(heap.State()), old(heap.mem), ops, heap.State(), heap.mem)
  {
    hide H.Heap.Valid;
    hide Sound;
    hide Step;
    hide Legal;
    hide Preserved;
    hide Owned;
    hide Touches;
    hide SameByte;
    torn := false;
    ghost var h0, mem0 := heap.State(), heap.mem;
    var k := 0;
    PreservedStart(h0, mem0, ops[..0]);
    assert ops[0..] == ops;
    while k < |ops|
      invariant k <= |ops| && heap.Valid() && Sound(heap.State()) && LegalRun(heap.State(), ops[k..])
      invariant Run(heap.State(), ops[k..]) == Run(h0, ops)
      invariant Preserved(h0, mem0, ops[..k], heap.State(), heap.mem)
    {
      assert ops[k..][0] == ops[k] && ops[k..][1..] == ops[k + 1..];
      ghost var h1, mem1 := heap.State(), heap.mem;
      SoundBlocks(h1);
      torn := ServeOne(heap, ops[k]);
      if torn {
        TornStays(ops[k + 1..]);
        return;
      }
      HeapSound(heap);
      PreservedStep(h0, mem0, ops, k, h1, mem1, heap.State(), heap.mem);
      k := k + 1;
    }
    assert ops[..|ops|] == ops;
  }

  lemma SoundBlocks(h: Layout)
    requires Sound(h) && h.Layout?
    ensures h.blocks != []
  {
  }

  lemma PreservedStart(h: Layout, mem: Bytes, ops: seq<Op>)
    ensures Preserved(h, mem, ops, h, mem)
  {
    UnchangedSelf(mem);
  }
}
