/**
 * The kernel heap of kernel/mm/heap.c as a sequence of blocks in address order: what
 * allocation, freeing and growth do to it, and what every operation keeps.
 */
module HeapModel {
  const BASE: nat := 0xFFFF_FFFF_8200_0000
  const HDR: nat := 40
  const MIN_BLOCK: nat := 32
  const U64: nat := 0x1_0000_0000_0000_0000

  /** A block's payload size and whether it is free. */
  datatype Block = Block(size: nat, free: bool)

  /** The address of the header of block i; for i == |bs| the end of the heap. */
  ghost function Addr(bs: seq<Block>, i: nat): nat
    requires i <= |bs|
  {
    if i == 0 then BASE else Addr(bs, i - 1) + HDR + bs[i - 1].size
  }

  /** The sum of the sizes of the live blocks: heap_used_bytes. */
  ghost function Used(bs: seq<Block>): nat
  {
    if bs == [] then 0
    else Used(bs[..|bs| - 1]) + if bs[|bs| - 1].free then 0 else bs[|bs| - 1].size
  }

  /** No two neighbours are both free. */
  ghost predicate Coalesced(bs: seq<Block>)
  {
    forall i :: 0 <= i < |bs| - 1 ==> !(bs[i].free && bs[i + 1].free)
  }

  /** bs with blocks i to j - 1 replaced by m. */
  ghost function Splice(bs: seq<Block>, i: nat, j: nat, m: seq<Block>): seq<Block>
    requires i <= j <= |bs|
  {
    bs[..i] + m + bs[j..]
  }

  // ---------- allocation ----------

  /** ALIGN_UP(size, 16) on a 64-bit size_t. */
  function Align16(size: nat): (r: nat)
    ensures r % 16 == 0
  {
    ((size + 15) % U64) / 16 * 16
  }

  /** Rounding up gives a block that is large enough exactly when it does not wrap around. */
  lemma Align16Enough(size: nat)
    requires size < U64
    ensures Align16(size) >= size <==> size <= U64 - 16
    ensures size <= U64 - 16 ==> Align16(size) < size + 16
    ensures size > U64 - 16 ==> Align16(size) == 0
  {
  }

  predicate FitsIn(b: Block, n: nat)
  {
    b.free && b.size >= n
  }

  ghost predicate SomeFit(bs: seq<Block>, n: nat)
  {
    exists i :: 0 <= i < |bs| && FitsIn(bs[i], n)
  }

  /** First fit: the lowest free block of at least n bytes. */
  ghost predicate FirstFit(bs: seq<Block>, n: nat, i: nat)
  {
    i < |bs| && FitsIn(bs[i], n) && forall j :: 0 <= j < i ==> !FitsIn(bs[j], n)
  }

  /** Block i, which holds n bytes, is taken; what is left over becomes a free block if it has
      room for a header and 32 bytes. */
  ghost function Take(bs: seq<Block>, i: nat, n: nat): seq<Block>
    requires i < |bs| && bs[i].size >= n
  {
    Splice(bs, i, i + 1,
           if bs[i].size >= n + HDR + MIN_BLOCK then [Block(n, false), Block(bs[i].size - n - HDR, true)]
           else [Block(bs[i].size, false)])
  }

  // ---------- freeing ----------

  /** The first block that freeing block i merges: i, or the block before it if that is free. */
  ghost function LowEnd(bs: seq<Block>, i: nat): (lo: nat)
    requires i < |bs|
    ensures lo <= i
  {
    if i > 0 && bs[i - 1].free then i - 1 else i
  }

  /** The end of the blocks that freeing block i merges. */
  ghost function HighEnd(bs: seq<Block>, i: nat): (hi: nat)
    requires i < |bs|
    ensures i < hi <= |bs|
  {
    if i + 1 < |bs| && bs[i + 1].free then i + 2 else i + 1
  }

  /** One free block over the extent of blocks i to j - 1. */
  ghost function Over(bs: seq<Block>, i: nat, j: nat): Block
    requires i < j <= |bs|
  {
    AddrMono(bs, i, j);
    Block(Addr(bs, j) - Addr(bs, i) - HDR, true)
  }

  /** Block i and its free neighbours become one free block. */
  ghost function Release(bs: seq<Block>, i: nat): seq<Block>
    requires i < |bs|
  {
    Splice(bs, LowEnd(bs, i), HighEnd(bs, i), [Over(bs, LowEnd(bs, i), HighEnd(bs, i))])
  }

  // ---------- growth ----------

  /** A free block of n bytes payload is added at the end and merged with a free last block. */
  ghost function Grow(bs: seq<Block>, n: nat): seq<Block>
    requires bs != []
  {
    var last := |bs| - 1;
    if bs[last].free then Splice(bs, last, |bs|, [Block(bs[last].size + HDR + n, true)])
    else Splice(bs, |bs|, |bs|, [Block(n, true)])
  }

  // ---------- addresses ----------

  lemma {:induction false} AddrMono(bs: seq<Block>, i: nat, j: nat)
    requires i < j <= |bs|
    ensures Addr(bs, i) + HDR + bs[i].size <= Addr(bs, j)
    decreases j
  {
    if i < j - 1 { AddrMono(bs, i, j - 1); }
  }

  /** Payloads of different blocks, and payloads and headers, never overlap. */
  lemma PayloadsDisjoint(bs: seq<Block>, i: nat, j: nat, x: nat)
    requires i < |bs| && j < |bs|
    requires Addr(bs, i) + HDR <= x < Addr(bs, i) + HDR + bs[i].size
    ensures i != j ==> !(Addr(bs, j) + HDR <= x < Addr(bs, j) + HDR + bs[j].size)
    ensures !(Addr(bs, j) <= x < Addr(bs, j) + HDR)
  {
    if i < j { AddrMono(bs, i, j); }
    if j < i { AddrMono(bs, j, i); }
  }

  lemma {:induction false} AddrPrefix(bs: seq<Block>, bs': seq<Block>, i: nat)
    requires i <= |bs| && i <= |bs'| && forall j :: 0 <= j < i ==> bs[j].size == bs'[j].size
    ensures Addr(bs, i) == Addr(bs', i)
  {
    if i > 0 { AddrPrefix(bs, bs', i - 1); }
  }

  /** Blocks that follow equal addresses with equal sizes keep their addresses. */
  lemma {:induction false} AddrSuffix(bs: seq<Block>, bs': seq<Block>, i: nat, shift: int, n: nat)
    requires i <= n <= |bs| && 0 <= i + shift && n + shift <= |bs'|
    requires Addr(bs, i) == Addr(bs', i + shift)
    requires forall j :: i <= j < n ==> bs[j].size == bs'[j + shift].size
    ensures Addr(bs, n) == Addr(bs', n + shift)
    decreases n
  {
    if n > i { AddrSuffix(bs, bs', i, shift, n - 1); }
  }

  // ---------- what the operations keep ----------

  lemma {:induction false} UsedConcat(a: seq<Block>, b: seq<Block>)
    ensures Used(a + b) == Used(a) + Used(b)
    decreases |b|
  {
    if b == [] {
      assert a + b == a;
    } else {
      var n := |b| - 1;
      assert (a + b)[..|a + b| - 1] == a + b[..n];
      UsedConcat(a, b[..n]);
    }
  }

  lemma UsedOne(b: Block)
    ensures Used([b]) == if b.free then 0 else b.size
  {
    assert [b][..0] == [];
  }

  lemma UsedTwo(a: Block, b: Block)
    ensures Used([a, b]) == (if a.free then 0 else a.size) + (if b.free then 0 else b.size)
  {
    assert [a, b] == [a] + [b];
    UsedConcat([a], [b]);
    UsedOne(a);
    UsedOne(b);
  }

  lemma UsedMiddle(p: seq<Block>, m: seq<Block>, s: seq<Block>)
    ensures Used(p + m + s) == Used(p) + Used(m) + Used(s)
  {
    UsedConcat(p + m, s);
    UsedConcat(p, m);
  }

  lemma SpliceParts(bs: seq<Block>, i: nat, j: nat, m: seq<Block>)
    requires i <= j <= |bs|
    ensures var bs', d := Splice(bs, i, j, m), |m| - (j - i);
      && |bs'| == |bs| + d
      && (forall k :: 0 <= k < i ==> bs'[k] == bs[k])
      && (forall k :: 0 <= k < |m| ==> bs'[i + k] == m[k])
      && (forall k :: j <= k < |bs| ==> bs'[k + d] == bs[k])
  {
  }

  lemma SpliceUsed(bs: seq<Block>, i: nat, j: nat, m: seq<Block>)
    requires i <= j <= |bs|
    ensures Used(Splice(bs, i, j, m)) + Used(bs[i..j]) == Used(bs) + Used(m)
  {
    UsedMiddle(bs[..i], m, bs[j..]);
    UsedMiddle(bs[..i], bs[i..j], bs[j..]);
    assert bs[..j] == bs[..i] + bs[i..j];
    assert bs == bs[..j] + bs[j..];
  }

  /** bs' is bs with something else between block i and block j: all other blocks are the same, at
      the same addresses, those from j on with their index shifted by d. */
  ghost predicate Around(bs: seq<Block>, bs': seq<Block>, i: nat, j: nat, d: int)
  {
    && i <= j <= |bs| && |bs'| == |bs| + d && i <= j + d
    && (forall k :: 0 <= k < i ==> bs'[k] == bs[k])
    && (forall k :: j <= k < |bs| ==> bs'[k + d] == bs[k])
    && (forall k :: 0 <= k <= i ==> Addr(bs', k) == Addr(bs, k))
    && (forall k :: j <= k <= |bs| ==> Addr(bs', k + d) == Addr(bs, k))
  }

  /** Where a splice ends at the address at which the replaced blocks ended, nothing else moves. */
  lemma SpliceAround(bs: seq<Block>, i: nat, j: nat, m: seq<Block>)
    requires i <= j <= |bs|
    requires Addr(Splice(bs, i, j, m), i + |m|) == Addr(bs, j)
    ensures Around(bs, Splice(bs, i, j, m), i, j, |m| - (j - i))
  {
    hide Addr;
    SpliceParts(bs, i, j, m);
    var bs', d := Splice(bs, i, j, m), |m| - (j - i);
    hide Splice;
    forall k | 0 <= k <= i
      ensures Addr(bs', k) == Addr(bs, k)
    {
      AddrPrefix(bs', bs, k);
    }
    forall k | j <= k <= |bs|
      ensures Addr(bs', k + d) == Addr(bs, k)
    {
      AddrSuffix(bs, bs', j, d, k);
    }
  }

  ghost function Pieces(b: Block, n: nat): (m: seq<Block>)
    requires b.size >= n
    ensures 1 <= |m| <= 2
  {
    if b.size >= n + HDR + MIN_BLOCK then [Block(n, false), Block(b.size - n - HDR, true)] else [Block(b.size, false)]
  }

  lemma {:induction false} TakeAround(bs: seq<Block>, i: nat, n: nat)
    requires i < |bs| && bs[i].size >= n
    ensures Around(bs, Take(bs, i, n), i, i + 1, |Pieces(bs[i], n)| - 1)
    ensures forall k :: 0 <= k < |Pieces(bs[i], n)| ==> Take(bs, i, n)[i + k] == Pieces(bs[i], n)[k]
  {
    hide Around;
    var m := Pieces(bs[i], n);
    SpliceParts(bs, i, i + 1, m);
    var bs' := Splice(bs, i, i + 1, m);
    assert bs' == Take(bs, i, n);
    assert bs'[i + 0] == m[0] && (|m| == 2 ==> bs'[i + 1] == m[1]);
    AddrPrefix(bs', bs, i);
    hide Splice;
    SpliceAround(bs, i, i + 1, m);
  }

  lemma {:induction false} TakeUsed(bs: seq<Block>, i: nat, n: nat)
    requires i < |bs| && bs[i].free && bs[i].size >= n
    ensures Used(Take(bs, i, n)) == Used(bs) + Pieces(bs[i], n)[0].size
  {
    hide Used;
    var b, m := bs[i], Pieces(bs[i], n);
    SpliceUsed(bs, i, i + 1, m);
    assert bs[i..i + 1] == [b];
    UsedOne(b);
    if |m| == 2 { UsedTwo(m[0], m[1]); } else { UsedOne(m[0]); }
    hide Splice;
  }

  /** An allocation takes exactly the block it found and at least n bytes of it, keeps the blocks
      coalesced, adds the taken size to the used bytes and moves no other block. */
  lemma {:induction false} TakeKeeps(bs: seq<Block>, i: nat, n: nat)
    requires i < |bs| && bs[i].free && bs[i].size >= n && Coalesced(bs)
    ensures var bs' := Take(bs, i, n);
      && Around(bs, bs', i, i + 1, |bs'| - |bs|)
      && i < |bs'| && !bs'[i].free && n <= bs'[i].size <= bs[i].size
      && Coalesced(bs') && Used(bs') == Used(bs) + bs'[i].size
  {
    hide Used;
    hide Addr;
    hide Take;
    TakeAround(bs, i, n);
    TakeUsed(bs, i, n);
    var bs', d := Take(bs, i, n), |Pieces(bs[i], n)| - 1;
    assert bs'[i + 0] == Pieces(bs[i], n)[0];
    if d == 1 { assert bs'[i + 1] == Pieces(bs[i], n)[1]; }
    forall k | 0 <= k < |bs'| - 1
      ensures !(bs'[k].free && bs'[k + 1].free)
    {
      if k > i + d { assert bs'[k - d + d] == bs[k - d] && bs'[k + 1 - d + d] == bs[k + 1 - d]; }
      if k == i + d { assert bs'[k + 1 - d + d] == bs[k + 1 - d]; }
    }
  }

  /** Merging blocks i to j - 1 into one free block. */
  lemma {:induction false} MergeAround(bs: seq<Block>, i: nat, j: nat)
    requires i < j <= |bs|
    ensures var bs' := Splice(bs, i, j, [Over(bs, i, j)]);
      Around(bs, bs', i, j, 1 - (j - i)) && bs'[i] == Over(bs, i, j) && Used(bs') + Used(bs[i..j]) == Used(bs)
  {
    hide Used;
    hide Around;
    var b := Over(bs, i, j);
    SpliceParts(bs, i, j, [b]);
    SpliceUsed(bs, i, j, [b]);
    UsedOne(b);
    var bs' := Splice(bs, i, j, [b]);
    assert bs'[i + 0] == b;
    AddrPrefix(bs', bs, i);
    hide Splice;
    SpliceAround(bs, i, j, [b]);
  }

  lemma {:induction false} ReleasedUsed(bs: seq<Block>, i: nat)
    requires i < |bs| && !bs[i].free
    ensures Used(bs[LowEnd(bs, i)..HighEnd(bs, i)]) == bs[i].size
  {
    hide Used;
    var lo, hi := LowEnd(bs, i), HighEnd(bs, i);
    UsedConcat(bs[lo..i], bs[i..hi]);
    assert bs[lo..hi] == bs[lo..i] + bs[i..hi];
    if lo == i { assert bs[lo..i] == []; UsedNone(); } else { assert bs[lo..i] == [bs[lo]]; UsedOne(bs[lo]); }
    if hi == i + 1 {
      assert bs[i..hi] == [bs[i]];
      UsedOne(bs[i]);
    } else {
      assert bs[i..hi] == [bs[i], bs[i + 1]];
      UsedTwo(bs[i], bs[i + 1]);
    }
  }

  /** Freeing block i leaves the blocks coalesced, subtracts its size from the used bytes, merges it
      with its free neighbours only and moves no other block. */
  lemma {:induction false} ReleaseKeeps(bs: seq<Block>, i: nat)
    requires i < |bs| && !bs[i].free && Coalesced(bs)
    ensures var bs', lo, hi := Release(bs, i), LowEnd(bs, i), HighEnd(bs, i);
      && Around(bs, bs', lo, hi, |bs'| - |bs|)
      && lo < |bs'| && bs'[lo].free && Addr(bs, lo) + HDR + bs'[lo].size == Addr(bs, hi)
      && Coalesced(bs') && Used(bs') + bs[i].size == Used(bs)
  {
    var bs', lo, hi := Release(bs, i), LowEnd(bs, i), HighEnd(bs, i);
    hide Used;
    hide Addr;
    MergeAround(bs, lo, hi);
    ReleasedUsed(bs, i);
    hide Release;
    hide Splice;
    var d := |bs'| - |bs|;
    forall k | 0 <= k < |bs'| - 1
      ensures !(bs'[k].free && bs'[k + 1].free)
    {
      if k > lo { assert bs'[k - d + d] == bs[k - d] && bs'[k + 1 - d + d] == bs[k + 1 - d]; }
      if k == lo { assert bs'[k + 1 - d + d] == bs[k + 1 - d]; }
    }
  }

  // ---------- growth ----------

  /** Growing by n bytes and a header keeps the blocks coalesced and the used bytes, moves no block
      and moves the end by exactly what was added. */
  lemma {:induction false} GrowKeeps(bs: seq<Block>, n: nat)
    requires bs != [] && Coalesced(bs)
    ensures var bs' := Grow(bs, n);
      && |bs| <= |bs'| <= |bs| + 1 && bs'[|bs'| - 1].free && bs'[|bs'| - 1].size >= n
      && Coalesced(bs') && Used(bs') == Used(bs)
      && (forall k :: 0 <= k < |bs'| - 1 ==> bs'[k] == bs[k])
      && (forall k :: 0 <= k < |bs'| ==> Addr(bs', k) == Addr(bs, k))
      && Addr(bs', |bs'|) == Addr(bs, |bs|) + HDR + n
  {
    hide Used;
    var i := if bs[|bs| - 1].free then |bs| - 1 else |bs|;
    var b := if bs[|bs| - 1].free then Block(bs[|bs| - 1].size + HDR + n, true) else Block(n, true);
    SpliceParts(bs, i, |bs|, [b]);
    SpliceUsed(bs, i, |bs|, [b]);
    UsedOne(b);
    if i < |bs| {
      assert bs[i..|bs|] == [bs[i]];
      UsedOne(bs[i]);
    } else {
      assert bs[i..|bs|] == [];
      UsedNone();
    }
    var bs' := Grow(bs, n);
    assert bs' == Splice(bs, i, |bs|, [b]);
    assert bs'[i + 0] == b;
    hide Splice;
    hide Grow;
    forall k | 0 <= k < |bs'|
      ensures Addr(bs', k) == Addr(bs, k)
    {
      AddrPrefix(bs', bs, k);
    }
  }

  lemma UsedNone()
    ensures Used([]) == 0
  {
  }
}
