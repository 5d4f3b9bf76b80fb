/**
 * The block headers of kernel/mm/heap.c as they lie in memory, and how the pointer updates of
 * allocation, freeing and growth keep them a doubly linked list of exactly the model's blocks.
 */
module HeapLinks {
  import opened HeapModel

  const MAGIC: nat := 0xDEAD_BEEF

  /** heap_block_t; null pointers are 0. */
  datatype Header = Header(magic: nat, size: nat, free: bool, next: nat, prev: nat)

  /** Memory that was last written as a header, by address. */
  type Headers = map<nat, Header>

  /** Memory that was last written as payload bytes, by address. */
  type Bytes = map<nat, bv8>

  ghost function NextOf(bs: seq<Block>, k: nat): nat
    requires k < |bs|
  {
    if k + 1 < |bs| then Addr(bs, k + 1) else 0
  }

  ghost function PrevOf(bs: seq<Block>, k: nat): nat
    requires k < |bs|
  {
    if k > 0 then Addr(bs, k - 1) else 0
  }

  ghost function HeaderOf(bs: seq<Block>, k: nat): Header
    requires k < |bs|
  {
    Header(MAGIC, bs[k].size, bs[k].free, NextOf(bs, k), PrevOf(bs, k))
  }

  /** Memory holds the headers of bs, linked in both directions in address order. */
  ghost predicate Linked(hdr: Headers, bs: seq<Block>)
  {
    forall k :: 0 <= k < |bs| ==> Addr(bs, k) in hdr && hdr[Addr(bs, k)] == HeaderOf(bs, k)
  }

  /** x is a payload byte of a live block. */
  ghost predicate Owned(bs: seq<Block>, x: nat)
  {
    exists k :: 0 <= k < |bs| && !bs[k].free && Inside(bs, k, x)
  }

  ghost predicate Inside(bs: seq<Block>, k: nat, x: nat)
    requires k < |bs|
  {
    Addr(bs, k) + HDR <= x < Addr(bs, k) + HDR + bs[k].size
  }

  /** ptr points to the payload of the live block k. */
  ghost predicate LivePtr(bs: seq<Block>, k: nat, ptr: nat)
  {
    k < |bs| && !bs[k].free && ptr == Addr(bs, k) + HDR
  }

  // ---------- memory ----------

  /** What is left of the headers when n bytes at a are overwritten. */
  function KeepHeaders(hdr: Headers, a: nat, n: nat): Headers
  {
    map x | x in hdr && (x + HDR <= a || a + n <= x) :: hdr[x]
  }

  /** What is left of the bytes when n bytes at a are overwritten. */
  function KeepBytes(mem: Bytes, a: nat, n: nat): Bytes
  {
    map x | x in mem && !(a <= x < a + n) :: mem[x]
  }

  /** memcpy for buffers that do not overlap. */
  function Copied(mem: Bytes, dst: nat, src: nat, n: nat): Bytes
  {
    KeepBytes(mem, dst, n) + map x | dst <= x < dst + n && From(dst, src, x) in mem :: mem[From(dst, src, x)]
  }

  /** memset to zero. */
  function Cleared(mem: Bytes, a: nat, n: nat): Bytes
  {
    KeepBytes(mem, a, n) + map x | a <= x < a + n && Spans(a, n, x) :: 0
  }

  predicate Spans(a: nat, n: nat, x: int)
  {
    a <= x < a + n
  }

  /** The source address of the byte copied to x. */
  function From(dst: int, src: int, x: int): int
  {
    src + x - dst
  }

  ghost predicate SameByte(mem: Bytes, x: nat, mem': Bytes, x': nat)
  {
    (x in mem <==> x' in mem') && (x in mem ==> mem[x] == mem'[x'])
  }

  lemma CopiedBytes(mem: Bytes, dst: nat, src: nat, n: nat, k: nat)
    requires k < n
    ensures SameByte(mem, src + k, Copied(mem, dst, src, n), dst + k)
  {
    assert From(dst, src, dst + k) == src + k;
  }

  lemma CopiedElsewhere(mem: Bytes, dst: nat, src: nat, n: nat, x: nat)
    requires !(dst <= x < dst + n)
    ensures SameByte(mem, x, Copied(mem, dst, src, n), x)
  {
  }

  /** Overwriting bytes that belong to no header in the list leaves the list alone. */
  lemma {:induction false} PayloadLinked(hdr: Headers, bs: seq<Block>, k: nat, a: nat, n: nat)
    requires Linked(hdr, bs) && k < |bs|
    requires Addr(bs, k) + HDR <= a && a + n <= Addr(bs, k) + HDR + bs[k].size
    ensures Linked(KeepHeaders(hdr, a, n), bs)
  {
    hide HeaderOf;
    forall j | 0 <= j < |bs|
      ensures Addr(bs, j) in KeepHeaders(hdr, a, n)
    {
      if j < k { AddrMono(bs, j, k); }
      if k < j { AddrMono(bs, k, j); }
    }
  }

  /** The address of block j + d of bs', for a block behind the changed ones. */
  lemma AroundSuffix(bs: seq<Block>, bs': seq<Block>, i: nat, j: nat, d: int, k: int)
    requires Around(bs, bs', i, j, d) && j + d <= k < |bs'|
    ensures bs'[k] == bs[k - d] && Addr(bs', k) == Addr(bs, k - d) && Addr(bs', k + 1) == Addr(bs, k - d + 1)
  {
    hide Addr;
    var m := k - d;
    assert bs'[m + d] == bs[m] && Addr(bs', m + d) == Addr(bs, m) && Addr(bs', (m + 1) + d) == Addr(bs, m + 1);
  }

  lemma AddrApart(bs: seq<Block>, i: nat, j: nat)
    requires i <= |bs| && j <= |bs| && i != j
    ensures Addr(bs, i) != Addr(bs, j)
  {
    if i < j { AddrMono(bs, i, j); } else { AddrMono(bs, j, i); }
  }

  // ---------- merging ----------

  /** The headers after blocks i to j - 1 became one free block. */
  ghost function MergedHeaders(hdr: Headers, bs: seq<Block>, i: nat, j: nat): Headers
    requires i < j <= |bs| && Linked(hdr, bs)
  {
    var a := Addr(bs, i);
    var h := hdr[a := Header(MAGIC, Over(bs, i, j).size, true, if j < |bs| then Addr(bs, j) else 0, hdr[a].prev)];
    if j < |bs| then h[Addr(bs, j) := h[Addr(bs, j)].(prev := a)] else h
  }

  lemma {:induction false} MergeLinked(hdr: Headers, bs: seq<Block>, i: nat, j: nat)
    requires i < j <= |bs| && Linked(hdr, bs)
    ensures Linked(MergedHeaders(hdr, bs, i, j), Splice(bs, i, j, [Over(bs, i, j)]))
  {
    hide Used;
    MergeAround(bs, i, j);
    hide Addr;
    var bs', d := Splice(bs, i, j, [Over(bs, i, j)]), 1 - (j - i);
    hide Splice;
    var h' := MergedHeaders(hdr, bs, i, j);
    hide Over;
    forall k | 0 <= k < |bs'|
      ensures Addr(bs', k) in h' && h'[Addr(bs', k)] == HeaderOf(bs', k)
    {
      if k < i {
        MergedBefore(hdr, bs, i, j, bs', k);
      } else if k == i {
        AddrApart(bs, i, j);
        if i + 1 < |bs'| { AroundSuffix(bs, bs', i, j, d, i + 1); }
      } else {
        MergedAfter(hdr, bs, i, j, bs', k);
      }
    }
  }

  lemma {:induction false} MergedBefore(hdr: Headers, bs: seq<Block>, i: nat, j: nat, bs': seq<Block>, k: nat)
    requires i < j <= |bs| && Linked(hdr, bs) && Around(bs, bs', i, j, 1 - (j - i)) && k < i
    ensures var h' := MergedHeaders(hdr, bs, i, j); Addr(bs', k) in h' && h'[Addr(bs', k)] == HeaderOf(bs', k)
  {
    hide Addr;
    hide Over;
    AddrApart(bs, k, i);
    AddrApart(bs, k, j);
    assert hdr[Addr(bs, k)] == HeaderOf(bs, k);
    assert HeaderOf(bs', k) == HeaderOf(bs, k);
  }

  lemma {:induction false} MergedAfter(hdr: Headers, bs: seq<Block>, i: nat, j: nat, bs': seq<Block>, k: nat)
    requires i < j <= |bs| && Linked(hdr, bs) && Around(bs, bs', i, j, 1 - (j - i)) && i < k < |bs'|
    ensures var h' := MergedHeaders(hdr, bs, i, j); Addr(bs', k) in h' && h'[Addr(bs', k)] == HeaderOf(bs', k)
  {
    hide Addr;
    hide Over;
    hide MergedHeaders;
    hide Linked;
    hide Around;
    var d := 1 - (j - i);
    AroundSize(bs, bs', i, j, d);
    var m := k - d;
    MergedElsewhere(hdr, bs, i, j, m);
    AroundSuffix(bs, bs', i, j, d, k);
    if m > j { AroundSuffix(bs, bs', i, j, d, k - 1); }
    if k + 1 < |bs'| { AroundSuffix(bs, bs', i, j, d, k + 1); }
  }

  lemma AroundSize(bs: seq<Block>, bs': seq<Block>, i: nat, j: nat, d: int)
    requires Around(bs, bs', i, j, d)
    ensures i <= j <= |bs| && |bs'| == |bs| + d && i <= |bs'| && Addr(bs', i) == Addr(bs, i)
  {
    hide Addr;
  }

  /** A merge changes no header behind the merged blocks but the next one's prev. */
  lemma {:induction false} MergedElsewhere(hdr: Headers, bs: seq<Block>, i: nat, j: nat, m: nat)
    requires i < j <= m < |bs| && Linked(hdr, bs)
    ensures var h', a := MergedHeaders(hdr, bs, i, j), Addr(bs, m);
      a in h' && h'[a] == if m == j then HeaderOf(bs, m).(prev := Addr(bs, i)) else HeaderOf(bs, m)
  {
    hide Addr;
    hide Over;
    AddrApart(bs, m, i);
    if m != j { AddrApart(bs, m, j); }
    assert hdr[Addr(bs, m)] == HeaderOf(bs, m);
    hide HeaderOf;
  }

  /** Merging with the next block and then with the one before is the release of the model. */
  lemma {:induction false} ReleaseSteps(bs: seq<Block>, i: nat)
    requires i < |bs|
    ensures var hi := HighEnd(bs, i);
      var b1 := Splice(bs, i, hi, [Over(bs, i, hi)]);
      && i < |b1|
      && Release(bs, i) == if i > 0 && bs[i - 1].free then Splice(b1, i - 1, i + 1, [Over(b1, i - 1, i + 1)]) else b1
  {
    hide Used;
    var hi := HighEnd(bs, i);
    var b1 := Splice(bs, i, hi, [Over(bs, i, hi)]);
    MergeAround(bs, i, hi);
    if i > 0 && bs[i - 1].free {
      assert Addr(b1, i + 1) == Addr(bs, hi) by {
        assert Addr(b1, hi + (1 - (hi - i))) == Addr(bs, hi);
      }
      hide Addr;
      assert Over(b1, i - 1, i + 1) == Over(bs, i - 1, hi);
      hide Over;
      var b := Over(bs, i - 1, hi);
      assert b1[..i - 1] == bs[..i - 1];
      assert b1[i + 1..] == bs[hi..];
    }
  }

  // ---------- allocating ----------

  /** Block i is taken whole. */
  lemma {:induction false} TakeWholeLinked(hdr: Headers, bs: seq<Block>, i: nat, n: nat)
    requires Linked(hdr, bs) && i < |bs| && n <= bs[i].size < n + HDR + MIN_BLOCK
    ensures Linked(hdr[Addr(bs, i) := hdr[Addr(bs, i)].(free := false)], Take(bs, i, n))
  {
    var bs' := Take(bs, i, n);
    assert bs' == bs[i := Block(bs[i].size, false)];
    hide Take;
    forall k | 0 <= k <= |bs|
      ensures Addr(bs', k) == Addr(bs, k)
    {
      AddrPrefix(bs', bs, k);
    }
    forall k | 0 <= k < |bs| && k != i
      ensures Addr(bs, k) != Addr(bs, i)
    {
      AddrApart(bs, k, i);
    }
    hide Addr;
  }

  /** The headers after block i was split: a new header behind its first n bytes. */
  ghost function SplitHeaders(hdr: Headers, bs: seq<Block>, i: nat, n: nat): Headers
    requires Linked(hdr, bs) && i < |bs| && bs[i].size >= n + HDR
  {
    var a, na := Addr(bs, i), Addr(bs, i) + HDR + n;
    var h := hdr[na := Header(MAGIC, bs[i].size - n - HDR, true, NextOf(bs, i), a)];
    var h := if i + 1 < |bs| then h[Addr(bs, i + 1) := h[Addr(bs, i + 1)].(prev := na)] else h;
    h[a := Header(MAGIC, n, false, na, PrevOf(bs, i))]
  }

  /** The new header lies strictly inside block i, so it is no other block's. */
  lemma {:induction false} SplitApart(bs: seq<Block>, i: nat, n: nat, k: nat)
    requires i < |bs| && bs[i].size >= n + HDR && k <= |bs|
    ensures Addr(bs, k) != Addr(bs, i) + HDR + n
  {
    if k < i { AddrMono(bs, k, i); }
    if i < k { AddrMono(bs, i, k); }
  }

  lemma {:induction false} SplitLinked(hdr: Headers, bs: seq<Block>, i: nat, n: nat)
    requires Linked(hdr, bs) && i < |bs| && bs[i].size >= n + HDR + MIN_BLOCK
    ensures Linked(SplitHeaders(hdr, bs, i, n), Take(bs, i, n))
  {
    hide Addr;
    hide Take;
    hide Around;
    hide SplitHeaders;
    hide HeaderOf;
    var bs', h' := Take(bs, i, n), SplitHeaders(hdr, bs, i, n);
    SplitShape(bs, i, n);
    forall k | 0 <= k < |bs'|
      ensures Addr(bs', k) in h' && h'[Addr(bs', k)] == HeaderOf(bs', k)
    {
      if k < i {
        SplitBefore(hdr, bs, i, n, bs', k);
      } else if k == i {
        SplitTaken(hdr, bs, i, n, bs');
      } else if k == i + 1 {
        SplitRest(hdr, bs, i, n, bs');
      } else {
        SplitAfter(hdr, bs, i, n, bs', k);
      }
    }
  }

  /** The blocks of a split: the taken one, the rest behind it, and all others where they were. */
  lemma {:induction false} SplitShape(bs: seq<Block>, i: nat, n: nat)
    requires i < |bs| && bs[i].size >= n + HDR + MIN_BLOCK
    ensures var bs' := Take(bs, i, n);
      && Around(bs, bs', i, i + 1, 1) && i + 1 < |bs'| && Addr(bs', i + 1) == Addr(bs, i) + HDR + n
      && bs'[i] == Block(n, false) && bs'[i + 1] == Block(bs[i].size - n - HDR, true)
  {
    hide Take;
    TakeAround(bs, i, n);
    var bs', m := Take(bs, i, n), Pieces(bs[i], n);
    assert bs'[i + 0] == m[0] && bs'[i + 1] == m[1];
  }

  lemma {:induction false} SplitTaken(hdr: Headers, bs: seq<Block>, i: nat, n: nat, bs': seq<Block>)
    requires Linked(hdr, bs) && i < |bs| && bs[i].size >= n + HDR
    requires Around(bs, bs', i, i + 1, 1) && i + 1 < |bs'| && Addr(bs', i + 1) == Addr(bs, i) + HDR + n && bs'[i] == Block(n, false)
    ensures var h' := SplitHeaders(hdr, bs, i, n); Addr(bs', i) in h' && h'[Addr(bs', i)] == HeaderOf(bs', i)
  {
    hide Addr;
    hide Linked;
    assert Addr(bs', i) == Addr(bs, i) && (i > 0 ==> Addr(bs', i - 1) == Addr(bs, i - 1));
  }

  lemma {:induction false} SplitRest(hdr: Headers, bs: seq<Block>, i: nat, n: nat, bs': seq<Block>)
    requires Linked(hdr, bs) && i < |bs| && bs[i].size >= n + HDR
    requires Around(bs, bs', i, i + 1, 1) && i + 1 < |bs'| && Addr(bs', i + 1) == Addr(bs, i) + HDR + n
    requires bs'[i + 1] == Block(bs[i].size - n - HDR, true)
    ensures var h' := SplitHeaders(hdr, bs, i, n); Addr(bs', i + 1) in h' && h'[Addr(bs', i + 1)] == HeaderOf(bs', i + 1)
  {
    hide Addr;
    hide Linked;
    SplitApart(bs, i, n, i);
    assert Addr(bs', i) == Addr(bs, i);
    if i + 1 < |bs| {
      AroundSuffix(bs, bs', i, i + 1, 1, i + 2);
      SplitApart(bs, i, n, i + 1);
    }
  }

  /** A split changes no header but the new one, block i's and the next one's prev. */
  lemma {:induction false} SplitElsewhere(hdr: Headers, bs: seq<Block>, i: nat, n: nat, m: nat)
    requires Linked(hdr, bs) && i < |bs| && bs[i].size >= n + HDR && m < |bs| && m != i
    ensures var h', a := SplitHeaders(hdr, bs, i, n), Addr(bs, m);
      a in h' && h'[a] == if m == i + 1 then HeaderOf(bs, m).(prev := Addr(bs, i) + HDR + n) else HeaderOf(bs, m)
  {
    hide Addr;
    SplitApart(bs, i, n, m);
    AddrApart(bs, m, i);
    if m != i + 1 { AddrApart(bs, m, i + 1); }
    assert hdr[Addr(bs, m)] == HeaderOf(bs, m);
    hide HeaderOf;
  }

  lemma {:induction false} SplitBefore(hdr: Headers, bs: seq<Block>, i: nat, n: nat, bs': seq<Block>, k: nat)
    requires Linked(hdr, bs) && i < |bs| && bs[i].size >= n + HDR
    requires Around(bs, bs', i, i + 1, 1) && k < i
    ensures var h' := SplitHeaders(hdr, bs, i, n); Addr(bs', k) in h' && h'[Addr(bs', k)] == HeaderOf(bs', k)
  {
    hide Addr;
    hide SplitHeaders;
    hide Linked;
    SplitElsewhere(hdr, bs, i, n, k);
  }

  lemma {:induction false} SplitAfter(hdr: Headers, bs: seq<Block>, i: nat, n: nat, bs': seq<Block>, k: nat)
    requires Linked(hdr, bs) && i < |bs| && bs[i].size >= n + HDR
    requires Around(bs, bs', i, i + 1, 1) && i + 1 < k < |bs'|
    requires Addr(bs', i + 1) == Addr(bs, i) + HDR + n
    ensures var h' := SplitHeaders(hdr, bs, i, n); Addr(bs', k) in h' && h'[Addr(bs', k)] == HeaderOf(bs', k)
  {
    hide Addr;
    hide SplitHeaders;
    hide Linked;
    var m := k - 1;
    AroundSuffix(bs, bs', i, i + 1, 1, k);
    SplitElsewhere(hdr, bs, i, n, m);
    if m > i + 1 { AroundSuffix(bs, bs', i, i + 1, 1, k - 1); }
    assert NextOf(bs', k) == NextOf(bs, m) by {
      if k + 1 < |bs'| { AroundSuffix(bs, bs', i, i + 1, 1, k + 1); }
    }
  }

  // ---------- growing ----------

  /** The headers after a free block of n bytes was linked behind the last block. */
  ghost function AppendHeaders(hdr: Headers, bs: seq<Block>, n: nat): Headers
    requires Linked(hdr, bs) && bs != []
  {
    var last, e := Addr(bs, |bs| - 1), Addr(bs, |bs|);
    var h := hdr[e := Header(MAGIC, n, true, 0, last)];
    h[last := Header(MAGIC, bs[|bs| - 1].size, bs[|bs| - 1].free, e, PrevOf(bs, |bs| - 1))]
  }

  lemma {:induction false} AppendLinked(hdr: Headers, bs: seq<Block>, n: nat)
    requires Linked(hdr, bs) && bs != []
    ensures Linked(AppendHeaders(hdr, bs, n), bs + [Block(n, true)])
  {
    var bs', h' := bs + [Block(n, true)], AppendHeaders(hdr, bs, n);
    assert |bs'| == |bs| + 1 && bs'[|bs|] == Block(n, true) && forall k :: 0 <= k < |bs| ==> bs'[k] == bs[k];
    forall k | 0 <= k <= |bs|
      ensures Addr(bs', k) == Addr(bs, k)
    {
      AddrPrefix(bs', bs, k);
    }
    hide Addr;
    forall k | 0 <= k < |bs'|
      ensures Addr(bs', k) in h' && h'[Addr(bs', k)] == HeaderOf(bs', k)
    {
      AppendAt(hdr, bs, n, k);
      hide AppendHeaders;
      hide Linked;
    }
  }

  lemma {:induction false} AppendAt(hdr: Headers, bs: seq<Block>, n: nat, k: nat)
    requires Linked(hdr, bs) && bs != [] && k <= |bs|
    ensures var h', a := AppendHeaders(hdr, bs, n), Addr(bs, k);
      && a in h'
      && h'[a] == if k == |bs| then Header(MAGIC, n, true, 0, Addr(bs, |bs| - 1))
                  else if k == |bs| - 1 then HeaderOf(bs, k).(next := Addr(bs, |bs|)) else HeaderOf(bs, k)
  {
    hide Addr;
    if k < |bs| {
      AddrApart(bs, k, |bs|);
      assert hdr[Addr(bs, k)] == HeaderOf(bs, k);
    }
    if k != |bs| - 1 { AddrApart(bs, k, |bs| - 1); }
    hide Linked;
  }

  lemma {:induction false} GrowSteps(bs: seq<Block>, n: nat)
    requires bs != []
    ensures var b1 := bs + [Block(n, true)];
      Grow(bs, n) == if bs[|bs| - 1].free then Splice(b1, |bs| - 1, |b1|, [Over(b1, |bs| - 1, |b1|)]) else b1
  {
    var b1, last := bs + [Block(n, true)], |bs| - 1;
    assert Addr(b1, last + 2) == Addr(b1, last + 1) + HDR + n;
    assert Addr(b1, last + 1) == Addr(b1, last) + HDR + bs[last].size;
    assert Over(b1, last, |b1|) == Block(bs[last].size + HDR + n, true);
    assert b1[..last] == bs[..last];
  }

  /** The list's end is not a header. */
  lemma {:induction false} EndLinked(hdr: Headers, bs: seq<Block>, n: nat)
    requires Linked(hdr, bs)
    ensures Linked(KeepHeaders(hdr, Addr(bs, |bs|), n), bs)
  {
    hide HeaderOf;
    forall j | 0 <= j < |bs|
      ensures Addr(bs, j) in KeepHeaders(hdr, Addr(bs, |bs|), n)
    {
      AddrMono(bs, j, |bs|);
    }
  }

  // ---------- ownership ----------

  /** A live block outside i to j - 1 owns x. */
  ghost predicate OwnedOutside(bs: seq<Block>, i: nat, j: nat, x: nat)
  {
    exists k :: 0 <= k < |bs| && (k < i || j <= k) && !bs[k].free && Inside(bs, k, x)
  }

  lemma {:induction false} AroundOwned(bs: seq<Block>, bs': seq<Block>, i: nat, j: nat, d: int, x: nat)
    requires Around(bs, bs', i, j, d)
    ensures j + d >= 0 && (OwnedOutside(bs, i, j, x) <==> OwnedOutside(bs', i, j + d, x))
  {
    hide Addr;
    if OwnedOutside(bs, i, j, x) {
      var k :| 0 <= k < |bs| && (k < i || j <= k) && !bs[k].free && Inside(bs, k, x);
      if k >= j { AroundSuffix(bs, bs', i, j, d, k + d); }
      assert Inside(bs', if k < i then k else k + d, x);
    }
    if OwnedOutside(bs', i, j + d, x) {
      var k :| 0 <= k < |bs'| && (k < i || j + d <= k) && !bs'[k].free && Inside(bs', k, x);
      if k >= j + d { AroundSuffix(bs, bs', i, j, d, k); }
      assert Inside(bs, if k < i then k else k - d, x);
    }
  }

  /** Two blocks never own the same byte. */
  lemma {:induction false} InsideOnce(bs: seq<Block>, i: nat, j: nat, x: nat)
    requires i < |bs| && j < |bs| && Inside(bs, i, x) && Inside(bs, j, x)
    ensures i == j
  {
    if i < j { AddrMono(bs, i, j); }
    if j < i { AddrMono(bs, j, i); }
  }

  /** An allocation adds exactly the taken payload to the owned bytes. */
  lemma {:induction false} TakeOwned(bs: seq<Block>, i: nat, n: nat, x: nat)
    requires i < |bs| && bs[i].free && bs[i].size >= n && Coalesced(bs)
    ensures i < |Take(bs, i, n)| && (Owned(Take(bs, i, n), x) <==> Owned(bs, x) || Inside(Take(bs, i, n), i, x))
    ensures Inside(Take(bs, i, n), i, x) ==> !Owned(bs, x)
  {
    hide Around;
    hide Take;
    hide Inside;
    TakeParts(bs, i, n);
    var bs', d := Take(bs, i, n), |Pieces(bs[i], n)| - 1;
    AroundOwned(bs, bs', i, i + 1, d, x);
    assert Owned(bs, x) <==> OwnedOutside(bs, i, i + 1, x);
    assert Owned(bs', x) <==> OwnedOutside(bs', i, i + 1 + d, x) || Inside(bs', i, x);
    if Inside(bs', i, x) {
      TakeInside(bs, i, n, x);
      FreeNotOwned(bs, i, x);
    }
  }

  lemma {:induction false} TakeInside(bs: seq<Block>, i: nat, n: nat, x: nat)
    requires i < |bs| && bs[i].free && bs[i].size >= n && Coalesced(bs)
    requires i < |Take(bs, i, n)| && Inside(Take(bs, i, n), i, x)
    ensures Inside(bs, i, x)
  {
    hide Addr;
    hide Used;
    hide Take;
    TakeKeeps(bs, i, n);
  }

  lemma {:induction false} TakeParts(bs: seq<Block>, i: nat, n: nat)
    requires i < |bs| && bs[i].free && bs[i].size >= n
    ensures var bs', d := Take(bs, i, n), |Pieces(bs[i], n)| - 1;
      Around(bs, bs', i, i + 1, d) && |bs'| == |bs| + d && !bs'[i].free && (d == 1 ==> bs'[i + 1].free)
  {
    hide Addr;
    hide Take;
    TakeAround(bs, i, n);
    var bs' := Take(bs, i, n);
    assert bs'[i + 0] == Pieces(bs[i], n)[0];
    if |Pieces(bs[i], n)| == 2 { assert bs'[i + 1] == Pieces(bs[i], n)[1]; }
  }

  /** Freeing block i removes exactly its payload from the owned bytes. */
  lemma {:induction false} ReleaseOwned(bs: seq<Block>, i: nat, x: nat)
    requires i < |bs| && !bs[i].free && Coalesced(bs)
    ensures Owned(Release(bs, i), x) <==> Owned(bs, x) && !Inside(bs, i, x)
  {
    hide Around;
    hide Release;
    hide Inside;
    ReleaseParts(bs, i);
    var bs', lo, hi := Release(bs, i), LowEnd(bs, i), HighEnd(bs, i);
    AroundOwned(bs, bs', lo, hi, lo + 1 - hi, x);
    assert Owned(bs', x) <==> OwnedOutside(bs', lo, lo + 1, x);
    assert Owned(bs, x) <==> OwnedOutside(bs, lo, hi, x) || Inside(bs, i, x);
    if Inside(bs, i, x) && OwnedOutside(bs, lo, hi, x) {
      var k :| 0 <= k < |bs| && (k < lo || hi <= k) && !bs[k].free && Inside(bs, k, x);
      InsideOnce(bs, i, k, x);
    }
  }

  lemma {:induction false} ReleaseParts(bs: seq<Block>, i: nat)
    requires i < |bs| && !bs[i].free && Coalesced(bs)
    ensures var bs', lo, hi := Release(bs, i), LowEnd(bs, i), HighEnd(bs, i);
      Around(bs, bs', lo, hi, lo + 1 - hi) && |bs'| == |bs| + lo + 1 - hi && bs'[lo].free
  {
    hide Addr;
    hide Used;
    MergeAround(bs, LowEnd(bs, i), HighEnd(bs, i));
  }

  /** Growth changes no ownership. */
  lemma {:induction false} GrowOwned(bs: seq<Block>, n: nat, x: nat)
    requires bs != [] && Coalesced(bs)
    ensures Owned(Grow(bs, n), x) <==> Owned(bs, x)
  {
    GrowKeeps(bs, n);
    var bs' := Grow(bs, n);
    assert |bs'| == |bs| ==> bs[|bs| - 1].free;
    hide Addr;
    hide Used;
    hide Grow;
    if Owned(bs, x) {
      var k :| 0 <= k < |bs| && !bs[k].free && Inside(bs, k, x);
      assert Inside(bs', k, x);
    }
    if Owned(bs', x) {
      var k :| 0 <= k < |bs'| && !bs'[k].free && Inside(bs', k, x);
      assert Inside(bs, k, x);
    }
  }

  /** The end of the heap is owned by nobody. */
  lemma {:induction false} EndNotOwned(bs: seq<Block>, x: nat)
    requires Owned(bs, x)
    ensures x < Addr(bs, |bs|)
  {
    var k :| 0 <= k < |bs| && !bs[k].free && Inside(bs, k, x);
    AddrMono(bs, k, |bs|);
  }

  /** The bytes inside a free block are owned by nobody. */
  lemma {:induction false} FreeNotOwned(bs: seq<Block>, i: nat, x: nat)
    requires i < |bs| && bs[i].free && Inside(bs, i, x)
    ensures !Owned(bs, x)
  {
    if Owned(bs, x) {
      var k :| 0 <= k < |bs| && !bs[k].free && Inside(bs, k, x);
      InsideOnce(bs, i, k, x);
    }
  }
}
