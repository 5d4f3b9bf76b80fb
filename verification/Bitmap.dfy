/**
 * The bitmap of kernel/lib/bitmap.h: 64-bit words changed in place, one bit a page.
 */
module Bitmap {
  import opened Wrappers

  function Offset(bit: nat): bv6
  {
    (bit % 64) as bv6
  }

  /** bitmap_test */
  predicate Test(ws: seq<bv64>, bit: nat)
    requires bit < 64 * |ws|
  {
    TestWord(ws[bit / 64], Offset(bit))
  }

  predicate TestWord(w: bv64, i: bv6)
  {
    (w >> i) & 1 == 1
  }

  /** The clear bits. */
  ghost function Clear(ws: seq<bv64>): (s: set<nat>)
  {
    set p | 0 <= p < 64 * |ws| && !Test(ws, p)
  }

  lemma TestIsUsed(ws: seq<bv64>, bit: nat)
    requires bit < 64 * |ws|
    ensures Test(ws, bit) <==> bit !in Clear(ws)
  {
  }

  function SetWord(w: bv64, i: bv6): bv64
  {
    w | (1 << i)
  }

  function ClearWord(w: bv64, i: bv6): bv64
  {
    w & !(1 << i)
  }

  lemma SetBit(w: bv64, i: bv6, j: bv6)
    ensures TestWord(w | (1 << i), j) == (i == j || TestWord(w, j))
  {
  }

  lemma ClearBit(w: bv64, i: bv6, j: bv6)
    ensures TestWord(w & !(1 << i), j) == (i != j && TestWord(w, j))
  {
  }

  lemma WordSet(w: bv64, i: bv6, j: bv6)
    ensures TestWord(SetWord(w, i), j) == (i == j || TestWord(w, j))
  {
    hide TestWord;
    SetBit(w, i, j);
  }

  lemma WordClear(w: bv64, i: bv6, j: bv6)
    ensures TestWord(ClearWord(w, i), j) == (i != j && TestWord(w, j))
  {
    hide TestWord;
    ClearBit(w, i, j);
  }

  lemma Offsets(a: nat)
    ensures Offset(a) as nat == a % 64
  {
  }

  /** Different bits of one word have different offsets. */
  lemma OffsetInjective(a: nat, b: nat)
    requires a / 64 == b / 64 && Offset(a) == Offset(b)
    ensures a == b
  {
    hide Offset;
    Offsets(a);
    Offsets(b);
  }

  lemma SetOne(ws: seq<bv64>, bit: nat)
    requires bit < 64 * |ws|
    ensures Clear(ws[bit / 64 := SetWord(ws[bit / 64], Offset(bit))]) == Clear(ws) - {bit}
  {
    hide TestWord;
    hide SetWord;
    hide Offset;
    var ws' := ws[bit / 64 := SetWord(ws[bit / 64], Offset(bit))];
    forall p: nat | p < 64 * |ws|
      ensures Test(ws', p) == (p == bit || Test(ws, p))
    {
      if p / 64 == bit / 64 {
        WordSet(ws[bit / 64], Offset(bit), Offset(p));
        if Offset(p) == Offset(bit) { OffsetInjective(p, bit); }
      }
    }
  }

  lemma ClearOne(ws: seq<bv64>, bit: nat)
    requires bit < 64 * |ws|
    ensures Clear(ws[bit / 64 := ClearWord(ws[bit / 64], Offset(bit))]) == Clear(ws) + {bit}
  {
    hide TestWord;
    hide ClearWord;
    hide Offset;
    var ws' := ws[bit / 64 := ClearWord(ws[bit / 64], Offset(bit))];
    forall p: nat | p < 64 * |ws|
      ensures Test(ws', p) == (p != bit && Test(ws, p))
    {
      if p / 64 == bit / 64 {
        WordClear(ws[bit / 64], Offset(bit), Offset(p));
        if Offset(p) == Offset(bit) { OffsetInjective(p, bit); }
      }
    }
  }

  /** bitmap_set */
  method Set(bitmap: array<bv64>, bit: nat)
    requires bit < 64 * bitmap.Length
    modifies bitmap
    ensures Clear(bitmap[..]) == old(Clear(bitmap[..])) - {bit}
  {
    SetOne(bitmap[..], bit);
    bitmap[bit / 64] := SetWord(bitmap[bit / 64], Offset(bit));
    hide *;
    assert bitmap[..] == old(bitmap[..])[bit / 64 := bitmap[bit / 64]];
  }

  /** bitmap_clear */
  method Reset(bitmap: array<bv64>, bit: nat)
    requires bit < 64 * bitmap.Length
    modifies bitmap
    ensures Clear(bitmap[..]) == old(Clear(bitmap[..])) + {bit}
  {
    ClearOne(bitmap[..], bit);
    bitmap[bit / 64] := ClearWord(bitmap[bit / 64], Offset(bit));
    hide *;
    assert bitmap[..] == old(bitmap[..])[bit / 64 := bitmap[bit / 64]];
  }

  predicate Between(p: nat, start: nat, count: nat)
  {
    start <= p < start + count
  }

  /** The pages start, start + 1, ..., start + count - 1. */
  ghost function Range(start: nat, count: nat): (s: set<nat>)
    ensures forall p :: p in s <==> start <= p < start + count
  {
    set p | start <= p < start + count && Between(p, start, count)
  }

  lemma {:induction false} RangeSize(start: nat, count: nat)
    ensures |Range(start, count)| == count
  {
    if count > 0 {
      RangeSize(start, count - 1);
      assert Range(start, count) == Range(start, count - 1) + {start + count - 1};
    }
  }

  lemma ClearSize(ws: seq<bv64>)
    ensures |Clear(ws)| <= 64 * |ws|
  {
    var r := Range(0, 64 * |ws|);
    RangeSize(0, 64 * |ws|);
    assert r == Clear(ws) + (r - Clear(ws));
  }

  /** bitmap_set_range */
  method SetRange(bitmap: array<bv64>, start: nat, count: nat)
    requires start + count <= 64 * bitmap.Length
    modifies bitmap
    ensures Clear(bitmap[..]) == old(Clear(bitmap[..])) - Range(start, count)
  {
    var i := start;
    while i < start + count
      invariant start <= i <= start + count
      invariant Clear(bitmap[..]) == old(Clear(bitmap[..])) - Range(start, i - start)
    {
      Set(bitmap, i);
      i := i + 1;
    }
  }

  /** bitmap_clear_range */
  method ResetRange(bitmap: array<bv64>, start: nat, count: nat)
    requires start + count <= 64 * bitmap.Length
    modifies bitmap
    ensures Clear(bitmap[..]) == old(Clear(bitmap[..])) + Range(start, count)
  {
    var i := start;
    while i < start + count
      invariant start <= i <= start + count
      invariant Clear(bitmap[..]) == old(Clear(bitmap[..])) + Range(start, i - start)
    {
      Reset(bitmap, i);
      i := i + 1;
    }
  }

  /** memset(bitmap, 0xFF, ...): every bit set. */
  method SetAll(bitmap: array<bv64>)
    modifies bitmap
    ensures Clear(bitmap[..]) == {}
  {
    var i := 0;
    while i < bitmap.Length
      invariant i <= bitmap.Length
      invariant forall j :: 0 <= j < i ==> bitmap[j] == 0xFFFF_FFFF_FFFF_FFFF
    {
      bitmap[i] := 0xFFFF_FFFF_FFFF_FFFF;
      i := i + 1;
    }
    forall p: nat | p < 64 * bitmap.Length
      ensures Test(bitmap[..], p)
    {
      AllOnes(Offset(p));
    }
  }

  lemma AllOnes(i: bv6)
    ensures TestWord(0xFFFF_FFFF_FFFF_FFFF, i)
  {
  }

  /** bitmap_find_clear: the first clear bit at or above start, None where the source returns
      UINT64_MAX. */
  method FindClear(bitmap: array<bv64>, total: nat, start: nat) returns (r: Option<nat>)
    requires total <= 64 * bitmap.Length
    ensures r.Some? ==> start <= r.value < total && r.value in Clear(bitmap[..])
    ensures r.Some? ==> forall p :: start <= p < r.value ==> p !in Clear(bitmap[..])
    ensures r.None? ==> forall p :: start <= p < total ==> p !in Clear(bitmap[..])
  {
    var i := start;
    while i < total
      invariant start <= i
      invariant forall p :: start <= p < i ==> p !in Clear(bitmap[..])
    {
      if !Test(bitmap[..], i) {
        return Some(i);
      }
      i := i + 1;
    }
    return None;
  }

  /** count pages from b on lie below total and are all in s. */
  ghost predicate Fits(s: set<nat>, total: nat, b: nat, count: nat)
  {
    b + count <= total && Range(b, count) <= s
  }

  /** bitmap_find_clear_range: the lowest place at or above start where count clear bits fit.
      A count of zero never matches. */
  method FindClearRange(bitmap: array<bv64>, total: nat, count: nat, start: nat) returns (r: Option<nat>)
    requires total <= 64 * bitmap.Length
    ensures r.Some? ==> count > 0 && start <= r.value && Fits(Clear(bitmap[..]), total, r.value, count)
    ensures r.Some? ==> forall b :: start <= b < r.value ==> !Fits(Clear(bitmap[..]), total, b, count)
    ensures r.None? && count > 0 ==> forall b :: start <= b ==> !Fits(Clear(bitmap[..]), total, b, count)
  {
    ghost var s := Clear(bitmap[..]);
    var found, base := 0, start;
    var i := start;
    while i < total
      invariant start <= base <= i && found == i - base
      invariant count > 0 ==> found < count
      invariant Range(base, found) <= s
      invariant base > start ==> base - 1 !in s
      invariant forall b :: start <= b < base ==> count > 0 ==> !Fits(s, total, b, count)
    {
      if Test(bitmap[..], i) {
        forall b | start <= b < i + 1 && count > 0
          ensures !Fits(s, total, b, count)
        {
          if b >= base {
            assert i in Range(b, count);
          }
        }
        found := 0;
        base := i + 1;
      } else {
        found := found + 1;
        if found == count {
          return Some(base);
        }
      }
      i := i + 1;
    }
    forall b | start <= b && count > 0
      ensures !Fits(s, total, b, count)
    {
    }
    return None;
  }
}
