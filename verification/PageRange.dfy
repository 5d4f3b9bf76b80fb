/**
 * Mapping a run of pages (paging_map_range in kernel/mm/paging.c): where the addresses of the
 * run translate to once every page of it is mapped.
 */
module PageRange {
  import opened Bytes
  import opened Wrappers
  import opened PageTable

  /** a + PAGE_SIZE */
  function NextPage(a: bv64): bv64
  {
    a + 0x1000
  }

  /** a + i * PAGE_SIZE */
  function Advance(a: bv64, i: nat): bv64
  {
    if i == 0 then a else NextPage(Advance(a, i - 1))
  }

  /** What vb translates to after n pages were mapped, given its translation before: the last
      mapping of its page counts. */
  ghost function RangeTranslation(before: Option<bv64>, virt: bv64, phys: bv64, n: nat, flags: bv64, vb: bv64): Option<bv64>
  {
    if n == 0 then before
    else if SamePage(Advance(virt, n - 1), vb) then Some(PhysAddr(LeafEntry(Advance(phys, n - 1), flags), vb))
    else RangeTranslation(before, virt, phys, n - 1, flags, vb)
  }

  // ---------- stepping the four indices ----------

  function PtField(v: bv64): bv64 { (v >> 12) & 0x1FF }
  function PdField(v: bv64): bv64 { (v >> 21) & 0x1FF }
  function PdptField(v: bv64): bv64 { (v >> 30) & 0x1FF }
  function Pml4Field(v: bv64): bv64 { (v >> 39) & 0x1FF }

  /** The next value of a nine-bit field, in bits and as a number. */
  function Step(f: bv64): bv64
  {
    if f == 0x1FF then 0 else f + 1
  }

  function StepIndex(i: nat): nat
  {
    if i == 511 then 0 else i + 1
  }

  function Number(f: bv64): nat
  {
    f as nat
  }

  lemma StepNumber(f: bv64)
    requires f <= 0x1FF
    ensures Number(Step(f)) == StepIndex(Number(f)) && (Number(f) == 511 <==> f == 0x1FF)
  {
  }

  lemma PtStep(v: bv64)
    ensures PtField(NextPage(v)) == Step(PtField(v))
  {
  }

  lemma PdStep(v: bv64)
    ensures PdField(NextPage(v)) == if PtField(v) != 0x1FF then PdField(v) else Step(PdField(v))
  {
  }

  lemma PdptStep(v: bv64)
    ensures PdptField(NextPage(v)) ==
      if PtField(v) != 0x1FF || PdField(v) != 0x1FF then PdptField(v) else Step(PdptField(v))
  {
  }

  lemma Pml4Step(v: bv64)
    ensures Pml4Field(NextPage(v)) ==
      if PtField(v) != 0x1FF || PdField(v) != 0x1FF || PdptField(v) != 0x1FF then Pml4Field(v)
      else Step(Pml4Field(v))
  {
  }

  lemma FieldNumbers(v: bv64)
    ensures PtIndex(v) == Number(PtField(v)) && PdIndex(v) == Number(PdField(v))
    ensures PdptIndex(v) == Number(PdptField(v)) && Pml4Index(v) == Number(Pml4Field(v))
  {
  }

  lemma FieldBounds(v: bv64)
    ensures PtField(v) <= 0x1FF && PdField(v) <= 0x1FF && PdptField(v) <= 0x1FF && Pml4Field(v) <= 0x1FF
  {
  }

  /** Going to the next page steps the indices like the digits of a counter. */
  lemma NextIndices(v: bv64)
    ensures var w := NextPage(v);
      && PtIndex(w) == StepIndex(PtIndex(v))
      && PdIndex(w) == (if PtIndex(v) != 511 then PdIndex(v) else StepIndex(PdIndex(v)))
      && PdptIndex(w) == (if PtIndex(v) != 511 || PdIndex(v) != 511 then PdptIndex(v) else StepIndex(PdptIndex(v)))
      && Pml4Index(w) == (if PtIndex(v) != 511 || PdIndex(v) != 511 || PdptIndex(v) != 511 then Pml4Index(v)
                          else StepIndex(Pml4Index(v)))
  {
    hide PtField;
    hide PdField;
    hide PdptField;
    hide Pml4Field;
    hide NextPage;
    hide Number;
    hide Step;
    hide StepIndex;
    hide PtIndex;
    hide PdIndex;
    hide PdptIndex;
    hide Pml4Index;
    FieldNumbers(v);
    FieldNumbers(NextPage(v));
    FieldBounds(v);
    PtStep(v);
    PdStep(v);
    PdptStep(v);
    Pml4Step(v);
    StepNumber(PtField(v));
    StepNumber(PdField(v));
    StepNumber(PdptField(v));
    StepNumber(Pml4Field(v));
  }

  // ---------- page numbers ----------

  /** The number of virtual pages. */
  const VIRTUAL_PAGES: nat := 0x10_0000_0000

  function Digits4(a: nat, b: nat, c: nat, d: nat): nat
  {
    ((a * 512 + b) * 512 + c) * 512 + d
  }

  /** Bits 12 to 47 of an address, as a number. */
  function PageNumber(v: bv64): nat
  {
    Digits4(Pml4Index(v), PdptIndex(v), PdIndex(v), PtIndex(v))
  }

  lemma DigitsSame(a: nat, b: nat, c: nat, d: nat, e: nat, f: nat, g: nat, h: nat)
    requires a < 512 && b < 512 && c < 512 && d < 512 && e < 512 && f < 512 && g < 512 && h < 512
    ensures Digits4(a, b, c, d) == Digits4(e, f, g, h) <==> a == e && b == f && c == g && d == h
  {
    DigitSame(a, b, e, f);
    DigitSame(a * 512 + b, c, e * 512 + f, g);
    DigitSame((a * 512 + b) * 512 + c, d, (e * 512 + f) * 512 + g, h);
  }

  lemma DigitSame(x: nat, d: nat, y: nat, h: nat)
    requires d < 512 && h < 512
    ensures x * 512 + d == y * 512 + h <==> x == y && d == h
  {
  }

  /** Two addresses lie in one page exactly when they have one page number. */
  lemma SamePageNumber(va: bv64, vb: bv64)
    ensures SamePage(va, vb) <==> PageNumber(va) == PageNumber(vb)
  {
    hide SamePage;
    hide Pml4Index;
    hide PdptIndex;
    hide PdIndex;
    hide PtIndex;
    hide Digits4;
    SamePageIndices(va, vb);
    DigitsSame(Pml4Index(va), PdptIndex(va), PdIndex(va), PtIndex(va), Pml4Index(vb), PdptIndex(vb), PdIndex(vb), PtIndex(vb));
  }

  lemma DigitsStep(a: nat, b: nat, c: nat, d: nat)
    requires a < 512 && b < 512 && c < 512 && d < 512
    ensures var a' := if d != 511 || c != 511 || b != 511 then a else StepIndex(a);
      var b' := if d != 511 || c != 511 then b else StepIndex(b);
      var c' := if d != 511 then c else StepIndex(c);
      Digits4(a', b', c', StepIndex(d)) == (Digits4(a, b, c, d) + 1) % VIRTUAL_PAGES
  {
  }

  lemma NextNumber(v: bv64)
    ensures PageNumber(NextPage(v)) == (PageNumber(v) + 1) % VIRTUAL_PAGES
  {
    hide NextPage;
    hide Pml4Index;
    hide PdptIndex;
    hide PdIndex;
    hide PtIndex;
    hide Digits4;
    hide StepIndex;
    NextIndices(v);
    DigitsStep(Pml4Index(v), PdptIndex(v), PdIndex(v), PtIndex(v));
  }

  lemma PageNumberBound(v: bv64)
    ensures PageNumber(v) < VIRTUAL_PAGES
  {
    hide Pml4Index;
    hide PdptIndex;
    hide PdIndex;
    hide PtIndex;
  }

  lemma {:induction false} AdvanceNumber(v: bv64, i: nat)
    ensures PageNumber(Advance(v, i)) == (PageNumber(v) + i) % VIRTUAL_PAGES
  {
    hide PageNumber;
    hide NextPage;
    if i == 0 {
      PageNumberBound(v);
    } else {
      AdvanceNumber(v, i - 1);
      NextNumber(Advance(v, i - 1));
    }
  }

  /** Two pages of a run are the same page exactly when the run went round the address space. */
  lemma RunPages(v: bv64, i: nat, j: nat)
    requires i <= j
    ensures SamePage(Advance(v, i), Advance(v, j)) <==> (j - i) % VIRTUAL_PAGES == 0
  {
    hide PageNumber;
    hide SamePage;
    hide Advance;
    AdvanceNumber(v, i);
    AdvanceNumber(v, j);
    SamePageNumber(Advance(v, i), Advance(v, j));
    SameRest(PageNumber(v) + i, PageNumber(v) + j);
  }

  lemma SameRest(a: nat, b: nat)
    requires a <= b
    ensures a % VIRTUAL_PAGES == b % VIRTUAL_PAGES <==> (b - a) % VIRTUAL_PAGES == 0
  {
  }

  lemma OnePage(a: bv64, b: bv64, vb: bv64)
    requires SamePage(a, vb)
    ensures SamePage(b, vb) <==> SamePage(a, b)
  {
  }

  // ---------- the run ----------

  /** Page i of the run translates to frame i with the page offset, unless the run is longer than
      the address space. */
  lemma {:induction false} RangeInside(before: Option<bv64>, virt: bv64, phys: bv64, n: nat, flags: bv64, i: nat, vb: bv64)
    requires i < n <= VIRTUAL_PAGES && SamePage(Advance(virt, i), vb)
    ensures RangeTranslation(before, virt, phys, n, flags, vb) == Some(PhysAddr(LeafEntry(Advance(phys, i), flags), vb))
  {
    hide PhysAddr;
    hide LeafEntry;
    hide SamePage;
    hide NextPage;
    if i < n - 1 {
      RunPages(virt, i, n - 1);
      OnePage(Advance(virt, i), Advance(virt, n - 1), vb);
      RangeInside(before, virt, phys, n - 1, flags, i, vb);
    }
  }

  /** An address in no page of the run keeps its translation. */
  lemma {:induction false} RangeOutside(before: Option<bv64>, virt: bv64, phys: bv64, n: nat, flags: bv64, vb: bv64)
    requires forall i :: 0 <= i < n ==> !SamePage(Advance(virt, i), vb)
    ensures RangeTranslation(before, virt, phys, n, flags, vb) == before
  {
    hide SamePage;
    if n > 0 {
      RangeOutside(before, virt, phys, n - 1, flags, vb);
    }
  }

  /** How many pages vb lies behind virt, around the end of the address space. */
  function Index(virt: bv64, vb: bv64): (i: nat)
    ensures i < VIRTUAL_PAGES
  {
    (PageNumber(vb) + VIRTUAL_PAGES - PageNumber(virt)) % VIRTUAL_PAGES
  }

  /** A run translates exactly the addresses that lie fewer pages behind its start than it has. */
  lemma RangeAt(before: Option<bv64>, virt: bv64, phys: bv64, n: nat, flags: bv64, vb: bv64)
    requires n <= VIRTUAL_PAGES
    ensures RangeTranslation(before, virt, phys, n, flags, vb) ==
      if Index(virt, vb) < n then Some(PhysAddr(LeafEntry(Advance(phys, Index(virt, vb)), flags), vb)) else before
  {
    hide PageNumber;
    hide Index;
    hide Advance;
    hide RangeTranslation;
    hide SamePage;
    hide PhysAddr;
    hide LeafEntry;
    var i := Index(virt, vb);
    IndexPage(virt, vb, i);
    if i < n {
      RangeInside(before, virt, phys, n, flags, i, vb);
    } else {
      forall j | 0 <= j < n
        ensures !SamePage(Advance(virt, j), vb)
      {
        IndexPage(virt, vb, j);
      }
      RangeOutside(before, virt, phys, n, flags, vb);
    }
  }

  lemma IndexPage(virt: bv64, vb: bv64, i: nat)
    requires i < VIRTUAL_PAGES
    ensures SamePage(Advance(virt, i), vb) <==> i == Index(virt, vb)
  {
    hide PageNumber;
    hide Advance;
    hide SamePage;
    PageNumberBound(virt);
    PageNumberBound(vb);
    AdvanceNumber(virt, i);
    SamePageNumber(Advance(virt, i), vb);
  }

  // ---------- runs of frames ----------

  function FrameBits(a: bv8, b: bv8, c: bv8): bv64
  {
    ((a as bv64) << 28) | ((b as bv64) << 20) | ((c as bv64) << 12)
  }

  function Byte(c: bv8): nat
  {
    c as nat
  }

  lemma FrameLow(a: bv8, b: bv8, c: bv8)
    requires c != 255
    ensures NextPage(FrameBits(a, b, c)) == FrameBits(a, b, c + 1)
  {
  }

  lemma FrameMiddle(a: bv8, b: bv8)
    requires b != 255
    ensures NextPage(FrameBits(a, b, 255)) == FrameBits(a, b + 1, 0)
  {
  }

  lemma FrameHigh(a: bv8)
    requires a != 255
    ensures NextPage(FrameBits(a, 255, 255)) == FrameBits(a + 1, 0, 0)
  {
  }

  lemma ByteUp(c: bv8)
    requires c != 255
    ensures Byte(c + 1) == Byte(c) + 1
  {
  }

  lemma ByteEnds(c: bv8)
    ensures Byte(0) == 0 && Byte(255) == 255 && (Byte(c) < 255 ==> c != 255)
  {
  }

  function Cat(a: bv8, b: bv8, c: bv8): bv64
  {
    ((a as bv64) << 16) | ((b as bv64) << 8) | (c as bv64)
  }

  function Shifted(x: bv64): bv64
  {
    x << 12
  }

  lemma FrameShift(a: bv8, b: bv8, c: bv8)
    ensures FrameBits(a, b, c) == Shifted(Cat(a, b, c)) && Cat(a, b, c) < 0x100_0000
  {
  }

  lemma CatNumber(a: bv8, b: bv8, c: bv8)
    ensures Number(Cat(a, b, c)) == Byte(a) * 65536 + Byte(b) * 256 + Byte(c)
  {
    CatValue(a, b, c);
  }

  lemma ShiftedNumber(x: bv64)
    requires x < 0x100_0000
    ensures Number(Shifted(x)) == Number(x) * PAGE_SIZE
  {
    ShiftValue(x);
  }

  lemma NumberPhys(page: nat, y: bv64)
    requires page < MAX_PAGES && Number(y) == page * PAGE_SIZE
    ensures Phys(page) == y
  {
    PhysIs(page, y);
  }

  lemma FrameIs(page: nat, a: bv8, b: bv8, c: bv8)
    requires page < MAX_PAGES && page == Byte(a) * 65536 + Byte(b) * 256 + Byte(c)
    ensures Phys(page) == FrameBits(a, b, c)
  {
    hide Phys;
    hide FrameBits;
    hide Byte;
    hide Cat;
    hide Shifted;
    hide Number;
    CatNumber(a, b, c);
    FrameShift(a, b, c);
    ShiftedNumber(Cat(a, b, c));
    NumberPhys(page, FrameBits(a, b, c));
  }

  lemma FrameBytes(page: nat) returns (a: bv8, b: bv8, c: bv8)
    requires page < MAX_PAGES
    ensures page == Byte(a) * 65536 + Byte(b) * 256 + Byte(c)
  {
    a := ByteBits(page / 65536);
    b := ByteBits((page / 256) % 256);
    c := ByteBits(page % 256);
    Digits(page);
  }

  /** Consecutive page numbers have consecutive addresses. */
  lemma NextFrame(p: nat)
    requires p + 1 < MAX_PAGES
    ensures NextPage(Phys(p)) == Phys(p + 1)
  {
    hide NextPage;
    hide Phys;
    hide FrameBits;
    hide Byte;
    var a, b, c := FrameBytes(p);
    FrameIs(p, a, b, c);
    ByteEnds(a);
    if c != 255 {
      FrameLow(a, b, c);
      ByteUp(c);
      FrameIs(p + 1, a, b, c + 1);
    } else if b != 255 {
      FrameMiddle(a, b);
      ByteUp(b);
      FrameIs(p + 1, a, b + 1, 0);
    } else {
      FrameHigh(a);
      ByteUp(a);
      FrameIs(p + 1, a + 1, 0, 0);
    }
  }

  lemma {:induction false} AdvancePhys(b: nat, i: nat)
    requires b + i < MAX_PAGES
    ensures Advance(Phys(b), i) == Phys(b + i)
  {
    hide Phys;
    hide NextPage;
    if i > 0 {
      AdvancePhys(b, i - 1);
      NextFrame(b + i - 1);
    }
  }

  lemma OrZero(p: bv64)
    ensures p | 0 == p
  {
  }

  lemma PhysMasked(page: nat)
    requires page < MAX_PAGES
    ensures Addr(Phys(page)) == Phys(page)
  {
    hide Phys;
    PhysFacts(page);
  }

  lemma PlainFlags(p: bv64, f: bv64, vb: bv64)
    requires Addr(f) == 0 && Addr(p) == p
    ensures PhysAddr(LeafEntry(p, f), vb) == PhysAddr(p, vb)
  {
    hide Addr;
    hide LeafEntry;
    OrZero(p);
    LeafEntryFacts(p, f);
  }

  /** A run of frames mapped with plain flags: the pages of the run translate to the frames in
      order, every byte keeping its offset. */
  lemma RangeFrames(before: Option<bv64>, virt: bv64, b: nat, n: nat, flags: bv64, i: nat, vb: bv64)
    requires i < n && b + n <= MAX_PAGES && SamePage(Advance(virt, i), vb) && Addr(flags) == 0
    ensures RangeTranslation(before, virt, Phys(b), n, flags, vb) == Some(PhysAddr(Phys(b + i), vb))
  {
    hide Phys;
    hide LeafEntry;
    hide PhysAddr;
    hide NextPage;
    hide SamePage;
    hide RangeTranslation;
    hide Advance;
    hide Addr;
    hide PageOf;
    RangeInside(before, virt, Phys(b), n, flags, i, vb);
    AdvancePhys(b, i);
    PhysMasked(b + i);
    PlainFlags(Phys(b + i), flags, vb);
  }
}
