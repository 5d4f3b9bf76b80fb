/**
 * Four-level page tables (Intel SDM Vol. 3A, 4-level paging) as kernel/mm/paging.c reads
 * them: 64-bit entries in physical pages, found by walking from a root table.
 */
module PageTable {
  import opened Bytes

  const PAGE_SIZE: nat := 4096
  const MAX_PAGES: nat := 0x10_0000
  const PTE_PRESENT: bv64 := 0x1
  const PTE_WRITABLE: bv64 := 0x2
  const PTE_USER: bv64 := 0x4
  const PTE_HUGE: bv64 := 0x80
  const PTE_ADDR_MASK: bv64 := 0x000F_FFFF_FFFF_F000

  // ---------- physical addresses of pages ----------

  /** page * PAGE_SIZE as a 64-bit address. */
  function Phys(page: nat): bv64
    requires page < MAX_PAGES
  {
    (page * PAGE_SIZE) as bv64
  }

  /** phys / PAGE_SIZE */
  function PageOf(phys: bv64): nat
  {
    (phys >> 12) as nat
  }

  lemma CatValue(a: bv8, b: bv8, c: bv8)
    ensures (((a as bv64) << 16) | ((b as bv64) << 8) | (c as bv64)) as nat == a as nat * 65536 + b as nat * 256 + c as nat
  {
  }

  lemma ShiftValue(x: bv64)
    requires x < 0x100_0000
    ensures (x << 12) as nat == x as nat * 4096
  {
  }

  lemma ShiftMask(x: bv64)
    requires x < 0x100_0000
    ensures (x << 12) & PTE_ADDR_MASK == x << 12
    ensures (x << 12) >> 12 == x
  {
  }

  lemma CatSmall(a: bv8, b: bv8, c: bv8)
    ensures (((a as bv64) << 16) | ((b as bv64) << 8) | (c as bv64)) < 0x100_0000
  {
  }

  /** Every page number has a bit pattern. */
  lemma PageBits(page: nat) returns (x: bv64)
    requires page < MAX_PAGES
    ensures x as nat == page && x < 0x100_0000
  {
    var a, b, c := page / 65536, (page / 256) % 256, page % 256;
    var a' := ByteBits(a);
    var b' := ByteBits(b);
    var c' := ByteBits(c);
    x := CatBits(a', b', c');
    Digits(page);
  }

  lemma Digits(page: nat)
    ensures page == page / 65536 * 65536 + (page / 256) % 256 * 256 + page % 256
  {
  }

  lemma CatBits(a: bv8, b: bv8, c: bv8) returns (x: bv64)
    ensures x as nat == a as nat * 65536 + b as nat * 256 + c as nat && x < 0x100_0000
  {
    x := ((a as bv64) << 16) | ((b as bv64) << 8) | (c as bv64);
    CatValue(a, b, c);
    CatSmall(a, b, c);
  }

  lemma NatBits(n: nat, x: bv64)
    requires n < 0x1_0000_0000_0000_0000 && x as nat == n
    ensures n as bv64 == x
  {
  }

  lemma PhysIs(page: nat, y: bv64)
    requires page < MAX_PAGES && y as nat == page * PAGE_SIZE
    ensures Phys(page) == y
  {
    NatBits(page * PAGE_SIZE, y);
  }

  lemma PhysBits(page: nat) returns (x: bv64)
    requires page < MAX_PAGES
    ensures x as nat == page && x < 0x100_0000 && Phys(page) == x << 12
  {
    hide Phys;
    x := PageBits(page);
    ShiftValue(x);
    PhysIs(page, x << 12);
  }

  /** Page addresses are page aligned, lie under the entry mask and give back their page. */
  lemma PhysFacts(page: nat)
    requires page < MAX_PAGES
    ensures Phys(page) & PTE_ADDR_MASK == Phys(page)
    ensures PageOf(Phys(page)) == page
  {
    var x := PhysBits(page);
    hide Phys;
    ShiftMask(x);
  }

  // ---------- entries ----------

  predicate Present(e: bv64)
  {
    e & PTE_PRESENT != 0
  }

  predicate Huge(e: bv64)
  {
    e & PTE_HUGE != 0
  }

  function Addr(e: bv64): bv64
  {
    e & PTE_ADDR_MASK
  }

  /** The number of the page an entry points to. */
  function Frame(e: bv64): nat
  {
    PageOf(Addr(e))
  }

  /** What get_or_create_table writes for a new table, with the user bit as asked. */
  function TableEntry(table: bv64, flags: bv64): bv64
  {
    table | PTE_PRESENT | PTE_WRITABLE | flags
  }

  function UserFlag(flags: bv64): bv64
  {
    if flags & PTE_USER != 0 then PTE_USER else 0
  }

  lemma TableEntryBits(table: bv64, flags: bv64)
    requires Addr(table) == table
    ensures Present(TableEntry(table, UserFlag(flags)))
    ensures !Huge(TableEntry(table, UserFlag(flags)))
    ensures Addr(TableEntry(table, UserFlag(flags))) == table
  {
  }

  /** The entry of a new table is present, is no 2 MiB page and points to the table. */
  lemma TableEntryFacts(page: nat, flags: bv64)
    requires page < MAX_PAGES
    ensures var e := TableEntry(Phys(page), UserFlag(flags));
      Present(e) && !Huge(e) && Frame(e) == page
  {
    hide Phys;
    hide Present;
    hide Huge;
    hide TableEntry;
    hide PageOf;
    PhysFacts(page);
    assert Addr(Phys(page)) == Phys(page);
    TableEntryBits(Phys(page), flags);
  }

  /** What paging_map_page writes into the last table. */
  function LeafEntry(phys: bv64, flags: bv64): bv64
  {
    (phys & PTE_ADDR_MASK) | flags | PTE_PRESENT
  }

  lemma LeafBits(p: bv64, f: bv64)
    ensures ((p & 0x000F_FFFF_FFFF_F000) | f | 0x1) & 0x000F_FFFF_FFFF_F000
         == (p & 0x000F_FFFF_FFFF_F000) | (f & 0x000F_FFFF_FFFF_F000)
    ensures ((p & 0x000F_FFFF_FFFF_F000) | f | 0x1) & 0x1 != 0
  {
  }

  lemma Absorbed(p: bv64, f: bv64)
    ensures (p & 0x000F_FFFF_FFFF_F000) | (f & 0x000F_FFFF_FFFF_F000) == p & 0x000F_FFFF_FFFF_F000
       <==> (f & 0x000F_FFFF_FFFF_F000) & !p == 0
  {
  }

  lemma LeafEntryFacts(phys: bv64, flags: bv64)
    ensures Present(LeafEntry(phys, flags))
    ensures Addr(LeafEntry(phys, flags)) == Addr(phys) | Addr(flags)
  {
    LeafBits(phys, flags);
  }

  /** The entry holds the wanted frame exactly when the flags set no address bit of their own. */
  lemma LeafEntryExact(phys: bv64, flags: bv64)
    ensures Addr(LeafEntry(phys, flags)) == Addr(phys) <==> Addr(flags) & !phys == 0
  {
    LeafEntryFacts(phys, flags);
    hide LeafEntry;
    Absorbed(phys, flags);
  }

  lemma ZeroEntry()
    ensures !Present(0) && !Huge(0)
  {
  }

  /** The frame of a last-level entry with the page offset of va. */
  function PhysAddr(e: bv64, va: bv64): bv64
  {
    Addr(e) | (va & 0xFFF)
  }

  // ---------- virtual addresses ----------

  /** Bits 39-47, 30-38, 21-29 and 12-20 of a virtual address. */
  function Pml4Index(va: bv64): (i: nat)
    ensures i < 512
  {
    ((va >> 39) & 0x1FF) as nat
  }

  function PdptIndex(va: bv64): (i: nat)
    ensures i < 512
  {
    ((va >> 30) & 0x1FF) as nat
  }

  function PdIndex(va: bv64): (i: nat)
    ensures i < 512
  {
    ((va >> 21) & 0x1FF) as nat
  }

  function PtIndex(va: bv64): (i: nat)
    ensures i < 512
  {
    ((va >> 12) & 0x1FF) as nat
  }

  /** The path from the root to the table that holds va's page. */
  function TablePath(va: bv64): seq<nat>
  {
    [Pml4Index(va), PdptIndex(va), PdIndex(va)]
  }

  /** Two addresses lie in one page: they agree in bits 12 to 47. */
  predicate SamePage(va: bv64, vb: bv64)
  {
    va & 0x0000_FFFF_FFFF_F000 == vb & 0x0000_FFFF_FFFF_F000
  }

  lemma NatEqual(x: bv64, y: bv64)
    requires x as nat == y as nat
    ensures x == y
  {
    NatBits(x as nat, x);
    NatBits(y as nat, y);
  }

  lemma NatSame(x: bv64, y: bv64)
    ensures x as nat == y as nat <==> x == y
  {
    if x as nat == y as nat { NatEqual(x, y); }
  }

  lemma FieldsEqual(va: bv64, vb: bv64)
    ensures va & 0x0000_FFFF_FFFF_F000 == vb & 0x0000_FFFF_FFFF_F000 <==>
      && (va >> 39) & 0x1FF == (vb >> 39) & 0x1FF && (va >> 30) & 0x1FF == (vb >> 30) & 0x1FF
      && (va >> 21) & 0x1FF == (vb >> 21) & 0x1FF && (va >> 12) & 0x1FF == (vb >> 12) & 0x1FF
  {
  }

  lemma IndicesEqual(va: bv64, vb: bv64)
    ensures SamePage(va, vb) <==>
      && Pml4Index(va) == Pml4Index(vb) && PdptIndex(va) == PdptIndex(vb)
      && PdIndex(va) == PdIndex(vb) && PtIndex(va) == PtIndex(vb)
  {
    FieldsEqual(va, vb);
    NatSame((va >> 39) & 0x1FF, (vb >> 39) & 0x1FF);
    NatSame((va >> 30) & 0x1FF, (vb >> 30) & 0x1FF);
    NatSame((va >> 21) & 0x1FF, (vb >> 21) & 0x1FF);
    NatSame((va >> 12) & 0x1FF, (vb >> 12) & 0x1FF);
  }

  /** Addresses share a page exactly when their four indices agree. */
  lemma SamePageIndices(va: bv64, vb: bv64)
    ensures SamePage(va, vb) <==> TablePath(va) == TablePath(vb) && PtIndex(va) == PtIndex(vb)
  {
    IndicesEqual(va, vb);
    hide SamePage;
    hide Pml4Index;
    hide PdptIndex;
    hide PdIndex;
    hide PtIndex;
    if TablePath(va) == TablePath(vb) {
      assert TablePath(va)[0] == TablePath(vb)[0] && TablePath(va)[1] == TablePath(vb)[1] && TablePath(va)[2] == TablePath(vb)[2];
    }
  }
}
