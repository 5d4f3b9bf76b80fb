/**
 * Walks through page tables and what one changed entry does to them. The tables of an
 * address space form a tree: two different index paths never lead to one table.
 */
module PageWalk {
  import opened Wrappers
  import opened PageTable

  /** The physical pages used as tables: 512 entries each, by page number. */
  type Mem = map<nat, seq<bv64>>

  /** The page that entry i of table a points to. */
  ghost function Next(mem: Mem, a: nat, i: nat): Option<nat>
  {
    if a in mem && i < |mem[a]| && Present(mem[a][i]) then Some(Frame(mem[a][i])) else None
  }

  /** The table an index path leads to. */
  ghost function Walk(mem: Mem, root: nat, p: seq<nat>): Option<nat>
  {
    if p == [] then Some(root)
    else
      var a := Walk(mem, root, p[..|p| - 1]);
      if a.None? then None else Next(mem, a.value, p[|p| - 1])
  }

  ghost predicate IsTable(mem: Mem, a: nat)
  {
    a in mem && |mem[a]| == 512
  }

  /** Tables at depth 0 to 3 below root exist, none is reached by two paths, and no entry of a
      page directory maps a 2 MiB page. */
  ghost predicate Tree(mem: Mem, root: nat)
  {
    && (forall p :: |p| <= 3 && Walk(mem, root, p).Some? ==> IsTable(mem, Walk(mem, root, p).value))
    && (forall p, q :: |p| <= 3 && |q| <= 3 && Walk(mem, root, p).Some? && Walk(mem, root, p) == Walk(mem, root, q) ==> p == q)
    && (forall p :: |p| == 2 && Walk(mem, root, p).Some? ==> NoHuge(mem, Walk(mem, root, p).value))
  }

  ghost predicate NoHuge(mem: Mem, a: nat)
  {
    a in mem ==> forall i :: 0 <= i < |mem[a]| ==> !Huge(mem[a][i])
  }

  lemma TreeTable(mem: Mem, root: nat, p: seq<nat>)
    requires Tree(mem, root) && |p| <= 3 && Walk(mem, root, p).Some?
    ensures IsTable(mem, Walk(mem, root, p).value)
    ensures |p| == 2 ==> NoHuge(mem, Walk(mem, root, p).value)
  {
  }

  lemma TreeUnique(mem: Mem, root: nat, p: seq<nat>, q: seq<nat>)
    requires Tree(mem, root) && |p| <= 3 && |q| <= 3 && p != q
    requires Walk(mem, root, p).Some? && Walk(mem, root, q).Some?
    ensures Walk(mem, root, p).value != Walk(mem, root, q).value
  {
  }

  /** paging_virt_to_phys, None where the source returns 0 for an unmapped address. */
  ghost function Translate(mem: Mem, root: nat, va: bv64): Option<bv64>
  {
    var pdpt := Next(mem, root, Pml4Index(va));
    if pdpt.None? then None
    else
      var pd := Next(mem, pdpt.value, PdptIndex(va));
      if pd.None? || pd.value !in mem || PdIndex(va) >= |mem[pd.value]| then None
      else
        var e := mem[pd.value][PdIndex(va)];
        if Huge(e) then Some(Addr(e) | (va & 0x1F_FFFF))
        else if !Present(e) then None
        else
          Leaf(mem, Frame(e), va)
  }

  /** What the last-level table says about va. */
  ghost function Leaf(mem: Mem, pt: nat, va: bv64): Option<bv64>
  {
    if pt in mem && PtIndex(va) < |mem[pt]| && Present(mem[pt][PtIndex(va)])
    then Some(PhysAddr(mem[pt][PtIndex(va)], va)) else None
  }

  lemma WalkStep(mem: Mem, root: nat, p: seq<nat>, i: nat)
    ensures Walk(mem, root, p + [i]) ==
      if Walk(mem, root, p).None? then None else Next(mem, Walk(mem, root, p).value, i)
  {
    assert (p + [i])[..|p|] == p;
  }

  lemma WalkTables(mem: Mem, root: nat, i: nat, j: nat, k: nat)
    ensures Walk(mem, root, []) == Some(root)
    ensures Walk(mem, root, [i]) == Next(mem, root, i)
    ensures Walk(mem, root, [i, j]) ==
      if Walk(mem, root, [i]).None? then None else Next(mem, Walk(mem, root, [i]).value, j)
    ensures Walk(mem, root, [i, j, k]) ==
      if Walk(mem, root, [i, j]).None? then None else Next(mem, Walk(mem, root, [i, j]).value, k)
  {
    hide Next;
    WalkStep(mem, root, [], i);
    assert [] + [i] == [i];
    WalkStep(mem, root, [i], j);
    assert [i] + [j] == [i, j];
    WalkStep(mem, root, [i, j], k);
    assert [i, j] + [k] == [i, j, k];
  }

  lemma DirectoryEntry(mem: Mem, pd: nat, k: nat)
    requires IsTable(mem, pd) && NoHuge(mem, pd) && k < 512
    ensures !Huge(mem[pd][k])
    ensures Next(mem, pd, k) == if Present(mem[pd][k]) then Some(Frame(mem[pd][k])) else None
  {
  }

  /** In a tree the translation follows the table path and then one entry. */
  lemma {:induction false} TranslateIsWalk(mem: Mem, root: nat, va: bv64)
    requires Tree(mem, root)
    ensures var t := Walk(mem, root, TablePath(va));
      Translate(mem, root, va) == if t.None? then None else Leaf(mem, t.value, va)
  {
    hide Tree;
    hide Walk;
    hide Next;
    hide NoHuge;
    hide Leaf;
    hide Present;
    hide Huge;
    hide Addr;
    hide Frame;
    hide Pml4Index;
    hide PdptIndex;
    hide PdIndex;
    hide PtIndex;
    var i, j, k := Pml4Index(va), PdptIndex(va), PdIndex(va);
    WalkTables(mem, root, i, j, k);
    if Walk(mem, root, [i, j]).Some? {
      TreeTable(mem, root, [i, j]);
      DirectoryEntry(mem, Walk(mem, root, [i, j]).value, k);
    }
  }

  // ---------- a new table ----------

  ghost function Zeros(): (z: seq<bv64>)
    ensures |z| == 512 && forall i :: 0 <= i < 512 ==> z[i] == 0
  {
    seq(512, _ => 0)
  }

  /** Memory after a zeroed page f was linked by entry e into slot i of table a. */
  ghost function Linked(mem: Mem, a: nat, i: nat, f: nat, e: bv64): Mem
    requires IsTable(mem, a) && i < 512
  {
    mem[f := Zeros()][a := mem[a][i := e]]
  }

  lemma LinkedParts(mem: Mem, a: nat, i: nat, f: nat, e: bv64)
    requires IsTable(mem, a) && i < 512 && a != f && Present(e)
    ensures var mem' := Linked(mem, a, i, f, e);
      && IsTable(mem', a) && IsTable(mem', f) && Next(mem', a, i) == Some(Frame(e)) && mem'[a][i] == e
      && (forall j :: 0 <= j < 512 && j != i ==> mem'[a][j] == mem[a][j])
      && (forall j :: 0 <= j < 512 ==> mem'[f][j] == 0)
      && (forall b :: b != a && b != f ==> (b in mem' <==> b in mem) && (b in mem ==> mem'[b] == mem[b]))
  {
    hide Present;
    hide Frame;
  }

  lemma LinkedNext(mem: Mem, a: nat, i: nat, f: nat, e: bv64, b: nat, j: nat)
    requires IsTable(mem, a) && i < 512 && a != f && Present(e)
    ensures Next(Linked(mem, a, i, f, e), b, j) ==
      if b == f then None else if b == a && j == i then Some(Frame(e)) else Next(mem, b, j)
  {
    LinkedParts(mem, a, i, f, e);
    ZeroEntry();
    hide Linked;
    hide Present;
    hide Frame;
  }

  ghost predicate CanLink(mem: Mem, root: nat, q: seq<nat>, a: nat, i: nat, f: nat, e: bv64)
  {
    && Tree(mem, root) && |q| <= 2 && Walk(mem, root, q) == Some(a) && IsTable(mem, a) && i < 512
    && Next(mem, a, i) == None && Present(e) && !Huge(e) && Frame(e) == f
    && (forall p :: |p| <= 3 ==> Walk(mem, root, p) != Some(f))
  }

  lemma PrefixStep(q: seq<nat>, i: nat, r: seq<nat>, j: nat)
    ensures q + [i] <= r + [j] <==> q + [i] <= r || (q == r && i == j)
    ensures r + [j] == q + [i] <==> q == r && i == j
  {
    if q + [i] <= r + [j] {
      if |q| == |r| {
        assert (q + [i])[|q|] == (r + [j])[|q|];
        assert q == (q + [i])[..|q|] == (r + [j])[..|q|] == r;
      } else {
        assert (r + [j])[..|q| + 1] == r[..|q| + 1];
      }
    }
    if r + [j] == q + [i] {
      assert q == (q + [i])[..|q|] && r == (r + [j])[..|r|];
    }
  }

  /** A new table is reached by its own path only, nothing lies below it, and every other path
      leads where it led before. */
  lemma {:induction false} LinkWalk(mem: Mem, root: nat, q: seq<nat>, a: nat, i: nat, f: nat, e: bv64, p: seq<nat>)
    requires CanLink(mem, root, q, a, i, f, e) && |p| <= 3
    ensures Walk(Linked(mem, a, i, f, e), root, p) ==
      if p == q + [i] then Some(f)
      else if q + [i] <= p then None
      else Walk(mem, root, p)
    decreases |p|
  {
    hide Tree;
    hide Present;
    hide Huge;
    hide Frame;
    hide Linked;
    hide Next;
    hide Walk;
    var mem' := Linked(mem, a, i, f, e);
    if p == [] {
      WalkRoot(mem, root);
      WalkRoot(mem', root);
    } else {
      var r, j := p[..|p| - 1], p[|p| - 1];
      assert p == r + [j];
      PrefixStep(q, i, r, j);
      LinkWalk(mem, root, q, a, i, f, e, r);
      WalkStep(mem, root, r, j);
      WalkStep(mem', root, r, j);
      assert a != f;
      var b := Walk(mem', root, r);
      if b.Some? {
        LinkedNext(mem, a, i, f, e, b.value, j);
        if r != q && r != q + [i] {
          TreeUnique(mem, root, r, q);
          assert b.value != f;
        }
      }
    }
  }

  lemma WalkRoot(mem: Mem, root: nat)
    ensures Walk(mem, root, []) == Some(root)
  {
  }

  /** The tables still form a tree. */
  lemma {:induction false} LinkTree(mem: Mem, root: nat, q: seq<nat>, a: nat, i: nat, f: nat, e: bv64)
    requires CanLink(mem, root, q, a, i, f, e)
    ensures Tree(Linked(mem, a, i, f, e), root)
    ensures Walk(Linked(mem, a, i, f, e), root, q + [i]) == Some(f)
  {
    hide Walk;
    hide Linked;
    hide CanLink;
    CanLinkTree(mem, root, q, a, i, f, e);
    var mem' := Linked(mem, a, i, f, e);
    forall p | |p| <= 3
      ensures Walk(mem', root, p) == (if p == q + [i] then Some(f) else if q + [i] <= p then None else Walk(mem, root, p))
    {
      LinkWalk(mem, root, q, a, i, f, e, p);
    }
    hide Tree;
    forall p | |p| <= 3 && Walk(mem', root, p).Some?
      ensures IsTable(mem', Walk(mem', root, p).value)
      ensures |p| == 2 ==> NoHuge(mem', Walk(mem', root, p).value)
    {
      if p != q + [i] { TreeTable(mem, root, p); }
      LinkedTable(mem, root, q, a, i, f, e, Walk(mem', root, p).value);
    }
    forall p, q' | |p| <= 3 && |q'| <= 3 && Walk(mem', root, p).Some? && Walk(mem', root, p) == Walk(mem', root, q')
      ensures p == q'
    {
      if p != q' && p != q + [i] && q' != q + [i] { TreeUnique(mem, root, p, q'); }
    }
    TreeIntro(mem', root);
  }

  lemma CanLinkTree(mem: Mem, root: nat, q: seq<nat>, a: nat, i: nat, f: nat, e: bv64)
    requires CanLink(mem, root, q, a, i, f, e)
    ensures Tree(mem, root) && |q| <= 2 && IsTable(mem, a) && i < 512 && a != f
    ensures forall p :: |p| <= 3 ==> Walk(mem, root, p) != Some(f)
  {
    hide Tree;
    hide Walk;
  }

  lemma TreeIntro(mem: Mem, root: nat)
    requires forall p :: |p| <= 3 && Walk(mem, root, p).Some? ==> IsTable(mem, Walk(mem, root, p).value)
    requires forall p, q :: |p| <= 3 && |q| <= 3 && Walk(mem, root, p).Some? && Walk(mem, root, p) == Walk(mem, root, q) ==> p == q
    requires forall p :: |p| == 2 && Walk(mem, root, p).Some? ==> NoHuge(mem, Walk(mem, root, p).value)
    ensures Tree(mem, root)
  {
    hide Walk;
  }

  /** The new table and every old one is a table after linking, and none gets a 2 MiB page. */
  lemma LinkedTable(mem: Mem, root: nat, q: seq<nat>, a: nat, i: nat, f: nat, e: bv64, b: nat)
    requires CanLink(mem, root, q, a, i, f, e) && (b == f || IsTable(mem, b))
    ensures IsTable(Linked(mem, a, i, f, e), b)
    ensures b == f || NoHuge(mem, b) ==> NoHuge(Linked(mem, a, i, f, e), b)
  {
    hide Walk;
    hide Tree;
    hide Next;
    hide Present;
    hide Huge;
    hide Frame;
    hide Linked;
    assert a != f;
    LinkedParts(mem, a, i, f, e);
    ZeroEntry();
  }

  lemma LinkedLeaf(mem: Mem, a: nat, i: nat, f: nat, e: bv64, b: nat, va: bv64)
    requires IsTable(mem, a) && i < 512 && a != f && Present(e) && b != a
    ensures Leaf(Linked(mem, a, i, f, e), b, va) == if b == f then None else Leaf(mem, b, va)
  {
    LinkedParts(mem, a, i, f, e);
    ZeroEntry();
    hide Linked;
    hide Present;
    hide PhysAddr;
    hide PtIndex;
  }

  /** Linking an empty table changes no translation. */
  lemma {:induction false} LinkTranslate(mem: Mem, root: nat, q: seq<nat>, a: nat, i: nat, f: nat, e: bv64, va: bv64)
    requires CanLink(mem, root, q, a, i, f, e)
    ensures Translate(Linked(mem, a, i, f, e), root, va) == Translate(mem, root, va)
  {
    hide Tree;
    hide Present;
    hide Huge;
    hide Frame;
    hide Translate;
    hide Next;
    hide Walk;
    hide Leaf;
    hide Linked;
    hide TablePath;
    var mem', p := Linked(mem, a, i, f, e), TablePath(va);
    PathLength(va);
    LinkTree(mem, root, q, a, i, f, e);
    TranslateIsWalk(mem, root, va);
    TranslateIsWalk(mem', root, va);
    LinkWalk(mem, root, q, a, i, f, e, p);
    var t' := Walk(mem', root, p);
    if q + [i] <= p {
      LinkedWasAbsent(mem, root, q, a, i, p);
    } else if t'.Some? {
      TreeUnique(mem, root, p, q);
      assert t'.value != f;
    }
    assert a != f;
    if t'.Some? {
      LinkedLeaf(mem, a, i, f, e, t'.value, va);
    }
  }

  /** Nothing was reached through an entry that was not present. */
  lemma {:induction false} LinkedWasAbsent(mem: Mem, root: nat, q: seq<nat>, a: nat, i: nat, p: seq<nat>)
    requires Walk(mem, root, q) == Some(a) && Next(mem, a, i).None? && q + [i] <= p
    ensures Walk(mem, root, p).None?
    decreases |p|
  {
    if p == q + [i] {
      WalkStep(mem, root, q, i);
    } else {
      LinkedWasAbsent(mem, root, q, a, i, p[..|p| - 1]);
    }
  }

  // ---------- a changed entry of a last-level table ----------

  ghost function Stored(mem: Mem, a: nat, k: nat, e: bv64): Mem
    requires IsTable(mem, a) && k < 512
  {
    mem[a := mem[a][k := e]]
  }

  /** Writing an entry of a table at depth 3 moves no table. */
  lemma {:induction false} StoreWalk(mem: Mem, root: nat, q: seq<nat>, a: nat, k: nat, e: bv64, p: seq<nat>)
    requires Tree(mem, root) && |q| == 3 && Walk(mem, root, q) == Some(a) && IsTable(mem, a) && k < 512 && |p| <= 3
    ensures Walk(Stored(mem, a, k, e), root, p) == Walk(mem, root, p)
    decreases |p|
  {
    hide Tree;
    hide Present;
    hide Addr;
    hide Frame;
    if p != [] {
      var r := p[..|p| - 1];
      StoreWalk(mem, root, q, a, k, e, r);
      var b := Walk(mem, root, r);
      if b.Some? {
        TreeUnique(mem, root, r, q);
        assert b.value != a;
      }
    }
  }

  lemma {:induction false} StoreTree(mem: Mem, root: nat, q: seq<nat>, a: nat, k: nat, e: bv64)
    requires Tree(mem, root) && |q| == 3 && Walk(mem, root, q) == Some(a) && IsTable(mem, a) && k < 512
    ensures Tree(Stored(mem, a, k, e), root)
  {
    hide Present;
    hide Huge;
    hide Addr;
    hide Frame;
    var mem' := Stored(mem, a, k, e);
    forall p | |p| <= 3
      ensures Walk(mem', root, p) == Walk(mem, root, p)
    {
      StoreWalk(mem, root, q, a, k, e, p);
    }
    forall p | |p| <= 3 && Walk(mem', root, p).Some?
      ensures IsTable(mem', Walk(mem', root, p).value)
      ensures |p| == 2 ==> NoHuge(mem', Walk(mem', root, p).value)
    {
      TreeTable(mem, root, p);
      if p != q { TreeUnique(mem, root, p, q); }
    }
    forall p, q' | |p| <= 3 && |q'| <= 3 && Walk(mem', root, p).Some? && Walk(mem', root, p) == Walk(mem', root, q')
      ensures p == q'
    {
      if p != q' { TreeUnique(mem, root, p, q'); }
    }
  }

  lemma StoredLeaf(mem: Mem, a: nat, k: nat, e: bv64, b: nat, vb: bv64)
    requires IsTable(mem, a) && k < 512
    ensures Leaf(Stored(mem, a, k, e), b, vb) ==
      if b == a && PtIndex(vb) == k then (if Present(e) then Some(PhysAddr(e, vb)) else None)
      else Leaf(mem, b, vb)
  {
    hide PtIndex;
    hide Present;
    hide PhysAddr;
  }

  /** It changes the translation of exactly one page. */
  lemma {:induction false} StoreTranslate(mem: Mem, root: nat, va: bv64, a: nat, e: bv64, vb: bv64)
    requires Tree(mem, root) && Walk(mem, root, TablePath(va)) == Some(a) && IsTable(mem, a)
    ensures Translate(Stored(mem, a, PtIndex(va), e), root, vb) ==
      if SamePage(va, vb) then (if Present(e) then Some(PhysAddr(e, vb)) else None)
      else Translate(mem, root, vb)
  {
    hide Tree;
    hide Present;
    hide PhysAddr;
    hide Translate;
    hide SamePage;
    hide PtIndex;
    hide Stored;
    hide Walk;
    hide Leaf;
    hide TablePath;
    var k, p, p' := PtIndex(va), TablePath(va), TablePath(vb);
    PathLength(va);
    PathLength(vb);
    StoreTree(mem, root, p, a, k, e);
    StoreWalk(mem, root, p, a, k, e, p');
    SamePageIndices(va, vb);
    TranslateIsWalk(mem, root, vb);
    TranslateIsWalk(Stored(mem, a, k, e), root, vb);
    var t := Walk(mem, root, p');
    if t.Some? {
      StoredLeaf(mem, a, k, e, t.value, vb);
      if p != p' { TreeUnique(mem, root, p', p); }
    }
  }

  lemma PathLength(va: bv64)
    ensures |TablePath(va)| == 3
  {
  }
}
