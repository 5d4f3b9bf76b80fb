/**
 * User address spaces beside the kernel's (kernel/mm/vmm.c): created with the kernel's upper half,
 * mapped and unmapped in the lower half, and torn down.
 */
module UserSpace {
  import opened Wrappers
  import opened PageTable
  import opened PageWalk
  import opened Paging
  import opened Teardown
  import P = Pmm
  import B = Bitmap

  /** The two spaces have a table in common only where both reach it by the same path through the upper
      half, and there they have all tables in common. */
  ghost predicate Paired(mem: Mem, kernel: nat, user: nat)
  {
    && (forall p, q :: |p| <= 3 && |q| <= 3 && Walk(mem, kernel, q).Some? && Walk(mem, user, p) == Walk(mem, kernel, q) ==>
          p == q && p != [] && p[0] >= 256)
    && (forall p :: 0 < |p| <= 3 && p[0] >= 256 ==> Walk(mem, user, p) == Walk(mem, kernel, p))
  }

  lemma PairedTables(mem: Mem, kernel: nat, user: nat, p: seq<nat>, q: seq<nat>)
    requires Paired(mem, kernel, user) && |p| <= 3 && |q| <= 3
    requires Walk(mem, kernel, q).Some? && Walk(mem, user, p) == Walk(mem, kernel, q)
    ensures p == q && p != [] && p[0] >= 256
  {
  }

  lemma PairedUpper(mem: Mem, kernel: nat, user: nat, p: seq<nat>)
    requires Paired(mem, kernel, user) && 0 < |p| <= 3 && p[0] >= 256
    ensures Walk(mem, user, p) == Walk(mem, kernel, p)
  {
  }

  /** A new user space is paired with the kernel's. */
  lemma SharesPaired(mem: Mem, kernel: nat, user: nat)
    requires Tree(mem, kernel) && Shares(mem, kernel, user) && forall q :: |q| <= 3 ==> Walk(mem, kernel, q) != Some(user)
    ensures Paired(mem, kernel, user)
  {
    hide Walk;
    hide Tree;
    forall p, q | |p| <= 3 && |q| <= 3 && Walk(mem, kernel, q).Some? && Walk(mem, user, p) == Walk(mem, kernel, q)
      ensures p == q && p != [] && p[0] >= 256
    {
      assert p != [] && p[0] >= 256;
      if p != q { TreeUnique(mem, kernel, p, q); }
    }
  }

  /** What a change of the user space's lower half is: new tables come from the free pages, along va's
      path only, and no table off that path is written. */
  ghost predicate LowerChange(mem: Mem, user: nat, mem': Mem, free: set<nat>, free': set<nat>, va: bv64)
  {
    && Pml4Index(va) < 256 && Grew(mem, user, mem', free, free', TablePath(va))
    && forall b :: b in mem && !OnPath(mem', user, va, b) ==> b in mem' && mem'[b] == mem[b]
  }

  lemma PathPrefix(va: bv64, p: seq<nat>)
    requires p <= TablePath(va) && p != []
    ensures |p| <= 3 && p[0] == Pml4Index(va)
  {
    hide Pml4Index;
    hide PdptIndex;
    hide PdIndex;
  }

  /** A path to a table on va's path. */
  lemma OnPathIs(mem: Mem, user: nat, va: bv64, b: nat) returns (p: seq<nat>)
    requires OnPath(mem, user, va, b)
    ensures p <= TablePath(va) && |p| <= 3 && Walk(mem, user, p) == Some(b)
  {
    hide Walk;
    hide Pml4Index;
    hide PdptIndex;
    hide PdIndex;
    WalkRoot(mem, user);
    var path := TablePath(va);
    if b == user { p := []; }
    else if Walk(mem, user, path[..1]) == Some(b) { p := path[..1]; }
    else if Walk(mem, user, path[..2]) == Some(b) { p := path[..2]; }
    else { p := path; }
  }

  /** A table that the user space reaches along a lower-half path after the change is not the kernel's. */
  lemma NotKernels(mem: Mem, kernel: nat, user: nat, mem': Mem, free: set<nat>, free': set<nat>, va: bv64, highest: nat, q: seq<nat>)
    requires Paired(mem, kernel, user) && AllUsed(mem, kernel, free, highest) && LowerChange(mem, user, mem', free, free', va)
    requires |q| <= 3 && Walk(mem, kernel, q).Some?
    ensures !OnPath(mem', user, va, Walk(mem, kernel, q).value)
  {
    hide Walk;
    hide Grew;
    hide OnPath;
    hide Paired;
    hide Pml4Index;
    hide TablePath;
    var b := Walk(mem, kernel, q).value;
    if OnPath(mem', user, va, b) {
      var p := OnPathIs(mem', user, va, b);
      GrewWalk(mem, user, mem', free, free', TablePath(va), p);
      if Walk(mem, user, p) == Some(b) {
        PairedTables(mem, kernel, user, p, q);
        PathPrefix(va, p);
      }
    }
  }

  /** A change of the user space's lower half leaves the kernel's space alone. */
  lemma KernelKept(mem: Mem, kernel: nat, user: nat, mem': Mem, free: set<nat>, free': set<nat>, va: bv64, highest: nat)
    requires Tree(mem, kernel) && Paired(mem, kernel, user) && AllUsed(mem, kernel, free, highest)
    requires LowerChange(mem, user, mem', free, free', va)
    ensures Tree(mem', kernel) && AllUsed(mem', kernel, free', highest) && Paired(mem', kernel, user)
    ensures forall q :: |q| <= 3 ==> Walk(mem', kernel, q) == Walk(mem, kernel, q)
    ensures forall vb :: Translate(mem', kernel, vb) == Translate(mem, kernel, vb)
  {
    hide Walk;
    hide Tree;
    hide Grew;
    hide OnPath;
    hide Paired;
    hide Translate;
    hide TablePath;
    hide Pml4Index;
    forall q | |q| <= 3 && Walk(mem, kernel, q).Some?
      ensures var b := Walk(mem, kernel, q).value; b in mem && b in mem' && mem'[b] == mem[b]
    {
      TreeTable(mem, kernel, q);
      NotKernels(mem, kernel, user, mem', free, free', va, highest, q);
    }
    OtherSpace(mem, mem', kernel);
    forall q | |q| <= 3
      ensures Walk(mem', kernel, q) == Walk(mem, kernel, q)
    {
      OtherWalk(mem, mem', kernel, q);
    }
    GrewFree(mem, user, mem', free, free', TablePath(va));
    PairedKept(mem, kernel, user, mem', free, free', va, highest);
  }

  lemma PairedKept(mem: Mem, kernel: nat, user: nat, mem': Mem, free: set<nat>, free': set<nat>, va: bv64, highest: nat)
    requires Paired(mem, kernel, user) && AllUsed(mem, kernel, free, highest) && LowerChange(mem, user, mem', free, free', va)
    requires forall q :: |q| <= 3 ==> Walk(mem', kernel, q) == Walk(mem, kernel, q)
    ensures Paired(mem', kernel, user)
  {
    hide Walk;
    hide Grew;
    hide OnPath;
    hide TablePath;
    hide Pml4Index;
    forall p, q | |p| <= 3 && |q| <= 3 && Walk(mem', kernel, q).Some? && Walk(mem', user, p) == Walk(mem', kernel, q)
      ensures p == q && p != [] && p[0] >= 256
    {
      GrewWalk(mem, user, mem', free, free', TablePath(va), p);
      assert Walk(mem, kernel, q) == Walk(mem', kernel, q);
      PairedTables(mem, kernel, user, p, q);
    }
    forall p | 0 < |p| <= 3 && p[0] >= 256
      ensures Walk(mem', user, p) == Walk(mem', kernel, p)
    {
      PairedUpper(mem, kernel, user, p);
      GrewWalk(mem, user, mem', free, free', TablePath(va), p);
      if Walk(mem', user, p).Some? && Walk(mem', user, p) != Walk(mem, user, p) { PathPrefix(va, p); }
    }
  }

  // ---------- no page is lost ----------

  lemma LowerIs(mem: Mem, user: nat, b: nat)
    requires Tree(mem, user)
    ensures b in LowerTables(mem, user) <==> exists p :: |p| <= 3 && (p == [] || p[0] < 256) && Walk(mem, user, p) == Some(b)
  {
    hide Walk;
    hide Tree;
    WalkRoot(mem, user);
    if p :| |p| <= 3 && (p == [] || p[0] < 256) && Walk(mem, user, p) == Some(b) {
      if p != [] { BelowIntro(mem, user, [], 256, p, b); }
    }
    if b in LowerTables(mem, user) {
      if b == user {
        assert Walk(mem, user, []) == Some(b);
      } else {
        assert Below(mem, user, [], 256, b);
        var p :| 0 < |p| <= 3 && [] <= p && p[0] < 256 && Walk(mem, user, p) == Some(b);
      }
    }
  }

  lemma TablesHave(mem: Mem, root: nat, b: nat) returns (p: seq<nat>)
    requires b in Tables(mem, root)
    ensures |p| <= 3 && Walk(mem, root, p) == Some(b)
  {
    p :| |p| <= 3 && Walk(mem, root, p) == Some(b);
  }

  /** The free pages and the space's own tables together stay the same pages. */
  lemma LowerConserved(mem: Mem, user: nat, mem': Mem, free: set<nat>, free': set<nat>, va: bv64, highest: nat)
    requires Tree(mem, user) && Tree(mem', user) && AllUsed(mem, user, free, highest) && LowerChange(mem, user, mem', free, free', va)
    ensures free' + LowerTables(mem', user) == free + LowerTables(mem, user)
  {
    hide Walk;
    hide Tree;
    hide Grew;
    hide OnPath;
    hide LowerTables;
    hide Tables;
    hide TablePath;
    hide Pml4Index;
    GrewFree(mem, user, mem', free, free', TablePath(va));
    forall b | b in free' + LowerTables(mem', user)
      ensures b in free + LowerTables(mem, user)
    {
      LowerIs(mem, user, b);
      LowerIs(mem', user, b);
      if b in LowerTables(mem', user) {
        var p :| |p| <= 3 && (p == [] || p[0] < 256) && Walk(mem', user, p) == Some(b);
        GrewWalk(mem, user, mem', free, free', TablePath(va), p);
      }
    }
    forall b | b in free + LowerTables(mem, user)
      ensures b in free' + LowerTables(mem', user)
    {
      LowerIs(mem', user, b);
      if b in free && b !in free' {
        var p := TablesHave(mem', user, b);
        GrewWalk(mem, user, mem', free, free', TablePath(va), p);
        if Walk(mem, user, p) != Some(b) { PathPrefix(va, p); }
      }
      if b in LowerTables(mem, user) {
        LowerIs(mem, user, b);
        var p :| |p| <= 3 && (p == [] || p[0] < 256) && Walk(mem, user, p) == Some(b);
        GrewWalk(mem, user, mem', free, free', TablePath(va), p);
      }
    }
  }

  // ---------- the life of a user space ----------

  datatype Change = Map(va: bv64, phys: bv64, flags: bv64) | Unmap(va: bv64)

  /** The two spaces are in order, beside each other. */
  ghost predicate Both(pg: Paging, kernel: nat, user: nat)
    reads pg, pg.pmm, pg.pmm.bitmap
  {
    pg.Valid() && pg.Space(kernel) && pg.Space(user) && Paired(pg.mem, kernel, user)
  }

  /** Maps or unmaps one lower-half page. */
  method ChangePage(pg: Paging, user: nat, c: Change) returns (ok: bool)
    requires pg.Valid() && pg.Space(user) && Pml4Index(c.va) < 256
    modifies pg`mem, pg.pmm`usedPages, pg.pmm.bitmap
    ensures pg.Valid() && pg.Space(user) && LowerChange(old(pg.mem), user, pg.mem, old(pg.pmm.Free()), pg.pmm.Free(), c.va)
  {
    hide Paging.Valid;
    hide Walk;
    hide Tree;
    hide Grew;
    hide AllUsed;
    hide OnPath;
    hide Translate;
    hide TablePath;
    hide Pml4Index;
    hide B.Clear;
    ghost var mem, free := pg.mem, pg.pmm.Free();
    if c.Map? {
      ok := pg.MapPage(user, c.va, c.phys, c.flags);
    } else {
      pg.UnmapPage(user, c.va);
      PathEnd(pg.mem, user, c.va);
      GrewStored(mem, user, pg.mem, free, TablePath(c.va));
      ok := true;
    }
  }

  /** Maps or unmaps a lower-half page of a user space: the kernel's space keeps its tables and
      translations, and no page is lost. */
  method Apply(pg: Paging, kernel: nat, user: nat, c: Change) returns (ok: bool)
    requires Both(pg, kernel, user) && Pml4Index(c.va) < 256
    modifies pg`mem, pg.pmm`usedPages, pg.pmm.bitmap
    ensures Both(pg, kernel, user)
    ensures forall vb :: Translate(pg.mem, kernel, vb) == old(Translate(pg.mem, kernel, vb))
    ensures pg.pmm.Free() + LowerTables(pg.mem, user) == old(pg.pmm.Free() + LowerTables(pg.mem, user))
  {
    hide Paging.Valid;
    hide Walk;
    hide Tree;
    hide Grew;
    hide AllUsed;
    hide OnPath;
    hide Paired;
    hide Translate;
    hide LowerTables;
    hide TablePath;
    hide Pml4Index;
    hide B.Clear;
    hide LowerChange;
    ghost var mem, free := pg.mem, pg.pmm.Free();
    ok := ChangePage(pg, user, c);
    KernelKept(mem, kernel, user, pg.mem, free, pg.pmm.Free(), c.va, pg.pmm.highestPage);
    LowerConserved(mem, user, pg.mem, free, pg.pmm.Free(), c.va, pg.pmm.highestPage);
  }

  lemma PathEnd(mem: Mem, user: nat, va: bv64)
    ensures forall b :: Walk(mem, user, TablePath(va)) == Some(b) ==> OnPath(mem, user, va, b)
  {
  }

  /** Tearing a user space down keeps the kernel's space: none of the freed tables is the kernel's. */
  lemma DestroyKeeps(mem: Mem, kernel: nat, user: nat, free: set<nat>, highest: nat)
    requires Tree(mem, user) && Paired(mem, kernel, user) && AllUsed(mem, kernel, free, highest)
    ensures AllUsed(mem, kernel, free + LowerTables(mem, user), highest)
  {
    hide Walk;
    hide Tree;
    hide Paired;
    hide LowerTables;
    forall q | |q| <= 3 && Walk(mem, kernel, q).Some?
      ensures Walk(mem, kernel, q).value !in LowerTables(mem, user)
    {
      var b := Walk(mem, kernel, q).value;
      LowerIs(mem, user, b);
      if p :| |p| <= 3 && (p == [] || p[0] < 256) && Walk(mem, user, p) == Some(b) {
        PairedTables(mem, kernel, user, p, q);
      }
    }
  }

  /** A user space that is created, mapped and unmapped in its lower half any number of times and torn
      down leaves the kernel's space with all its translations, and every page it took is free again.
      False where an allocation assertion stops the kernel on the way. */
  method Lifetime(pg: Paging, kernel: nat, changes: seq<Change>) returns (ok: bool)
    requires pg.Valid() && pg.Space(kernel) && forall i :: 0 <= i < |changes| ==> Pml4Index(changes[i].va) < 256
    modifies pg`mem, pg.pmm`usedPages, pg.pmm.bitmap
    ensures pg.Valid() && pg.Space(kernel)
    ensures forall vb :: Translate(pg.mem, kernel, vb) == old(Translate(pg.mem, kernel, vb))
    ensures ok ==> pg.pmm.Free() == old(pg.pmm.Free())
  {
    hide Paging.Valid;
    hide Walk;
    hide Tree;
    hide AllUsed;
    hide Paired;
    hide Translate;
    hide LowerTables;
    hide Tables;
    hide Shares;
    hide Pml4Index;
    hide B.Clear;
    hide P.Minus64;
    var user := Begin(pg, kernel);
    if user.None? {
      return false;
    }
    var i := 0;
    while i < |changes|
      invariant i <= |changes| && Both(pg, kernel, user.value)
      invariant forall vb :: Translate(pg.mem, kernel, vb) == old(Translate(pg.mem, kernel, vb))
      invariant pg.pmm.Free() + LowerTables(pg.mem, user.value) == old(pg.pmm.Free())
    {
      ok := Apply(pg, kernel, user.value, changes[i]);
      if !ok {
        return;
      }
      i := i + 1;
    }
    DestroyKeeps(pg.mem, kernel, user.value, pg.pmm.Free(), pg.pmm.highestPage);
    Destroy(pg, user.value);
    ok := true;
  }

  /** vmm_create_user_space, for the kernel's space beside it. */
  method Begin(pg: Paging, kernel: nat) returns (user: Option<nat>)
    requires pg.Valid() && pg.Space(kernel)
    modifies pg`mem, pg.pmm`usedPages, pg.pmm.bitmap
    ensures pg.Valid() && pg.Space(kernel)
    ensures forall vb :: Translate(pg.mem, kernel, vb) == old(Translate(pg.mem, kernel, vb))
    ensures user.Some? ==> Both(pg, kernel, user.value) && pg.pmm.Free() + LowerTables(pg.mem, user.value) == old(pg.pmm.Free())
  {
    hide Paging.Valid;
    hide Walk;
    hide Tree;
    hide AllUsed;
    hide Paired;
    hide Translate;
    hide LowerTables;
    hide Shares;
    hide Pml4Index;
    hide B.Clear;
    ghost var mem, free := pg.mem, pg.pmm.Free();
    user := pg.CreateUserSpace(kernel);
    if user.Some? {
      NotReached(mem, kernel, user.value, free, pg.pmm.highestPage);
      SharesPaired(pg.mem, kernel, user.value);
      SharesLower(pg.mem, kernel, user.value);
    }
  }

  /** A new user space has no table of its own but its root. */
  lemma SharesLower(mem: Mem, kernel: nat, user: nat)
    requires Tree(mem, user) && Shares(mem, kernel, user)
    ensures LowerTables(mem, user) == {user}
  {
    hide Walk;
    hide Tree;
    hide LowerTables;
    WalkRoot(mem, user);
    forall b
      ensures b in LowerTables(mem, user) <==> b == user
    {
      LowerIs(mem, user, b);
    }
  }

  // ---------- any number of user spaces ----------

  /** The spaces of one memory: roots[0] is the kernel's, the others are user spaces. All are trees of
      allocated tables, and any two of them are paired. */
  ghost predicate Spaces(mem: Mem, roots: seq<nat>, free: set<nat>, highest: nat)
  {
    && roots != []
    && (forall i :: 0 <= i < |roots| ==> Tree(mem, roots[i]) && AllUsed(mem, roots[i], free, highest))
    && (forall i, j :: 0 <= i < |roots| && 0 <= j < |roots| && i != j ==> Paired(mem, roots[i], roots[j]))
  }

  /** The tables that belong to one user space alone. */
  ghost function Owned(mem: Mem, roots: seq<nat>): set<nat>
  {
    set i, b | 1 <= i < |roots| && b in LowerTables(mem, roots[i]) :: b
  }

  lemma SpacesAt(mem: Mem, roots: seq<nat>, free: set<nat>, highest: nat, i: nat)
    requires Spaces(mem, roots, free, highest) && i < |roots|
    ensures Tree(mem, roots[i]) && AllUsed(mem, roots[i], free, highest)
  {
  }

  lemma SpacesPair(mem: Mem, roots: seq<nat>, free: set<nat>, highest: nat, i: nat, j: nat)
    requires Spaces(mem, roots, free, highest) && i < |roots| && j < |roots| && i != j
    ensures Paired(mem, roots[i], roots[j])
  {
  }

  lemma SpacesIntro(mem: Mem, roots: seq<nat>, free: set<nat>, highest: nat)
    requires roots != []
    requires forall i :: 0 <= i < |roots| ==> Tree(mem, roots[i]) && AllUsed(mem, roots[i], free, highest)
    requires forall i, j :: 0 <= i < |roots| && 0 <= j < |roots| && i != j ==> Paired(mem, roots[i], roots[j])
    ensures Spaces(mem, roots, free, highest)
  {
  }

  lemma PairedSym(mem: Mem, a: nat, b: nat)
    requires Paired(mem, a, b)
    ensures Paired(mem, b, a)
  {
    hide Walk;
    forall p, q | |p| <= 3 && |q| <= 3 && Walk(mem, b, q).Some? && Walk(mem, a, p) == Walk(mem, b, q)
      ensures p == q && p != [] && p[0] >= 256
    {
      PairedTables(mem, a, b, q, p);
    }
  }

  /** Spaces that both kept their paths are paired as before. */
  lemma PairedSame(mem: Mem, mem': Mem, a: nat, b: nat)
    requires Paired(mem, a, b)
    requires forall q :: |q| <= 3 ==> Walk(mem', a, q) == Walk(mem, a, q) && Walk(mem', b, q) == Walk(mem, b, q)
    ensures Paired(mem', a, b)
  {
    hide Walk;
    forall p, q | |p| <= 3 && |q| <= 3 && Walk(mem', a, q).Some? && Walk(mem', b, p) == Walk(mem', a, q)
      ensures p == q && p != [] && p[0] >= 256
    {
      PairedTables(mem, a, b, p, q);
    }
    forall p | 0 < |p| <= 3 && p[0] >= 256
      ensures Walk(mem', b, p) == Walk(mem', a, p)
    {
      PairedUpper(mem, a, b, p);
    }
  }

  lemma LowerSame(mem: Mem, mem': Mem, r: nat)
    requires Tree(mem, r) && Tree(mem', r) && forall q :: |q| <= 3 ==> Walk(mem', r, q) == Walk(mem, r, q)
    ensures LowerTables(mem', r) == LowerTables(mem, r)
  {
    hide Walk;
    hide Tree;
    hide LowerTables;
    forall b
      ensures b in LowerTables(mem', r) <==> b in LowerTables(mem, r)
    {
      LowerIs(mem, r, b);
      LowerIs(mem', r, b);
    }
  }

  lemma OwnedIs(mem: Mem, roots: seq<nat>, b: nat)
    ensures b in Owned(mem, roots) <==> exists i :: 1 <= i < |roots| && b in LowerTables(mem, roots[i])
  {
    hide LowerTables;
  }

  /** A change in the lower half of user space i leaves all other spaces alone, and no page is lost. */
  lemma ChangeKeeps(mem: Mem, roots: seq<nat>, i: nat, mem': Mem, free: set<nat>, free': set<nat>, va: bv64, highest: nat)
    requires Spaces(mem, roots, free, highest) && 1 <= i < |roots| && LowerChange(mem, roots[i], mem', free, free', va)
    requires Tree(mem', roots[i]) && AllUsed(mem', roots[i], free', highest)
    ensures Spaces(mem', roots, free', highest) && free' + Owned(mem', roots) == free + Owned(mem, roots)
    ensures forall j, vb :: 0 <= j < |roots| && j != i ==> Translate(mem', roots[j], vb) == Translate(mem, roots[j], vb)
  {
    hide Walk;
    hide Tree;
    hide AllUsed;
    hide Paired;
    hide Translate;
    hide LowerTables;
    hide LowerChange;
    hide Spaces;
    hide Owned;
    forall j | 0 <= j < |roots| && j != i
      ensures Tree(mem', roots[j]) && AllUsed(mem', roots[j], free', highest)
      ensures Paired(mem', roots[j], roots[i]) && Paired(mem', roots[i], roots[j])
      ensures forall q :: |q| <= 3 ==> Walk(mem', roots[j], q) == Walk(mem, roots[j], q)
      ensures forall vb :: Translate(mem', roots[j], vb) == Translate(mem, roots[j], vb)
      ensures LowerTables(mem', roots[j]) == LowerTables(mem, roots[j])
    {
      SpacesAt(mem, roots, free, highest, j);
      SpacesPair(mem, roots, free, highest, j, i);
      KernelKept(mem, roots[j], roots[i], mem', free, free', va, highest);
      PairedSym(mem', roots[j], roots[i]);
      LowerSame(mem, mem', roots[j]);
    }
    forall j, l | 0 <= j < |roots| && 0 <= l < |roots| && j != l
      ensures Paired(mem', roots[j], roots[l])
    {
      if j != i && l != i {
        SpacesPair(mem, roots, free, highest, j, l);
        PairedSame(mem, mem', roots[j], roots[l]);
      }
    }
    SpacesIntro(mem', roots, free', highest);
    SpacesAt(mem, roots, free, highest, i);
    LowerConserved(mem, roots[i], mem', free, free', va, highest);
    OwnedChanged(mem, mem', roots, i, free, free');
  }

  lemma OwnedChanged(mem: Mem, mem': Mem, roots: seq<nat>, i: nat, free: set<nat>, free': set<nat>)
    requires 1 <= i < |roots| && free' + LowerTables(mem', roots[i]) == free + LowerTables(mem, roots[i])
    requires forall j :: 0 <= j < |roots| && j != i ==> LowerTables(mem', roots[j]) == LowerTables(mem, roots[j])
    ensures free' + Owned(mem', roots) == free + Owned(mem, roots)
  {
    hide LowerTables;
    hide Owned;
    forall b
      ensures b in free' + Owned(mem', roots) <==> b in free + Owned(mem, roots)
    {
      OwnedIs(mem, roots, b);
      OwnedIs(mem', roots, b);
      assert b in free' + LowerTables(mem', roots[i]) <==> b in free + LowerTables(mem, roots[i]);
    }
  }

  /** A user space that is torn down leaves all others in order, and its own tables are free. */
  lemma DestroyOthers(mem: Mem, roots: seq<nat>, i: nat, free: set<nat>, highest: nat)
    requires Spaces(mem, roots, free, highest) && 1 <= i < |roots|
    ensures var rest, free' := roots[..i] + roots[i + 1..], free + LowerTables(mem, roots[i]);
      Spaces(mem, rest, free', highest) && free' + Owned(mem, rest) == free + Owned(mem, roots)
  {
    hide Walk;
    hide Tree;
    hide AllUsed;
    hide Paired;
    hide LowerTables;
    hide Spaces;
    hide Owned;
    var rest, free' := roots[..i] + roots[i + 1..], free + LowerTables(mem, roots[i]);
    assert forall j :: 0 <= j < |rest| ==> rest[j] == roots[if j < i then j else j + 1];
    forall j | 0 <= j < |rest|
      ensures Tree(mem, rest[j]) && AllUsed(mem, rest[j], free', highest)
    {
      var k := if j < i then j else j + 1;
      SpacesAt(mem, roots, free, highest, k);
      SpacesAt(mem, roots, free, highest, i);
      SpacesPair(mem, roots, free, highest, k, i);
      DestroyKeeps(mem, roots[k], roots[i], free, highest);
    }
    forall j, l | 0 <= j < |rest| && 0 <= l < |rest| && j != l
      ensures Paired(mem, rest[j], rest[l])
    {
      SpacesPair(mem, roots, free, highest, if j < i then j else j + 1, if l < i then l else l + 1);
    }
    SpacesIntro(mem, rest, free', highest);
    forall b
      ensures b in free' + Owned(mem, rest) <==> b in free + Owned(mem, roots)
    {
      OwnedWithout(mem, roots, i, b);
    }
  }

  lemma OwnedWithout(mem: Mem, roots: seq<nat>, i: nat, b: nat)
    requires 1 <= i < |roots|
    ensures b in Owned(mem, roots) <==> b in LowerTables(mem, roots[i]) || b in Owned(mem, roots[..i] + roots[i + 1..])
  {
    hide LowerTables;
    hide Owned;
    var rest := roots[..i] + roots[i + 1..];
    OwnedIs(mem, roots, b);
    OwnedIs(mem, rest, b);
    if k :| 1 <= k < |roots| && b in LowerTables(mem, roots[k]) {
      if k != i { assert rest[if k < i then k else k - 1] == roots[k]; }
    }
    if k :| 1 <= k < |rest| && b in LowerTables(mem, rest[k]) {
      assert rest[k] == roots[if k < i then k else k + 1];
    }
  }

  /** A new user space joins the others. */
  lemma CreateJoins(mem: Mem, roots: seq<nat>, u: nat, mem': Mem, free: set<nat>, highest: nat)
    requires Spaces(mem, roots, free, highest) && u in free && Shares(mem', roots[0], u)
    requires Tree(mem', u) && AllUsed(mem', u, free - {u}, highest)
    requires forall b :: b in mem && b != u ==> b in mem' && mem'[b] == mem[b]
    ensures Spaces(mem', roots + [u], free - {u}, highest)
    ensures free - {u} + Owned(mem', roots + [u]) == free + Owned(mem, roots)
    ensures forall j, vb :: 0 <= j < |roots| ==> Translate(mem', roots[j], vb) == Translate(mem, roots[j], vb)
  {
    hide Walk;
    hide Tree;
    hide AllUsed;
    hide Paired;
    hide Translate;
    hide LowerTables;
    hide Spaces;
    hide Owned;
    hide Shares;
    NonEmpty(mem, roots, free, highest);
    forall j | 0 <= j < |roots|
      ensures Tree(mem', roots[j]) && AllUsed(mem', roots[j], free - {u}, highest) && roots[j] != u
      ensures forall q :: |q| <= 3 ==> Walk(mem', roots[j], q) == Walk(mem, roots[j], q) && Walk(mem, roots[j], q) != Some(u)
      ensures forall vb :: Translate(mem', roots[j], vb) == Translate(mem, roots[j], vb)
      ensures LowerTables(mem', roots[j]) == LowerTables(mem, roots[j])
    {
      SpacesAt(mem, roots, free, highest, j);
      JoinKeeps(mem, roots[j], u, mem', free, highest);
      LowerSame(mem, mem', roots[j]);
    }
    var all := roots + [u];
    assert forall j :: 0 <= j < |roots| ==> all[j] == roots[j];
    SharesPaired(mem', roots[0], u);
    forall j | 0 <= j < |roots|
      ensures Paired(mem', roots[j], u) && Paired(mem', u, roots[j])
    {
      if j > 0 {
        SpacesPair(mem, roots, free, highest, j, 0);
        PairedSame(mem, mem', roots[j], roots[0]);
        JoinPaired(mem', roots[j], roots[0], u);
      }
      PairedSym(mem', roots[j], u);
    }
    forall j, l | 0 <= j < |all| && 0 <= l < |all| && j != l
      ensures Paired(mem', all[j], all[l])
    {
      if j < |roots| && l < |roots| {
        SpacesPair(mem, roots, free, highest, j, l);
        PairedSame(mem, mem', roots[j], roots[l]);
      }
    }
    SpacesIntro(mem', all, free - {u}, highest);
    SharesLower(mem', roots[0], u);
    OwnedJoined(mem, mem', roots, u, free);
  }

  lemma OwnedJoined(mem: Mem, mem': Mem, roots: seq<nat>, u: nat, free: set<nat>)
    requires roots != [] && u in free && LowerTables(mem', u) == {u}
    requires forall j :: 0 <= j < |roots| ==> LowerTables(mem', roots[j]) == LowerTables(mem, roots[j])
    ensures free - {u} + Owned(mem', roots + [u]) == free + Owned(mem, roots)
  {
    hide LowerTables;
    hide Owned;
    var all := roots + [u];
    assert all[|roots|] == u && forall j :: 0 <= j < |roots| ==> all[j] == roots[j];
    forall b
      ensures b in Owned(mem', all) <==> b == u || b in Owned(mem, roots)
    {
      OwnedIs(mem, roots, b);
      OwnedIs(mem', all, b);
    }
  }

  /** A page that was free is no table of any space, so a space is the same with a new table on it. */
  lemma JoinKeeps(mem: Mem, r: nat, u: nat, mem': Mem, free: set<nat>, highest: nat)
    requires Tree(mem, r) && AllUsed(mem, r, free, highest) && u in free
    requires forall b :: b in mem && b != u ==> b in mem' && mem'[b] == mem[b]
    ensures Tree(mem', r) && AllUsed(mem', r, free - {u}, highest) && r != u
    ensures forall q :: |q| <= 3 ==> Walk(mem', r, q) == Walk(mem, r, q) && Walk(mem, r, q) != Some(u)
    ensures forall vb :: Translate(mem', r, vb) == Translate(mem, r, vb)
  {
    hide Walk;
    hide Tree;
    hide Translate;
    NotReached(mem, r, u, free, highest);
    forall q | |q| <= 3 && Walk(mem, r, q).Some?
      ensures var b := Walk(mem, r, q).value; b in mem && b in mem' && mem'[b] == mem[b]
    {
      TreeTable(mem, r, q);
    }
    OtherSpace(mem, mem', r);
    forall q | |q| <= 3
      ensures Walk(mem', r, q) == Walk(mem, r, q)
    {
      OtherWalk(mem, mem', r, q);
    }
  }

  /** Another user space has with the new one what it has with the kernel's. */
  lemma JoinPaired(mem: Mem, r: nat, kernel: nat, u: nat)
    requires Paired(mem, r, kernel) && Shares(mem, kernel, u) && forall q :: |q| <= 3 ==> Walk(mem, r, q) != Some(u)
    ensures Paired(mem, r, u)
  {
    hide Walk;
    forall p, q | |p| <= 3 && |q| <= 3 && Walk(mem, r, q).Some? && Walk(mem, u, p) == Walk(mem, r, q)
      ensures p == q && p != [] && p[0] >= 256
    {
      assert p != [] && p[0] >= 256 && Walk(mem, u, p) == Walk(mem, kernel, p);
      PairedTables(mem, r, kernel, p, q);
    }
    forall p | 0 < |p| <= 3 && p[0] >= 256
      ensures Walk(mem, u, p) == Walk(mem, r, p)
    {
      PairedUpper(mem, r, kernel, p);
    }
  }

  datatype SpaceOp = Create | Alter(index: nat, change: Change) | Remove(index: nat)

  /** The operations name user spaces that are there and addresses in their lower halves; n is the number
      of user spaces before them. */
  ghost predicate Legal(ops: seq<SpaceOp>, n: nat)
    decreases |ops|
  {
    ops == [] || match ops[0]
                 case Create => Legal(ops[1..], n + 1)
                 case Alter(i, c) => i < n && Pml4Index(c.va) < 256 && Legal(ops[1..], n)
                 case Remove(i) => i < n && Legal(ops[1..], n - 1)
  }

  /** The page tables in memory hold these spaces. */
  ghost predicate Hold(pg: Paging, roots: seq<nat>)
    reads pg, pg.pmm, pg.pmm.bitmap
  {
    pg.Valid() && Spaces(pg.mem, roots, pg.pmm.Free(), pg.pmm.highestPage)
  }

  /** One operation on one user space: every other space, the kernel's among them, keeps its translations. */
  method Operate(pg: Paging, roots: seq<nat>, op: SpaceOp) returns (roots': seq<nat>, ok: bool)
    requires Hold(pg, roots) && Legal([op], |roots| - 1)
    modifies pg`mem, pg.pmm`usedPages, pg.pmm.bitmap
    ensures Hold(pg, roots') && roots'[0] == roots[0]
    ensures pg.pmm.Free() + Owned(pg.mem, roots') == old(pg.pmm.Free() + Owned(pg.mem, roots))
    ensures !ok ==> roots' == roots
    ensures ok ==> match op
      case Create => |roots'| == |roots| + 1 && roots'[..|roots|] == roots
      case Alter(_, _) => roots' == roots
      case Remove(i) => roots' == roots[..i + 1] + roots[i + 2..]
    ensures forall j, vb :: 0 <= j < |roots| && !(op.Alter? && j == op.index + 1) ==>
      Translate(pg.mem, roots[j], vb) == old(Translate(pg.mem, roots[j], vb))
  {
    hide Paging.Valid;
    hide Walk;
    hide Tree;
    hide Grew;
    hide AllUsed;
    hide OnPath;
    hide Paired;
    hide Translate;
    hide LowerTables;
    hide Tables;
    hide TablePath;
    hide Pml4Index;
    hide Spaces;
    hide Owned;
    hide Shares;
    hide B.Clear;
    hide P.Minus64;
    roots', ok := roots, true;
    ghost var mem, free, highest := pg.mem, pg.pmm.Free(), pg.pmm.highestPage;
    NonEmpty(mem, roots, free, highest);
    match op
    case Create =>
      SpacesAt(mem, roots, free, highest, 0);
      var user := pg.CreateUserSpace(roots[0]);
      if user.None? {
        return roots, false;
      }
      CreateJoins(mem, roots, user.value, pg.mem, free, highest);
      roots' := roots + [user.value];
    case Alter(i, c) =>
      SpacesAt(mem, roots, free, highest, i + 1);
      ok := ChangePage(pg, roots[i + 1], c);
      ChangeKeeps(mem, roots, i + 1, pg.mem, free, pg.pmm.Free(), c.va, highest);
    case Remove(i) =>
      SpacesAt(mem, roots, free, highest, i + 1);
      DestroyOthers(mem, roots, i + 1, free, highest);
      Destroy(pg, roots[i + 1]);
      roots' := roots[..i + 1] + roots[i + 2..];
  }

  lemma NonEmpty(mem: Mem, roots: seq<nat>, free: set<nat>, highest: nat)
    requires Spaces(mem, roots, free, highest)
    ensures roots != []
  {
  }

  /** Any number of user spaces, created, changed in their lower halves and torn down in any order: any two
      spaces share only the kernel's upper half, the kernel's translations stay, and the free pages and
      the spaces' own tables together stay the same pages. Stops where an allocation assertion stops the
      kernel. */
  method Serve(pg: Paging, kernel: nat, ops: seq<SpaceOp>) returns (roots: seq<nat>, ok: bool)
    requires pg.Valid() && pg.Space(kernel) && Legal(ops, 0)
    modifies pg`mem, pg.pmm`usedPages, pg.pmm.bitmap
    ensures Hold(pg, roots) && roots[0] == kernel
    ensures forall vb :: Translate(pg.mem, kernel, vb) == old(Translate(pg.mem, kernel, vb))
    ensures pg.pmm.Free() + Owned(pg.mem, roots) == old(pg.pmm.Free())
    ensures |roots| == 1 ==> pg.pmm.Free() == old(pg.pmm.Free())
  {
    hide Paging.Valid;
    hide Walk;
    hide Tree;
    hide AllUsed;
    hide Paired;
    hide Translate;
    hide Pml4Index;
    hide Spaces;
    hide Owned;
    hide B.Clear;
    roots, ok := [kernel], true;
    OneSpace(pg.mem, kernel, pg.pmm.Free(), pg.pmm.highestPage);
    var k := 0;
    assert ops[0..] == ops;
    while k < |ops| && ok
      invariant k <= |ops| && Hold(pg, roots) && roots != [] && roots[0] == kernel
      invariant ok ==> Legal(ops[k..], |roots| - 1)
      invariant forall vb :: Translate(pg.mem, kernel, vb) == old(Translate(pg.mem, kernel, vb))
      invariant pg.pmm.Free() + Owned(pg.mem, roots) == old(pg.pmm.Free())
    {
      assert ops[k..][0] == ops[k] && ops[k..][1..] == ops[k + 1..];
      LegalFirst(ops[k..], |roots| - 1);
      roots, ok := Operate(pg, roots, ops[k]);
      NonEmpty(pg.mem, roots, pg.pmm.Free(), pg.pmm.highestPage);
      k := k + 1;
    }
    if |roots| == 1 { OwnedNone(pg.mem, roots); }
  }

  lemma LegalFirst(ops: seq<SpaceOp>, n: nat)
    requires ops != [] && Legal(ops, n)
    ensures Legal([ops[0]], n)
  {
    hide Pml4Index;
    assert [ops[0]][1..] == [];
  }

  lemma OneSpace(mem: Mem, kernel: nat, free: set<nat>, highest: nat)
    requires Tree(mem, kernel) && AllUsed(mem, kernel, free, highest)
    ensures Spaces(mem, [kernel], free, highest) && Owned(mem, [kernel]) == {}
  {
    hide Tree;
    hide AllUsed;
  }

  lemma OwnedNone(mem: Mem, roots: seq<nat>)
    requires |roots| == 1
    ensures Owned(mem, roots) == {}
  {
  }
}
