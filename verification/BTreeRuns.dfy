/**
 * Whole runs of the index: from btree_init, any sequence of insertions and deletions
 * behaves as a finite map, keeps the tree balanced and low, and, where callers insert
 * only absent keys and delete only present ones, counts the live keys.
 */
module BTreeRuns {
  import opened Wrappers
  import opened BTreeModel
  import opened BTreeTheorems

  // ---------- scanning ----------

  lemma {:induction false} LiveSeqConcat<V>(a: seq<Entry<V>>, b: seq<Entry<V>>)
    ensures LiveSeq(a + b) == LiveSeq(a) + LiveSeq(b)
  {
    if a == [] {
      assert a + b == b;
    } else {
      assert (a + b)[1..] == a[1..] + b;
      LiveSeqConcat(a[1..], b);
    }
  }

  /** A list of pairs in strictly ascending key order that holds exactly the pairs of m. */
  ghost predicate Lists<V>(ps: seq<(nat, V)>, m: map<nat, V>)
  {
    && (forall i, j :: 0 <= i < j < |ps| ==> ps[i].0 < ps[j].0)
    && (forall i :: 0 <= i < |ps| ==> ps[i].0 in m && m[ps[i].0] == ps[i].1)
    && (forall k :: k in m ==> (k, m[k]) in ps)
  }

  /** btree_scan reports exactly the live pairs, in strictly ascending key order. */
  lemma {:induction false} ScanListsLive<V>(f: seq<Entry<V>>)
    requires Sorted(f)
    ensures Lists(LiveSeq(f), Live(f))
  {
    if f != [] {
      var hi := f[|f| - 1].key + 1;
      ScanListsLive(f[1..]);
      LiveKeys(f[1..], f[0].key, hi);
      var ps, m := LiveSeq(f[1..]), Live(f[1..]);
      if f[0].val.Some? {
        ListsCons(f[0].key, f[0].val.value, ps, m);
      }
    }
  }

  lemma ListsCons<V>(k: nat, v: V, ps: seq<(nat, V)>, m: map<nat, V>)
    requires Lists(ps, m) && forall x :: x in m ==> k < x
    ensures Lists([(k, v)] + ps, m[k := v])
  {
    var qs, n := [(k, v)] + ps, m[k := v];
    forall x | x in n ensures (x, n[x]) in qs {
      if x == k { assert qs[0] == (k, v); } else { assert (x, m[x]) in ps; }
    }
  }

  // ---------- fill and height ----------

  lemma {:induction false} SplitFilled<V>(t: Tree<V>, h: nat, r: nat, min: nat)
    requires Shaped(t, h) && |t.keys| < MAX_KEYS && Filled(t, min)
    requires !t.leaf && r < |t.kids| && |t.kids[r].keys| == MAX_KEYS
    ensures Filled(SplitChild(t, h, r), min)
  {
    var c := t.kids[r];
    assert Shaped(c, h - 1) && Filled(c, MID);
    assert Filled(LeftHalf(c), MID) && Filled(RightHalf(c), MID);
  }

  lemma {:induction false} InsertAtFilled<V>(t: Tree<V>, h: nat, r: nat, k: nat, v: Option<V>, min: nat)
    requires Shaped(t, h) && !t.leaf && r < |t.keys| && Filled(t, min)
    requires |t.kids[r].keys| < MAX_KEYS && |t.kids[r + 1].keys| < MAX_KEYS
    ensures Filled(InsertAt(t, h, r, k, v), min)
    decreases h, 0
  {
    if k != t.keys[r] {
      InsertFilled(t.kids[if k > t.keys[r] then r + 1 else r], h - 1, k, v, MID);
    }
  }

  lemma {:induction false} InsertFilled<V>(t: Tree<V>, h: nat, k: nat, v: Option<V>, min: nat)
    requires Shaped(t, h) && |t.keys| < MAX_KEYS && Filled(t, min)
    ensures Filled(InsertNonfull(t, h, k, v), min)
    decreases h
  {
    var r := UpTo(t.keys, k);
    if t.leaf || (r > 0 && t.keys[r - 1] == k) {
    } else if |t.kids[r].keys| == MAX_KEYS {
      SplitFilled(t, h, r, min);
      SplitParts(t, h, r);
      InsertAtFilled(SplitChild(t, h, r), h, r, k, v, min);
    } else {
      InsertFilled(t.kids[r], h - 1, k, v, MID);
    }
  }

  lemma {:induction false} InsertRootFilled<V>(t: Tree<V>, h: nat, k: nat, v: Option<V>)
    requires Shaped(t, h) && Filled(t, 1)
    ensures Filled(InsertRoot(t, h, k, v), 1)
  {
    if |t.keys| == MAX_KEYS {
      var c := t;
      assert Filled(LeftHalf(c), MID) && Filled(RightHalf(c), MID);
      var s := SplitChild(Tree(false, [], [], [t]), h + 1, 0);
      assert s.kids == [LeftHalf(c), RightHalf(c)];
      InsertAtFilled(s, h + 1, 0, k, v, 1);
    } else {
      InsertFilled(t, h, k, v, 1);
    }
  }

  lemma {:induction false} DeleteFilled<V>(t: Tree<V>, h: nat, k: nat, min: nat)
    requires Shaped(t, h) && Filled(t, min)
    ensures Filled(DeleteKey(t, h, k), min)
    decreases h
  {
    var i := Below(t.keys, k);
    if !(i < |t.keys| && t.keys[i] == k) && !t.leaf {
      DeleteFilled(t.kids[i], h - 1, k, MID);
    }
  }

  ghost function Pow32(n: nat): nat
  {
    if n == 0 then 1 else 32 * Pow32(n - 1)
  }

  lemma {:induction false} RestSize<V>(t: Tree<V>, h: nat, i: nat)
    requires Shaped(t, h) && Filled(t, 0) && h > 0 && i <= |t.keys|
    ensures |Rest(t, i)| >= (|t.keys| - i + 1) * Pow32(h - 1) - 1
    decreases h, 0, |t.keys| - i
  {
    FlatSize(t.kids[i], h - 1);
    if i < |t.keys| {
      RestSize(t, h, i + 1);
      assert (|t.keys| - i + 1) * Pow32(h - 1) == (|t.keys| - i) * Pow32(h - 1) + Pow32(h - 1);
    }
  }

  /** A subtree of height h below the root holds at least 32^h - 1 keys. */
  lemma {:induction false} FlatSize<V>(t: Tree<V>, h: nat)
    requires Shaped(t, h) && Filled(t, MID)
    ensures |Flat(t)| >= Pow32(h) - 1
    decreases h, 1
  {
    if h > 0 {
      RestSize(t, h, 0);
      MulMono(32, |t.keys| + 1, Pow32(h - 1));
    }
  }

  lemma MulMono(a: nat, b: nat, c: nat)
    requires a <= b
    ensures a * c <= b * c
  {
  }

  /** Half-full internal nodes bound the height by the number of keys ever kept. */
  lemma {:induction false} HeightBound<V>(t: Tree<V>, h: nat)
    requires Shaped(t, h) && Filled(t, 1) && h > 0
    ensures |Flat(t)| >= 2 * Pow32(h - 1) - 1
  {
    RestSize(t, h, 0);
    MulMono(2, |t.keys| + 1, Pow32(h - 1));
  }

  // ---------- runs ----------

  const U64: nat := 0x1_0000_0000_0000_0000

  /** btree_t: the root, its height, and the 64-bit element counter. */
  datatype Index<V> = Index(root: Tree<V>, h: nat, count: nat)

  datatype Op<V> = Insert(key: nat, val: Option<V>) | Delete(key: nat)

  ghost function Init<V>(): Index<V>
  {
    Index(Tree(true, [], [], []), 0, 0)
  }

  /** uint64_t increment and decrement, with wrap-around. */
  ghost function Inc64(n: nat): nat
  {
    if n + 1 == U64 then 0 else n + 1
  }

  ghost function Dec64(n: nat): nat
  {
    if n == 0 then U64 - 1 else n - 1
  }

  /** Every insertion counts up, every deletion that meets its key counts down. */
  ghost function CountAfter<V>(count: nat, op: Op<V>, found: bool): nat
  {
    match op
    case Insert(_, _) => Inc64(count)
    case Delete(_) => if found then Dec64(count) else count
  }

  ghost function Step<V>(s: Index<V>, op: Op<V>): (s': Index<V>)
    requires Shaped(s.root, s.h)
    ensures Shaped(s'.root, s'.h)
  {
    var count := CountAfter(s.count, op, Found(s.root, s.h, op.key));
    match op
    case Insert(k, v) => Index(InsertRoot(s.root, s.h, k, v), HeightAfterInsert(s.root, s.h), count)
    case Delete(k) => Index(DeleteKey(s.root, s.h, k), s.h, count)
  }

  ghost function Run<V>(ops: seq<Op<V>>): (s: Index<V>)
    ensures Shaped(s.root, s.h)
  {
    if ops == [] then Init() else Step(Run(ops[..|ops| - 1]), ops[|ops| - 1])
  }

  ghost function MapStep<V>(m: map<nat, V>, op: Op<V>): map<nat, V>
  {
    match op
    case Insert(k, v) => Updated(m, k, v)
    case Delete(k) => m - {k}
  }

  /** The plain map the same operations would build. */
  ghost function MapRun<V>(ops: seq<Op<V>>): map<nat, V>
  {
    if ops == [] then map[] else MapStep(MapRun(ops[..|ops| - 1]), ops[|ops| - 1])
  }

  ghost predicate Keys64<V>(ops: seq<Op<V>>)
  {
    forall i :: 0 <= i < |ops| ==> ops[i].key < U64
  }

  ghost predicate Good<V>(s: Index<V>)
  {
    WF(s.root, s.h, -1, U64) && Filled(s.root, 1)
  }

  /** The operation is not an insertion that shifts a leaf apart. */
  ghost predicate Safe<V>(s: Index<V>, op: Op<V>)
    requires Shaped(s.root, s.h)
  {
    op.Insert? ==> !ClobbersRoot(s.root, s.h, op.key)
  }

  ghost predicate SafeRun<V>(ops: seq<Op<V>>)
  {
    ops == [] || (SafeRun(ops[..|ops| - 1]) && Safe(Run(ops[..|ops| - 1]), ops[|ops| - 1]))
  }

  lemma {:induction false} StepGood<V>(s: Index<V>, op: Op<V>)
    requires Good(s) && op.key < U64 && Safe(s, op)
    ensures Good(Step(s, op))
    ensures Live(Flat(Step(s, op).root)) == MapStep(Live(Flat(s.root)), op)
  {
    match op
    case Insert(k, v) =>
      InsertIsMapUpdate(s.root, s.h, -1, U64, k, v);
      InsertRootFilled(s.root, s.h, k, v);
    case Delete(k) =>
      DeleteIsMapRemoval(s.root, s.h, -1, U64, k);
      DeleteFilled(s.root, s.h, k, 1);
  }

  /** Every safe run from btree_init is a run of the finite map, and keeps the tree well formed. */
  lemma {:induction false} RunRefinesMap<V>(ops: seq<Op<V>>)
    requires Keys64(ops) && SafeRun(ops)
    ensures Good(Run(ops))
    ensures Live(Flat(Run(ops).root)) == MapRun(ops)
  {
    if ops != [] {
      RunRefinesMap(ops[..|ops| - 1]);
      StepGood(Run(ops[..|ops| - 1]), ops[|ops| - 1]);
    }
  }

  /** In every reachable state a search returns what the map holds, and a scan lists the map. */
  lemma {:induction false} RunObservesMap<V>(ops: seq<Op<V>>, k: nat)
    requires Keys64(ops) && SafeRun(ops)
    ensures var s, m := Run(ops), MapRun(ops);
      && Search(s.root, s.h, k) == (if k in m then Some(m[k]) else None)
      && Lists(LiveSeq(Flat(s.root)), m)
  {
    var s := Run(ops);
    RunRefinesMap(ops);
    SearchIsLookup(s.root, s.h, -1, U64, k);
    FlatSorted(s.root, s.h, -1, U64);
    ScanListsLive(Flat(s.root));
  }

  lemma {:induction false} SortedSize<V>(f: seq<Entry<V>>, lo: int, hi: int)
    requires Sorted(f) && Within(f, lo, hi) && lo < hi
    ensures |f| <= hi - lo - 1
  {
    if f != [] {
      var n := |f| - 1;
      SortedSize(f[..n], lo, f[n].key);
    }
  }

  /** No reachable tree is more than 14 levels high: 64-bit keys leave no room for more. */
  lemma {:induction false} RunHeight<V>(ops: seq<Op<V>>)
    requires Keys64(ops) && SafeRun(ops)
    ensures Run(ops).h <= 13
    ensures Run(ops).h > 0 ==> |Flat(Run(ops).root)| >= 2 * Pow32(Run(ops).h - 1) - 1
  {
    var s := Run(ops);
    RunRefinesMap(ops);
    if s.h > 0 {
      HeightBound(s.root, s.h);
      FlatSorted(s.root, s.h, -1, U64);
      SortedSize(Flat(s.root), -1, U64);
      if s.h > 13 {
        Pow32Mono(13, s.h - 1);
        Pow32Thirteen();
      }
    }
  }

  lemma {:induction false} Pow32Mono(a: nat, b: nat)
    requires a <= b
    ensures Pow32(a) <= Pow32(b)
  {
    if a < b { Pow32Mono(a, b - 1); }
  }

  lemma Pow32Thirteen()
    ensures Pow32(13) == 0x2_0000_0000_0000_0000
  {
    assert Pow32(2) == 0x400;
    assert Pow32(4) == 0x10_0000;
    assert Pow32(6) == 0x4000_0000;
    assert Pow32(8) == 0x100_0000_0000;
    assert Pow32(10) == 0x4_0000_0000_0000;
    assert Pow32(12) == 0x1000_0000_0000_0000;
  }

  // ---------- the element counter ----------

  /** The operation changes the number of live keys by what the counter changes: an
      insertion brings a non-null value under a key that is not live, a deletion does not
      meet a key that was already nulled. */
  ghost predicate Counted<V>(m: map<nat, V>, op: Op<V>, found: bool)
  {
    match op
    case Insert(k, v) => k !in m && v.Some?
    case Delete(k) => found ==> k in m
  }

  lemma {:induction false} CountMap<V>(m: map<nat, V>, op: Op<V>, found: bool, count: nat)
    requires count == Low64(|m|)
    requires op.key in m ==> found
    ensures CountAfter(count, op, found) == Low64(|MapStep(m, op)|) <==> Counted(m, op, found)
  {
    MapSizes(m, op.key, if op.Insert? then op.val else None);
    CounterStep(|m|, |MapStep(m, op)|);
  }

  /** The counter stays the number of live keys exactly under those operations. */
  lemma {:induction false} CountStep<V>(s: Index<V>, op: Op<V>)
    requires Good(s) && op.key < U64 && Safe(s, op)
    requires s.count == Low64(|Live(Flat(s.root))|)
    ensures Step(s, op).count == Low64(|Live(Flat(Step(s, op).root))|)
       <==> Counted(Live(Flat(s.root)), op, Found(s.root, s.h, op.key))
  {
    StepGood(s, op);
    FoundIsMember(s.root, s.h, -1, U64, op.key);
    CountMap(Live(Flat(s.root)), op, Found(s.root, s.h, op.key), s.count);
  }

  lemma MapSizes<V>(m: map<nat, V>, k: nat, v: Option<V>)
    ensures |m - {k}| == if k in m then |m| - 1 else |m|
    ensures v.Some? ==> |m[k := v.value]| == if k in m then |m| else |m| + 1
  {
    assert (m - {k}).Keys == m.Keys - {k};
    assert |m - {k}| == |(m - {k}).Keys| && |m| == |m.Keys|;
    if v.Some? {
      assert m[k := v.value].Keys == m.Keys + {k};
      assert |m[k := v.value]| == |m[k := v.value].Keys|;
    }
  }

  /** n as a 64-bit counter shows it. */
  ghost function Low64(n: nat): (r: nat)
    ensures r < U64
  {
    n % U64
  }

  /** A 64-bit counter tells steps of one apart. */
  lemma CounterStep(n: nat, n': nat)
    requires n - 1 <= n' <= n + 1
    ensures Inc64(Low64(n)) == Low64(n') <==> n' == n + 1
    ensures Dec64(Low64(n)) == Low64(n') <==> n' == n - 1
    ensures Low64(n) == Low64(n') <==> n' == n
  {
  }

  // ---------- the database's discipline ----------

  /** Insert only non-null values under keys that are not live, delete only live keys. */
  ghost predicate Disciplined<V>(ops: seq<Op<V>>)
  {
    ops == [] ||
    (Disciplined(ops[..|ops| - 1]) &&
     var m, op := MapRun(ops[..|ops| - 1]), ops[|ops| - 1];
     match op
     case Insert(k, v) => k !in m && v.Some?
     case Delete(k) => k in m)
  }

  /** No leaf holds a NULL value; only internal nodes carry tombstones. */
  ghost predicate LeavesLive<V>(t: Tree<V>)
  {
    && (t.leaf ==> forall i :: 0 <= i < |t.vals| ==> t.vals[i].Some?)
    && (forall i :: 0 <= i < |t.kids| ==> LeavesLive(t.kids[i]))
  }

  lemma {:induction false} SplitLeavesLive<V>(t: Tree<V>, h: nat, r: nat)
    requires Shaped(t, h) && |t.keys| < MAX_KEYS && LeavesLive(t)
    requires !t.leaf && r < |t.kids| && |t.kids[r].keys| == MAX_KEYS
    ensures LeavesLive(SplitChild(t, h, r))
  {
    var c := t.kids[r];
    assert Shaped(c, h - 1) && LeavesLive(c);
    assert LeavesLive(LeftHalf(c)) && LeavesLive(RightHalf(c));
  }

  lemma {:induction false} InsertAtLeavesLive<V>(t: Tree<V>, h: nat, r: nat, k: nat, v: Option<V>)
    requires Shaped(t, h) && !t.leaf && r < |t.keys| && LeavesLive(t) && v.Some?
    requires |t.kids[r].keys| < MAX_KEYS && |t.kids[r + 1].keys| < MAX_KEYS
    ensures LeavesLive(InsertAt(t, h, r, k, v))
    decreases h, 0
  {
    if k != t.keys[r] {
      InsertLeavesLive(t.kids[if k > t.keys[r] then r + 1 else r], h - 1, k, v);
    }
  }

  lemma {:induction false} InsertLeavesLive<V>(t: Tree<V>, h: nat, k: nat, v: Option<V>)
    requires Shaped(t, h) && |t.keys| < MAX_KEYS && LeavesLive(t) && v.Some?
    ensures LeavesLive(InsertNonfull(t, h, k, v))
    decreases h
  {
    hide SplitChild;
    hide LeftHalf;
    hide RightHalf;
    hide InsertAt;
    var r := UpTo(t.keys, k);
    if t.leaf || (r > 0 && t.keys[r - 1] == k) {
    } else if |t.kids[r].keys| == MAX_KEYS {
      SplitLeavesLive(t, h, r);
      SplitParts(t, h, r);
      InsertAtLeavesLive(SplitChild(t, h, r), h, r, k, v);
    } else {
      InsertLeavesLive(t.kids[r], h - 1, k, v);
    }
  }

  lemma {:induction false} DeleteLeavesLive<V>(t: Tree<V>, h: nat, k: nat)
    requires Shaped(t, h) && LeavesLive(t)
    ensures LeavesLive(DeleteKey(t, h, k))
    decreases h
  {
    var i := Below(t.keys, k);
    if !(i < |t.keys| && t.keys[i] == k) && !t.leaf {
      DeleteLeavesLive(t.kids[i], h - 1, k);
    }
  }

  lemma {:induction false} StepLeavesLive<V>(s: Index<V>, op: Op<V>)
    requires Shaped(s.root, s.h) && LeavesLive(s.root) && (op.Insert? ==> op.val.Some?)
    ensures LeavesLive(Step(s, op).root)
  {
    hide SplitChild;
    hide LeftHalf;
    hide RightHalf;
    hide InsertAt;
    hide InsertNonfull;
    hide DeleteKey;
    match op
    case Insert(k, v) =>
      if |s.root.keys| == MAX_KEYS {
        var up := Tree(false, [], [], [s.root]);
        SplitLeavesLive(up, s.h + 1, 0);
        SplitParts(up, s.h + 1, 0);
        InsertAtLeavesLive(SplitChild(up, s.h + 1, 0), s.h + 1, 0, k, v);
      } else {
        InsertLeavesLive(s.root, s.h, k, v);
      }
    case Delete(k) => DeleteLeavesLive(s.root, s.h, k);
  }

  lemma {:induction false} ClobberedAtIsLive<V>(t: Tree<V>, h: nat, lo: int, hi: int, r: nat, k: nat)
    requires WF(t, h, lo, hi) && !t.leaf && r < |t.keys| && LeavesLive(t)
    requires |t.kids[r].keys| < MAX_KEYS && |t.kids[r + 1].keys| < MAX_KEYS
    requires ClobbersAt(t, h, r, k)
    ensures k in Live(Flat(t))
    decreases h, 0
  {
    var i := if k > t.keys[r] then r + 1 else r;
    ClobberedIsLive(t.kids[i], h - 1, Lo(t.keys, lo, i), Hi(t.keys, hi, i), k);
    LiveAround(t, h, lo, hi, i);
  }

  lemma {:induction false} ClobberedSplitIsLive<V>(t: Tree<V>, h: nat, lo: int, hi: int, r: nat, k: nat)
    requires WF(t, h, lo, hi) && |t.keys| < MAX_KEYS && LeavesLive(t)
    requires !t.leaf && r < |t.kids| && |t.kids[r].keys| == MAX_KEYS
    requires ClobbersAt(SplitChild(t, h, r), h, r, k)
    ensures k in Live(Flat(t))
    decreases h, 1
  {
    SplitParts(t, h, r);
    SplitOrdered(t, h, lo, hi, r);
    SplitFlat(t, h, r);
    SplitLeavesLive(t, h, r);
    ClobberedAtIsLive(SplitChild(t, h, r), h, lo, hi, r, k);
  }

  /** Only a live key can be clobbered. */
  lemma {:induction false} ClobberedIsLive<V>(t: Tree<V>, h: nat, lo: int, hi: int, k: nat)
    requires WF(t, h, lo, hi) && |t.keys| < MAX_KEYS && LeavesLive(t) && Clobbers(t, h, k)
    ensures k in Live(Flat(t))
    decreases h
  {
    var r := UpTo(t.keys, k);
    if t.leaf {
      LiveAtKey(t, h, lo, hi, r - 1);
    } else if |t.kids[r].keys| == MAX_KEYS {
      ClobberedSplitIsLive(t, h, lo, hi, r, k);
    } else {
      ClobberedIsLive(t.kids[r], h - 1, Lo(t.keys, lo, r), Hi(t.keys, hi, r), k);
      LiveAround(t, h, lo, hi, r);
    }
  }

  lemma {:induction false} ClobberedRootIsLive<V>(t: Tree<V>, h: nat, lo: int, hi: int, k: nat)
    requires WF(t, h, lo, hi) && LeavesLive(t) && ClobbersRoot(t, h, k)
    ensures k in Live(Flat(t))
  {
    if |t.keys| == MAX_KEYS {
      NewRootOk(t, h, lo, hi);
      ClobberedSplitIsLive(Tree(false, [], [], [t]), h + 1, lo, hi, 0, k);
    } else {
      ClobberedIsLive(t, h, lo, hi, k);
    }
  }

  /** Without the discipline a second insertion under one key can lose another key: the leaf
      1, 2, 3, 4 becomes 1, 2, 2, 3 when key 1 is inserted again. */
  lemma DuplicateInsertLosesKey<V>(t: Tree<V>, v: V)
    requires t.leaf && t.kids == [] && t.keys == [1, 2, 3, 4] && |t.vals| == 4
    ensures WF(t, 0, -1, U64)
    ensures InsertRoot(t, 0, 1, Some(v)).keys == [1, 2, 2, 3]
  {
    assert t.keys[0] == 1 && t.keys[1] == 2;
    assert UpTo(t.keys, 1) == 1;
  }

  /** Under the discipline every run is safe, so it refines the finite map, and the 64-bit
      counter is the number of live keys in every reachable state. */
  lemma {:induction false} DisciplinedRun<V>(ops: seq<Op<V>>)
    requires Keys64(ops) && Disciplined(ops)
    ensures SafeRun(ops)
    ensures Good(Run(ops)) && LeavesLive(Run(ops).root)
    ensures Live(Flat(Run(ops).root)) == MapRun(ops)
    ensures Run(ops).count == Low64(|MapRun(ops)|)
  {
    if ops != [] {
      var pre, op := ops[..|ops| - 1], ops[|ops| - 1];
      DisciplinedRun(pre);
      var s := Run(pre);
      if op.Insert? && ClobbersRoot(s.root, s.h, op.key) {
        ClobberedRootIsLive(s.root, s.h, -1, U64, op.key);
        assert false;
      }
      StepGood(s, op);
      StepLeavesLive(s, op);
      CountStep(s, op);
    }
  }
}
