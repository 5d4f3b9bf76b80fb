/**
 * What the operations of BTreeModel mean: they keep the tree well formed and act on
 * the finite map of non-null values as map update and removal.
 */
module BTreeTheorems {
  import opened Wrappers
  import opened BTreeModel

  // ---------- sorted entry lists ----------

  ghost predicate Sorted<V>(f: seq<Entry<V>>)
  {
    forall i, j :: 0 <= i < j < |f| ==> f[i].key < f[j].key
  }

  ghost predicate Within<V>(f: seq<Entry<V>>, lo: int, hi: int)
  {
    forall i :: 0 <= i < |f| ==> lo < f[i].key < hi
  }

  /** Insert or overwrite in a sorted list. */
  ghost function Put<V>(f: seq<Entry<V>>, k: nat, v: Option<V>): seq<Entry<V>>
  {
    if f == [] || k < f[0].key then [Entry(k, v)] + f
    else if f[0].key == k then [Entry(k, v)] + f[1..]
    else [f[0]] + Put(f[1..], k, v)
  }

  lemma {:induction false} PutPrefix<V>(p: seq<Entry<V>>, f: seq<Entry<V>>, k: nat, v: Option<V>)
    requires forall i :: 0 <= i < |p| ==> p[i].key < k
    ensures Put(p + f, k, v) == p + Put(f, k, v)
  {
    if p == [] {
      assert p + f == f;
    } else {
      assert (p + f)[1..] == p[1..] + f;
      PutPrefix(p[1..], f, k, v);
    }
  }

  lemma {:induction false} PutSuffix<V>(f: seq<Entry<V>>, s: seq<Entry<V>>, k: nat, v: Option<V>)
    requires forall i :: 0 <= i < |s| ==> k < s[i].key
    ensures Put(f + s, k, v) == Put(f, k, v) + s
  {
    if f == [] {
      assert f + s == s;
    } else {
      assert (f + s)[1..] == f[1..] + s;
      PutSuffix(f[1..], s, k, v);
    }
  }

  /** Insertion into a sorted list only touches the part in whose range the key lies. */
  lemma PutMiddle<V>(p: seq<Entry<V>>, f: seq<Entry<V>>, s: seq<Entry<V>>, k: nat, v: Option<V>)
    requires forall i :: 0 <= i < |p| ==> p[i].key < k
    requires forall i :: 0 <= i < |s| ==> k < s[i].key
    ensures Put(p + f + s, k, v) == p + Put(f, k, v) + s
  {
    assert p + f + s == p + (f + s);
    PutPrefix(p, f + s, k, v);
    PutSuffix(f, s, k, v);
  }

  lemma SortedAppend<V>(a: seq<Entry<V>>, b: seq<Entry<V>>, lo: int, m: int, hi: int)
    requires Sorted(a) && Sorted(b) && Within(a, lo, m) && Within(b, m - 1, hi) && lo < m <= hi
    ensures Sorted(a + b) && Within(a + b, lo, hi)
  {
  }

  lemma SortedAround<V>(p: seq<Entry<V>>, e: Entry<V>, s: seq<Entry<V>>)
    requires Sorted(p + [e] + s)
    ensures forall i :: 0 <= i < |p| ==> p[i].key < e.key
    ensures forall i :: 0 <= i < |s| ==> e.key < s[i].key
  {
    var f := p + [e] + s;
    assert f[|p|] == e;
    assert forall i :: 0 <= i < |p| ==> f[i] == p[i];
    assert forall i :: 0 <= i < |s| ==> f[|p| + 1 + i] == s[i];
  }

  lemma {:induction false} LiveKeys<V>(f: seq<Entry<V>>, lo: int, hi: int)
    requires Within(f, lo, hi)
    ensures forall k :: k in Live(f) ==> lo < k < hi
  {
    if f != [] { LiveKeys(f[1..], lo, hi); }
  }

  ghost function Updated<V>(m: map<nat, V>, k: nat, v: Option<V>): map<nat, V>
  {
    if v.Some? then m[k := v.value] else m - {k}
  }

  ghost function With<V>(m: map<nat, V>, e: Entry<V>): map<nat, V>
  {
    if e.val.Some? then m[e.key := e.val.value] else m
  }

  lemma LiveCons<V>(e: Entry<V>, f: seq<Entry<V>>)
    ensures Live([e] + f) == With(Live(f), e)
  {
    assert ([e] + f)[1..] == f;
  }

  /** A new first entry. */
  lemma WithFirst<V>(m: map<nat, V>, e: Entry<V>)
    requires e.key !in m
    ensures With(m, e) == Updated(m, e.key, e.val)
  {
    if e.val.None? { assert m - {e.key} == m; }
  }

  /** A first entry that takes the place of another. */
  lemma WithAgain<V>(m: map<nat, V>, e: Entry<V>, v: Option<V>)
    requires e.key !in m
    ensures With(m, Entry(e.key, v)) == Updated(With(m, e), e.key, v)
  {
    if v.None? {
      assert With(m, e) - {e.key} == m;
    } else {
      assert With(m, e)[e.key := v.value] == m[e.key := v.value];
    }
  }

  lemma WithOther<V>(m: map<nat, V>, e: Entry<V>, k: nat, v: Option<V>)
    requires e.key != k
    ensures With(Updated(m, k, v), e) == Updated(With(m, e), k, v)
  {
  }

  lemma LiveAbove<V>(f: seq<Entry<V>>, k: nat)
    requires Sorted(f) && (f != [] ==> k < f[0].key)
    ensures k !in Live(f)
  {
    if f != [] { LiveKeys(f, k, f[|f| - 1].key + 1); }
  }

  lemma {:induction false} PutLive<V>(f: seq<Entry<V>>, k: nat, v: Option<V>)
    requires Sorted(f)
    ensures Live(Put(f, k, v)) == Updated(Live(f), k, v)
  {
    hide Live;
    hide Updated;
    hide With;
    if f == [] || k < f[0].key {
      LiveAbove(f, k);
      LiveCons(Entry(k, v), f);
      WithFirst(Live(f), Entry(k, v));
    } else {
      assert f == [f[0]] + f[1..];
      LiveCons(f[0], f[1..]);
      if f[0].key == k {
        LiveAbove(f[1..], k);
        LiveCons(Entry(k, v), f[1..]);
        WithAgain(Live(f[1..]), f[0], v);
      } else {
        PutLive(f[1..], k, v);
        LiveCons(f[0], Put(f[1..], k, v));
        WithOther(Live(f[1..]), f[0], k, v);
      }
    }
  }

  lemma {:induction false} LiveConcat<V>(a: seq<Entry<V>>, b: seq<Entry<V>>)
    ensures Live(a + b) == Live(b) + Live(a)
  {
    if a == [] {
      assert a + b == b;
    } else {
      assert (a + b)[1..] == a[1..] + b;
      LiveConcat(a[1..], b);
    }
  }

  // ---------- the in-order contents of a node ----------

  /** What follows subtree i: key i, subtree i + 1, ... */
  ghost function Tail<V>(t: Tree<V>, i: nat): seq<Entry<V>>
    requires i <= |t.keys|
  {
    if i == |t.keys| then [] else [EntryAt(t, i)] + Rest(t, i + 1)
  }

  lemma {:induction false} Around<V>(t: Tree<V>, i: nat)
    requires i <= |t.keys|
    ensures Flat(t) == Left(t, i) + KidFlat(t, i) + Tail(t, i)
  {
    assert Rest(t, i) == KidFlat(t, i) + Tail(t, i);
    if i > 0 {
      Around(t, i - 1);
      assert Tail(t, i - 1) == [EntryAt(t, i - 1)] + Rest(t, i);
    }
  }

  /** The contents around key i. */
  lemma {:induction false} AroundKey<V>(t: Tree<V>, i: nat)
    requires i < |t.keys|
    ensures Flat(t) == (Left(t, i) + KidFlat(t, i)) + [EntryAt(t, i)] + (KidFlat(t, i + 1) + Tail(t, i + 1))
  {
    Around(t, i);
    assert Tail(t, i) == [EntryAt(t, i)] + (KidFlat(t, i + 1) + Tail(t, i + 1));
  }

  lemma {:induction false} LeftSame<V>(t: Tree<V>, t': Tree<V>, i: nat)
    requires i <= |t.keys| && i <= |t'.keys|
    requires forall j :: 0 <= j < i ==> KidFlat(t, j) == KidFlat(t', j) && EntryAt(t, j) == EntryAt(t', j)
    ensures Left(t, i) == Left(t', i)
  {
    if i > 0 { LeftSame(t, t', i - 1); }
  }

  /** Two nodes whose parts after subtree i and i + d agree have the same tail there. */
  lemma {:induction false} TailSame<V>(t: Tree<V>, t': Tree<V>, i: nat, d: nat)
    requires i <= |t.keys| && |t'.keys| == |t.keys| + d
    requires forall j :: i <= j < |t.keys| ==> EntryAt(t, j) == EntryAt(t', j + d)
    requires forall j :: i < j <= |t.keys| ==> KidFlat(t, j) == KidFlat(t', j + d)
    ensures Tail(t, i) == Tail(t', i + d)
    decreases |t.keys| - i
  {
    if i < |t.keys| {
      TailSame(t, t', i + 1, d);
      assert Rest(t, i + 1) == KidFlat(t, i + 1) + Tail(t, i + 1);
      assert Rest(t', i + 1 + d) == KidFlat(t', i + 1 + d) + Tail(t', i + 1 + d);
    }
  }

  // ---------- order of the contents ----------

  lemma {:induction false} LeftSorted<V>(t: Tree<V>, h: nat, lo: int, hi: int, i: nat)
    requires WF(t, h, lo, hi) && i <= |t.keys|
    ensures Sorted(Left(t, i)) && Within(Left(t, i), lo, Lo(t.keys, lo, i) + 1)
    decreases h, 0, i
  {
    if i > 0 {
      var a, m := Lo(t.keys, lo, i - 1), t.keys[i - 1];
      LeftSorted(t, h, lo, hi, i - 1);
      if !t.leaf { FlatSorted(t.kids[i - 1], h - 1, a, m); }
      SortedAppend(Left(t, i - 1), KidFlat(t, i - 1), lo, a + 1, m);
      SortedAppend(Left(t, i - 1) + KidFlat(t, i - 1), [EntryAt(t, i - 1)], lo, m, m + 1);
    }
  }

  lemma {:induction false} TailSorted<V>(t: Tree<V>, h: nat, lo: int, hi: int, i: nat)
    requires WF(t, h, lo, hi) && i <= |t.keys|
    ensures Sorted(Tail(t, i)) && Within(Tail(t, i), Hi(t.keys, hi, i) - 1, hi)
    decreases h, 0, |t.keys| - i
  {
    if i < |t.keys| {
      TailSorted(t, h, lo, hi, i + 1);
      assert Rest(t, i + 1) == KidFlat(t, i + 1) + Tail(t, i + 1);
      if !t.leaf { FlatSorted(t.kids[i + 1], h - 1, Lo(t.keys, lo, i + 1), Hi(t.keys, hi, i + 1)); }
    }
  }

  /** In-order contents are strictly ascending and lie between the bounds. */
  lemma {:induction false} FlatSorted<V>(t: Tree<V>, h: nat, lo: int, hi: int)
    requires WF(t, h, lo, hi)
    ensures Sorted(Flat(t)) && Within(Flat(t), lo, hi)
    decreases h, 1
  {
    Around(t, 0);
    TailSorted(t, h, lo, hi, 0);
    var m := Hi(t.keys, hi, 0);
    if !t.leaf { FlatSorted(t.kids[0], h - 1, lo, m); }
    assert Flat(t) == KidFlat(t, 0) + Tail(t, 0);
    if lo < hi { SortedAppend(KidFlat(t, 0), Tail(t, 0), lo, m, hi); }
  }

  lemma {:induction false} LiveThree<V>(a: seq<Entry<V>>, b: seq<Entry<V>>, c: seq<Entry<V>>)
    ensures Live(a + b + c) == Live(c) + Live(b) + Live(a)
  {
    LiveConcat(a + b, c);
    LiveConcat(a, b);
    assert Live(c) + (Live(b) + Live(a)) == Live(c) + Live(b) + Live(a);
  }

  /** A node's map is the union of what lies left of subtree i, subtree i, and what lies right. */
  lemma {:induction false} LiveAround<V>(t: Tree<V>, h: nat, lo: int, hi: int, i: nat)
    requires WF(t, h, lo, hi) && i <= |t.keys|
    ensures Live(Flat(t)) == Live(Tail(t, i)) + Live(KidFlat(t, i)) + Live(Left(t, i))
    ensures forall k :: k in Live(Left(t, i)) ==> k <= Lo(t.keys, lo, i)
    ensures forall k :: k in Live(KidFlat(t, i)) ==> Lo(t.keys, lo, i) < k < Hi(t.keys, hi, i)
    ensures forall k :: k in Live(Tail(t, i)) ==> Hi(t.keys, hi, i) <= k
  {
    Around(t, i);
    LiveThree(Left(t, i), KidFlat(t, i), Tail(t, i));
    LeftSorted(t, h, lo, hi, i);
    LiveKeys(Left(t, i), lo, Lo(t.keys, lo, i) + 1);
    TailSorted(t, h, lo, hi, i);
    LiveKeys(Tail(t, i), Hi(t.keys, hi, i) - 1, hi);
    if !t.leaf {
      FlatSorted(t.kids[i], h - 1, Lo(t.keys, lo, i), Hi(t.keys, hi, i));
      LiveKeys(Flat(t.kids[i]), Lo(t.keys, lo, i), Hi(t.keys, hi, i));
    }
  }

  /** The entry of key i is what the node's map says about that key. */
  lemma {:induction false} LiveAtKey<V>(t: Tree<V>, h: nat, lo: int, hi: int, i: nat)
    requires WF(t, h, lo, hi) && i < |t.keys|
    ensures (t.keys[i] in Live(Flat(t))) == t.vals[i].Some?
    ensures t.vals[i].Some? ==> Live(Flat(t))[t.keys[i]] == t.vals[i].value
  {
    LiveAround(t, h, lo, hi, i);
    TailSorted(t, h, lo, hi, i);
    var f := Tail(t, i);
    LiveKeys(f[1..], t.keys[i], hi);
  }

  lemma {:induction false} SearchIsLookup<V>(t: Tree<V>, h: nat, lo: int, hi: int, k: nat)
    requires WF(t, h, lo, hi)
    ensures Search(t, h, k) == (if k in Live(Flat(t)) then Some(Live(Flat(t))[k]) else None)
    decreases h
  {
    var i := Below(t.keys, k);
    if i < |t.keys| && t.keys[i] == k {
      LiveAtKey(t, h, lo, hi, i);
    } else {
      LiveAround(t, h, lo, hi, i);
      if !t.leaf { SearchIsLookup(t.kids[i], h - 1, Lo(t.keys, lo, i), Hi(t.keys, hi, i), k); }
    }
  }

  // ---------- splitting a full child ----------

  lemma {:induction false} LeftHalfFlat<V>(c: Tree<V>)
    requires |c.keys| == |c.vals| == MAX_KEYS && (if c.leaf then c.kids == [] else |c.kids| == MAX_KEYS + 1)
    ensures Flat(LeftHalf(c)) == Left(c, MID) + KidFlat(c, MID)
  {
    var l := LeftHalf(c);
    Around(l, MID);
    assert forall j :: 0 <= j < MID ==> l.keys[j] == c.keys[j] && l.vals[j] == c.vals[j];
    assert forall j :: 0 <= j <= MID ==> KidFlat(l, j) == KidFlat(c, j);
    LeftSame(c, l, MID);
    assert Tail(l, MID) == [];
  }

  lemma {:induction false} RightHalfFlat<V>(c: Tree<V>)
    requires |c.keys| == |c.vals| == MAX_KEYS && (if c.leaf then c.kids == [] else |c.kids| == MAX_KEYS + 1)
    ensures Flat(RightHalf(c)) == KidFlat(c, MID + 1) + Tail(c, MID + 1)
  {
    hide Flat;
    hide Rest;
    var r, d := RightHalf(c), MID + 1;
    forall j | 0 <= j < |r.keys|
      ensures EntryAt(r, j) == EntryAt(c, j + d)
    {
      assert r.keys[j] == c.keys[j + d] && r.vals[j] == c.vals[j + d];
    }
    forall j | 0 <= j <= |r.keys|
      ensures KidFlat(r, j) == KidFlat(c, j + d)
    {
      assert !c.leaf ==> r.kids[j] == c.kids[j + d];
    }
    TailSame(r, c, 0, d);
    Around(r, 0);
  }

  lemma {:induction false} HalvesFlat<V>(c: Tree<V>)
    requires |c.keys| == |c.vals| == MAX_KEYS && (if c.leaf then c.kids == [] else |c.kids| == MAX_KEYS + 1)
    ensures Flat(c) == Flat(LeftHalf(c)) + [EntryAt(c, MID)] + Flat(RightHalf(c))
  {
    AroundKey(c, MID);
    LeftHalfFlat(c);
    RightHalfFlat(c);
  }

  /** Where the parts of the parent and of the split child end up. */
  lemma {:induction false} SplitParts<V>(t: Tree<V>, h: nat, r: nat)
    requires Shaped(t, h) && |t.keys| < MAX_KEYS
    requires !t.leaf && r < |t.kids| && |t.kids[r].keys| == MAX_KEYS
    ensures var t', c := SplitChild(t, h, r), t.kids[r];
      && |t'.keys| == |t.keys| + 1 && |t'.kids| == |t.kids| + 1 && |t'.vals| == |t'.keys|
      && Shaped(c, h - 1)
      && t'.keys[r] == c.keys[MID] && t'.vals[r] == c.vals[MID]
      && t'.kids[r] == LeftHalf(c) && t'.kids[r + 1] == RightHalf(c)
      && (forall j :: 0 <= j < r ==> t'.keys[j] == t.keys[j] && t'.vals[j] == t.vals[j] && t'.kids[j] == t.kids[j])
      && (forall j :: r <= j < |t.keys| ==> t'.keys[j + 1] == t.keys[j] && t'.vals[j + 1] == t.vals[j])
      && (forall j :: r < j < |t.kids| ==> t'.kids[j + 1] == t.kids[j])
  {
    hide LeftHalf;
    hide RightHalf;
    var c := t.kids[r];
    assert Shaped(c, h - 1);
    InsertedAt(t.keys, r, c.keys[MID]);
    InsertedAt(t.vals, r, c.vals[MID]);
    ReplacedAt(t.kids, r, LeftHalf(c), RightHalf(c));
  }

  lemma InsertedAt<T>(s: seq<T>, r: nat, x: T)
    requires r <= |s|
    ensures var s' := s[..r] + [x] + s[r..];
      && |s'| == |s| + 1 && s'[r] == x
      && (forall j :: 0 <= j < r ==> s'[j] == s[j])
      && (forall j :: r <= j < |s| ==> s'[j + 1] == s[j])
  {
  }

  lemma ReplacedAt<T>(s: seq<T>, r: nat, x: T, y: T)
    requires r < |s|
    ensures var s' := s[..r] + [x, y] + s[r + 1..];
      && |s'| == |s| + 1 && s'[r] == x && s'[r + 1] == y
      && (forall j :: 0 <= j < r ==> s'[j] == s[j])
      && (forall j :: r < j < |s| ==> s'[j + 1] == s[j])
  {
  }

  lemma {:induction false} SplitFlat<V>(t: Tree<V>, h: nat, r: nat)
    requires Shaped(t, h) && |t.keys| < MAX_KEYS
    requires !t.leaf && r < |t.kids| && |t.kids[r].keys| == MAX_KEYS
    ensures Flat(SplitChild(t, h, r)) == Flat(t)
  {
    var c, t' := t.kids[r], SplitChild(t, h, r);
    SplitParts(t, h, r);
    HalvesFlat(c);
    SplitFlatParts(t, t', r);
  }

  /** Splitting reorders nothing: the in-order contents only depend on the parts. */
  lemma {:induction false} SplitFlatParts<V>(t: Tree<V>, t': Tree<V>, r: nat)
    requires |t'.keys| == |t.keys| + 1 && r <= |t.keys|
    requires KidFlat(t, r) == KidFlat(t', r) + [EntryAt(t', r)] + KidFlat(t', r + 1)
    requires forall j :: 0 <= j < r ==> KidFlat(t, j) == KidFlat(t', j) && EntryAt(t, j) == EntryAt(t', j)
    requires forall j :: r <= j < |t.keys| ==> EntryAt(t, j) == EntryAt(t', j + 1)
    requires forall j :: r < j <= |t.keys| ==> KidFlat(t, j) == KidFlat(t', j + 1)
    ensures Flat(t') == Flat(t)
  {
    hide Flat;
    hide Left;
    hide Tail;
    hide KidFlat;
    Around(t, r);
    AroundKey(t', r);
    LeftSame(t, t', r);
    TailSame(t, t', r, 1);
    Regroup(Left(t, r), KidFlat(t', r), [EntryAt(t', r)], KidFlat(t', r + 1), Tail(t, r));
  }

  lemma Regroup<T>(p: seq<T>, a: seq<T>, e: seq<T>, b: seq<T>, s: seq<T>)
    ensures p + (a + e + b) + s == (p + a) + e + (b + s)
  {
    assert p + (a + e + b) == (p + a) + e + b;
  }

  lemma {:induction false} HalvesOrdered<V>(c: Tree<V>, h: nat, lo: int, hi: int)
    requires WF(c, h, lo, hi) && |c.keys| == MAX_KEYS
    ensures Ordered(LeftHalf(c), lo, c.keys[MID])
    ensures Ordered(RightHalf(c), c.keys[MID], hi)
  {
    hide Ordered;
    LeftOrdered(c, h, lo, hi);
    RightOrdered(c, h, lo, hi);
  }

  lemma {:induction false} LeftOrdered<V>(c: Tree<V>, h: nat, lo: int, hi: int)
    requires WF(c, h, lo, hi) && |c.keys| == MAX_KEYS
    ensures Ordered(LeftHalf(c), lo, c.keys[MID])
  {
    var l := LeftHalf(c);
    forall i | 0 <= i < |l.kids|
      ensures Ordered(l.kids[i], Lo(l.keys, lo, i), Hi(l.keys, c.keys[MID], i))
    {
      assert Ordered(c.kids[i], Lo(c.keys, lo, i), Hi(c.keys, hi, i));
    }
  }

  lemma {:induction false} RightOrdered<V>(c: Tree<V>, h: nat, lo: int, hi: int)
    requires WF(c, h, lo, hi) && |c.keys| == MAX_KEYS
    ensures Ordered(RightHalf(c), c.keys[MID], hi)
  {
    var r := RightHalf(c);
    forall i | 0 <= i < |r.kids|
      ensures Ordered(r.kids[i], Lo(r.keys, c.keys[MID], i), Hi(r.keys, hi, i))
    {
      assert Ordered(c.kids[MID + 1 + i], Lo(c.keys, lo, MID + 1 + i), Hi(c.keys, hi, MID + 1 + i));
    }
  }

  lemma InsertAscending(ks: seq<nat>, r: nat, m: nat, lo: int, hi: int)
    requires Ascending(ks) && r <= |ks|
    requires forall i :: 0 <= i < |ks| ==> lo < ks[i] < hi
    requires Lo(ks, lo, r) < m < Hi(ks, hi, r)
    ensures var ks' := ks[..r] + [m] + ks[r..];
      && Ascending(ks')
      && (forall i :: 0 <= i < |ks'| ==> lo < ks'[i] < hi)
  {
  }

  lemma {:induction false} SplitOrdered<V>(t: Tree<V>, h: nat, lo: int, hi: int, r: nat)
    requires WF(t, h, lo, hi) && |t.keys| < MAX_KEYS
    requires !t.leaf && r < |t.kids| && |t.kids[r].keys| == MAX_KEYS
    ensures Ordered(SplitChild(t, h, r), lo, hi)
  {
    var c, t' := t.kids[r], SplitChild(t, h, r);
    var clo, chi := Lo(t.keys, lo, r), Hi(t.keys, hi, r);
    assert WF(c, h - 1, clo, chi);
    HalvesOrdered(c, h - 1, clo, chi);
    assert clo < c.keys[MID] < chi;
    SplitOrderedParts(t, c.keys[MID], LeftHalf(c), RightHalf(c), lo, hi, r, t');
  }

  lemma {:induction false} SplitOrderedParts<V>(t: Tree<V>, m: nat, a: Tree<V>, b: Tree<V>, lo: int, hi: int, r: nat, t': Tree<V>)
    requires Ordered(t, lo, hi) && r <= |t.keys| && |t.kids| == |t.keys| + 1
    requires Lo(t.keys, lo, r) < m < Hi(t.keys, hi, r)
    requires Ordered(a, Lo(t.keys, lo, r), m) && Ordered(b, m, Hi(t.keys, hi, r))
    requires t'.keys == t.keys[..r] + [m] + t.keys[r..]
    requires t'.kids == t.kids[..r] + [a, b] + t.kids[r + 1..]
    ensures Ordered(t', lo, hi)
  {
    hide Ordered;
    OrderedParts(t, lo, hi);
    InsertAscending(t.keys, r, m, lo, hi);
    forall i | 0 <= i < |t'.kids|
      ensures Ordered(t'.kids[i], Lo(t'.keys, lo, i), Hi(t'.keys, hi, i))
    {
      SplitKid(t, m, a, b, lo, hi, r, t', i);
    }
    OrderedIntro(t', lo, hi);
  }

  lemma InsertedIndex<T>(s: seq<T>, r: nat, x: T, i: nat)
    requires r <= |s| && i <= |s|
    ensures (s[..r] + [x] + s[r..])[i] == if i < r then s[i] else if i == r then x else s[i - 1]
  {
  }

  lemma ReplacedIndex<T>(s: seq<T>, r: nat, x: T, y: T, i: nat)
    requires r < |s| && i <= |s|
    ensures (s[..r] + [x, y] + s[r + 1..])[i] == if i < r then s[i] else if i == r then x else if i == r + 1 then y else s[i - 1]
  {
  }

  lemma SplitKid<V>(t: Tree<V>, m: nat, a: Tree<V>, b: Tree<V>, lo: int, hi: int, r: nat, t': Tree<V>, i: nat)
    requires Ordered(t, lo, hi) && r <= |t.keys| && |t.kids| == |t.keys| + 1 && i < |t'.kids|
    requires Ordered(a, Lo(t.keys, lo, r), m) && Ordered(b, m, Hi(t.keys, hi, r))
    requires t'.keys == t.keys[..r] + [m] + t.keys[r..]
    requires t'.kids == t.kids[..r] + [a, b] + t.kids[r + 1..]
    ensures i <= |t'.keys| && Ordered(t'.kids[i], Lo(t'.keys, lo, i), Hi(t'.keys, hi, i))
  {
    hide Ordered;
    if i < |t'.keys| { InsertedIndex(t.keys, r, m, i); }
    if i > 0 { InsertedIndex(t.keys, r, m, i - 1); }
    ReplacedIndex(t.kids, r, a, b, i);
    if i < r { OrderedKid(t, lo, hi, i); }
    if i > r + 1 { OrderedKid(t, lo, hi, i - 1); }
  }

  lemma OrderedKid<V>(t: Tree<V>, lo: int, hi: int, i: nat)
    requires Ordered(t, lo, hi) && i < |t.kids| && i <= |t.keys|
    ensures Ordered(t.kids[i], Lo(t.keys, lo, i), Hi(t.keys, hi, i))
  {
  }

  lemma OrderedParts<V>(t: Tree<V>, lo: int, hi: int)
    requires Ordered(t, lo, hi)
    ensures Ascending(t.keys) && forall i :: 0 <= i < |t.keys| ==> lo < t.keys[i] < hi
  {
  }

  lemma OrderedIntro<V>(t: Tree<V>, lo: int, hi: int)
    requires Ascending(t.keys) && forall i :: 0 <= i < |t.keys| ==> lo < t.keys[i] < hi
    requires |t.kids| <= |t.keys| + 1
    requires forall i :: 0 <= i < |t.kids| ==> Ordered(t.kids[i], Lo(t.keys, lo, i), Hi(t.keys, hi, i))
    ensures Ordered(t, lo, hi)
  {
  }

  // ---------- insertion ----------

  /** Overwriting the value of key i is Put on the contents. */
  lemma {:induction false} OverwriteOk<V>(t: Tree<V>, h: nat, lo: int, hi: int, i: nat, v: Option<V>)
    requires WF(t, h, lo, hi) && i < |t.keys|
    ensures var t' := t.(vals := t.vals[i := v]);
      WF(t', h, lo, hi) && Flat(t') == Put(Flat(t), t.keys[i], v)
  {
    OverwriteFlat(t, h, lo, hi, i, v);
    hide Flat;
    hide Put;
  }

  lemma {:induction false} OverwriteFlat<V>(t: Tree<V>, h: nat, lo: int, hi: int, i: nat, v: Option<V>)
    requires WF(t, h, lo, hi) && i < |t.keys|
    ensures Flat(t.(vals := t.vals[i := v])) == Put(Flat(t), t.keys[i], v)
  {
    hide Flat;
    hide Put;
    hide Ordered;
    hide Left;
    hide Tail;
    hide KidFlat;
    hide Sorted;
    var t', k := t.(vals := t.vals[i := v]), t.keys[i];
    var p, s := Left(t, i) + KidFlat(t, i), KidFlat(t, i + 1) + Tail(t, i + 1);
    KidsSame(t, t');
    AroundKey(t, i);
    AroundKey(t', i);
    LeftSame(t, t', i);
    TailSame(t, t', i + 1, 0);
    FlatSorted(t, h, lo, hi);
    SortedAround(p, EntryAt(t, i), s);
    PutMiddle(p, [EntryAt(t, i)], s, k, v);
    PutOne(EntryAt(t, i), v);
  }

  lemma PutOne<V>(e: Entry<V>, v: Option<V>)
    ensures Put([e], e.key, v) == [Entry(e.key, v)]
  {
  }

  lemma KidsSame<V>(t: Tree<V>, t': Tree<V>)
    requires t'.kids == t.kids
    ensures forall j: nat :: KidFlat(t', j) == KidFlat(t, j)
  {
  }

  /** Put in subtree i is Put in the node. */
  lemma {:induction false} ReplaceKidOk<V>(t: Tree<V>, h: nat, lo: int, hi: int, i: nat, k: nat, v: Option<V>, kid: Tree<V>)
    requires WF(t, h, lo, hi) && !t.leaf && i < |t.kids|
    requires Lo(t.keys, lo, i) < k < Hi(t.keys, hi, i)
    requires WF(kid, h - 1, Lo(t.keys, lo, i), Hi(t.keys, hi, i))
    requires Flat(kid) == Put(Flat(t.kids[i]), k, v)
    ensures var t' := t.(kids := t.kids[i := kid]);
      WF(t', h, lo, hi) && Flat(t') == Put(Flat(t), k, v)
  {
    var t' := t.(kids := t.kids[i := kid]);
    KidReplaced(t, h, lo, hi, i, kid);
    Around(t, i);
    Around(t', i);
    LeftSorted(t, h, lo, hi, i);
    TailSorted(t, h, lo, hi, i);
    PutMiddle(Left(t, i), Flat(t.kids[i]), Tail(t, i), k, v);
  }

  lemma {:induction false} NewLeafKeyFlat<V>(t: Tree<V>, t': Tree<V>, r: nat, e: Entry<V>)
    requires t.kids == t'.kids == [] && r <= |t.keys|
    requires |t'.keys| == |t.keys| + 1 && EntryAt(t', r) == e
    requires forall j :: 0 <= j < r ==> EntryAt(t, j) == EntryAt(t', j)
    requires forall j :: r <= j < |t.keys| ==> EntryAt(t, j) == EntryAt(t', j + 1)
    ensures Flat(t) == Left(t, r) + [] + Tail(t, r)
    ensures Flat(t') == Left(t, r) + [e] + Tail(t, r)
  {
    Around(t, r);
    AroundKey(t', r);
    LeftSame(t, t', r);
    TailSame(t, t', r, 1);
  }

  lemma {:induction false} NewLeafKeyOk<V>(t: Tree<V>, lo: int, hi: int, r: nat, k: nat, v: Option<V>)
    requires WF(t, 0, lo, hi) && |t.keys| < MAX_KEYS && r <= |t.keys|
    requires lo < k < hi && Lo(t.keys, lo, r) < k < Hi(t.keys, hi, r)
    ensures var t' := t.(keys := t.keys[..r] + [k] + t.keys[r..], vals := t.vals[..r] + [v] + t.vals[r..]);
      WF(t', 0, lo, hi) && Flat(t') == Put(Flat(t), k, v)
  {
    hide Flat;
    hide Left;
    hide Tail;
    var t' := t.(keys := t.keys[..r] + [k] + t.keys[r..], vals := t.vals[..r] + [v] + t.vals[r..]);
    InsertAscending(t.keys, r, k, lo, hi);
    NewLeafKeyFlat(t, t', r, Entry(k, v));
    assert Put(Flat(t), k, v) == Left(t, r) + [Entry(k, v)] + Tail(t, r) by {
      LeftSorted(t, 0, lo, hi, r);
      TailSorted(t, 0, lo, hi, r);
      PutMiddle(Left(t, r), [], Tail(t, r), k, v);
    }
  }

  lemma {:induction false} InsertLeafOk<V>(t: Tree<V>, lo: int, hi: int, k: nat, v: Option<V>)
    requires WF(t, 0, lo, hi) && |t.keys| < MAX_KEYS && lo < k < hi && !Clobbers(t, 0, k)
    ensures WF(InsertLeaf(t, k, v), 0, lo, hi)
    ensures Flat(InsertLeaf(t, k, v)) == Put(Flat(t), k, v)
  {
    var r := UpTo(t.keys, k);
    if r > 0 && t.keys[r - 1] == k {
      assert Smear(t.keys, r - 1) == t.keys && Smear(t.vals, r - 1) == t.vals;
      OverwriteOk(t, 0, lo, hi, r - 1, v);
    } else {
      NewLeafKeyOk(t, lo, hi, r, k, v);
    }
  }

  lemma {:induction false} InsertAtOk<V>(t: Tree<V>, h: nat, lo: int, hi: int, r: nat, k: nat, v: Option<V>)
    requires WF(t, h, lo, hi) && !t.leaf && r < |t.keys|
    requires |t.kids[r].keys| < MAX_KEYS && |t.kids[r + 1].keys| < MAX_KEYS
    requires Lo(t.keys, lo, r) < k < Hi(t.keys, hi, r + 1) && !ClobbersAt(t, h, r, k)
    ensures WF(InsertAt(t, h, r, k, v), h, lo, hi)
    ensures Flat(InsertAt(t, h, r, k, v)) == Put(Flat(t), k, v)
    decreases h, 1
  {
    if k == t.keys[r] {
      OverwriteOk(t, h, lo, hi, r, v);
    } else {
      DescendOk(t, h, lo, hi, if k > t.keys[r] then r + 1 else r, k, v);
    }
  }

  lemma {:induction false} SplitInsertOk<V>(t: Tree<V>, h: nat, lo: int, hi: int, r: nat, k: nat, v: Option<V>)
    requires WF(t, h, lo, hi) && |t.keys| < MAX_KEYS
    requires !t.leaf && r < |t.kids| && |t.kids[r].keys| == MAX_KEYS
    requires Lo(t.keys, lo, r) < k < Hi(t.keys, hi, r) && !ClobbersAt(SplitChild(t, h, r), h, r, k)
    ensures WF(InsertAt(SplitChild(t, h, r), h, r, k, v), h, lo, hi)
    ensures Flat(InsertAt(SplitChild(t, h, r), h, r, k, v)) == Put(Flat(t), k, v)
    decreases h, 2
  {
    SplitParts(t, h, r);
    SplitOrdered(t, h, lo, hi, r);
    SplitFlat(t, h, r);
    InsertAtOk(SplitChild(t, h, r), h, lo, hi, r, k, v);
  }

  lemma {:induction false} InsertNonfullOk<V>(t: Tree<V>, h: nat, lo: int, hi: int, k: nat, v: Option<V>)
    requires WF(t, h, lo, hi) && |t.keys| < MAX_KEYS && lo < k < hi && !Clobbers(t, h, k)
    ensures WF(InsertNonfull(t, h, k, v), h, lo, hi)
    ensures Flat(InsertNonfull(t, h, k, v)) == Put(Flat(t), k, v)
    decreases h
  {
    var r := UpTo(t.keys, k);
    if t.leaf {
      InsertLeafOk(t, lo, hi, k, v);
    } else if r > 0 && t.keys[r - 1] == k {
      OverwriteOk(t, h, lo, hi, r - 1, v);
    } else if |t.kids[r].keys| == MAX_KEYS {
      SplitInsertOk(t, h, lo, hi, r, k, v);
    } else {
      assert Shaped(t.kids[r], h - 1);
      DescendOk(t, h, lo, hi, r, k, v);
    }
  }

  lemma {:induction false} DescendOk<V>(t: Tree<V>, h: nat, lo: int, hi: int, r: nat, k: nat, v: Option<V>)
    requires WF(t, h, lo, hi) && !t.leaf && r < |t.kids| && |t.kids[r].keys| < MAX_KEYS
    requires Lo(t.keys, lo, r) < k < Hi(t.keys, hi, r)
    requires Shaped(t.kids[r], h - 1) && !Clobbers(t.kids[r], h - 1, k)
    ensures var t' := t.(kids := t.kids[r := InsertNonfull(t.kids[r], h - 1, k, v)]);
      WF(t', h, lo, hi) && Flat(t') == Put(Flat(t), k, v)
    decreases h, 0
  {
    InsertNonfullOk(t.kids[r], h - 1, Lo(t.keys, lo, r), Hi(t.keys, hi, r), k, v);
    ReplaceKidOk(t, h, lo, hi, r, k, v, InsertNonfull(t.kids[r], h - 1, k, v));
  }

  /** A new root above the old one holds the same entries. */
  lemma {:induction false} NewRootOk<V>(t: Tree<V>, h: nat, lo: int, hi: int)
    requires WF(t, h, lo, hi)
    ensures WF(Tree(false, [], [], [t]), h + 1, lo, hi) && Flat(Tree(false, [], [], [t])) == Flat(t)
  {
    Around(Tree(false, [], [], [t]), 0);
  }

  lemma {:induction false} InsertRootOk<V>(t: Tree<V>, h: nat, lo: int, hi: int, k: nat, v: Option<V>)
    requires WF(t, h, lo, hi) && lo < k < hi && !ClobbersRoot(t, h, k)
    ensures WF(InsertRoot(t, h, k, v), HeightAfterInsert(t, h), lo, hi)
    ensures Flat(InsertRoot(t, h, k, v)) == Put(Flat(t), k, v)
  {
    if |t.keys| == MAX_KEYS {
      NewRootOk(t, h, lo, hi);
      SplitInsertOk(Tree(false, [], [], [t]), h + 1, lo, hi, 0, k, v);
    } else {
      InsertNonfullOk(t, h, lo, hi, k, v);
    }
  }

  lemma {:induction false} ClobberRootBreaks<V>(t: Tree<V>, h: nat, lo: int, hi: int, k: nat, v: Option<V>)
    requires Shaped(t, h) && ClobbersRoot(t, h, k)
    ensures !Ordered(InsertRoot(t, h, k, v), lo, hi)
  {
    hide Ordered;
    if |t.keys| == MAX_KEYS {
      ClobberAtBreaks(SplitChild(Tree(false, [], [], [t]), h + 1, 0), h + 1, 0, k, v, lo, hi);
    } else {
      ClobberBreaks(t, h, k, v, lo, hi);
    }
  }

  /** btree_insert keeps the tree well formed exactly when it does not end at a leaf that holds
      the key below two larger ones. Then it updates the map at exactly the given key, whether
      the root splits, a child splits or the key meets a promoted median. */
  lemma {:induction false} InsertIsMapUpdate<V>(t: Tree<V>, h: nat, lo: int, hi: int, k: nat, v: Option<V>)
    requires WF(t, h, lo, hi) && lo < k < hi
    ensures WF(InsertRoot(t, h, k, v), HeightAfterInsert(t, h), lo, hi) <==> !ClobbersRoot(t, h, k)
    ensures !ClobbersRoot(t, h, k) ==>
      Live(Flat(InsertRoot(t, h, k, v))) == Updated(Live(Flat(t)), k, v)
  {
    if ClobbersRoot(t, h, k) {
      ClobberRootBreaks(t, h, lo, hi, k, v);
    } else {
      FlatSorted(t, h, lo, hi);
      PutLive(Flat(t), k, v);
      InsertRootOk(t, h, lo, hi, k, v);
    }
  }

  lemma {:induction false} ClobberAtBreaks<V>(t: Tree<V>, h: nat, r: nat, k: nat, v: Option<V>, lo: int, hi: int)
    requires Shaped(t, h) && !t.leaf && r < |t.keys|
    requires |t.kids[r].keys| < MAX_KEYS && |t.kids[r + 1].keys| < MAX_KEYS
    requires ClobbersAt(t, h, r, k)
    ensures !Ordered(InsertAt(t, h, r, k, v), lo, hi)
    decreases h, 0
  {
    hide Ordered;
    hide InsertNonfull;
    hide Clobbers;
    var i := if k > t.keys[r] then r + 1 else r;
    ClobberBreaks(t.kids[i], h - 1, k, v, Lo(t.keys, lo, i), Hi(t.keys, hi, i));
    var t' := InsertAt(t, h, r, k, v);
    assert t'.kids[i] == InsertNonfull(t.kids[i], h - 1, k, v) && t'.keys == t.keys;
    if Ordered(t', lo, hi) { OrderedKid(t', lo, hi, i); }
  }

  /** The shifted leaf holds one key twice, so no bounds order the tree any more. */
  lemma {:induction false} ClobberBreaks<V>(t: Tree<V>, h: nat, k: nat, v: Option<V>, lo: int, hi: int)
    requires Shaped(t, h) && |t.keys| < MAX_KEYS && Clobbers(t, h, k)
    ensures !Ordered(InsertNonfull(t, h, k, v), lo, hi)
    decreases h
  {
    hide Ordered;
    hide UpTo;
    hide InsertAt;
    hide ClobbersAt;
    hide SplitChild;
    hide InsertLeaf;
    var r := UpTo(t.keys, k);
    var t' := InsertNonfull(t, h, k, v);
    if t.leaf {
      LeafBreaks(t, k, v, lo, hi);
    } else if |t.kids[r].keys| == MAX_KEYS {
      SplitParts(t, h, r);
      ClobberAtBreaks(SplitChild(t, h, r), h, r, k, v, lo, hi);
    } else {
      ClobberBreaks(t.kids[r], h - 1, k, v, Lo(t.keys, lo, r), Hi(t.keys, hi, r));
      assert t'.kids[r] == InsertNonfull(t.kids[r], h - 1, k, v) && t'.keys == t.keys;
      if Ordered(t', lo, hi) { OrderedKid(t', lo, hi, r); }
    }
  }

  lemma LeafBreaks<V>(t: Tree<V>, k: nat, v: Option<V>, lo: int, hi: int)
    requires |t.keys| == |t.vals|
    requires var r := UpTo(t.keys, k); r > 0 && t.keys[r - 1] == k && r + 1 < |t.keys|
    ensures !Ordered(InsertLeaf(t, k, v), lo, hi)
  {
    hide Ordered;
    hide UpTo;
    var r, t' := UpTo(t.keys, k), InsertLeaf(t, k, v);
    assert t'.keys[r] == t'.keys[r + 1];
    if Ordered(t', lo, hi) { OrderedParts(t', lo, hi); }
  }

  // ---------- deletion ----------

  ghost function KeySet<V>(f: seq<Entry<V>>): set<nat>
  {
    set i | 0 <= i < |f| :: f[i].key
  }

  lemma {:induction false} CutLive<V>(p: seq<Entry<V>>, e: Entry<V>, s: seq<Entry<V>>)
    requires Sorted(p + [e] + s)
    ensures Live(p + s) == Live(p + [e] + s) - {e.key}
  {
    SortedAround(p, e, s);
    LiveKeys(p, -1, e.key);
    if s != [] {
      SortedAround(p + [e] + s[..|s| - 1], s[|s| - 1], []) by {
        assert p + [e] + s == p + [e] + s[..|s| - 1] + [s[|s| - 1]] + [];
      }
      assert forall i :: 0 <= i < |s| - 1 ==> (p + [e] + s[..|s| - 1])[|p| + 1 + i] == s[i];
      LiveKeys(s, e.key, s[|s| - 1].key + 1);
    }
    LiveThree(p, [e], s);
    LiveConcat(p, s);
  }

  lemma {:induction false} LeafCutFlat<V>(t: Tree<V>, t': Tree<V>, i: nat)
    requires t.kids == t'.kids == [] && i < |t.keys| && |t.keys| == |t'.keys| + 1
    requires forall j :: 0 <= j < i ==> EntryAt(t, j) == EntryAt(t', j)
    requires forall j :: i <= j < |t'.keys| ==> EntryAt(t', j) == EntryAt(t, j + 1)
    ensures Flat(t) == Left(t, i) + [EntryAt(t, i)] + Tail(t, i + 1)
    ensures Flat(t') == Left(t, i) + Tail(t, i + 1)
  {
    hide Flat;
    hide Left;
    hide Tail;
    hide KidFlat;
    NoKids(t);
    NoKids(t');
    AroundKey(t, i);
    Around(t', i);
    LeftSame(t, t', i);
    TailSame(t', t, i, 1);
    NothingBetween(Left(t, i), Tail(t, i + 1));
  }

  lemma NoKids<V>(t: Tree<V>)
    requires t.kids == []
    ensures forall j: nat :: KidFlat(t, j) == []
  {
  }

  lemma NothingBetween<T>(p: seq<T>, s: seq<T>)
    ensures p + [] == p && [] + s == s
  {
  }

  lemma {:induction false} LeafCutOk<V>(t: Tree<V>, lo: int, hi: int, i: nat)
    requires WF(t, 0, lo, hi) && i < |t.keys|
    ensures var t' := t.(keys := t.keys[..i] + t.keys[i + 1..], vals := t.vals[..i] + t.vals[i + 1..]);
      WF(t', 0, lo, hi) && Live(Flat(t')) == Live(Flat(t)) - {t.keys[i]}
  {
    var t' := t.(keys := t.keys[..i] + t.keys[i + 1..], vals := t.vals[..i] + t.vals[i + 1..]);
    hide Flat;
    hide Live;
    hide Left;
    hide Tail;
    hide Sorted;
    hide Ordered;
    LeafCutOrdered(t, lo, hi, i);
    LeafCutFlat(t, t', i);
    FlatSorted(t, 0, lo, hi);
    CutLive(Left(t, i), EntryAt(t, i), Tail(t, i + 1));
  }

  lemma LeafCutOrdered<V>(t: Tree<V>, lo: int, hi: int, i: nat)
    requires WF(t, 0, lo, hi) && i < |t.keys|
    ensures WF(t.(keys := t.keys[..i] + t.keys[i + 1..], vals := t.vals[..i] + t.vals[i + 1..]), 0, lo, hi)
  {
    var ks := t.keys[..i] + t.keys[i + 1..];
    assert forall j :: 0 <= j < |ks| ==> ks[j] == t.keys[if j < i then j else j + 1];
  }

  lemma {:induction false} NulledOk<V>(t: Tree<V>, h: nat, lo: int, hi: int, i: nat)
    requires WF(t, h, lo, hi) && i < |t.keys|
    ensures var t' := t.(vals := t.vals[i := None]);
      WF(t', h, lo, hi) && Live(Flat(t')) == Live(Flat(t)) - {t.keys[i]}
  {
    OverwriteOk(t, h, lo, hi, i, None);
    FlatSorted(t, h, lo, hi);
    PutLive(Flat(t), t.keys[i], None);
  }

  lemma {:induction false} AbsentFromLeaf<V>(t: Tree<V>, lo: int, hi: int, k: nat)
    requires WF(t, 0, lo, hi)
    requires var i := Below(t.keys, k); i < |t.keys| ==> t.keys[i] != k
    ensures k !in Live(Flat(t))
  {
    LiveAround(t, 0, lo, hi, Below(t.keys, k));
  }

  /** btree_delete keeps the tree well formed and removes exactly the given key from the map,
      whether a leaf drops the key or an internal node nulls its value. */
  lemma {:induction false} DeleteIsMapRemoval<V>(t: Tree<V>, h: nat, lo: int, hi: int, k: nat)
    requires WF(t, h, lo, hi)
    ensures WF(DeleteKey(t, h, k), h, lo, hi)
    ensures Live(Flat(DeleteKey(t, h, k))) == Live(Flat(t)) - {k}
    decreases h
  {
    hide Live;
    hide Flat;
    var i := Below(t.keys, k);
    if i < |t.keys| && t.keys[i] == k {
      if t.leaf {
        LeafCutOk(t, lo, hi, i);
      } else {
        NulledOk(t, h, lo, hi, i);
      }
    } else if t.leaf {
      AbsentFromLeaf(t, lo, hi, k);
    } else {
      DeleteIsMapRemoval(t.kids[i], h - 1, Lo(t.keys, lo, i), Hi(t.keys, hi, i), k);
      DeleteInKid(t, h, lo, hi, i, k, DeleteKey(t.kids[i], h - 1, k));
    }
  }

  lemma {:induction false} KidReplaced<V>(t: Tree<V>, h: nat, lo: int, hi: int, i: nat, kid: Tree<V>)
    requires WF(t, h, lo, hi) && !t.leaf && i < |t.kids|
    requires WF(kid, h - 1, Lo(t.keys, lo, i), Hi(t.keys, hi, i))
    ensures var t' := t.(kids := t.kids[i := kid]);
      WF(t', h, lo, hi) && Left(t', i) == Left(t, i) && Tail(t', i) == Tail(t, i)
  {
    var t' := t.(kids := t.kids[i := kid]);
    LeftSame(t, t', i);
    TailSame(t, t', i, 0);
  }

  lemma EndsEmpty<V>(t: Tree<V>)
    ensures Live(Left(t, 0)) == map[] && Live(Tail(t, |t.keys|)) == map[]
  {
  }

  lemma {:induction false} DeleteInKid<V>(t: Tree<V>, h: nat, lo: int, hi: int, i: nat, k: nat, kid: Tree<V>)
    requires WF(t, h, lo, hi) && !t.leaf && i < |t.kids|
    requires Lo(t.keys, lo, i) < k || i == 0
    requires k < Hi(t.keys, hi, i) || i == |t.keys|
    requires WF(kid, h - 1, Lo(t.keys, lo, i), Hi(t.keys, hi, i))
    requires Live(Flat(kid)) == Live(Flat(t.kids[i])) - {k}
    ensures var t' := t.(kids := t.kids[i := kid]);
      WF(t', h, lo, hi) && Live(Flat(t')) == Live(Flat(t)) - {k}
  {
    hide Flat;
    hide Live;
    hide Left;
    hide Tail;
    hide Ordered;
    EndsEmpty(t);
    var t' := t.(kids := t.kids[i := kid]);
    KidReplaced(t, h, lo, hi, i, kid);
    LiveAround(t, h, lo, hi, i);
    LiveAround(t', h, lo, hi, i);
    assert k !in Live(Tail(t, i)) && k !in Live(Left(t, i));
  }

  /** btree_delete reports success exactly when the key is in the tree, alive or nulled. */
  lemma {:induction false} FoundIsMember<V>(t: Tree<V>, h: nat, lo: int, hi: int, k: nat)
    requires WF(t, h, lo, hi)
    ensures Found(t, h, k) <==> k in KeySet(Flat(t))
    ensures k in Live(Flat(t)) ==> Found(t, h, k)
    decreases h
  {
    var i := Below(t.keys, k);
    Around(t, i);
    LeftSorted(t, h, lo, hi, i);
    TailSorted(t, h, lo, hi, i);
    LiveIsKey(Flat(t));
    if i < |t.keys| && t.keys[i] == k {
      assert Flat(t)[|Left(t, i)| + |KidFlat(t, i)|] == EntryAt(t, i);
    } else {
      if !t.leaf { FoundIsMember(t.kids[i], h - 1, Lo(t.keys, lo, i), Hi(t.keys, hi, i), k); }
      KeySetThree(Left(t, i), KidFlat(t, i), Tail(t, i));
    }
  }

  lemma KeySetThree<V>(a: seq<Entry<V>>, b: seq<Entry<V>>, c: seq<Entry<V>>)
    ensures KeySet(a + b + c) == KeySet(a) + KeySet(b) + KeySet(c)
  {
    var f := a + b + c;
    forall k | k in KeySet(a) + KeySet(b) + KeySet(c) ensures k in KeySet(f) {
      if k in KeySet(a) { var i :| 0 <= i < |a| && a[i].key == k; assert f[i].key == k; }
      else if k in KeySet(b) { var i :| 0 <= i < |b| && b[i].key == k; assert f[|a| + i].key == k; }
      else { var i :| 0 <= i < |c| && c[i].key == k; assert f[|a| + |b| + i].key == k; }
    }
  }

  lemma {:induction false} LiveIsKey<V>(f: seq<Entry<V>>)
    ensures Live(f).Keys <= KeySet(f)
  {
    if f != [] {
      LiveIsKey(f[1..]);
      assert f == [f[0]] + [] + f[1..];
      KeySetThree([f[0]], [], f[1..]);
      assert f[0].key in KeySet([f[0]]) by { assert [f[0]][0].key == f[0].key; }
    }
  }
}
