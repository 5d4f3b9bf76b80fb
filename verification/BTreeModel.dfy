/**
 * The B-tree index of kernel/db/btree.c as a value: what each operation of the
 * index computes, node by node. BTreeIndex shows that the in-place code computes
 * exactly these functions; BTreeTheorems shows what they mean.
 */
module BTreeModel {
  import opened Wrappers

  const MAX_KEYS: nat := 63
  const MID: nat := 31

  /** A value slot is None where the source stores NULL. */
  datatype Tree<V> = Tree(leaf: bool, keys: seq<nat>, vals: seq<Option<V>>, kids: seq<Tree<V>>)

  datatype Entry<V> = Entry(key: nat, val: Option<V>)

  // ---------- shape and order ----------

  /** Every leaf is at depth h and no node has more than 63 keys. */
  ghost predicate Shaped<V>(t: Tree<V>, h: nat)
  {
    && |t.keys| <= MAX_KEYS
    && |t.vals| == |t.keys|
    && (t.leaf <==> h == 0)
    && (t.leaf ==> t.kids == [])
    && (!t.leaf ==> |t.kids| == |t.keys| + 1 && forall i :: 0 <= i < |t.kids| ==> Shaped(t.kids[i], h - 1))
  }

  ghost predicate Ascending(ks: seq<nat>)
  {
    forall i, j :: 0 <= i < j < |ks| ==> ks[i] < ks[j]
  }

  /** The bounds between which subtree i of a node with bounds lo and hi must lie. */
  ghost function Lo(ks: seq<nat>, lo: int, i: nat): int
    requires i <= |ks|
  {
    if i == 0 then lo else ks[i - 1]
  }

  ghost function Hi(ks: seq<nat>, hi: int, i: nat): int
    requires i <= |ks|
  {
    if i == |ks| then hi else ks[i]
  }

  /** Keys are strictly ascending, strictly between lo and hi, and separate the subtrees. */
  ghost predicate Ordered<V>(t: Tree<V>, lo: int, hi: int)
  {
    && Ascending(t.keys)
    && (forall i :: 0 <= i < |t.keys| ==> lo < t.keys[i] < hi)
    && (forall i :: 0 <= i < |t.kids| && i <= |t.keys| ==>
          Ordered(t.kids[i], Lo(t.keys, lo, i), Hi(t.keys, hi, i)))
  }

  ghost predicate WF<V>(t: Tree<V>, h: nat, lo: int, hi: int)
  {
    Shaped(t, h) && Ordered(t, lo, hi)
  }

  /** An internal node has at least min keys, and every internal node below it at least 31.
      Leaves may be emptied by deletion. */
  ghost predicate Filled<V>(t: Tree<V>, min: nat)
  {
    t.leaf || (|t.keys| >= min && forall i :: 0 <= i < |t.kids| ==> Filled(t.kids[i], MID))
  }

  // ---------- in-order contents ----------

  ghost function EntryAt<V>(t: Tree<V>, i: nat): Entry<V>
    requires i < |t.keys|
  {
    Entry(t.keys[i], if i < |t.vals| then t.vals[i] else None)
  }

  ghost function KidFlat<V>(t: Tree<V>, i: nat): seq<Entry<V>>
    decreases t, 0
  {
    if i < |t.kids| then Flat(t.kids[i]) else []
  }

  /** Subtree i, key i, subtree i + 1, ..., the last subtree. */
  ghost function Rest<V>(t: Tree<V>, i: nat): seq<Entry<V>>
    requires i <= |t.keys|
    decreases t, 1, |t.keys| - i
  {
    if i == |t.keys| then KidFlat(t, i) else KidFlat(t, i) + [EntryAt(t, i)] + Rest(t, i + 1)
  }

  /** The entries of a tree in key order, tombstones included. */
  ghost function Flat<V>(t: Tree<V>): seq<Entry<V>>
    decreases t, 2
  {
    Rest(t, 0)
  }

  /** Subtree 0, key 0, ..., subtree i - 1, key i - 1: what a scan has passed before subtree i. */
  ghost function Left<V>(t: Tree<V>, i: nat): seq<Entry<V>>
    requires i <= |t.keys|
  {
    if i == 0 then [] else Left(t, i - 1) + KidFlat(t, i - 1) + [EntryAt(t, i - 1)]
  }

  /** The pairs a scan reports: entries whose value is not NULL. */
  ghost function LiveSeq<V>(f: seq<Entry<V>>): seq<(nat, V)>
  {
    if f == [] then []
    else (if f[0].val.Some? then [(f[0].key, f[0].val.value)] else []) + LiveSeq(f[1..])
  }

  /** The finite map of non-null values that a list of entries stands for. */
  ghost function Live<V>(f: seq<Entry<V>>): map<nat, V>
  {
    if f == [] then map[]
    else if f[0].val.Some? then Live(f[1..])[f[0].key := f[0].val.value]
    else Live(f[1..])
  }

  // ---------- the operations ----------

  /** How far the right-to-left scan of an insertion gets: the number of keys <= k. */
  ghost function UpTo(ks: seq<nat>, k: nat): (r: nat)
    ensures r <= |ks|
    ensures r > 0 ==> ks[r - 1] <= k
    ensures forall j :: r <= j < |ks| ==> k < ks[j]
  {
    if ks == [] then 0
    else if k < ks[|ks| - 1] then UpTo(ks[..|ks| - 1], k)
    else |ks|
  }

  /** How far the left-to-right scan of a search gets: the first key >= k. */
  ghost function Below(ks: seq<nat>, k: nat): (r: nat)
    ensures r <= |ks|
    ensures r < |ks| ==> k <= ks[r]
    ensures forall j :: 0 <= j < r ==> ks[j] < k
  {
    if ks == [] || k <= ks[0] then 0 else 1 + Below(ks[1..], k)
  }

  lemma BelowIs(ks: seq<nat>, k: nat, i: nat)
    requires i <= |ks| && (i < |ks| ==> k <= ks[i]) && forall j :: 0 <= j < i ==> ks[j] < k
    ensures Below(ks, k) == i
  {
  }

  lemma UpToIs(ks: seq<nat>, k: nat, r: nat)
    requires r <= |ks| && (r > 0 ==> ks[r - 1] <= k) && forall j :: r <= j < |ks| ==> k < ks[j]
    ensures UpTo(ks, k) == r
  {
  }

  ghost function Search<V>(t: Tree<V>, h: nat, k: nat): Option<V>
    requires Shaped(t, h)
  {
    var i := Below(t.keys, k);
    if i < |t.keys| && t.keys[i] == k then t.vals[i]
    else if t.leaf then None
    else Search(t.kids[i], h - 1, k)
  }

  ghost function LeftHalf<V>(c: Tree<V>): (l: Tree<V>)
    requires |c.keys| == |c.vals| == MAX_KEYS && (!c.leaf ==> |c.kids| == MAX_KEYS + 1)
    ensures |l.keys| == MID
  {
    Tree(c.leaf, c.keys[..MID], c.vals[..MID], if c.leaf then [] else c.kids[..MID + 1])
  }

  ghost function RightHalf<V>(c: Tree<V>): (r: Tree<V>)
    requires |c.keys| == |c.vals| == MAX_KEYS && (!c.leaf ==> |c.kids| == MAX_KEYS + 1)
    ensures |r.keys| == MID
  {
    Tree(c.leaf, c.keys[MID + 1..], c.vals[MID + 1..], if c.leaf then [] else c.kids[MID + 1..])
  }

  /** The full child i gives its median to its parent and its upper half to a new sibling. */
  ghost function SplitChild<V>(t: Tree<V>, h: nat, i: nat): (t': Tree<V>)
    requires Shaped(t, h) && |t.keys| < MAX_KEYS
    requires !t.leaf && i < |t.kids| && |t.kids[i].keys| == MAX_KEYS
    ensures Shaped(t', h)
  {
    var c := t.kids[i];
    assert Shaped(c, h - 1);
    assert Shaped(LeftHalf(c), h - 1) && Shaped(RightHalf(c), h - 1);
    Tree(false,
         t.keys[..i] + [c.keys[MID]] + t.keys[i..],
         t.vals[..i] + [c.vals[MID]] + t.vals[i..],
         t.kids[..i] + [LeftHalf(c), RightHalf(c)] + t.kids[i + 1..])
  }

  /** What the insertion loop leaves of an array when it moved everything after p + 1 up by
      one place and the length then stays the same. */
  ghost function Smear<T>(s: seq<T>, p: nat): (s': seq<T>)
    requires p < |s|
    ensures |s'| == |s|
  {
    seq(|s|, j requires 0 <= j < |s| => if j < p + 2 then s[j] else s[j - 1])
  }

  /** The scan of a leaf shifts larger keys right before it looks for a duplicate, and a
      duplicate leaves them shifted. */
  ghost function InsertLeaf<V>(t: Tree<V>, k: nat, v: Option<V>): Tree<V>
    requires |t.keys| == |t.vals|
  {
    var r := UpTo(t.keys, k);
    if r > 0 && t.keys[r - 1] == k then
      t.(keys := Smear(t.keys, r - 1), vals := Smear(t.vals, r - 1)[r - 1 := v])
    else t.(keys := t.keys[..r] + [k] + t.keys[r..], vals := t.vals[..r] + [v] + t.vals[r..])
  }

  ghost function InsertNonfull<V>(t: Tree<V>, h: nat, k: nat, v: Option<V>): (t': Tree<V>)
    requires Shaped(t, h) && |t.keys| < MAX_KEYS
    ensures Shaped(t', h)
    decreases h
  {
    var r := UpTo(t.keys, k);
    if t.leaf then InsertLeaf(t, k, v)
    else if r > 0 && t.keys[r - 1] == k then t.(vals := t.vals[r - 1 := v])
    else if |t.kids[r].keys| == MAX_KEYS then
      InsertAt(SplitChild(t, h, r), h, r, k, v)
    else t.(kids := t.kids[r := InsertNonfull(t.kids[r], h - 1, k, v)])
  }

  /** The step after a split at r: update the promoted median, or descend left or right of it. */
  ghost function InsertAt<V>(t: Tree<V>, h: nat, r: nat, k: nat, v: Option<V>): (t': Tree<V>)
    requires Shaped(t, h) && !t.leaf && r < |t.keys|
    requires |t.kids[r].keys| < MAX_KEYS && |t.kids[r + 1].keys| < MAX_KEYS
    ensures Shaped(t', h)
    decreases h, 0
  {
    if k == t.keys[r] then t.(vals := t.vals[r := v])
    else
      var i := if k > t.keys[r] then r + 1 else r;
      t.(kids := t.kids[i := InsertNonfull(t.kids[i], h - 1, k, v)])
  }

  /** The insertion ends at a leaf that already holds k and at least two larger keys. */
  ghost predicate Clobbers<V>(t: Tree<V>, h: nat, k: nat)
    requires Shaped(t, h) && |t.keys| < MAX_KEYS
    decreases h
  {
    var r := UpTo(t.keys, k);
    if r > 0 && t.keys[r - 1] == k then t.leaf && r + 1 < |t.keys|
    else if t.leaf then false
    else if |t.kids[r].keys| == MAX_KEYS then ClobbersAt(SplitChild(t, h, r), h, r, k)
    else Clobbers(t.kids[r], h - 1, k)
  }

  ghost predicate ClobbersAt<V>(t: Tree<V>, h: nat, r: nat, k: nat)
    requires Shaped(t, h) && !t.leaf && r < |t.keys|
    requires |t.kids[r].keys| < MAX_KEYS && |t.kids[r + 1].keys| < MAX_KEYS
    decreases h, 0
  {
    k != t.keys[r] && Clobbers(t.kids[if k > t.keys[r] then r + 1 else r], h - 1, k)
  }

  ghost predicate ClobbersRoot<V>(t: Tree<V>, h: nat, k: nat)
    requires Shaped(t, h)
  {
    if |t.keys| == MAX_KEYS then ClobbersAt(SplitChild(Tree(false, [], [], [t]), h + 1, 0), h + 1, 0, k)
    else Clobbers(t, h, k)
  }

  /** btree_insert on the root: a full root first becomes the only child of a new root. */
  ghost function InsertRoot<V>(t: Tree<V>, h: nat, k: nat, v: Option<V>): (t': Tree<V>)
    requires Shaped(t, h)
    ensures Shaped(t', HeightAfterInsert(t, h))
  {
    if |t.keys| == MAX_KEYS then
      InsertAt(SplitChild(Tree(false, [], [], [t]), h + 1, 0), h + 1, 0, k, v)
    else InsertNonfull(t, h, k, v)
  }

  ghost function HeightAfterInsert<V>(t: Tree<V>, h: nat): nat
  {
    if |t.keys| == MAX_KEYS then h + 1 else h
  }

  /** btree_delete finds the key somewhere, alive or already nulled. */
  ghost predicate Found<V>(t: Tree<V>, h: nat, k: nat)
    requires Shaped(t, h)
  {
    var i := Below(t.keys, k);
    (i < |t.keys| && t.keys[i] == k) || (!t.leaf && Found(t.kids[i], h - 1, k))
  }

  /** A leaf loses the key; an internal node keeps it with a NULL value. */
  ghost function DeleteKey<V>(t: Tree<V>, h: nat, k: nat): (t': Tree<V>)
    requires Shaped(t, h)
    ensures Shaped(t', h)
  {
    var i := Below(t.keys, k);
    if i < |t.keys| && t.keys[i] == k then
      if t.leaf then t.(keys := t.keys[..i] + t.keys[i + 1..], vals := t.vals[..i] + t.vals[i + 1..])
      else t.(vals := t.vals[i := None])
    else if t.leaf then t
    else t.(kids := t.kids[i := DeleteKey(t.kids[i], h - 1, k)])
  }
}
