/**
 * The in-place B-tree of kernel/db/btree.c: nodes with fixed-size slot arrays that
 * insertion, splitting and deletion shift in place. Each node's ghost view is the value
 * tree it stands for, and each method is proved to turn the view into what BTreeModel
 * computes. The arrays are inline in the source's node struct, so here they are sequence
 * fields of fixed length: they have no identity apart from their node.
 */
module BTreeIndex {
  import opened Wrappers
  import opened BTreeModel
  import opened BTreeTheorems
  import opened BTreeRuns

  // ---------- loops over slot arrays ----------

  /** s[lo..hi] moves up by one place, from the top down. */
  method ShiftUp<T>(s: seq<T>, lo: nat, hi: nat) returns (r: seq<T>)
    requires lo <= hi < |s|
    ensures r == s[..lo] + [s[lo]] + s[lo..hi] + s[hi + 1..]
  {
    r := s;
    var j := hi;
    while j > lo
      invariant lo <= j <= hi
      invariant r == s[..j] + [s[j]] + s[j..hi] + s[hi + 1..]
    {
      r := r[j := r[j - 1]];
      j := j - 1;
    }
  }

  /** Everything from slot i to slot n - 1 moves up by one place and x is put into slot i. */
  method OpenSlot<T>(s: seq<T>, i: nat, n: nat, x: T) returns (r: seq<T>)
    requires i <= n < |s|
    ensures |r| == |s| && r[..n + 1] == s[..n][..i] + [x] + s[..n][i..] && r[n + 1..] == s[n + 1..]
  {
    r := ShiftUp(s, i, n);
    r := r[i := x];
    assert r == s[..i] + [x] + s[i..n] + s[n + 1..];
    assert s[..n][i..] == s[i..n] && s[..n][..i] == s[..i];
  }

  lemma OpenedAfter<T>(s: seq<T>, i: nat, n: nat, x: T)
    requires i < n <= |s|
    ensures s[..n][..i + 1] + [x] + s[..n][i + 1..] == s[..n][..i] + [s[i], x] + s[..n][i + 1..]
  {
  }

  /** s[lo + 1..hi] moves down by one place, from the bottom up. */
  method ShiftDown<T>(s: seq<T>, lo: nat, hi: nat) returns (r: seq<T>)
    requires lo < hi <= |s|
    ensures r == s[..lo] + s[lo + 1..hi] + [s[hi - 1]] + s[hi..]
  {
    r := s;
    var j := lo;
    while j < hi - 1
      invariant lo <= j <= hi - 1
      invariant r == s[..lo] + s[lo + 1..j + 1] + [s[j]] + s[j + 1..]
    {
      r := r[j := r[j + 1]];
      j := j + 1;
    }
  }

  /** The first n slots of d are overwritten by those of s from off on. */
  method CopySlots<T>(d: seq<T>, s: seq<T>, off: nat, n: nat) returns (r: seq<T>)
    requires n <= |d| && off + n <= |s|
    ensures r == s[off..off + n] + d[n..]
  {
    r := d;
    var j := 0;
    while j < n
      invariant j <= n
      invariant r == s[off..off + j] + d[j..]
    {
      r := r[j := s[off + j]];
      j := j + 1;
    }
  }

  /** A slot array in which the slots after i, up to n, moved up by one place. */
  function Moved<T>(s: seq<T>, n: nat, i: int): (r: seq<T>)
    requires -1 <= i < n < |s|
    ensures |r| == |s|
  {
    seq(|s|, j requires 0 <= j < |s| => if i + 1 < j <= n then s[j - 1] else s[j])
  }

  /** The scan of a leaf for k: larger keys and their values move up by one place on the way. */
  method ShiftLarger<T>(ks: seq<nat>, vs: seq<T>, n: nat, k: nat) returns (ks': seq<nat>, vs': seq<T>, i: int)
    requires n < |ks| == |vs|
    ensures -1 <= i < n
    ensures i >= 0 ==> ks[i] <= k
    ensures forall j :: i < j < n ==> k < ks[j]
    ensures ks' == Moved(ks, n, i) && vs' == Moved(vs, n, i)
  {
    ks', vs', i := ks, vs, n - 1;
    while i >= 0 && k < ks'[i]
      invariant -1 <= i < n
      invariant forall j :: i < j < n ==> k < ks[j]
      invariant ks' == Moved(ks, n, i)
      invariant vs' == Moved(vs, n, i)
    {
      ks', vs' := ks'[i + 1 := ks'[i]], vs'[i + 1 := vs'[i]];
      i := i - 1;
    }
  }

  lemma MovedDuplicate<T>(s: seq<T>, n: nat, i: nat)
    requires i < n < |s|
    ensures Moved(s, n, i)[..n] == Smear(s[..n], i)
  {
  }

  lemma MovedInsert<T>(s: seq<T>, n: nat, i: int, x: T)
    requires -1 <= i < n < |s|
    ensures Moved(s, n, i)[i + 1 := x][..n + 1] == s[..n][..i + 1] + [x] + s[..n][i + 1..]
  {
  }

  /** The leaf case of btree_insert_nonfull on the leaf's slots. */
  method InsertInSlots<V>(ghost t: Tree<V>, ks: seq<nat>, vs: seq<Option<V>>, n: nat, k: nat, v: Option<V>)
      returns (ks': seq<nat>, vs': seq<Option<V>>, n': nat)
    requires n < |ks| == |vs| && t.keys == ks[..n] && t.vals == vs[..n]
    ensures |ks'| == |vs'| == |ks| && n' <= |ks|
    ensures ks'[..n'] == InsertLeaf(t, k, v).keys && vs'[..n'] == InsertLeaf(t, k, v).vals
  {
    var i;
    ks', vs', i := ShiftLarger(ks, vs, n, k);
    UpToIs(t.keys, k, i + 1);
    if i >= 0 && ks'[i] == k {
      MovedDuplicate(ks, n, i);
      MovedDuplicate(vs, n, i);
      vs', n' := vs'[i := v], n;
    } else {
      MovedInsert(ks, n, i, k);
      MovedInsert(vs, n, i, v);
      ks', vs', n' := ks'[i + 1 := k], vs'[i + 1 := v], n + 1;
    }
  }

  // ---------- nodes ----------

  class Node<V> {
    var keys: seq<nat>
    var vals: seq<Option<V>>
    var kids: seq<Node?<V>>
    var numKeys: nat
    const isLeaf: bool

    ghost var repr: set<Node<V>>
    ghost var view: Tree<V>

    /** The slots in use hold the view. Slots past numKeys of an internal node are zero or
        not below the node's upper bound, so reading one never meets a key being inserted. */
    ghost predicate Local(hi: int)
      reads this
    {
      && |keys| == MAX_KEYS && |vals| == MAX_KEYS && |kids| == MAX_KEYS + 1 && numKeys <= MAX_KEYS
      && view.leaf == isLeaf
      && view.keys == keys[..numKeys]
      && view.vals == vals[..numKeys]
      && |view.kids| == (if isLeaf then 0 else numKeys + 1)
      && (!isLeaf ==> forall j :: numKeys <= j < MAX_KEYS ==> keys[j] == 0 || keys[j] >= hi)
    }

    /** The node and its subtrees, each with its own footprint, stand for the view. */
    ghost predicate Valid(hi: int)
      reads this, repr
      decreases repr, 1
    {
      && this in repr
      && Local(hi)
      && (!isLeaf ==> Forest(kids[..numKeys + 1], view.kids, view.keys + [hi], repr - {this}))
    }

    /** btree_create_node: a zeroed node. */
    constructor (leaf: bool)
      ensures isLeaf == leaf && numKeys == 0
      ensures keys == seq(MAX_KEYS, _ => 0) && vals == seq(MAX_KEYS, _ => None) && kids == seq(MAX_KEYS + 1, _ => null)
      ensures view == Tree(leaf, [], [], []) && repr == {this}
    {
      isLeaf := leaf;
      numKeys := 0;
      keys := seq(MAX_KEYS, _ => 0);
      vals := seq(MAX_KEYS, _ => None);
      kids := seq(MAX_KEYS + 1, _ => null);
      view := Tree(leaf, [], [], []);
      repr := {this};
    }

    method Search(k: nat, ghost h: nat, ghost hi: int) returns (r: Option<V>)
      requires Valid(hi) && Shaped(view, h)
      ensures r == BTreeModel.Search(view, h, k)
      decreases h
    {
      var i := FirstNotBelow(k, hi);
      if i < numKeys && k == keys[i] {
        return vals[i];
      }
      if isLeaf {
        return None;
      }
      assert KidOk(kids[..numKeys + 1], view.kids, view.keys + [hi], repr - {this}, i);
      r := kids[i].Search(k, h - 1, (view.keys + [hi])[i]);
    }

    /** btree_split_child for the full child at index. */
    method SplitChild(index: nat, ghost h: nat, ghost hi: int)
      requires Valid(hi) && Shaped(view, h) && !isLeaf && numKeys < MAX_KEYS
      requires index <= numKeys && |view.kids[index].keys| == MAX_KEYS && Ascending(view.kids[index].keys)
      modifies repr
      ensures Valid(hi) && view == BTreeModel.SplitChild(old(view), h, index)
      ensures numKeys == old(numKeys) + 1
      ensures old(repr) <= repr && fresh(repr - old(repr))
    {
      hide Forest;
      hide BTreeModel.LeftHalf;
      hide BTreeModel.RightHalf;
      ghost var ks, vs, bs, w := kids[..numKeys + 1], view.kids, view.keys + [hi], repr - {this};
      ghost var wa, wc, wb := Parted(ks, vs, bs, w, index);
      var child := kids[index];
      assert [child] == ks[index..index + 1];
      var newNode := child.TakeUpperHalf(bs[index]);
      AdoptHalf(index, child, newNode, h, hi, wa, wb);
    }

    /** The parent takes the median of the split child and the new node beside it. */
    method AdoptHalf(index: nat, child: Node<V>, newNode: Node<V>, ghost h: nat, ghost hi: int, ghost wa: set<Node<V>>, ghost wb: set<Node<V>>)
      requires this in repr && Local(hi) && Shaped(view, h) && !isLeaf && index <= numKeys < MAX_KEYS && kids[index] == child
      requires h > 0 && Shaped(view.kids[index], h - 1)
      requires |view.kids[index].keys| == MAX_KEYS && |child.keys| == |child.vals| == MAX_KEYS
      requires child.view == LeftHalf(view.kids[index]) && newNode.view == RightHalf(view.kids[index])
      requires child.keys[MID] == view.kids[index].keys[MID] && child.vals[MID] == view.kids[index].vals[MID]
      requires child.Valid(view.kids[index].keys[MID]) && newNode.Valid((view.keys + [hi])[index])
      requires Forest(kids[..numKeys + 1][..index], view.kids[..index], (view.keys + [hi])[..index], wa)
      requires Forest(kids[..numKeys + 1][index + 1..], view.kids[index + 1..], (view.keys + [hi])[index + 1..], wb)
      requires wa !! child.repr !! newNode.repr !! wb && wa + child.repr + newNode.repr + wb <= repr + {newNode} - {this}
      requires newNode != this && child != this
      modifies this
      ensures Valid(hi) && view == BTreeModel.SplitChild(old(view), h, index)
      ensures numKeys == old(numKeys) + 1 && repr == old(repr) + {newNode}
    {
      hide Forest;
      hide BTreeModel.LeftHalf;
      hide BTreeModel.RightHalf;
      ghost var ks, vs, bs := kids[..numKeys + 1], view.kids, view.keys + [hi];
      ghost var m := view.kids[index].keys[MID];
      InsertSlots(index, child.keys[MID], child.vals[MID], newNode);
      view := BTreeModel.SplitChild(view, h, index);
      repr := repr + {newNode};
      Reassemble(ks[..index], vs[..index], bs[..index], wa, child, m, newNode, bs[index],
                 ks[index + 1..], vs[index + 1..], bs[index + 1..], wb, repr - {this});
      BoundsSplit(old(view).keys, m, index, hi);
      SlotsAbove(old(keys), keys, numKeys, hi);
    }

    /** The second half of btree_split_child: the parent opens slot index for the median and
        the child slot after it for the new node. */
    method InsertSlots(index: nat, k: nat, v: Option<V>, newNode: Node<V>)
      requires |keys| == MAX_KEYS && |vals| == MAX_KEYS && |kids| == MAX_KEYS + 1
      requires index <= numKeys < MAX_KEYS
      modifies this`keys, this`vals, this`kids, this`numKeys
      ensures numKeys == old(numKeys) + 1
      ensures |keys| == MAX_KEYS && |vals| == MAX_KEYS && |kids| == MAX_KEYS + 1
      ensures keys[..numKeys] == old(keys[..numKeys])[..index] + [k] + old(keys[..numKeys])[index..]
      ensures vals[..numKeys] == old(vals[..numKeys])[..index] + [v] + old(vals[..numKeys])[index..]
      ensures keys[numKeys..] == old(keys)[numKeys..]
      ensures kids[..numKeys + 1] ==
        old(kids[..numKeys + 1])[..index] + [old(kids)[index], newNode] + old(kids[..numKeys + 1])[index + 1..]
    {
      ghost var kids0 := kids;
      keys := OpenSlot(keys, index, numKeys, k);
      vals := OpenSlot(vals, index, numKeys, v);
      kids := OpenSlot(kids, index + 1, numKeys + 1, newNode);
      OpenedAfter(kids0, index, numKeys + 1, newNode);
      numKeys := numKeys + 1;
    }

    /** The leaf case of btree_insert_nonfull. */
    method InsertLeaf(k: nat, v: Option<V>, ghost hi: int)
      requires Valid(hi) && isLeaf && numKeys < MAX_KEYS
      modifies this`keys, this`vals, this`numKeys, this`view
      ensures Valid(hi) && view == BTreeModel.InsertLeaf(old(view), k, v)
    {
      keys, vals, numKeys := InsertInSlots(view, keys, vals, numKeys, k, v);
      view := BTreeModel.InsertLeaf(view, k, v);
    }

    /** The scan of an internal node for k. */
    method FindSlot(k: nat, ghost hi: int) returns (i: int)
      requires Valid(hi)
      ensures -1 <= i < numKeys && i + 1 == UpTo(view.keys, k)
    {
      i := numKeys - 1;
      while i >= 0 && k < keys[i]
        invariant -1 <= i < numKeys
        invariant forall j :: i < j < numKeys ==> k < keys[j]
      {
        i := i - 1;
      }
      UpToIs(view.keys, k, i + 1);
    }

    /** btree_insert_nonfull. */
    method InsertNonfull(k: nat, v: Option<V>, ghost h: nat, ghost lo: int, ghost hi: int)
      requires Valid(hi) && WF(view, h, lo, hi) && numKeys < MAX_KEYS && lo < k < hi
      modifies repr
      ensures Valid(hi) && view == BTreeModel.InsertNonfull(old(view), h, k, v)
      ensures old(repr) <= repr && fresh(repr - old(repr))
      decreases h, 5
    {
      if isLeaf {
        InsertLeaf(k, v, hi);
      } else {
        InsertInternal(k, v, h, lo, hi);
      }
    }

    /** The internal-node case of btree_insert_nonfull. */
    method InsertInternal(k: nat, v: Option<V>, ghost h: nat, ghost lo: int, ghost hi: int)
      requires Valid(hi) && WF(view, h, lo, hi) && !isLeaf && numKeys < MAX_KEYS && lo < k < hi
      modifies repr
      ensures Valid(hi) && view == BTreeModel.InsertNonfull(old(view), h, k, v)
      ensures old(repr) <= repr && fresh(repr - old(repr))
      decreases h, 4
    {
      hide BTreeModel.SplitChild;
      hide BTreeModel.InsertAt;
      hide BTreeModel.InsertLeaf;
      hide Ordered;
      hide Forest;
      hide UpTo;
      var i := FindSlot(k, hi);
      if i >= 0 && keys[i] == k {
        SetValue(i, v, hi);
      } else {
        assert i >= 0 ==> view.keys[i] == keys[i];
        InsertBelow(i + 1, k, v, h, lo, hi);
      }
    }

    /** The key belongs below child r, which is split first if it is full. */
    method InsertBelow(r: nat, k: nat, v: Option<V>, ghost h: nat, ghost lo: int, ghost hi: int)
      requires Valid(hi) && WF(view, h, lo, hi) && !isLeaf && r <= numKeys < MAX_KEYS
      requires Lo(view.keys, lo, r) < k < Hi(view.keys, hi, r) && r == UpTo(view.keys, k)
      modifies repr
      ensures Valid(hi) && view == BTreeModel.InsertNonfull(old(view), h, k, v)
      ensures old(repr) <= repr && fresh(repr - old(repr))
      decreases h, 3
    {
      hide BTreeModel.SplitChild;
      hide BTreeModel.InsertAt;
      hide BTreeModel.InsertLeaf;
      hide Ordered;
      hide Forest;
      KidWF(view, h, lo, hi, r);
      var full := KidIsFull(r, hi);
      if full {
        SplitAndInsert(r, k, v, h, lo, hi);
      } else {
        Descend(r, k, v, h, Lo(view.keys, lo, r), hi);
      }
    }

    method SplitAndInsert(r: nat, k: nat, v: Option<V>, ghost h: nat, ghost lo: int, ghost hi: int)
      requires Valid(hi) && WF(view, h, lo, hi) && !isLeaf && r <= numKeys < MAX_KEYS
      requires |view.kids[r].keys| == MAX_KEYS && Lo(view.keys, lo, r) < k < Hi(view.keys, hi, r)
      modifies repr
      ensures Valid(hi)
      ensures view == BTreeModel.InsertAt(BTreeModel.SplitChild(old(view), h, r), h, r, k, v)
      ensures old(repr) <= repr && fresh(repr - old(repr))
      decreases h, 2
    {
      hide BTreeModel.SplitChild;
      SplitParts(view, h, r);
      SplitOrdered(view, h, lo, hi, r);
      assert Ordered(view.kids[r], Lo(view.keys, lo, r), Hi(view.keys, hi, r));
      SplitChild(r, h, hi);
      InsertAt(r, k, v, h, lo, hi);
    }

    /** btree_insert_nonfull after a split at r. The source compares the key with slot r + 1 too,
        even where that is the slot past the last key; Valid makes the comparison false there.
        The slot past the whole array, at 63, is not read here. */
    method InsertAt(r: nat, k: nat, v: Option<V>, ghost h: nat, ghost lo: int, ghost hi: int)
      requires Valid(hi) && WF(view, h, lo, hi) && !isLeaf && r < numKeys
      requires |view.kids[r].keys| < MAX_KEYS && |view.kids[r + 1].keys| < MAX_KEYS
      requires Lo(view.keys, lo, r) < k < Hi(view.keys, hi, r + 1)
      modifies repr
      ensures Valid(hi) && view == BTreeModel.InsertAt(old(view), h, r, k, v)
      ensures old(repr) <= repr && fresh(repr - old(repr))
      decreases h, 1
    {
      var i := r;
      if k > keys[i] {
        i := i + 1;
      }
      if i < MAX_KEYS && k == keys[i] {
        SetValue(i, v, hi);
        return;
      }
      KidWF(view, h, lo, hi, i);
      Descend(i, k, v, h, Lo(view.keys, lo, i), hi);
    }

    method KidIsFull(i: nat, ghost hi: int) returns (full: bool)
      requires Valid(hi) && !isLeaf && i <= numKeys
      ensures full <==> |view.kids[i].keys| == MAX_KEYS
    {
      assert KidOk(kids[..numKeys + 1], view.kids, view.keys + [hi], repr - {this}, i);
      assert kids[i].Valid((view.keys + [hi])[i]);
      full := kids[i].numKeys == MAX_KEYS;
    }

    method SetValue(i: nat, v: Option<V>, ghost hi: int)
      requires Valid(hi) && i < numKeys
      modifies this`vals, this`view
      ensures Valid(hi) && view == old(view).(vals := old(view).vals[i := v])
    {
      vals := vals[i := v];
      view := view.(vals := view.vals[i := v]);
    }

    /** The recursive call of btree_insert_nonfull on child i. */
    method Descend(i: nat, k: nat, v: Option<V>, ghost h: nat, ghost clo: int, ghost hi: int)
      requires Valid(hi) && !isLeaf && i <= numKeys && h > 0
      requires WF(view.kids[i], h - 1, clo, Hi(view.keys, hi, i))
      requires |view.kids[i].keys| < MAX_KEYS && clo < k < Hi(view.keys, hi, i)
      modifies repr
      ensures Valid(hi)
      ensures view == old(view).(kids := old(view).kids[i := BTreeModel.InsertNonfull(old(view).kids[i], h - 1, k, v)])
      ensures old(repr) <= repr && fresh(repr - old(repr))
      decreases h, 0
    {
      hide BTreeModel.InsertNonfull;
      hide DeleteKey;
      hide Forest;
      hide Ordered;
      ghost var ks, vs, bs, w := kids[..numKeys + 1], view.kids, view.keys + [hi], repr - {this};
      ghost var wa, wc, wb := Parted(ks, vs, bs, w, i);
      var child := kids[i];
      child.InsertNonfull(k, v, h - 1, clo, bs[i]);
      view := view.(kids := view.kids[i := child.view]);
      repr := repr + child.repr;
      Rejoin(ks, vs, bs, i, wa, child, wb, repr - {this});
    }

    /** The search of btree_delete below this node, and what it does where it meets the key. */
    method Delete(k: nat, ghost h: nat, ghost hi: int) returns (found: bool)
      requires Valid(hi) && Shaped(view, h)
      modifies repr
      ensures Valid(hi) && view == DeleteKey(old(view), h, k) && repr == old(repr)
      ensures found == Found(old(view), h, k)
      decreases h
    {
      var i := FirstNotBelow(k, hi);
      if i < numKeys && k == keys[i] {
        DeleteAt(i, hi);
        found := true;
      } else if isLeaf {
        found := false;
      } else {
        found := DeleteBelow(i, k, h, hi);
      }
    }

    method DeleteBelow(i: nat, k: nat, ghost h: nat, ghost hi: int) returns (found: bool)
      requires Valid(hi) && !isLeaf && i <= numKeys && h > 0 && Shaped(view.kids[i], h - 1)
      modifies repr
      ensures Valid(hi) && repr == old(repr)
      ensures view == old(view).(kids := old(view).kids[i := DeleteKey(old(view).kids[i], h - 1, k)])
      ensures found == Found(old(view).kids[i], h - 1, k)
      decreases h, 0
    {
      ghost var ks, vs, bs, w := kids[..numKeys + 1], view.kids, view.keys + [hi], repr - {this};
      ghost var wa, wc, wb := Parted(ks, vs, bs, w, i);
      var child := kids[i];
      found := child.Delete(k, h - 1, bs[i]);
      view := view.(kids := view.kids[i := child.view]);
      Rejoin(ks, vs, bs, i, wa, child, wb, w);
    }

    method FirstNotBelow(k: nat, ghost hi: int) returns (i: nat)
      requires Valid(hi)
      ensures i == Below(view.keys, k)
    {
      i := 0;
      while i < numKeys && k > keys[i]
        invariant i <= numKeys
        invariant forall j :: 0 <= j < i ==> keys[j] < k
      {
        i := i + 1;
      }
      BelowIs(view.keys, k, i);
    }

    method DeleteAt(i: nat, ghost hi: int)
      requires Valid(hi) && i < numKeys
      modifies this`keys, this`vals, this`numKeys, this`view
      ensures Valid(hi)
      ensures view == if isLeaf
        then old(view).(keys := old(view).keys[..i] + old(view).keys[i + 1..], vals := old(view).vals[..i] + old(view).vals[i + 1..])
        else old(view).(vals := old(view).vals[i := None])
    {
      if isLeaf {
        keys := ShiftDown(keys, i, numKeys);
        vals := ShiftDown(vals, i, numKeys);
        numKeys := numKeys - 1;
        view := view.(keys := view.keys[..i] + view.keys[i + 1..], vals := view.vals[..i] + view.vals[i + 1..]);
      } else {
        vals := vals[i := None];
        view := view.(vals := view.vals[i := None]);
      }
    }

    /** btree_scan_node: the pairs reported by the callback, in order. */
    method Scan(ghost h: nat, ghost hi: int) returns (out: seq<(nat, V)>)
      requires Valid(hi) && Shaped(view, h)
      ensures out == LiveSeq(Flat(view))
      decreases h
    {
      out := [];
      var i := 0;
      while i < numKeys
        invariant i <= numKeys
        invariant out == LiveSeq(Left(view, i))
      {
        var below := ScanKid(i, h, hi);
        LiveSeqConcat(Left(view, i), KidFlat(view, i));
        LiveSeqConcat(Left(view, i) + KidFlat(view, i), [EntryAt(view, i)]);
        out := out + below;
        if vals[i].Some? {
          out := out + [(keys[i], vals[i].value)];
        }
        i := i + 1;
      }
      var last := ScanKid(numKeys, h, hi);
      Around(view, numKeys);
      LiveSeqConcat(Left(view, i), KidFlat(view, i));
      assert Left(view, i) + KidFlat(view, i) + Tail(view, i) == Left(view, i) + KidFlat(view, i);
      out := out + last;
    }

    method ScanKid(i: nat, ghost h: nat, ghost hi: int) returns (out: seq<(nat, V)>)
      requires Valid(hi) && Shaped(view, h) && i <= numKeys
      ensures out == LiveSeq(KidFlat(view, i))
      decreases h, 0
    {
      if isLeaf {
        out := [];
      } else {
        assert KidOk(kids[..numKeys + 1], view.kids, view.keys + [hi], repr - {this}, i);
        out := kids[i].Scan(h - 1, (view.keys + [hi])[i]);
      }
    }

    ghost function KidsUnion(i: nat, j: nat): set<Node<V>>
      requires i <= j <= |kids|
      reads this, kids
    {
      if isLeaf then {} else Union(kids[i..j])
    }

    lemma UpperForest(hi: int)
      requires Valid(hi) && |view.keys| == MAX_KEYS && !isLeaf
      ensures var r := RightHalf(view);
        Forest(kids[MID + 1..MAX_KEYS + 1], r.kids, r.keys + [hi], KidsUnion(MID + 1, MAX_KEYS + 1))
      ensures KidsUnion(MID + 1, MAX_KEYS + 1) <= repr
    {
      var ks, vs, bs := kids[..numKeys + 1], view.kids, view.keys + [hi];
      ForestSlice(ks, vs, bs, repr - {this}, MID + 1, MAX_KEYS + 1);
      assert ks[MID + 1..MAX_KEYS + 1] == kids[MID + 1..MAX_KEYS + 1];
      assert RightHalf(view).kids == vs[MID + 1..MAX_KEYS + 1];
      assert RightHalf(view).keys + [hi] == bs[MID + 1..MAX_KEYS + 1];
    }

    /** A full node's slots above the median, copied to a new node. */
    method UpperHalf(ghost hi: int) returns (newNode: Node<V>)
      requires Valid(hi) && |view.keys| == MAX_KEYS
      ensures fresh(newNode) && newNode.Valid(hi) && newNode.view == RightHalf(view)
      ensures newNode.repr == {newNode} + KidsUnion(MID + 1, MAX_KEYS + 1)
    {
      hide Forest;
      hide Union;
      ghost var w := KidsUnion(MID + 1, MAX_KEYS + 1);
      if !isLeaf { UpperForest(hi); }
      newNode := UpperSlots(hi);
      assert newNode !in w;
      newNode.repr := {newNode} + w;
      assert newNode.repr - {newNode} == w;
    }

    /** The new node of a split, with its slots filled. */
    method UpperSlots(ghost hi: int) returns (newNode: Node<V>)
      requires Valid(hi) && |view.keys| == MAX_KEYS
      ensures fresh(newNode) && newNode.Local(hi) && newNode.view == RightHalf(view)
      ensures !isLeaf ==> newNode.kids[..newNode.numKeys + 1] == kids[MID + 1..MAX_KEYS + 1]
      ensures newNode.isLeaf == isLeaf
    {
      hide Forest;
      newNode := new Node<V>(isLeaf);
      newNode.numKeys := numKeys - MID - 1;
      newNode.keys := CopySlots(newNode.keys, keys, MID + 1, newNode.numKeys);
      newNode.vals := CopySlots(newNode.vals, vals, MID + 1, newNode.numKeys);
      if !isLeaf {
        newNode.kids := CopySlots(newNode.kids, kids, MID + 1, newNode.numKeys + 1);
      }
      newNode.view := RightHalf(view);
    }

    /** A full node forgets the median and the slots above it. */
    method KeepLowerHalf(ghost hi: int)
      requires Valid(hi) && |view.keys| == MAX_KEYS && Ascending(view.keys)
      modifies this`view, this`repr, this`numKeys
      ensures Valid(old(view).keys[MID]) && view == LeftHalf(old(view))
      ensures repr == {this} + old(KidsUnion(0, MID + 1))
    {
      ghost var ks, vs, bs, w, c := kids[..numKeys + 1], view.kids, view.keys + [hi], repr - {this}, view;
      repr := {this} + KidsUnion(0, MID + 1);
      if !isLeaf {
        ForestSlice(ks, vs, bs, w, 0, MID + 1);
        assert ks[0..MID + 1] == kids[0..MID + 1];
        assert repr - {this} == Union(kids[0..MID + 1]);
      }
      numKeys := MID;
      view := LeftHalf(c);
      if !isLeaf {
        assert kids[..numKeys + 1] == ks[0..MID + 1];
        assert view.kids == vs[0..MID + 1];
        assert view.keys + [c.keys[MID]] == bs[0..MID + 1];
      }
    }

    lemma HalvesApart(hi: int)
      requires Valid(hi) && |view.keys| == MAX_KEYS
      ensures KidsUnion(0, MID + 1) !! KidsUnion(MID + 1, MAX_KEYS + 1)
      ensures KidsUnion(0, MID + 1) + KidsUnion(MID + 1, MAX_KEYS + 1) <= repr - {this}
    {
      if !isLeaf {
        var ks, vs, bs, w := kids[..numKeys + 1], view.kids, view.keys + [hi], repr - {this};
        assert ks == kids;
        ForestSlice(ks, vs, bs, w, 0, MID + 1);
        ForestSlice(ks, vs, bs, w, MID + 1, MAX_KEYS + 1);
        UnionDisjoint(ks, vs, bs, w, 0, MID + 1, MID + 1, MAX_KEYS + 1);
      }
    }

    /** The node gives its upper half to a new node and keeps the lower half. */
    method TakeUpperHalf(ghost hi: int) returns (newNode: Node<V>)
      requires Valid(hi) && |view.keys| == MAX_KEYS && Ascending(view.keys)
      modifies this`view, this`repr, this`numKeys
      ensures fresh(newNode)
      ensures Valid(old(view).keys[MID]) && view == LeftHalf(old(view))
      ensures newNode.Valid(hi) && newNode.view == RightHalf(old(view))
      ensures repr <= old(repr) && newNode.repr <= old(repr) - {this} + {newNode} && repr !! newNode.repr
    {
      HalvesApart(hi);
      newNode := UpperHalf(hi);
      KeepLowerHalf(hi);
    }
  }

  lemma SlotsAbove(ks: seq<nat>, ks': seq<nat>, n: nat, hi: int)
    requires |ks| == |ks'| == MAX_KEYS && 0 < n <= MAX_KEYS && ks'[n..] == ks[n..]
    requires forall j :: n - 1 <= j < MAX_KEYS ==> ks[j] == 0 || ks[j] >= hi
    ensures forall j :: n <= j < MAX_KEYS ==> ks'[j] == 0 || ks'[j] >= hi
  {
    forall j | n <= j < MAX_KEYS
      ensures ks'[j] == ks[j]
    {
      assert ks'[n..][j - n] == ks[n..][j - n];
    }
  }

  lemma KidWF<V>(t: Tree<V>, h: nat, lo: int, hi: int, i: nat)
    requires WF(t, h, lo, hi) && !t.leaf && i < |t.kids|
    ensures h > 0 && WF(t.kids[i], h - 1, Lo(t.keys, lo, i), Hi(t.keys, hi, i))
  {
  }

  // ---------- sequences of disjoint subtrees ----------

  ghost predicate KidOk<V>(ks: seq<Node?<V>>, vs: seq<Tree<V>>, bs: seq<int>, within: set<Node<V>>, i: nat)
    requires |ks| == |vs| == |bs| && i < |ks|
    reads within
    decreases within, 2
  {
    var c := ks[i];
    c != null && c in within && c in c.repr && c.repr <= within && c.Valid(bs[i]) && c.view == vs[i]
  }

  ghost predicate Apart<V>(ks: seq<Node?<V>>, vs: seq<Tree<V>>, bs: seq<int>, within: set<Node<V>>, i: nat, j: nat)
    requires |ks| == |vs| == |bs| && i < |ks| && j < |ks|
    reads within
    decreases within, 3
  {
    KidOk(ks, vs, bs, within, i) && KidOk(ks, vs, bs, within, j) && ks[i].repr !! ks[j].repr
  }

  /** ks are nodes for the trees vs below the bounds bs, with disjoint footprints in within. */
  ghost predicate Forest<V>(ks: seq<Node?<V>>, vs: seq<Tree<V>>, bs: seq<int>, within: set<Node<V>>)
    reads within
    decreases within, 4
  {
    && |ks| == |vs| == |bs|
    && (forall i :: 0 <= i < |ks| ==> KidOk(ks, vs, bs, within, i))
    && (forall i, j :: 0 <= i < j < |ks| ==> Apart(ks, vs, bs, within, i, j))
  }

  ghost function Union<V>(ks: seq<Node?<V>>): (u: set<Node<V>>)
    reads ks
  {
    set i, n | 0 <= i < |ks| && ks[i] != null && n in ks[i].repr :: n
  }

  /** A part of a forest is a forest on its own footprint. */
  lemma ForestSlice<V>(ks: seq<Node?<V>>, vs: seq<Tree<V>>, bs: seq<int>, within: set<Node<V>>, i: nat, j: nat)
    requires Forest(ks, vs, bs, within) && i <= j <= |ks|
    ensures Forest(ks[i..j], vs[i..j], bs[i..j], Union(ks[i..j]))
    ensures Union(ks[i..j]) <= within
  {
    var u := Union(ks[i..j]);
    forall m | 0 <= m < j - i
      ensures KidOk(ks[i..j], vs[i..j], bs[i..j], u, m) && ks[i..j][m].repr <= within
    {
      assert KidOk(ks, vs, bs, within, i + m);
      var c := ks[i..j][m];
      assert c == ks[i + m] && c in c.repr;
    }
    forall m, n | 0 <= m < n < j - i
      ensures Apart(ks[i..j], vs[i..j], bs[i..j], u, m, n)
    {
      assert Apart(ks, vs, bs, within, i + m, i + n);
    }
  }

  /** Parts of a forest that do not overlap have disjoint footprints. */
  lemma UnionDisjoint<V>(ks: seq<Node?<V>>, vs: seq<Tree<V>>, bs: seq<int>, within: set<Node<V>>, i: nat, j: nat, m: nat, n: nat)
    requires Forest(ks, vs, bs, within) && i <= j <= m <= n <= |ks|
    ensures Union(ks[i..j]) !! Union(ks[m..n])
  {
    forall a, b | 0 <= a < j - i && 0 <= b < n - m
      ensures ks[i..j][a] != null && ks[m..n][b] != null && ks[i..j][a].repr !! ks[m..n][b].repr
    {
      assert KidOk(ks, vs, bs, within, i + a) && KidOk(ks, vs, bs, within, m + b);
      assert Apart(ks, vs, bs, within, i + a, m + b);
    }
  }

  lemma ForestJoin<V>(ks: seq<Node?<V>>, vs: seq<Tree<V>>, bs: seq<int>, w: set<Node<V>>,
                      ks': seq<Node?<V>>, vs': seq<Tree<V>>, bs': seq<int>, w': set<Node<V>>)
    requires Forest(ks, vs, bs, w) && Forest(ks', vs', bs', w') && w !! w'
    ensures Forest(ks + ks', vs + vs', bs + bs', w + w')
  {
    forall i | 0 <= i < |ks + ks'|
      ensures KidOk(ks + ks', vs + vs', bs + bs', w + w', i)
      ensures (ks + ks')[i].repr <= if i < |ks| then w else w'
    {
      if i < |ks| { assert KidOk(ks, vs, bs, w, i); } else { assert KidOk(ks', vs', bs', w', i - |ks|); }
    }
    forall i, j | 0 <= i < j < |ks + ks'|
      ensures Apart(ks + ks', vs + vs', bs + bs', w + w', i, j)
    {
      if j < |ks| { assert Apart(ks, vs, bs, w, i, j); }
      else if i >= |ks| { assert Apart(ks', vs', bs', w', i - |ks|, j - |ks|); }
    }
  }

  /** The footprints before, at and after a place in a forest. */
  lemma Parted<V>(ks: seq<Node?<V>>, vs: seq<Tree<V>>, bs: seq<int>, within: set<Node<V>>, i: nat)
      returns (wa: set<Node<V>>, wc: set<Node<V>>, wb: set<Node<V>>)
    requires Forest(ks, vs, bs, within) && i < |ks|
    ensures KidOk(ks, vs, bs, within, i) && wc == ks[i].repr
    ensures Forest(ks[..i], vs[..i], bs[..i], wa)
    ensures Forest(ks[i + 1..], vs[i + 1..], bs[i + 1..], wb)
    ensures wa + wb + wc <= within && wa !! wb !! wc
  {
    var n := |ks|;
    assert KidOk(ks, vs, bs, within, i);
    wa, wc, wb := Union(ks[0..i]), ks[i].repr, Union(ks[i + 1..n]);
    assert Union(ks[i..i + 1]) == wc by {
      assert ks[i..i + 1] == [ks[i]];
    }
    ForestSlice(ks, vs, bs, within, 0, i);
    ForestSlice(ks, vs, bs, within, i + 1, n);
    assert ks[i + 1..] == ks[i + 1..n] && vs[i + 1..] == vs[i + 1..n] && bs[i + 1..] == bs[i + 1..n];
    assert ks[..i] == ks[0..i] && vs[..i] == vs[0..i] && bs[..i] == bs[0..i];
    UnionDisjoint(ks, vs, bs, within, 0, i, i, i + 1);
    UnionDisjoint(ks, vs, bs, within, 0, i, i + 1, n);
    UnionDisjoint(ks, vs, bs, within, i, i + 1, i + 1, n);
  }

  /** A forest whose middle node became two. */
  lemma Reassemble<V>(ka: seq<Node?<V>>, va: seq<Tree<V>>, ba: seq<int>, wa: set<Node<V>>,
                      l: Node<V>, bl: int, r: Node<V>, br: int,
                      kb: seq<Node?<V>>, vb: seq<Tree<V>>, bb: seq<int>, wb: set<Node<V>>, w: set<Node<V>>)
    requires Forest(ka, va, ba, wa) && Forest(kb, vb, bb, wb)
    requires l.Valid(bl) && r.Valid(br)
    requires wa !! l.repr !! r.repr !! wb && wa + l.repr + r.repr + wb <= w
    ensures Forest(ka + [l, r] + kb, va + [l.view, r.view] + vb, ba + [bl, br] + bb, w)
  {
    ForestOne(l, bl);
    ForestOne(r, br);
    ForestJoin(ka, va, ba, wa, [l], [l.view], [bl], l.repr);
    ForestJoin(ka + [l], va + [l.view], ba + [bl], wa + l.repr, [r], [r.view], [br], r.repr);
    assert ka + [l] + [r] == ka + [l, r];
    assert va + [l.view] + [r.view] == va + [l.view, r.view];
    assert ba + [bl] + [br] == ba + [bl, br];
    ForestJoin(ka + [l, r], va + [l.view, r.view], ba + [bl, br], wa + l.repr + r.repr, kb, vb, bb, wb);
    ForestGrow(ka + [l, r] + kb, va + [l.view, r.view] + vb, ba + [bl, br] + bb, wa + l.repr + r.repr + wb, w);
  }

  /** A forest one of whose nodes changed. */
  lemma Rejoin<V>(ks: seq<Node?<V>>, vs: seq<Tree<V>>, bs: seq<int>, i: nat, wa: set<Node<V>>, c: Node<V>, wb: set<Node<V>>, w: set<Node<V>>)
    requires |ks| == |vs| == |bs| && i < |ks| && ks[i] == c
    requires Forest(ks[..i], vs[..i], bs[..i], wa) && Forest(ks[i + 1..], vs[i + 1..], bs[i + 1..], wb) && c.Valid(bs[i])
    requires wa !! c.repr !! wb && wa + c.repr + wb <= w
    ensures Forest(ks, vs[i := c.view], bs, w)
  {
    ForestOne(c, bs[i]);
    ForestJoin(ks[..i], vs[..i], bs[..i], wa, [c], [c.view], [bs[i]], c.repr);
    ForestJoin(ks[..i] + [c], vs[..i] + [c.view], bs[..i] + [bs[i]], wa + c.repr, ks[i + 1..], vs[i + 1..], bs[i + 1..], wb);
    assert ks == ks[..i] + [c] + ks[i + 1..];
    assert vs[i := c.view] == vs[..i] + [c.view] + vs[i + 1..];
    assert bs == bs[..i] + [bs[i]] + bs[i + 1..];
    ForestGrow(ks, vs[i := c.view], bs, wa + c.repr + wb, w);
  }

  lemma BoundsSplit(ks: seq<nat>, m: nat, i: nat, hi: int)
    requires i <= |ks|
    ensures var bs: seq<int> := ks + [hi];
      (ks[..i] + [m] + ks[i..]) + [hi] == bs[..i] + [m, bs[i]] + bs[i + 1..]
  {
  }

  lemma ForestOne<V>(c: Node<V>, hi: int)
    requires c.Valid(hi)
    ensures Forest([c], [c.view], [hi], c.repr)
  {
  }

  lemma ForestGrow<V>(ks: seq<Node?<V>>, vs: seq<Tree<V>>, bs: seq<int>, w: set<Node<V>>, w': set<Node<V>>)
    requires Forest(ks, vs, bs, w) && w <= w'
    ensures Forest(ks, vs, bs, w')
  {
    forall i | 0 <= i < |ks|
      ensures KidOk(ks, vs, bs, w', i)
    {
      assert KidOk(ks, vs, bs, w, i);
    }
    forall i, j | 0 <= i < j < |ks|
      ensures Apart(ks, vs, bs, w', i, j)
    {
      assert Apart(ks, vs, bs, w, i, j);
    }
  }

  // ---------- the index ----------

  class BTree<V> {
    var root: Node<V>
    var count: nat
    const tableId: nat
    ghost var h: nat

    ghost predicate Valid()
      reads this, root, root.repr
    {
      root.Valid(U64) && Shaped(root.view, h)
    }

    /** The state of the index as BTreeRuns runs it. */
    ghost function State(): Index<V>
      reads this, root
    {
      Index(root.view, h, count)
    }

    /** The finite map the index stands for. */
    ghost function Map(): map<nat, V>
      reads this, root
    {
      Live(Flat(root.view))
    }

    /** btree_init */
    constructor (table: nat)
      ensures Valid() && fresh(root) && fresh(root.repr)
      ensures State() == Init() && tableId == table
    {
      root := new Node<V>(true);
      count := 0;
      tableId := table;
      h := 0;
    }

    /** btree_search */
    method Search(k: nat) returns (r: Option<V>)
      requires Valid() && Good(State())
      ensures r == if k in Map() then Some(Map()[k]) else None
    {
      r := root.Search(k, h, U64);
      SearchIsLookup(root.view, h, -1, U64, k);
    }

    /** btree_insert */
    method Insert(k: nat, v: Option<V>)
      requires Valid() && Good(State()) && k < U64
      modifies this, root.repr
      ensures Valid() && State() == Step(old(State()), Op.Insert(k, v))
      ensures fresh(root.repr - old(root.repr))
    {
      hide BTreeModel.SplitChild;
      hide BTreeModel.InsertNonfull;
      hide BTreeModel.InsertAt;
      hide Filled;
      hide Found;
      ghost var t, n := root.view, h;
      if root.numKeys == MAX_KEYS {
        GrowRoot();
        root.InsertAt(0, k, v, h, -1, U64);
      } else {
        root.InsertNonfull(k, v, h, -1, U64);
      }
      assert root.view == InsertRoot(t, n, k, v) && h == HeightAfterInsert(t, n);
      count := if count + 1 == U64 then 0 else count + 1;
    }

    /** The full-root case of btree_insert: a new root above the two halves of the old one. */
    method GrowRoot()
      requires Valid() && Good(State()) && root.numKeys == MAX_KEYS
      modifies this, root.repr
      ensures Valid() && h == old(h) + 1 && count == old(count)
      ensures WF(root.view, h, -1, U64) && !root.isLeaf && root.numKeys == 1
      ensures |root.view.kids[0].keys| < MAX_KEYS && |root.view.kids[1].keys| < MAX_KEYS
      ensures root.view == BTreeModel.SplitChild(Tree(false, [], [], [old(root.view)]), h, 0)
      ensures fresh(root.repr - old(root.repr))
    {
      hide BTreeModel.SplitChild;
      hide BTreeModel.LeftHalf;
      hide BTreeModel.RightHalf;
      hide Forest;
      NewRootOk(root.view, h, -1, U64);
      ghost var up := Tree(false, [], [], [root.view]);
      SplitOrdered(up, h + 1, -1, U64, 0);
      SplitParts(up, h + 1, 0);
      var newRoot := RootAbove();
      newRoot.SplitChild(0, h + 1, U64);
      root := newRoot;
      h := h + 1;
    }

    method RootAbove() returns (newRoot: Node<V>)
      requires Valid()
      ensures fresh(newRoot) && newRoot.Valid(U64) && newRoot.repr == {newRoot} + root.repr
      ensures newRoot.view == Tree(false, [], [], [root.view]) && !newRoot.isLeaf
    {
      newRoot := new Node<V>(false);
      newRoot.kids := newRoot.kids[0 := root];
      newRoot.view, newRoot.repr := Tree(false, [], [], [root.view]), {newRoot} + root.repr;
      ForestOne(root, U64);
      assert newRoot.kids[..1] == [root];
      assert newRoot.repr - {newRoot} == root.repr;
    }

    /** btree_delete: true where the source returns 0. */
    method Delete(k: nat) returns (found: bool)
      requires Valid()
      modifies this, root.repr
      ensures Valid() && State() == Step(old(State()), Op.Delete(k)) && root == old(root)
      ensures root.repr == old(root.repr)
      ensures found == Found(old(root.view), old(h), k)
    {
      found := root.Delete(k, h, U64);
      if found {
        count := if count == 0 then U64 - 1 else count - 1;
      }
    }

    /** btree_scan: the reported pairs are exactly the map, in strictly ascending key order. */
    method Scan() returns (out: seq<(nat, V)>)
      requires Valid() && Good(State())
      ensures out == LiveSeq(Flat(root.view)) && Lists(out, Map())
    {
      out := root.Scan(h, U64);
      FlatSorted(root.view, h, -1, U64);
      ScanListsLive(Flat(root.view));
    }
  }
}
