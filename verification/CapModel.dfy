/**
 * The capability system of kernel/cap as a state machine over the capability table: creation,
 * grants, delegation and cascading revocation, and what every run of them keeps.
 */
module CapModel {
  import opened Bytes

  const CAP_TABLE_SIZE: nat := 1024
  const CAP_ALL: bv32 := 0x3F

  datatype ObjectType = TableRow | Table | Process | Device | System

  type Digest = s: seq<bv8> | |s| == 32 witness seq(32, _ => 0)

  function NoSeal(): Digest
  {
    seq(32, _ => 0)
  }

  type Mac = seq<bv8> -> Digest

  /** capability_t */
  datatype Cap = Cap(capId: nat, objectId: nat, objectType: ObjectType, owner: nat, rights: bv32, hmac: Digest,
                     parent: nat, createdAt: nat, expiresAt: nat, revoked: bool)

  type Caps = seq<Cap>

  /** cap_table_lookup finds id: the slot of the id holds it. */
  predicate Present(t: Caps, id: nat)
  {
    1 <= id <= |t| && t[id - 1].capId == id
  }

  function At(t: Caps, id: nat): Cap
    requires Present(t, id)
  {
    t[id - 1]
  }

  // ---------- seals ----------

  function Ordinal(o: ObjectType): nat
  {
    match o case TableRow => 0 case Table => 1 case Process => 2 case Device => 3 case System => 4
  }

  /** The 40 bytes that are sealed. */
  function SealedBytes(c: Cap): seq<bv8>
  {
    Le(c.capId, 8) + Le(c.objectId, 8) + Le(c.owner, 8) + Le(c.rights as nat, 4) + Le(Ordinal(c.objectType), 4) + Le(c.parent, 8)
  }

  function Seal(mac: Mac, c: Cap): Cap
  {
    c.(hmac := mac(SealedBytes(c)))
  }

  predicate Sealed(mac: Mac, c: Cap)
  {
    c.hmac == mac(SealedBytes(c))
  }

  lemma SealSeals(mac: Mac, c: Cap)
    ensures Sealed(mac, Seal(mac, c))
  {
    assert SealedBytes(Seal(mac, c)) == SealedBytes(c);
  }

  /** What cap_validate decides without its cache. */
  predicate Uncached(mac: Mac, c: Cap, now: nat)
  {
    !c.revoked && (c.expiresAt == 0 || now <= c.expiresAt) && Sealed(mac, c)
  }

  // ---------- the invariant ----------

  predicate Subset(a: bv32, b: bv32)
  {
    a & b == a
  }

  predicate CanGrant(rights: bv32)
  {
    rights & 0x10 != 0
  }

  function Masked(a: bv32, b: bv32): bv32
  {
    a & b
  }

  lemma MaskSubset(a: bv32, b: bv32)
    ensures Subset(Masked(a, b), b)
  {
  }

  lemma SubsetTrans(a: bv32, b: bv32, c: bv32)
    requires Subset(a, b) && Subset(b, c)
    ensures Subset(a, c)
  {
    assert (a & b) & c == a & (b & c);
  }

  /** p may be the parent of c: it is older, has the same object, the right to grant and every right of c. */
  predicate DerivedFrom(c: Cap, p: Cap)
  {
    && p.objectId == c.objectId && p.objectType == c.objectType
    && CanGrant(p.rights) && Subset(c.rights, p.rights)
  }

  ghost predicate Entry(mac: Mac, t: Caps, nextId: nat, id: nat)
    requires Present(t, id)
  {
    var c := At(t, id);
    && id < nextId && Sealed(mac, c) && c.expiresAt == 0
    && (c.parent == 0 || (c.parent < id && Present(t, c.parent) && DerivedFrom(c, At(t, c.parent))))
  }

  ghost predicate Inv(mac: Mac, t: Caps, nextId: nat)
  {
    |t| == CAP_TABLE_SIZE && nextId >= 1 && forall id :: Present(t, id) ==> Entry(mac, t, nextId, id)
  }

  /** a is x or one of the capabilities x was derived from. */
  ghost predicate Ancestor(t: Caps, a: nat, x: nat)
    decreases x
  {
    Present(t, x) && (a == x || (At(t, x).parent < x && Ancestor(t, a, At(t, x).parent)))
  }

  /** Along any grant chain the object stays the same and rights only shrink. */
  lemma {:induction false} RightsShrink(mac: Mac, t: Caps, nextId: nat, a: nat, x: nat)
    requires Inv(mac, t, nextId) && Ancestor(t, a, x)
    ensures Present(t, a) && a <= x
    ensures At(t, a).objectId == At(t, x).objectId && At(t, a).objectType == At(t, x).objectType
    ensures Subset(At(t, x).rights, At(t, a).rights)
    ensures a != x ==> CanGrant(At(t, a).rights)
    decreases x
  {
    hide Subset;
    hide Sealed;
    assert Entry(mac, t, nextId, x);
    if a != x {
      var p := At(t, x).parent;
      RightsShrink(mac, t, nextId, a, p);
      SubsetTrans(At(t, x).rights, At(t, p).rights, At(t, a).rights);
    } else {
      SubsetSelf(At(t, x).rights);
    }
  }

  lemma SubsetSelf(a: bv32)
    ensures Subset(a, a)
  {
  }

  // ---------- revocation ----------

  /** The revoker owns the capability or is the kernel. */
  predicate Allowed(c: Cap, pid: nat)
  {
    c.owner == pid || pid == 0
  }

  ghost predicate MayRevoke(t: Caps, pid: nat, id: nat)
  {
    Present(t, id) && Allowed(At(t, id), pid)
  }

  /** x is the target, or an unrevoked capability the revoker may revoke below one in the cascade. */
  ghost predicate InCascade(t: Caps, pid: nat, target: nat, x: nat)
    decreases x
  {
    && Present(t, x) && Allowed(At(t, x), pid)
    && (x == target || (!At(t, x).revoked && At(t, x).parent < x && InCascade(t, pid, target, At(t, x).parent)))
  }

  /** The table after cap_revoke. */
  ghost function Cascaded(t: Caps, pid: nat, target: nat): (t': Caps)
    ensures |t'| == |t|
  {
    seq(|t|, i requires 0 <= i < |t| => if InCascade(t, pid, target, i + 1) then t[i].(revoked := true) else t[i])
  }

  /** The part of the cascade that goes through children of the target below i. */
  ghost predicate Reached(t: Caps, pid: nat, target: nat, i: nat, x: nat)
    decreases x
  {
    && Present(t, x) && Allowed(At(t, x), pid)
    && (x == target
        || (!At(t, x).revoked && At(t, x).parent < x
            && if At(t, x).parent == target then x < i else Reached(t, pid, target, i, At(t, x).parent)))
  }

  ghost function Marked(t: Caps, pid: nat, target: nat, i: nat): (t': Caps)
    ensures |t'| == |t|
  {
    seq(|t|, k requires 0 <= k < |t| => if Reached(t, pid, target, i, k + 1) then t[k].(revoked := true) else t[k])
  }

  /** Tables that differ only in what is revoked. */
  ghost predicate SameButRevoked(t: Caps, t': Caps)
  {
    |t| == |t'| && forall k :: 0 <= k < |t| ==> t'[k] == t[k].(revoked := t'[k].revoked)
  }

  /** Before the first child only the target is marked. */
  lemma {:induction false} ReachedStart(t: Caps, pid: nat, target: nat, x: nat)
    requires Present(t, target) && Allowed(At(t, target), pid)
    ensures Reached(t, pid, target, 1, x) <==> x == target
    decreases x
  {
    if x != target && Present(t, x) && At(t, x).parent < x && At(t, x).parent != target {
      ReachedStart(t, pid, target, At(t, x).parent);
    }
  }

  /** Where i is no child to descend into, nothing new is reached. */
  lemma {:induction false} ReachedSkip(t: Caps, pid: nat, target: nat, i: nat, x: nat)
    requires !(Present(t, i) && At(t, i).parent == target && !At(t, i).revoked) || i == target
    ensures Reached(t, pid, target, i + 1, x) <==> Reached(t, pid, target, i, x)
    decreases x
  {
    if x != target && Present(t, x) && At(t, x).parent < x && At(t, x).parent != target {
      ReachedSkip(t, pid, target, i, At(t, x).parent);
    }
  }

  /** A child to descend into adds its own cascade. */
  lemma {:induction false} ReachedStep(t: Caps, pid: nat, target: nat, i: nat, x: nat)
    requires Present(t, i) && At(t, i).parent == target && !At(t, i).revoked && target < i
    requires Present(t, target) && Allowed(At(t, target), pid)
    ensures Reached(t, pid, target, i + 1, x) <==> Reached(t, pid, target, i, x) || InCascade(t, pid, i, x)
    ensures InCascade(t, pid, i, x) ==> x >= i && !Reached(t, pid, target, i, x)
    decreases x
  {
    if Present(t, x) && At(t, x).parent < x {
      ReachedStep(t, pid, target, i, At(t, x).parent);
    }
  }

  /** All children visited: the whole cascade. */
  lemma {:induction false} ReachedAll(t: Caps, pid: nat, target: nat, i: nat, x: nat)
    requires MayRevoke(t, pid, target) && forall id: nat :: Present(t, id) ==> id < i
    ensures Reached(t, pid, target, i, x) <==> InCascade(t, pid, target, x)
    decreases x
  {
    if Present(t, x) && At(t, x).parent < x {
      ReachedAll(t, pid, target, i, At(t, x).parent);
    }
  }

  /** Marking what was reached before child i changes nothing in the cascade of child i. */
  lemma {:induction false} MarkedCascade(t: Caps, pid: nat, target: nat, i: nat, x: nat)
    requires MayRevoke(t, pid, target) && Present(t, i) && At(t, i).parent == target && !At(t, i).revoked && target < i
    ensures InCascade(Marked(t, pid, target, i), pid, i, x) <==> InCascade(t, pid, i, x)
    decreases x
  {
    var t1 := Marked(t, pid, target, i);
    assert Present(t1, x) <==> Present(t, x);
    if Present(t, x) {
      assert At(t1, x) == if Reached(t, pid, target, i, x) then At(t, x).(revoked := true) else At(t, x);
      ReachedStep(t, pid, target, i, x);
      if At(t, x).parent < x { MarkedCascade(t, pid, target, i, At(t, x).parent); }
    }
    hide Marked;
  }

  /** One round of the cascade's loop, on the table as the earlier rounds left it. */
  lemma {:induction false} CascadeRound(t: Caps, pid: nat, target: nat, i: nat)
    requires MayRevoke(t, pid, target) && 1 <= i && (Present(t, i) ==> At(t, i).parent < i)
    ensures var t1 := Marked(t, pid, target, i);
      Marked(t, pid, target, i + 1) ==
        if Present(t1, i) && At(t1, i).parent == target && !At(t1, i).revoked then Cascaded(t1, pid, i) else t1
  {
    var t1 := Marked(t, pid, target, i);
    assert Present(t1, i) <==> Present(t, i);
    if Present(t, i) && At(t, i).parent == target && !At(t, i).revoked {
      forall k | 0 <= k < |t|
        ensures Marked(t, pid, target, i + 1)[k] == Cascaded(t1, pid, i)[k]
      {
        ReachedStep(t, pid, target, i, k + 1);
        MarkedCascade(t, pid, target, i, k + 1);
      }
    } else {
      forall k | 0 <= k < |t|
        ensures Marked(t, pid, target, i + 1)[k] == t1[k]
      {
        ReachedSkip(t, pid, target, i, k + 1);
      }
    }
  }

  lemma CascadeStart(t: Caps, pid: nat, target: nat)
    requires MayRevoke(t, pid, target)
    ensures Marked(t, pid, target, 1) == t[target - 1 := At(t, target).(revoked := true)]
  {
    forall k | 0 <= k < |t|
      ensures Marked(t, pid, target, 1)[k] == t[target - 1 := At(t, target).(revoked := true)][k]
    {
      ReachedStart(t, pid, target, k + 1);
    }
  }

  lemma CascadeEnd(t: Caps, pid: nat, target: nat, i: nat)
    requires MayRevoke(t, pid, target) && forall id: nat :: Present(t, id) ==> id < i
    ensures Marked(t, pid, target, i) == Cascaded(t, pid, target)
  {
    forall k | 0 <= k < |t|
      ensures Marked(t, pid, target, i)[k] == Cascaded(t, pid, target)[k]
    {
      ReachedAll(t, pid, target, i, k + 1);
    }
  }

  /** Without permission for the target nothing is in the cascade. */
  lemma {:induction false} NoCascade(t: Caps, pid: nat, target: nat, x: nat)
    requires !MayRevoke(t, pid, target)
    ensures !InCascade(t, pid, target, x)
    decreases x
  {
    if Present(t, x) && At(t, x).parent < x { NoCascade(t, pid, target, At(t, x).parent); }
  }

  lemma CascadeDenied(t: Caps, pid: nat, target: nat)
    requires !MayRevoke(t, pid, target)
    ensures Cascaded(t, pid, target) == t
  {
    forall k | 0 <= k < |t|
      ensures Cascaded(t, pid, target)[k] == t[k]
    {
      NoCascade(t, pid, target, k + 1);
    }
  }

  // ---------- what revocation achieves ----------

  /** Everything derived from a revoked capability is revoked. */
  ghost predicate RevokedClosed(t: Caps)
  {
    forall x :: Present(t, x) && Present(t, At(t, x).parent) && At(t, At(t, x).parent).revoked ==> At(t, x).revoked
  }

  ghost predicate Ordered(t: Caps)
  {
    forall x :: Present(t, x) ==> At(t, x).parent < x
  }

  /** Below a revoked capability everything is revoked. */
  lemma {:induction false} ClosedBelow(t: Caps, a: nat, x: nat)
    requires RevokedClosed(t) && Ancestor(t, a, x) && Present(t, a) && At(t, a).revoked
    ensures At(t, x).revoked
    decreases x
  {
    if a != x { ClosedBelow(t, a, At(t, x).parent); }
  }

  /** Everything that was derived from a revoked capability, at any distance, is revoked. */
  ghost predicate RevokedBelow(t: Caps)
  {
    forall a: nat, x: nat :: Ancestor(t, a, x) && Present(t, a) && At(t, a).revoked ==> At(t, x).revoked
  }

  lemma ClosedBelowAll(t: Caps)
    requires RevokedClosed(t)
    ensures RevokedBelow(t)
  {
    hide RevokedClosed;
    forall a: nat, x: nat | Ancestor(t, a, x) && Present(t, a) && At(t, a).revoked
      ensures At(t, x).revoked
    {
      ClosedBelow(t, a, x);
    }
  }

  lemma {:induction false} AncestorOlder(t: Caps, a: nat, x: nat)
    requires Ancestor(t, a, x)
    ensures a <= x && Present(t, a)
    decreases x
  {
    if a != x { AncestorOlder(t, a, At(t, x).parent); }
  }

  /** y lies on the chain from x up to the target, below the target. */
  ghost predicate Between(t: Caps, target: nat, y: nat, x: nat)
  {
    y != target && Ancestor(t, target, y) && Ancestor(t, y, x)
  }

  /** The cascade is exactly the target and the descendants reached from it through unrevoked
      capabilities that the revoker may revoke. */
  lemma {:induction false} CascadeExact(t: Caps, pid: nat, target: nat, x: nat)
    ensures InCascade(t, pid, target, x) <==>
      && MayRevoke(t, pid, target) && Ancestor(t, target, x)
      && forall y :: Between(t, target, y, x) ==> !At(t, y).revoked && Allowed(At(t, y), pid)
    decreases x
  {
    if x == target {
      forall y: nat
        ensures !Between(t, target, y, x)
      {
        if Between(t, target, y, x) {
          AncestorOlder(t, target, y);
          AncestorOlder(t, y, target);
        }
      }
    } else if Present(t, x) && At(t, x).parent < x {
      var p := At(t, x).parent;
      CascadeExact(t, pid, target, p);
      assert forall y: nat :: Between(t, target, y, x) <==> Between(t, target, y, p) || (y == x && Ancestor(t, target, x));
    }
  }

  /** cap_revoke revokes the target with all its descendants exactly when the revoker may revoke
      every descendant that is still unrevoked: the kernel always, another process only if it
      owns them. */
  lemma {:induction false} RevokesDescendants(t: Caps, pid: nat, target: nat)
    requires RevokedClosed(t) && Ordered(t) && MayRevoke(t, pid, target)
    ensures RevokedClosed(Cascaded(t, pid, target)) <==>
      forall x :: Ancestor(t, target, x) && !At(t, x).revoked ==> Allowed(At(t, x), pid)
  {
    var t' := Cascaded(t, pid, target);
    assert forall x :: Present(t', x) <==> Present(t, x);
    assert forall x :: Present(t, x) ==> At(t', x) == if InCascade(t, pid, target, x) then At(t, x).(revoked := true) else At(t, x);
    hide Cascaded;
    if RevokedClosed(t') {
      forall x | Ancestor(t, target, x) && !At(t, x).revoked
        ensures Allowed(At(t, x), pid)
      {
        ClosedCascade(t, t', pid, target, x);
      }
    }
    if forall x :: Ancestor(t, target, x) && !At(t, x).revoked ==> Allowed(At(t, x), pid) {
      forall x | Present(t', x) && Present(t', At(t', x).parent) && At(t', At(t', x).parent).revoked
        ensures At(t', x).revoked
      {
        var p := At(t, x).parent;
        if InCascade(t, pid, target, p) { CascadeExact(t, pid, target, p); }
      }
    }
  }

  /** If the result is closed, an unrevoked descendant was in the cascade. */
  lemma {:induction false} ClosedCascade(t: Caps, t': Caps, pid: nat, target: nat, x: nat)
    requires RevokedClosed(t) && RevokedClosed(t') && MayRevoke(t, pid, target)
    requires forall x :: Present(t', x) <==> Present(t, x)
    requires forall x :: Present(t, x) ==> At(t', x) == if InCascade(t, pid, target, x) then At(t, x).(revoked := true) else At(t, x)
    requires Ancestor(t, target, x)
    ensures At(t', x).revoked
    ensures !At(t, x).revoked ==> InCascade(t, pid, target, x)
    decreases x
  {
    if x != target { ClosedCascade(t, t', pid, target, At(t, x).parent); }
  }

  /** The kernel's revocation keeps the revoked set closed under descendants. */
  lemma KernelRevokesDescendants(t: Caps, target: nat)
    requires RevokedClosed(t) && Ordered(t)
    ensures RevokedClosed(Cascaded(t, 0, target)) && RevokedBelow(Cascaded(t, 0, target))
  {
    hide RevokedBelow;
    if MayRevoke(t, 0, target) { RevokesDescendants(t, 0, target); } else { CascadeDenied(t, 0, target); }
    ClosedBelowAll(Cascaded(t, 0, target));
  }

  // ---------- runs ----------

  datatype State = State(table: Caps, nextId: nat)

  /** Create is cap_create followed by cap_table_insert, as the callers outside kernel/cap do. */
  datatype Op =
    | Create(objectId: nat, objectType: ObjectType, owner: nat, rights: bv32, now: nat)
    | Grant(granter: nat, id: nat, target: nat, granted: bv32, at: nat)
    | Revoke(pid: nat, id: nat)
    | Delegate(sender: nat, id: nat, receiver: nat)

  function NewCap(mac: Mac, id: nat, objectId: nat, objectType: ObjectType, owner: nat, rights: bv32, parent: nat, now: nat): Cap
  {
    Seal(mac, Cap(id, objectId, objectType, owner, rights, NoSeal(), parent, now, 0, false))
  }

  /** cap_table_insert of a fresh capability: ids beyond the table are dropped. */
  function Inserted(t: Caps, c: Cap): Caps
  {
    if 1 <= c.capId <= |t| then t[c.capId - 1 := c] else t
  }

  predicate MayGrant(t: Caps, granter: nat, id: nat)
  {
    Present(t, id) && At(t, id).owner == granter && !At(t, id).revoked && CanGrant(At(t, id).rights)
  }

  predicate MayDelegate(t: Caps, sender: nat, id: nat)
  {
    Present(t, id) && At(t, id).owner == sender && !At(t, id).revoked
  }

  function GrantedCap(mac: Mac, s: State, op: Op): Cap
    requires op.Grant? && Present(s.table, op.id)
  {
    var p := At(s.table, op.id);
    NewCap(mac, s.nextId, p.objectId, p.objectType, op.target, Masked(op.granted, p.rights), op.id, op.at)
  }

  function Delegated(mac: Mac, t: Caps, id: nat, receiver: nat): Caps
    requires Present(t, id)
  {
    t[id - 1 := Seal(mac, At(t, id).(owner := receiver))]
  }

  ghost function Step(mac: Mac, s: State, op: Op): State
  {
    match op
    case Create(objectId, objectType, owner, rights, now) =>
      State(Inserted(s.table, NewCap(mac, s.nextId, objectId, objectType, owner, rights, 0, now)), s.nextId + 1)
    case Grant(granter, id, _, _, _) =>
      if MayGrant(s.table, granter, id) then State(Inserted(s.table, GrantedCap(mac, s, op)), s.nextId + 1) else s
    case Revoke(pid, id) => State(Cascaded(s.table, pid, id), s.nextId)
    case Delegate(sender, id, receiver) =>
      if MayDelegate(s.table, sender, id) then State(Delegated(mac, s.table, id, receiver), s.nextId) else s
  }

  lemma NewCapFresh(mac: Mac, id: nat, objectId: nat, objectType: ObjectType, owner: nat, rights: bv32, parent: nat, now: nat)
    ensures var c := NewCap(mac, id, objectId, objectType, owner, rights, parent, now);
      && c.capId == id && c.objectId == objectId && c.objectType == objectType && c.owner == owner && c.rights == rights
      && c.parent == parent && c.expiresAt == 0 && !c.revoked && Sealed(mac, c)
  {
    SealSeals(mac, Cap(id, objectId, objectType, owner, rights, NoSeal(), parent, now, 0, false));
  }

  lemma GrantedCapFresh(mac: Mac, s: State, op: Op)
    requires op.Grant? && MayGrant(s.table, op.granter, op.id)
    ensures var c := GrantedCap(mac, s, op);
      && c.capId == s.nextId && Sealed(mac, c) && c.expiresAt == 0 && !c.revoked && c.parent == op.id && c.owner == op.target
      && DerivedFrom(c, At(s.table, op.id))
  {
    hide Sealed;
    hide Subset;
    hide Masked;
    hide CanGrant;
    hide NewCap;
    var p := At(s.table, op.id);
    NewCapFresh(mac, s.nextId, p.objectId, p.objectType, op.target, Masked(op.granted, p.rights), op.id, op.at);
    MaskSubset(op.granted, p.rights);
  }

  /** A fresh capability without a parent, or below one that may grant it, keeps the invariant. */
  lemma {:induction false} InsertInv(mac: Mac, t: Caps, nextId: nat, c: Cap)
    requires Inv(mac, t, nextId) && c.capId == nextId && Sealed(mac, c) && c.expiresAt == 0 && !c.revoked
    requires c.parent == 0 || (Present(t, c.parent) && DerivedFrom(c, At(t, c.parent)))
    ensures Inv(mac, Inserted(t, c), nextId + 1)
    ensures RevokedClosed(t) && (c.parent == 0 || !At(t, c.parent).revoked) ==> RevokedClosed(Inserted(t, c))
  {
    hide Sealed;
    hide DerivedFrom;
    var t' := Inserted(t, c);
    forall x: nat
      ensures Present(t', x) <==> Present(t, x) || (x == nextId && x <= CAP_TABLE_SIZE)
      ensures Present(t, x) ==> x < nextId && At(t', x) == At(t, x)
    {
      if Present(t, x) { assert Entry(mac, t, nextId, x); }
    }
    forall x | Present(t', x)
      ensures Entry(mac, t', nextId + 1, x)
    {
      if x != nextId { assert Entry(mac, t, nextId, x); }
      if c.parent != 0 { assert Entry(mac, t, nextId, c.parent); }
    }
    if RevokedClosed(t) && (c.parent == 0 || !At(t, c.parent).revoked) {
      forall x | Present(t', x) && Present(t', At(t', x).parent) && At(t', At(t', x).parent).revoked
        ensures At(t', x).revoked
      {
        if x != nextId { assert Entry(mac, t, nextId, x); }
        if c.parent != 0 { assert Entry(mac, t, nextId, c.parent); }
      }
    }
  }

  /** Revocation touches neither seals nor derivations. */
  lemma {:induction false} RevokedInv(mac: Mac, t: Caps, t': Caps, nextId: nat)
    requires Inv(mac, t, nextId) && SameButRevoked(t, t')
    ensures Inv(mac, t', nextId)
  {
    hide DerivedFrom;
    forall x: nat
      ensures Present(t', x) <==> Present(t, x)
      ensures Present(t, x) ==> At(t', x) == At(t, x).(revoked := At(t', x).revoked)
    {
    }
    forall x | Present(t', x)
      ensures Entry(mac, t', nextId, x)
    {
      assert Entry(mac, t, nextId, x);
      assert SealedBytes(At(t', x)) == SealedBytes(At(t, x));
      var p := At(t, x).parent;
      if p != 0 { RevokedDerived(At(t, x), At(t, p), At(t', x), At(t', p)); }
    }
  }

  lemma RevokedDerived(c: Cap, p: Cap, c': Cap, p': Cap)
    requires DerivedFrom(c, p) && c' == c.(revoked := c'.revoked) && p' == p.(revoked := p'.revoked)
    ensures DerivedFrom(c', p')
  {
  }

  lemma CascadeInv(mac: Mac, t: Caps, nextId: nat, pid: nat, target: nat)
    requires Inv(mac, t, nextId)
    ensures Inv(mac, Cascaded(t, pid, target), nextId)
  {
    RevokedInv(mac, t, Cascaded(t, pid, target), nextId);
  }

  /** A delegated capability is sealed for its new owner; its rights and derivation stay. */
  lemma {:induction false} DelegateInv(mac: Mac, t: Caps, nextId: nat, id: nat, receiver: nat)
    requires Inv(mac, t, nextId) && Present(t, id)
    ensures Inv(mac, Delegated(mac, t, id, receiver), nextId)
    ensures RevokedClosed(t) ==> RevokedClosed(Delegated(mac, t, id, receiver))
  {
    hide Sealed;
    var t' := Delegated(mac, t, id, receiver);
    SealSeals(mac, At(t, id).(owner := receiver));
    forall x: nat
      ensures Present(t', x) <==> Present(t, x)
      ensures Present(t, x) && x != id ==> At(t', x) == At(t, x)
    {
    }
    forall x | Present(t', x)
      ensures Entry(mac, t', nextId, x)
    {
      assert Entry(mac, t, nextId, x);
    }
  }

  lemma {:induction false} InvOrdered(mac: Mac, t: Caps, nextId: nat)
    requires Inv(mac, t, nextId)
    ensures Ordered(t)
  {
    forall x | Present(t, x)
      ensures At(t, x).parent < x
    {
      assert Entry(mac, t, nextId, x);
    }
  }

  /** Every operation keeps the invariant; if it is not a revocation by a process other than the
      kernel, it keeps the revoked capabilities closed under descendants. */
  lemma {:induction false} StepInv(mac: Mac, s: State, op: Op)
    requires Inv(mac, s.table, s.nextId)
    ensures var s' := Step(mac, s, op);
      && Inv(mac, s'.table, s'.nextId)
      && (RevokedClosed(s.table) && (op.Revoke? ==> op.pid == 0) ==> RevokedClosed(s'.table))
  {
    hide Inv;
    hide RevokedClosed;
    hide Cascaded;
    hide Inserted;
    hide Delegated;
    hide NewCap;
    hide GrantedCap;
    hide Sealed;
    hide DerivedFrom;
    match op
    case Create(objectId, objectType, owner, rights, now) =>
      NewCapFresh(mac, s.nextId, objectId, objectType, owner, rights, 0, now);
      InsertInv(mac, s.table, s.nextId, NewCap(mac, s.nextId, objectId, objectType, owner, rights, 0, now));
    case Grant(granter, id, _, _, _) =>
      if MayGrant(s.table, granter, id) {
        GrantedCapFresh(mac, s, op);
        InsertInv(mac, s.table, s.nextId, GrantedCap(mac, s, op));
      }
    case Revoke(pid, id) =>
      CascadeInv(mac, s.table, s.nextId, pid, id);
      InvOrdered(mac, s.table, s.nextId);
      if pid == 0 && RevokedClosed(s.table) { KernelRevokesDescendants(s.table, id); }
    case Delegate(sender, id, receiver) =>
      if MayDelegate(s.table, sender, id) { DelegateInv(mac, s.table, s.nextId, id, receiver); }
  }

  ghost function Run(mac: Mac, s: State, ops: seq<Op>): State
  {
    if ops == [] then s else Step(mac, Run(mac, s, ops[..|ops| - 1]), ops[|ops| - 1])
  }

  /** In every reachable state all entries are sealed, and every parent is older, of the same object,
      may grant, and has all its children's rights; if only the kernel revokes, everything derived
      from a revoked capability is revoked. */
  lemma {:induction false} RunInv(mac: Mac, s: State, ops: seq<Op>)
    requires Inv(mac, s.table, s.nextId)
    ensures var s' := Run(mac, s, ops);
      && Inv(mac, s'.table, s'.nextId)
      && (RevokedClosed(s.table) && (forall i :: 0 <= i < |ops| && ops[i].Revoke? ==> ops[i].pid == 0) ==>
            RevokedClosed(s'.table) && RevokedBelow(s'.table))
  {
    hide Inv;
    hide RevokedClosed;
    hide RevokedBelow;
    hide Step;
    if ops != [] {
      RunInv(mac, s, ops[..|ops| - 1]);
      StepInv(mac, Run(mac, s, ops[..|ops| - 1]), ops[|ops| - 1]);
    }
    if RevokedClosed(Run(mac, s, ops).table) { ClosedBelowAll(Run(mac, s, ops).table); }
  }

  /** The empty table, from which cap_init starts. */
  function Empty(): Caps
  {
    seq(CAP_TABLE_SIZE, _ => Cap(0, 0, TableRow, 0, 0, NoSeal(), 0, 0, 0, false))
  }

  lemma EmptyInv(mac: Mac)
    ensures Inv(mac, Empty(), 1) && RevokedClosed(Empty())
  {
  }

  /** When a process that is not the kernel grants a capability to another process and then revokes
      its own, the granted one stays in force. */
  lemma {:induction false} GrantSurvivesRevoke(mac: Mac, s: State, a: nat, id: nat, b: nat, rights: bv32, now: nat)
    requires Inv(mac, s.table, s.nextId) && MayGrant(s.table, a, id) && a != 0 && b != a && s.nextId <= CAP_TABLE_SIZE
    ensures var s' := Step(mac, Step(mac, s, Grant(a, id, b, rights, now)), Revoke(a, id));
      && Present(s'.table, id) && At(s'.table, id).revoked
      && Present(s'.table, s.nextId) && At(s'.table, s.nextId).parent == id && !At(s'.table, s.nextId).revoked
      && !RevokedClosed(s'.table)
  {
    hide Sealed;
    hide DerivedFrom;
    hide GrantedCap;
    GrantedCapFresh(mac, s, Grant(a, id, b, rights, now));
    assert Entry(mac, s.table, s.nextId, id);
    var t := Inserted(s.table, GrantedCap(mac, s, Grant(a, id, b, rights, now)));
    assert At(t, id) == At(s.table, id) && At(t, s.nextId).owner == b && At(t, s.nextId).parent == id;
    assert InCascade(t, a, id, id) && !InCascade(t, a, id, s.nextId);
    var t' := Cascaded(t, a, id);
    assert At(t', id).revoked && At(t', s.nextId) == At(t, s.nextId);
  }
}
