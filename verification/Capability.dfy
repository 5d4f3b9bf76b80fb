/**
 * kernel/cap/capability.c and kernel/cap/cap_table.c: the capability table, the validation cache
 * and the operations on them, changed in place. The seal is an arbitrary function of the 40
 * sealed bytes and the clock may read anything at every call.
 */
module Capability {
  import opened CapModel
  import Hmac

  const CAP_CACHE_SIZE: nat := 64
  const CAP_CACHE_TTL: nat := 1000
  const U64: nat := 0x1_0000_0000_0000_0000

  datatype Code = Ok | NotFound | Perm | Full | CapInvalid

  datatype CacheEntry = CacheEntry(capId: nat, validatedAt: nat, valid: bool, occupied: bool)

  /** now - start on uint64_t. */
  function Elapsed(now: int, start: int): int
  {
    if now >= start then now - start else now + U64 - start
  }

  predicate Hit(e: CacheEntry, c: Cap, now: nat)
  {
    e.occupied && e.capId == c.capId && Elapsed(now, e.validatedAt) < CAP_CACHE_TTL
  }

  /** No failed validation is cached. */
  ghost predicate CacheOk(cache: seq<CacheEntry>)
  {
    forall k :: 0 <= k < |cache| && cache[k].occupied ==> cache[k].valid
  }

  /** cap_validate's answer, given the cache entry for the capability's slot. */
  predicate Validated(mac: Mac, e: CacheEntry, c: Cap, expiryNow: nat, cacheNow: nat)
  {
    !c.revoked && (c.expiresAt == 0 || expiryNow <= c.expiresAt) && if Hit(e, c, cacheNow) then e.valid else Sealed(mac, c)
  }

  /** cap_validate computes the seal and stores the outcome in the cache. */
  predicate Stores(e: CacheEntry, c: Cap, expiryNow: nat, cacheNow: nat)
  {
    !c.revoked && (c.expiresAt == 0 || expiryNow <= c.expiresAt) && !Hit(e, c, cacheNow)
  }

  /** A cached answer for a sealed capability is the uncached one, while no failed validation is
      cached: a failed one is cached exactly when cap_validate is given a capability with a wrong seal. */
  lemma CachedIsUncached(mac: Mac, cache: seq<CacheEntry>, k: nat, c: Cap, expiryNow: nat, cacheNow: nat)
    requires CacheOk(cache) && k < |cache| && Sealed(mac, c)
    ensures Validated(mac, cache[k], c, expiryNow, cacheNow) <==> Uncached(mac, c, expiryNow)
  {
  }

  /** A failed validation that was cached, of a capability with the same id and another seal, answers
      for the genuine one until the entry is too old. */
  lemma CachedFailureLasts(mac: Mac, c: Cap, seal: Digest, now: nat, later: nat)
    requires Sealed(mac, c) && !c.revoked && c.expiresAt == 0 && seal != c.hmac && now <= later
    ensures var c', e0 := c.(hmac := seal), CacheEntry(c.capId, 0, false, false);
      var e := CacheEntry(c.capId, now, Sealed(mac, c'), true);
      && Stores(e0, c', now, now)
      && Uncached(mac, c, later)
      && (Validated(mac, e, c, later, later) <==> later - now >= CAP_CACHE_TTL)
  {
    hide SealedBytes;
    SealIgnored(c, seal);
  }

  lemma SealIgnored(c: Cap, seal: Digest)
    ensures SealedBytes(c.(hmac := seal)) == SealedBytes(c)
  {
  }

  /** The cache after cap_validate. */
  function Stored(mac: Mac, cache: seq<CacheEntry>, c: Cap, expiryNow: nat, cacheNow: nat): seq<CacheEntry>
    requires |cache| == CAP_CACHE_SIZE
  {
    var idx := c.capId % CAP_CACHE_SIZE;
    if Stores(cache[idx], c, expiryNow, cacheNow) then cache[idx := CacheEntry(c.capId, cacheNow, Sealed(mac, c), true)] else cache
  }

  /** The cache would answer for id. */
  ghost predicate Cached(cache: seq<CacheEntry>, id: nat)
    requires |cache| == CAP_CACHE_SIZE
  {
    cache[id % CAP_CACHE_SIZE].occupied && cache[id % CAP_CACHE_SIZE].capId == id
  }

  /** Some entries were dropped and nothing else changed. */
  ghost predicate Dropped(cache: seq<CacheEntry>, cache': seq<CacheEntry>)
  {
    && |cache| == |cache'|
    && forall k :: 0 <= k < |cache| ==> cache'[k] == cache[k] || cache'[k] == cache[k].(occupied := false)
  }

  lemma DroppedStays(cache: seq<CacheEntry>, cache': seq<CacheEntry>, id: nat)
    requires |cache| == CAP_CACHE_SIZE && Dropped(cache, cache') && !Cached(cache, id)
    ensures !Cached(cache', id)
  {
    var k := id % CAP_CACHE_SIZE;
    assert cache'[k] == cache[k] || cache'[k] == cache[k].(occupied := false);
  }

  lemma DroppedTwice(a: seq<CacheEntry>, b: seq<CacheEntry>, c: seq<CacheEntry>)
    requires Dropped(a, b) && Dropped(b, c)
    ensures Dropped(a, c)
  {
    forall k | 0 <= k < |a|
      ensures c[k] == a[k] || c[k] == a[k].(occupied := false)
    {
      assert b[k] == a[k] || b[k] == a[k].(occupied := false);
    }
  }

  /** Some capability of pid in the table that passes the uncached test grants the rights on the object. */
  ghost predicate Granted(mac: Mac, t: Caps, pid: nat, objectId: nat, required: bv32, now: nat)
  {
    exists id: nat :: Matches(t, pid, objectId, required, id) && Uncached(mac, At(t, id), now)
  }

  predicate Matches(t: Caps, pid: nat, objectId: nat, required: bv32, id: nat)
  {
    && Present(t, id) && At(t, id).owner == pid
    && (At(t, id).objectId == objectId || At(t, id).objectType == System)
    && Subset(required, At(t, id).rights)
  }

  /** pit_get_ticks */
  method Ticks() returns (t: nat)
    ensures t < U64
  {
    t :| 0 <= t < U64;
  }

  class CapSystem {
    const mac: Mac
    const table: array<Cap>
    const cache: array<CacheEntry>
    var count: nat
    var nextId: nat

    ghost predicate Valid()
      reads this, table, cache
    {
      && table.Length == CAP_TABLE_SIZE && cache.Length == CAP_CACHE_SIZE
      && Inv(mac, table[..], nextId) && CacheOk(cache[..]) && count < nextId < U64
    }

    ghost function St(): State
      reads this, table
    {
      State(table[..], nextId)
    }

    /** cap_init: one root capability for the system. */
    constructor (mac: Mac, now: nat)
      ensures Valid() && fresh(table) && fresh(cache) && this.mac == mac
      ensures St() == Step(mac, State(Empty(), 1), Create(0, System, 0, CAP_ALL, now))
      ensures RevokedClosed(table[..])
    {
      hide Inv;
      hide RevokedClosed;
      hide NewCap;
      this.mac := mac;
      table := new Cap[CAP_TABLE_SIZE](_ => Cap(0, 0, TableRow, 0, 0, NoSeal(), 0, 0, 0, false));
      cache := new CacheEntry[CAP_CACHE_SIZE](_ => CacheEntry(0, 0, false, false));
      count, nextId := 0, 1;
      new;
      assert table[..] == Empty();
      EmptyInv(mac);
      StepInv(mac, St(), Create(0, System, 0, CAP_ALL, now));
      NewCapFresh(mac, 1, 0, System, 0, CAP_ALL, 0, now);
      var root := NewCap(mac, 1, 0, System, 0, CAP_ALL, 0, now);
      nextId := 2;
      var code := Insert(root);
    }

    /** cap_table_insert */
    method Insert(c: Cap) returns (code: Code)
      requires table.Length == CAP_TABLE_SIZE
      modifies table, this`count
      ensures code.Ok? <==> old(count) < CAP_TABLE_SIZE && 1 <= c.capId <= CAP_TABLE_SIZE
      ensures code.Ok? || code.Full?
      ensures table[..] == if code.Ok? then old(table[..])[c.capId - 1 := c] else old(table[..])
      ensures count == if code.Ok? then old(count) + 1 else old(count)
    {
      if count >= CAP_TABLE_SIZE || c.capId == 0 || c.capId > CAP_TABLE_SIZE {
        return Full;
      }
      table[c.capId - 1] := c;
      count := count + 1;
      code := Ok;
    }

    /** cap_create followed by cap_table_insert, as process_create and exec_grant do. The table takes
        the capability exactly when its id is at most 1024. */
    method CreateRoot(objectId: nat, objectType: ObjectType, owner: nat, rights: bv32, now: nat) returns (id: nat, code: Code)
      requires Valid() && nextId + 1 < U64
      modifies this`nextId, this`count, table
      ensures Valid() && St() == Step(mac, old(St()), Create(objectId, objectType, owner, rights, now))
      ensures id == old(nextId) && (code.Ok? <==> id <= CAP_TABLE_SIZE) && (code.Ok? || code.Full?)
    {
      hide Inv;
      hide NewCap;
      hide CacheOk;
      StepInv(mac, St(), Create(objectId, objectType, owner, rights, now));
      NewCapFresh(mac, nextId, objectId, objectType, owner, rights, 0, now);
      InvNext(mac, table[..], nextId);
      id := nextId;
      var c := NewCap(mac, nextId, objectId, objectType, owner, rights, 0, now);
      nextId := nextId + 1;
      code := Insert(c);
    }

    /** cap_validate on any capability: the answer, and when the cache stays free of failures. */
    method Validate(c: Cap, expiryNow: nat, cacheNow: nat) returns (valid: bool)
      requires cache.Length == CAP_CACHE_SIZE && CacheOk(cache[..])
      modifies cache
      ensures valid <==> Validated(mac, old(cache[c.capId % CAP_CACHE_SIZE]), c, expiryNow, cacheNow)
      ensures cache[..] == Stored(mac, old(cache[..]), c, expiryNow, cacheNow)
      ensures CacheOk(cache[..]) <==>
        Stores(old(cache[c.capId % CAP_CACHE_SIZE]), c, expiryNow, cacheNow) ==> Sealed(mac, c)
    {
      if c.revoked {
        return false;
      }
      if c.expiresAt != 0 && expiryNow > c.expiresAt {
        return false;
      }
      var idx := c.capId % CAP_CACHE_SIZE;
      if cache[idx].occupied && cache[idx].capId == c.capId && Elapsed(cacheNow, cache[idx].validatedAt) < CAP_CACHE_TTL {
        return cache[idx].valid;
      }
      var tmp := Seal(mac, c);
      valid := Hmac.Verify(c.hmac, tmp.hmac, 32);
      cache[idx] := CacheEntry(c.capId, cacheNow, valid, true);
      assert cache[..] == old(cache[..])[idx := CacheEntry(c.capId, cacheNow, valid, true)];
    }

    /** cap_validate on a table entry decides what the uncached test decides. */
    method ValidateEntry(id: nat) returns (valid: bool)
      requires Valid() && Present(table[..], id)
      modifies cache
      ensures Valid() && (valid <==> !table[id - 1].revoked)
    {
      hide SealedBytes;
      var c := table[id - 1];
      assert Entry(mac, table[..], nextId, id);
      var now := Ticks();
      var later := Ticks();
      CachedIsUncached(mac, cache[..], c.capId % CAP_CACHE_SIZE, c, now, later);
      valid := Validate(c, now, later);
    }

    /** cap_check: for a process other than the kernel, whether some valid capability in the table
        grants the rights, at any time it may be asked. */
    method Check(pid: nat, objectId: nat, required: bv32) returns (granted: bool)
      requires Valid()
      modifies cache
      ensures Valid()
      ensures forall now :: granted <==> pid == 0 || Granted(mac, table[..], pid, objectId, required, now)
    {
      hide Inv;
      hide Subset;
      hide Sealed;
      hide CacheOk;
      if pid == 0 {
        return true;
      }
      GrantedTimeless(mac, table[..], nextId, pid, objectId, required);
      ghost var t := table[..];
      var i := 1;
      while i < nextId
        invariant 1 <= i <= nextId && Valid() && table[..] == t
        invariant forall id: nat :: Matches(t, pid, objectId, required, id) && !At(t, id).revoked ==> i <= id
      {
        var match_ := Present(table[..], i) && table[i - 1].owner == pid
          && (table[i - 1].objectId == objectId || table[i - 1].objectType == System)
          && Subset(required, table[i - 1].rights);
        if match_ {
          var valid := ValidateEntry(i);
          if valid {
            assert Matches(t, pid, objectId, required, i) && !At(t, i).revoked;
            return true;
          }
        }
        i := i + 1;
      }
      BelowNext(mac, t, nextId);
      granted := false;
    }

    /** cap_grant: a child with a subset of the rights, for a valid parent that the granter owns and
        that may be granted. */
    method Grant(granter: nat, id: nat, target: nat, rights: bv32, now: nat) returns (code: Code)
      requires Valid() && nextId + 1 < U64
      modifies this`nextId, this`count, table, cache
      ensures Valid() && St() == Step(mac, old(St()), CapModel.Grant(granter, id, target, rights, now))
      ensures code.NotFound? <==> !Present(old(table[..]), id)
      ensures code.Ok? <==> MayGrant(old(table[..]), granter, id) && old(nextId) <= CAP_TABLE_SIZE
      ensures code.CapInvalid? <==> Present(old(table[..]), id) && old(table[id - 1].owner) == granter && old(table[id - 1].revoked)
      ensures code.Full? <==> MayGrant(old(table[..]), granter, id) && old(nextId) > CAP_TABLE_SIZE
      ensures code.Perm? <==>
        && Present(old(table[..]), id)
        && (old(table[id - 1].owner) != granter || (!old(table[id - 1].revoked) && !CanGrant(old(table[id - 1].rights))))
    {
      hide Inv;
      hide NewCap;
      hide CacheOk;
      hide CanGrant;
      hide Masked;
      hide Sealed;
      hide DerivedFrom;
      StepInv(mac, St(), CapModel.Grant(granter, id, target, rights, now));
      InvNext(mac, table[..], nextId);
      if !Present(table[..], id) {
        return NotFound;
      }
      if table[id - 1].owner != granter {
        return Perm;
      }
      var valid := ValidateEntry(id);
      if !valid {
        return CapInvalid;
      }
      if !CanGrant(table[id - 1].rights) {
        return Perm;
      }
      var p := table[id - 1];
      GrantedCapFresh(mac, St(), CapModel.Grant(granter, id, target, rights, now));
      var c := NewCap(mac, nextId, p.objectId, p.objectType, target, Masked(rights, p.rights), id, now);
      nextId := nextId + 1;
      code := Insert(c);
    }

    /** cap_cache_invalidate */
    method Invalidate(id: nat)
      requires cache.Length == CAP_CACHE_SIZE && CacheOk(cache[..])
      modifies cache
      ensures CacheOk(cache[..]) && !Cached(cache[..], id) && Dropped(old(cache[..]), cache[..])
      ensures forall k :: 0 <= k < CAP_CACHE_SIZE && k != id % CAP_CACHE_SIZE ==> cache[k] == old(cache[k])
    {
      var idx := id % CAP_CACHE_SIZE;
      if cache[idx].capId == id {
        cache[idx] := cache[idx].(occupied := false);
      }
    }

    /** cap_delegate: the capability gets another owner and a seal for that owner. */
    method Delegate(sender: nat, id: nat, receiver: nat) returns (code: Code)
      requires Valid()
      modifies table, cache
      ensures Valid() && St() == Step(mac, old(St()), CapModel.Delegate(sender, id, receiver))
      ensures code.NotFound? <==> !Present(old(table[..]), id)
      ensures code.Ok? <==> MayDelegate(old(table[..]), sender, id)
      ensures code.Ok? ==> !Cached(cache[..], id)
      ensures code.CapInvalid? <==> Present(old(table[..]), id) && old(table[id - 1].owner) == sender && old(table[id - 1].revoked)
      ensures code.Perm? <==> Present(old(table[..]), id) && old(table[id - 1].owner) != sender
    {
      hide Inv;
      hide CacheOk;
      hide Seal;
      StepInv(mac, St(), CapModel.Delegate(sender, id, receiver));
      if !Present(table[..], id) {
        return NotFound;
      }
      if table[id - 1].owner != sender {
        return Perm;
      }
      var valid := ValidateEntry(id);
      if !valid {
        return CapInvalid;
      }
      table[id - 1] := Seal(mac, table[id - 1].(owner := receiver));
      Invalidate(id);
      code := Ok;
    }

    /** cap_revoke: the target and, recursively, its unrevoked children, each only if the revoker owns
        it or is the kernel. */
    method Revoke(pid: nat, id: nat) returns (code: Code)
      requires Valid()
      modifies table, cache
      ensures Valid() && table[..] == Cascaded(old(table[..]), pid, id)
      ensures code.NotFound? <==> !Present(old(table[..]), id)
      ensures code.Ok? <==> MayRevoke(old(table[..]), pid, id)
      ensures code.Perm? <==> Present(old(table[..]), id) && !MayRevoke(old(table[..]), pid, id)
      ensures Dropped(old(cache[..]), cache[..])
      ensures forall x: nat :: InCascade(old(table[..]), pid, id, x) ==> !Cached(cache[..], x)
      decreases if id < nextId then nextId - id else 0
    {
      hide Inv;
      hide CacheOk;
      hide Cascaded;
      hide Marked;
      hide InCascade;
      hide Reached;
      hide Cached;
      hide Dropped;
      ghost var t := table[..];
      DroppedNone(cache[..]);
      CascadeInv(mac, t, nextId, pid, id);
      InvOrdered(mac, t, nextId);
      BelowNext(mac, t, nextId);
      if !MayRevoke(t, pid, id) {
        CascadeDenied(t, pid, id);
        NoneInCascade(t, pid, id);
      }
      if !Present(table[..], id) {
        return NotFound;
      }
      if table[id - 1].owner != pid && pid != 0 {
        return Perm;
      }
      table[id - 1] := table[id - 1].(revoked := true);
      CascadeStart(t, pid, id);
      MarkedInv(mac, t, nextId, pid, id, 1);
      OnlyTarget(t, pid, id);
      Invalidate(id);
      var i := 1;
      while i < nextId
        invariant 1 <= i <= nextId && Valid() && table[..] == Marked(t, pid, id, i)
        invariant Dropped(old(cache[..]), cache[..])
        invariant forall x: nat :: Reached(t, pid, id, i, x) ==> !Cached(cache[..], x)
      {
        CascadeRound(t, pid, id, i);
        MarkedSame(t, pid, id, i);
        ReachedRound(t, pid, id, i);
        ghost var cache1 := cache[..];
        if Present(table[..], i) && table[i - 1].parent == id && !table[i - 1].revoked {
          var _ := Revoke(pid, i);
          DroppedTwice(old(cache[..]), cache1, cache[..]);
          StillUncached(cache1, cache[..]);
        }
        i := i + 1;
      }
      CascadeEnd(t, pid, id, nextId);
      AllReached(t, pid, id, nextId);
      code := Ok;
    }
  }

  lemma InvNext(mac: Mac, t: Caps, nextId: nat)
    requires Inv(mac, t, nextId)
    ensures |t| == CAP_TABLE_SIZE && !Present(t, nextId)
  {
  }

  lemma BelowNext(mac: Mac, t: Caps, nextId: nat)
    requires Inv(mac, t, nextId)
    ensures forall id: nat :: Present(t, id) ==> id < nextId
  {
    forall id: nat | Present(t, id)
      ensures id < nextId
    {
      assert Entry(mac, t, nextId, id);
    }
  }

  lemma MarkedInv(mac: Mac, t: Caps, nextId: nat, pid: nat, target: nat, i: nat)
    requires Inv(mac, t, nextId)
    ensures Inv(mac, Marked(t, pid, target, i), nextId)
  {
    hide Inv;
    RevokedInv(mac, t, Marked(t, pid, target, i), nextId);
  }

  lemma MarkedSame(t: Caps, pid: nat, target: nat, i: nat)
    ensures |Marked(t, pid, target, i)| == |t|
    ensures Present(Marked(t, pid, target, i), i) <==> Present(t, i)
    ensures Present(t, i) ==> At(Marked(t, pid, target, i), i).parent == At(t, i).parent
  {
  }

  /** Table entries never expire and are all sealed, so a right does not depend on the time. */
  lemma GrantedTimeless(mac: Mac, t: Caps, nextId: nat, pid: nat, objectId: nat, required: bv32)
    requires Inv(mac, t, nextId)
    ensures forall now :: Granted(mac, t, pid, objectId, required, now) <==>
      exists id: nat :: Matches(t, pid, objectId, required, id) && !At(t, id).revoked
  {
    hide Subset;
    hide Sealed;
    forall id: nat, now | Present(t, id)
      ensures Uncached(mac, At(t, id), now) <==> !At(t, id).revoked
    {
      assert Entry(mac, t, nextId, id);
    }
  }

  lemma DroppedNone(cache: seq<CacheEntry>)
    ensures Dropped(cache, cache)
  {
  }

  lemma StillUncached(cache: seq<CacheEntry>, cache': seq<CacheEntry>)
    requires |cache| == CAP_CACHE_SIZE && Dropped(cache, cache')
    ensures |cache'| == CAP_CACHE_SIZE && forall x: nat :: !Cached(cache, x) ==> !Cached(cache', x)
  {
    forall x: nat | !Cached(cache, x)
      ensures !Cached(cache', x)
    {
      DroppedStays(cache, cache', x);
    }
  }

  lemma NoneInCascade(t: Caps, pid: nat, target: nat)
    requires !MayRevoke(t, pid, target)
    ensures forall x: nat :: !InCascade(t, pid, target, x)
  {
    forall x: nat
      ensures !InCascade(t, pid, target, x)
    {
      NoCascade(t, pid, target, x);
    }
  }

  lemma OnlyTarget(t: Caps, pid: nat, target: nat)
    requires MayRevoke(t, pid, target)
    ensures forall x: nat :: Reached(t, pid, target, 1, x) ==> x == target
  {
    forall x: nat
      ensures Reached(t, pid, target, 1, x) ==> x == target
    {
      ReachedStart(t, pid, target, x);
    }
  }

  /** What one more round of the cascade's loop reaches. */
  lemma ReachedRound(t: Caps, pid: nat, target: nat, i: nat)
    requires MayRevoke(t, pid, target) && 1 <= i && (Present(t, i) ==> At(t, i).parent < i)
    ensures var t1 := Marked(t, pid, target, i);
      var descend := Present(t1, i) && At(t1, i).parent == target && !At(t1, i).revoked;
      forall x: nat :: Reached(t, pid, target, i + 1, x) ==>
        Reached(t, pid, target, i, x) || (descend && InCascade(t1, pid, i, x))
  {
    hide InCascade;
    hide Reached;
    var t1 := Marked(t, pid, target, i);
    assert Present(t1, i) <==> Present(t, i);
    if Present(t, i) && At(t, i).parent == target && !At(t, i).revoked {
      forall x: nat
        ensures Reached(t, pid, target, i + 1, x) ==> Reached(t, pid, target, i, x) || InCascade(t1, pid, i, x)
      {
        ReachedStep(t, pid, target, i, x);
        MarkedCascade(t, pid, target, i, x);
      }
      NotYet(t, pid, target, i);
    } else {
      forall x: nat
        ensures Reached(t, pid, target, i + 1, x) ==> Reached(t, pid, target, i, x)
      {
        ReachedSkip(t, pid, target, i, x);
      }
    }
  }

  lemma NotYet(t: Caps, pid: nat, target: nat, i: nat)
    requires Present(t, i) && At(t, i).parent == target && target < i && !At(t, i).revoked
    ensures !At(Marked(t, pid, target, i), i).revoked
  {
  }

  lemma AllReached(t: Caps, pid: nat, target: nat, i: nat)
    requires MayRevoke(t, pid, target) && forall id: nat :: Present(t, id) ==> id < i
    ensures forall x: nat :: InCascade(t, pid, target, x) ==> Reached(t, pid, target, i, x)
  {
    forall x: nat
      ensures InCascade(t, pid, target, x) ==> Reached(t, pid, target, i, x)
    {
      ReachedAll(t, pid, target, i, x);
    }
  }
}
