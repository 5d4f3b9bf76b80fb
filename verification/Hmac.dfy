/**
 * The keyed hash of kernel/crypto/hmac.c, which keeps the hash contexts after the two pads and
 * clones them for each message, against the definition of RFC 2104 section 2.
 */
module Hmac {
  import opened Sha256

  // ---------- the definition ----------

  /** The key, hashed if it is longer than a block, filled up with zeros to a block. */
  ghost function BlockKey(f: Compression, key: seq<bv8>): (k: seq<bv8>)
    ensures |k| == BLOCK
  {
    if |key| > BLOCK then Hash(f, key) + Zeros(BLOCK - 32) else key + Zeros(BLOCK - |key|)
  }

  function Xored(k: seq<bv8>, b: bv8): (r: seq<bv8>)
    ensures |r| == |k|
  {
    seq(|k|, i requires 0 <= i < |k| => k[i] ^ b)
  }

  ghost function Rfc2104(f: Compression, key: seq<bv8>, text: seq<bv8>): (mac: seq<bv8>)
    ensures |mac| == 32
  {
    Hash(f, Xored(BlockKey(f, key), 0x5C) + Hash(f, Xored(BlockKey(f, key), 0x36) + text))
  }

  // ---------- the context ----------

  class HmacContext {
    const f: Compression
    var inner: Context
    var outer: Context

    ghost const key: seq<bv8>

    ghost predicate Valid()
      reads this, inner, outer
    {
      && inner.Valid() && outer.Valid() && inner.f == f && outer.f == f
      && inner.msg == Xored(BlockKey(f, key), 0x36) && outer.msg == Xored(BlockKey(f, key), 0x5C)
    }

    /** hmac_ctx_init */
    constructor (f: Compression, key: seq<bv8>)
      requires |key| < LIMIT
      ensures Valid() && this.f == f && this.key == key && fresh(inner) && fresh(outer)
    {
      hide Hash;
      hide Zeros;
      var keyBlock: seq<bv8>;
      if |key| > BLOCK {
        var digest := new bv8[32];
        OneShot(f, key, digest);
        keyBlock := digest[..] + Zeros(BLOCK - 32);
      } else {
        keyBlock := key + Zeros(BLOCK - |key|);
      }
      this.f, this.key := f, key;
      var i := new Context(f);
      var o := new Context(f);
      var pad := XorPad(keyBlock, 0x36);
      i.Update(pad);
      pad := XorPad(keyBlock, 0x5C);
      o.Update(pad);
      inner, outer := i, o;
    }

    /** hmac_ctx_compute: the context stays as it is, so it can be used again. */
    method Compute(data: seq<bv8>, mac: array<bv8>)
      requires Valid() && |data| + BLOCK < LIMIT && mac.Length == 32
      modifies mac
      ensures mac[..] == Rfc2104(f, key, data) && Valid()
    {
      hide Hash;
      hide BlockKey;
      hide Xored;
      var innerHash := new bv8[32];
      var i := new Context.Clone(inner);
      i.Update(data);
      i.Final(innerHash);
      var o := new Context.Clone(outer);
      o.Update(innerHash[..]);
      o.Final(mac);
    }
  }

  method XorPad(keyBlock: seq<bv8>, b: bv8) returns (pad: seq<bv8>)
    ensures pad == Xored(keyBlock, b)
  {
    pad := [];
    var i := 0;
    while i < |keyBlock|
      invariant i <= |keyBlock| && |pad| == i && forall k :: 0 <= k < i ==> pad[k] == keyBlock[k] ^ b
    {
      pad := pad + [keyBlock[i] ^ b];
      i := i + 1;
    }
  }

  /** sha256 */
  method OneShot(f: Compression, data: seq<bv8>, digest: array<bv8>)
    requires |data| < LIMIT && digest.Length == 32
    modifies digest
    ensures digest[..] == Hash(f, data)
  {
    hide Hash;
    var c := new Context(f);
    c.Update(data);
    assert [] + data == data;
    c.Final(digest);
  }

  /** hmac_sha256 */
  method Compute(f: Compression, key: seq<bv8>, data: seq<bv8>, mac: array<bv8>)
    requires |key| < LIMIT && |data| + BLOCK < LIMIT && mac.Length == 32
    modifies mac
    ensures mac[..] == Rfc2104(f, key, data)
  {
    var c := new HmacContext(f, key);
    c.Compute(data, mac);
  }

  /** hmac_verify: accumulates the differences of all len bytes. */
  method Verify(expected: seq<bv8>, computed: seq<bv8>, len: nat) returns (same: bool)
    requires len <= |expected| && len <= |computed|
    ensures same <==> expected[..len] == computed[..len]
  {
    var diff: bv8, i := 0, 0;
    while i < len
      invariant i <= len
      invariant diff == 0 <==> forall k :: 0 <= k < i ==> expected[k] == computed[k]
    {
      Accumulate(diff, expected[i], computed[i]);
      diff := diff | (expected[i] ^ computed[i]);
      i := i + 1;
    }
    same := diff == 0;
    assert expected[..len] == computed[..len] <==> forall k :: 0 <= k < len ==> expected[..len][k] == computed[..len][k];
  }

  lemma Accumulate(d: bv8, a: bv8, b: bv8)
    ensures d | (a ^ b) == 0 <==> d == 0 && a == b
  {
  }
}
