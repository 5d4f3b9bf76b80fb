/**
 * The streaming hash of kernel/crypto/sha256.c against the one-shot definition of FIPS 180-4
 * (section 5.1.1 padding, section 6.2 iteration). The compression of one block is an arbitrary
 * function, so the results hold for whatever sha256_transform computes.
 */
module Sha256 {
  type Words = s: seq<bv32> | |s| == 8 witness [0, 0, 0, 0, 0, 0, 0, 0]
  type Compression = (Words, seq<bv8>) -> Words

  const BLOCK: nat := 64
  const LIMIT: nat := 0x2000_0000_0000_0000

  function InitialHash(): Words
  {
    [0x6a09e667, 0xbb67ae85, 0x3c6ef372, 0xa54ff53a, 0x510e527f, 0x9b05688c, 0x1f83d9ab, 0x5be0cd19]
  }

  // ---------- the definition ----------

  /** The compression of the 64-byte blocks of m, one after the other. */
  ghost function Fold(f: Compression, h: Words, m: seq<bv8>): Words
  {
    if |m| < BLOCK then h else f(Fold(f, h, m[..|m| - BLOCK]), m[|m| - BLOCK..])
  }

  function Zeros(n: nat): (s: seq<bv8>)
    ensures |s| == n
  {
    seq(n, _ => 0)
  }

  /** Byte j of n, counted from the lowest. */
  function ByteOf(n: nat, j: nat): bv8
  {
    if j == 0 then (n % 256) as bv8 else ByteOf(n / 256, j - 1)
  }

  /** n as k bytes, highest first. */
  function Be(n: nat, k: nat): (s: seq<bv8>)
    ensures |s| == k
  {
    if k == 0 then [] else Be(n / 256, k - 1) + [(n % 256) as bv8]
  }

  /** The number of zero bytes that bring len + 1 bytes to 8 short of a multiple of the block size. */
  function ZeroCount(len: nat): (k: nat)
  {
    (119 - len % BLOCK) % BLOCK
  }

  /** It is the smallest number of zero bytes that does so. */
  lemma ZeroCountLeast(len: nat, k: nat)
    ensures (len + 1 + ZeroCount(len) + 8) % BLOCK == 0
    ensures (len + 1 + k + 8) % BLOCK == 0 ==> ZeroCount(len) <= k
  {
  }

  lemma ZeroCountIs(len: nat)
    ensures ZeroCount(len) == if len % BLOCK < 56 then 55 - len % BLOCK else 119 - len % BLOCK
  {
  }

  /** The padded message: the bit 1, zero bits, and the length in bits as a 64-bit number. */
  ghost function Padded(m: seq<bv8>): seq<bv8>
  {
    m + [0x80] + Zeros(ZeroCount(|m|)) + Be(8 * |m|, 8)
  }

  function WordByte(w: bv32, j: nat): bv8
  {
    if j == 0 then (w >> 24) as bv8 else if j == 1 then ((w >> 16) & 0xFF) as bv8
    else if j == 2 then ((w >> 8) & 0xFF) as bv8 else (w & 0xFF) as bv8
  }

  /** The words as bytes, each highest byte first. */
  function Output(s: Words): (d: seq<bv8>)
    ensures |d| == 32
  {
    seq(32, i requires 0 <= i < 32 => WordByte(s[i / 4], i % 4))
  }

  ghost function Hash(f: Compression, m: seq<bv8>): (d: seq<bv8>)
    ensures |d| == 32
  {
    Output(Fold(f, InitialHash(), Padded(m)))
  }

  // ---------- folding ----------

  lemma FoldBlock(f: Compression, h: Words, m: seq<bv8>, b: seq<bv8>)
    requires |b| == BLOCK
    ensures Fold(f, h, m + b) == f(Fold(f, h, m), b)
  {
    assert (m + b)[..|m + b| - BLOCK] == m && (m + b)[|m + b| - BLOCK..] == b;
  }

  lemma {:induction false} BeAt(n: nat, k: nat, i: nat)
    requires i < k
    ensures Be(n, k)[i] == ByteOf(n, k - 1 - i)
  {
    if i < k - 1 { BeAt(n / 256, k - 1, i); }
  }

  /** The part of a message that is still in the buffer. */
  ghost function Rest(m: seq<bv8>): (r: seq<bv8>)
    ensures |r| == |m| % BLOCK
  {
    m[|m| - |m| % BLOCK..]
  }

  ghost function Whole(m: seq<bv8>): (w: seq<bv8>)
    ensures |w| == |m| - |m| % BLOCK
  {
    m[..|m| - |m| % BLOCK]
  }

  /** Whole blocks and a shorter rest are the split of their concatenation. */
  lemma SplitAt(w: seq<bv8>, r: seq<bv8>)
    requires |w| % BLOCK == 0 && |r| < BLOCK
    ensures Whole(w + r) == w && Rest(w + r) == r
  {
    assert |w + r| % BLOCK == |r|;
    assert (w + r)[..|w|] == w && (w + r)[|w|..] == r;
  }

  lemma ManyBlocks(n: nat, k: nat)
    requires n % BLOCK == 0
    ensures (n + k * BLOCK) % BLOCK == 0
  {
  }

  lemma SplitJoin(m: seq<bv8>)
    ensures Whole(m) + Rest(m) == m && |Whole(m)| % BLOCK == 0
  {
  }

  // ---------- the context ----------

  class Context {
    const f: Compression
    var state: Words
    var count: nat
    var buffer: seq<bv8>

    /** Everything hashed so far. */
    ghost var msg: seq<bv8>

    ghost predicate Valid()
      reads this
    {
      && |buffer| == BLOCK && count == |msg| < LIMIT
      && state == Fold(f, InitialHash(), Whole(msg)) && buffer[..count % BLOCK] == Rest(msg)
    }

    /** sha256_init */
    constructor (f: Compression)
      ensures Valid() && this.f == f && msg == []
    {
      this.f := f;
      state, count, buffer, msg := InitialHash(), 0, Zeros(BLOCK), [];
    }

    /** A copy of the context, as by struct assignment. */
    constructor Clone(c: Context)
      requires c.Valid()
      ensures Valid() && f == c.f && msg == c.msg
    {
      f, state, count, buffer, msg := c.f, c.state, c.count, c.buffer, c.msg;
    }

    /** sha256_update: whatever was hashed before, the data is appended. */
    method Update(data: seq<bv8>)
      requires Valid() && |msg| + |data| < LIMIT
      modifies this
      ensures Valid() && msg == old(msg) + data
    {
      hide Fold;
      hide Whole;
      hide Rest;
      SplitJoin(msg);
      ghost var w, r := Whole(msg), Rest(msg);
      assert (w + r) + data == w + (r + data);
      var buffered := count % BLOCK;
      count := count + |data|;
      msg := msg + data;
      if buffered == 0 {
        assert r + data == data;
        Blocks(data, w);
      } else {
        var need := BLOCK - buffered;
        if |data| < need {
          buffer := buffer[..buffered] + data + buffer[buffered + |data|..];
          SplitAt(w, r + data);
          assert buffer[..buffered + |data|] == r + data;
        } else {
          buffer := buffer[..buffered] + data[..need];
          FoldBlock(f, InitialHash(), w, buffer);
          state := f(state, buffer);
          assert w + (r + data) == (w + buffer) + data[need..];
          Blocks(data[need..], w + buffer);
        }
      }
    }

    /** The part of sha256_update that runs with an empty buffer. */
    method Blocks(data: seq<bv8>, ghost w: seq<bv8>)
      requires |w| % BLOCK == 0 && state == Fold(f, InitialHash(), w) && |buffer| == BLOCK
      requires count == |msg| < LIMIT && msg == w + data
      modifies this`state, this`buffer
      ensures Valid()
    {
      hide Fold;
      hide Whole;
      hide Rest;
      var pos := 0;
      ghost var k := 0;
      assert w + data[..0] == w;
      while |data| - pos >= BLOCK
        invariant pos == k * BLOCK && pos <= |data| && |buffer| == BLOCK
        invariant state == Fold(f, InitialHash(), w + data[..pos])
        modifies this`state
      {
        var block := data[pos..pos + BLOCK];
        FoldBlock(f, InitialHash(), w + data[..pos], block);
        assert w + data[..pos] + block == w + data[..pos + BLOCK];
        state := f(state, block);
        pos, k := pos + BLOCK, k + 1;
      }
      ManyBlocks(|w|, k);
      SplitAt(w + data[..pos], data[pos..]);
      assert w + data[..pos] + data[pos..] == msg;
      if pos < |data| {
        buffer := data[pos..] + buffer[|data| - pos..];
        assert buffer[..|data| - pos] == data[pos..];
      } else {
        assert buffer[..0] == data[pos..];
      }
    }

    /** sha256_final: the digest of everything hashed, whatever the calls it came in. */
    method Final(digest: array<bv8>)
      requires Valid() && digest.Length == 32
      modifies this`state, this`buffer, digest
      ensures digest[..] == Hash(f, msg)
    {
      hide Fold;
      hide Whole;
      hide Rest;
      hide Output;
      hide Padded;
      hide Zeros;
      hide Be;
      SplitJoin(msg);
      ghost var w, r := Whole(msg), Rest(msg);
      if |r| < 56 { PaddedOne(msg, w, r); } else { PaddedTwo(msg, w, r); }
      var bits := (count * 8) % 0x1_0000_0000_0000_0000;
      assert bits == 8 * |msg|;
      var padStart := count % BLOCK;
      buffer := buffer[..padStart] + [0x80] + buffer[padStart + 1..];
      padStart := padStart + 1;
      ghost var head := r + [0x80];
      assert buffer[..padStart] == head;
      if padStart > 56 {
        buffer := buffer[..padStart] + Zeros(BLOCK - padStart);
        FoldBlock(f, InitialHash(), w, buffer);
        state := f(state, buffer);
        w := w + buffer;
        padStart := 0;
        head := [];
      }
      buffer := buffer[..padStart] + Zeros(56 - padStart) + buffer[56..];
      AppendLength(bits);
      assert buffer == if head == [] then Zeros(56) + Be(bits, 8) else head + Zeros(56 - padStart) + Be(bits, 8);
      FoldBlock(f, InitialHash(), w, buffer);
      state := f(state, buffer);
      WriteDigest(digest);
    }

    /** The message length, highest byte first, in the last 8 bytes of the buffer. */
    method AppendLength(bits: nat)
      requires |buffer| == BLOCK
      modifies this`buffer
      ensures buffer == old(buffer)[..56] + Be(bits, 8)
    {
      hide Be;
      hide ByteOf;
      var i := 0;
      while i < 8
        invariant i <= 8 && |buffer| == BLOCK && buffer[..56] == old(buffer)[..56]
        invariant forall j :: 56 <= j < 56 + i ==> buffer[j] == ByteOf(bits, 63 - j)
      {
        buffer := buffer[56 + i := ByteOf(bits, 7 - i)];
        i := i + 1;
      }
      forall j | 56 <= j < BLOCK
        ensures buffer[j] == Be(bits, 8)[j - 56]
      {
        BeAt(bits, 8, j - 56);
      }
    }

    method WriteDigest(digest: array<bv8>)
      requires digest.Length == 32
      modifies digest
      ensures digest[..] == Output(state)
    {
      hide WordByte;
      var i := 0;
      while i < 8
        invariant i <= 8
        invariant forall k :: 0 <= k < 4 * i ==> digest[k] == Output(state)[k]
      {
        digest[i * 4] := WordByte(state[i], 0);
        digest[i * 4 + 1] := WordByte(state[i], 1);
        digest[i * 4 + 2] := WordByte(state[i], 2);
        digest[i * 4 + 3] := WordByte(state[i], 3);
        i := i + 1;
      }
    }
  }

  /** The padded message ends in one block if the rest leaves room for the length. */
  lemma PaddedOne(m: seq<bv8>, w: seq<bv8>, r: seq<bv8>)
    requires m == w + r && |r| == |m| % BLOCK < 56
    ensures Padded(m) == w + (r + [0x80] + Zeros(55 - |r|) + Be(8 * |m|, 8))
  {
    hide Be;
    hide Zeros;
    hide ZeroCount;
    ZeroCountIs(|m|);
    Regroup(m, w, r, [0x80], Zeros(55 - |r|), Be(8 * |m|, 8));
  }

  /** Otherwise it ends in two. */
  lemma PaddedTwo(m: seq<bv8>, w: seq<bv8>, r: seq<bv8>)
    requires m == w + r && |r| == |m| % BLOCK >= 56
    ensures Padded(m) == w + (r + [0x80] + Zeros(63 - |r|)) + (Zeros(56) + Be(8 * |m|, 8))
  {
    hide Be;
    hide Zeros;
    hide ZeroCount;
    ZeroCountTwo(|m|);
    ZerosJoin(63 - |r|, 56);
    RegroupTwo(m, w, r, [0x80], Zeros(ZeroCount(|m|)), Zeros(63 - |r|), Zeros(56), Be(8 * |m|, 8));
  }

  lemma ZeroCountTwo(n: nat)
    requires n % BLOCK >= 56
    ensures ZeroCount(n) == 63 - n % BLOCK + 56
  {
    ZeroCountIs(n);
  }

  lemma ZerosJoin(a: nat, b: nat)
    ensures Zeros(a + b) == Zeros(a) + Zeros(b)
  {
  }

  lemma Regroup(m: seq<bv8>, w: seq<bv8>, r: seq<bv8>, p: seq<bv8>, z: seq<bv8>, b: seq<bv8>)
    requires m == w + r
    ensures m + p + z + b == w + (r + p + z + b)
  {
    assert m + p == w + (r + p);
    assert w + (r + p) + z == w + (r + p + z);
  }

  lemma RegroupTwo(m: seq<bv8>, w: seq<bv8>, r: seq<bv8>, p: seq<bv8>, z: seq<bv8>, z1: seq<bv8>, z2: seq<bv8>, b: seq<bv8>)
    requires m == w + r && z == z1 + z2
    ensures m + p + z + b == w + (r + p + z1) + (z2 + b)
  {
    assert m + p + z == m + p + z1 + z2;
    Regroup(m, w, r, p, z1, []);
    assert r + p + z1 + [] == r + p + z1 && m + p + z1 + [] == m + p + z1;
  }
}
