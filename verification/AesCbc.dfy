/**
 * Cipher block chaining and padding of kernel/crypto/aes.c against NIST SP 800-38A
 * (section 6.2) and RFC 5652 (section 6.3).
 */
module AesCbc {
  import opened Bytes
  import opened AesField
  import opened Aes
  import opened AesCipher

  function BlockAt(s: seq<bv8>, j: nat): Block
    requires 16 * j + 16 <= |s|
  {
    s[16 * j..16 * j + 16]
  }

  /** Ciphertext block j: the cipher of the plaintext block added to the ciphertext block before. */
  ghost function CipherBlock(rk: Schedule, iv: Block, p: seq<bv8>, j: nat): Block
    requires 16 * j + 16 <= |p|
  {
    Encrypted(rk, Added(BlockAt(p, j), if j == 0 then iv else CipherBlock(rk, iv, p, j - 1)))
  }

  /** Plaintext block j: the deciphered block added to the ciphertext block before. */
  ghost function PlainBlock(rk: Schedule, iv: Block, c: seq<bv8>, j: nat): Block
    requires 16 * j + 16 <= |c|
  {
    Added(Decrypted(rk, BlockAt(c, j)), if j == 0 then iv else BlockAt(c, j - 1))
  }

  /** c is the CBC encryption of the whole blocks of p. */
  ghost predicate IsCipher(rk: Schedule, iv: Block, p: seq<bv8>, c: seq<bv8>)
  {
    |p| == |c| && forall j :: 0 <= j < |p| / 16 ==> BlockAt(c, j) == CipherBlock(rk, iv, p, j)
  }

  /** p is the CBC decryption of the whole blocks of c. */
  ghost predicate IsPlain(rk: Schedule, iv: Block, c: seq<bv8>, p: seq<bv8>)
  {
    |p| == |c| && forall j :: 0 <= j < |c| / 16 ==> BlockAt(p, j) == PlainBlock(rk, iv, c, j)
  }

  lemma RoundTripBlock(rk: Schedule, iv: Block, p: seq<bv8>, c: seq<bv8>, j: nat)
    requires IsCipher(rk, iv, p, c) && j < |p| / 16
    ensures PlainBlock(rk, iv, c, j) == BlockAt(p, j)
  {
    hide Encrypted;
    hide Decrypted;
    hide Added;
    hide BlockAt;
    var prev := if j == 0 then iv else CipherBlock(rk, iv, p, j - 1);
    assert BlockAt(c, j) == CipherBlock(rk, iv, p, j);
    if j > 0 { assert BlockAt(c, j - 1) == CipherBlock(rk, iv, p, j - 1); }
    DecryptEncrypt(rk, Added(BlockAt(p, j), prev));
    AddInverse(BlockAt(p, j), prev);
  }

  /** Texts with equal blocks are equal. */
  lemma SameBlocks(p: seq<bv8>, q: seq<bv8>)
    requires |p| == |q| && |p| % 16 == 0 && forall j :: 0 <= j < |p| / 16 ==> BlockAt(p, j) == BlockAt(q, j)
    ensures p == q
  {
    forall i | 0 <= i < |p|
      ensures p[i] == q[i]
    {
      var j := i / 16;
      assert BlockAt(p, j)[i - 16 * j] == BlockAt(q, j)[i - 16 * j];
    }
  }

  /** Decryption undoes encryption, for every key schedule, initial vector and text of whole blocks. */
  lemma RoundTrip(rk: Schedule, iv: Block, p: seq<bv8>, c: seq<bv8>, p': seq<bv8>)
    requires |p| % 16 == 0 && IsCipher(rk, iv, p, c) && IsPlain(rk, iv, c, p')
    ensures p' == p
  {
    hide IsCipher;
    hide PlainBlock;
    hide CipherBlock;
    assert |p| == |c| by { CipherSize(rk, iv, p, c); }
    forall j | 0 <= j < |p| / 16
      ensures BlockAt(p', j) == BlockAt(p, j)
    {
      RoundTripBlock(rk, iv, p, c, j);
    }
    SameBlocks(p', p);
  }

  lemma CipherSize(rk: Schedule, iv: Block, p: seq<bv8>, c: seq<bv8>)
    requires IsCipher(rk, iv, p, c)
    ensures |p| == |c|
  {
  }

  /** Adds 16 bytes of src and prev into dst. */
  method AddInto(src: array<bv8>, start: nat, prev: Block, dst: array<bv8>, off: nat)
    requires start + 16 <= src.Length && off + 16 <= dst.Length && src != dst
    modifies dst
    ensures At(dst, off) == Added(At(src, start), prev) && OnlyAt(dst, off)
  {
    hide Xor;
    var i := 0;
    while i < 16
      invariant i <= 16 && OnlyAt(dst, off)
      invariant forall k :: off <= k < off + i ==> dst[k] == Xor(src[start + (k - off)], prev[k - off])
    {
      dst[off + i] := Xor(src[start + i], prev[i]);
      i := i + 1;
    }
  }

  /** aes_cbc_encrypt */
  method Encrypt(rk: Schedule, iv: Block, plain: array<bv8>, cipher: array<bv8>, length: nat)
    requires length % 16 == 0 && length <= plain.Length && length <= cipher.Length && plain != cipher
    modifies cipher
    ensures IsCipher(rk, iv, plain[..length], cipher[..length])
    ensures forall k :: length <= k < cipher.Length ==> cipher[k] == old(cipher[k])
  {
    hide Encrypted;
    hide Added;
    hide CipherBlock;
    var prev, off := iv, 0;
    ghost var j := 0;
    ghost var p := plain[..length];
    while off < length
      invariant off == 16 * j && off <= length && p == plain[..length]
      invariant prev == if j == 0 then iv else CipherBlock(rk, iv, p, j - 1)
      invariant forall m :: 0 <= m < j ==> BlockAt(cipher[..length], m) == CipherBlock(rk, iv, p, m)
      invariant forall k :: length <= k < cipher.Length ==> cipher[k] == old(cipher[k])
    {
      AtIsBlock(plain, length, j);
      ghost var before := cipher[..length];
      AddInto(plain, off, prev, cipher, off);
      EncryptAt(rk, cipher, off);
      BlocksKept(before, cipher[..length], j);
      CipherStep(rk, iv, p, j, prev);
      AtIsBlock(cipher, length, j);
      prev := cipher[off..off + 16];
      off, j := off + 16, j + 1;
    }
  }

  lemma AtIsBlock(a: array<bv8>, length: nat, j: nat)
    requires 16 * j + 16 <= length <= a.Length
    ensures At(a, 16 * j) == BlockAt(a[..length], j)
  {
    var s, t := At(a, 16 * j), BlockAt(a[..length], j);
    assert forall k :: 0 <= k < 16 ==> s[k] == a[16 * j + k] && t[k] == a[16 * j + k];
  }

  lemma BlocksKept(before: seq<bv8>, after: seq<bv8>, j: nat)
    requires |before| == |after| && 16 * j <= |before| && forall k :: 0 <= k < 16 * j ==> after[k] == before[k]
    ensures forall m :: 0 <= m < j ==> BlockAt(after, m) == BlockAt(before, m)
  {
  }

  lemma CipherStep(rk: Schedule, iv: Block, p: seq<bv8>, j: nat, prev: Block)
    requires 16 * j + 16 <= |p| && prev == if j == 0 then iv else CipherBlock(rk, iv, p, j - 1)
    ensures CipherBlock(rk, iv, p, j) == Encrypted(rk, Added(BlockAt(p, j), prev))
  {
  }

  /** aes_cbc_decrypt */
  method Decrypt(rk: Schedule, iv: Block, cipher: array<bv8>, plain: array<bv8>, length: nat)
    requires length % 16 == 0 && length <= plain.Length && length <= cipher.Length && plain != cipher
    modifies plain
    ensures IsPlain(rk, iv, cipher[..length], plain[..length])
    ensures forall k :: length <= k < plain.Length ==> plain[k] == old(plain[k])
  {
    hide Decrypted;
    hide Added;
    var prev, off := iv, 0;
    ghost var j := 0;
    ghost var c := cipher[..length];
    while off < length
      invariant off == 16 * j && off <= length && c == cipher[..length]
      invariant prev == if j == 0 then iv else BlockAt(c, j - 1)
      invariant forall m :: 0 <= m < j ==> BlockAt(plain[..length], m) == PlainBlock(rk, iv, c, m)
      invariant forall k :: length <= k < plain.Length ==> plain[k] == old(plain[k])
    {
      var block := new bv8[16](i requires 0 <= i < 16 && off + i < cipher.Length reads cipher => cipher[off + i]);
      AtIsBlock(cipher, length, j);
      assert At(block, 0) == At(cipher, off);
      DecryptAt(rk, block, 0);
      ghost var before := plain[..length];
      AddInto(block, 0, prev, plain, off);
      BlocksKept(before, plain[..length], j);
      AtIsBlock(plain, length, j);
      prev := cipher[off..off + 16];
      off, j := off + 16, j + 1;
    }
  }

  // ---------- padding ----------

  /** aes_padded_size */
  function PaddedSize(n: nat): (r: nat)
    ensures r % 16 == 0 && n < r <= n + 16
  {
    (n / 16 + 1) * 16
  }

  /** The data followed by 1 to 16 bytes that say how many they are. */
  function Pkcs7(d: seq<bv8>): seq<bv8>
  {
    d + seq(PaddedSize(|d|) - |d|, _ => (PaddedSize(|d|) - |d|) as bv8)
  }

  /** aes_pkcs7_pad */
  method Pad(buf: array<bv8>, dataLen: nat, bufLen: nat)
    requires dataLen <= bufLen <= buf.Length
    modifies buf
    ensures forall k :: dataLen <= k < bufLen ==> buf[k] == ((bufLen - dataLen) % 256) as bv8
    ensures forall k :: 0 <= k < dataLen || bufLen <= k < buf.Length ==> buf[k] == old(buf[k])
    ensures bufLen == PaddedSize(dataLen) ==> buf[..bufLen] == Pkcs7(old(buf[..dataLen]))
  {
    var padByte := ((bufLen - dataLen) % 256) as bv8;
    var i := dataLen;
    while i < bufLen
      invariant dataLen <= i <= bufLen
      invariant forall k :: dataLen <= k < i ==> buf[k] == padByte
      invariant forall k :: 0 <= k < dataLen || i <= k < buf.Length ==> buf[k] == old(buf[k])
    {
      buf[i] := padByte;
      i := i + 1;
    }
  }

  /** b is the padding of its first n bytes. */
  ghost predicate IsPadding(b: seq<bv8>, n: nat)
  {
    n <= |b| && b == Pkcs7(b[..n])
  }

  lemma ByteIs(b: bv8, x: nat)
    requires x < 256
    ensures b == x as bv8 <==> b as nat == x
  {
    ByteRoundTrip(x);
    BitsRoundTrip(b);
  }

  lemma SizeIs(n: nat, size: nat)
    ensures size == PaddedSize(n) <==> n < size <= n + 16 && size % 16 == 0
  {
  }

  /** What a padding looks like: whole blocks, ending in as many bytes as were added, all saying so. */
  lemma PaddingIs(b: seq<bv8>, n: nat)
    ensures IsPadding(b, n) <==>
      n < |b| <= n + 16 && |b| % 16 == 0 && forall k :: n <= k < |b| ==> b[k] as nat == |b| - n
  {
    hide PaddedSize;
    SizeIs(n, |b|);
    if n <= |b| && |b| == PaddedSize(n) {
      forall k | n <= k < |b|
        ensures b[k] == (|b| - n) as bv8 <==> b[k] as nat == |b| - n
      {
        ByteIs(b[k], |b| - n);
      }
      PaddingBytes(b, n);
    }
  }

  lemma PaddingBytes(b: seq<bv8>, n: nat)
    requires n <= |b| == PaddedSize(n)
    ensures IsPadding(b, n) <==> forall k :: n <= k < |b| ==> b[k] == (|b| - n) as bv8
  {
    var p := Pkcs7(b[..n]);
    assert forall k :: n <= k < |b| ==> p[k] == (|b| - n) as bv8;
    assert p[..n] == b[..n];
  }

  /** aes_pkcs7_unpad: a nonzero length exactly for the padding of that many bytes. */
  method Unpad(buf: array<bv8>, bufLen: nat) returns (n: nat)
    requires bufLen <= buf.Length
    ensures n > 0 ==> IsPadding(buf[..bufLen], n)
    ensures forall m: nat :: m > 0 && IsPadding(buf[..bufLen], m) ==> n == m
  {
    hide IsPadding;
    ghost var b := buf[..bufLen];
    forall m: nat
      ensures IsPadding(b, m) <==>
        m < |b| <= m + 16 && |b| % 16 == 0 && forall k :: m <= k < |b| ==> b[k] as nat == |b| - m
    {
      PaddingIs(b, m);
    }
    if bufLen == 0 || bufLen % 16 != 0 {
      return 0;
    }
    var pad := buf[bufLen - 1] as nat;
    assert b[bufLen - 1] as nat == pad;
    if pad == 0 || pad > 16 {
      return 0;
    }
    var i := bufLen - pad;
    while i < bufLen
      invariant bufLen - pad <= i <= bufLen
      invariant forall k :: bufLen - pad <= k < i ==> b[k] as nat == pad
    {
      assert b[i] == buf[i];
      if buf[i] as nat != pad {
        return 0;
      }
      i := i + 1;
    }
    n := bufLen - pad;
  }

  /** Data of every length is the only data with its padding, so unpadding recovers every nonzero
      length; an empty message gives 0, which also stands for failure. */
  lemma UnpadPad(d: seq<bv8>, n: nat)
    ensures IsPadding(Pkcs7(d), n) <==> n == |d|
  {
    var p := Pkcs7(d);
    PaddingIs(p, n);
    hide IsPadding;
    assert p[|p| - 1] == (PaddedSize(|d|) - |d|) as bv8;
    assert p[..|d|] == d;
  }
}
