/**
 * The block cipher, chaining and padding of kernel/crypto/aes.c, changing buffers in place,
 * against FIPS 197 (section 5), NIST SP 800-38A (section 6.2) and RFC 5652 (section 6.3).
 * The key schedule is an arbitrary sequence of 176 bytes.
 */
module Aes {
  import opened AesField

  const ROUNDS: nat := 10

  /** A 16-byte state, column after column. */
  type Block = s: seq<bv8> | |s| == 16 witness seq(16, _ => 0)

  type Schedule = s: seq<bv8> | |s| == 176 witness seq(176, _ => 0)

  // ---------- the rounds ----------

  function SubBytes(s: Block): Block
  {
    seq(16, i requires 0 <= i < 16 => SBox(s[i]))
  }

  function InvSubBytes(s: Block): Block
  {
    seq(16, i requires 0 <= i < 16 => InvSBox(s[i]))
  }

  /** Row r, the bytes r, r + 4, r + 8 and r + 12, moves left by r columns. */
  function ShiftRows(s: Block): Block
  {
    seq(16, i requires 0 <= i < 16 => s[Left(i)])
  }

  function InvShiftRows(s: Block): Block
  {
    seq(16, i requires 0 <= i < 16 => s[Right(i)])
  }

  function Left(i: nat): (j: nat)
    requires i < 16
    ensures j < 16
  {
    var j := i + 4 * (i % 4);
    if j < 16 then j else j - 16
  }

  function Right(i: nat): (j: nat)
    requires i < 16
    ensures j < 16
  {
    var j := i - 4 * (i % 4);
    if j < 0 then j + 16 else j
  }

  /** The index k rows below i, in the same column. */
  function Down(i: nat, k: nat): (j: nat)
    requires i < 16 && k < 4
    ensures j < 16
  {
    if i % 4 + k < 4 then i + k else i + k - 4
  }

  function MixColumns(s: Block): Block
  {
    seq(16, i requires 0 <= i < 16 => Mix(s[i], s[Down(i, 1)], s[Down(i, 2)], s[Down(i, 3)]))
  }

  function InvMixColumns(s: Block): Block
  {
    seq(16, i requires 0 <= i < 16 => InvMix(s[i], s[Down(i, 1)], s[Down(i, 2)], s[Down(i, 3)]))
  }

  function RoundKey(rk: Schedule, r: nat): Block
    requires r <= ROUNDS
  {
    seq(16, i requires 0 <= i < 16 => rk[16 * r + i])
  }

  function Added(s: Block, k: Block): Block
  {
    seq(16, i requires 0 <= i < 16 => Xor(s[i], k[i]))
  }

  // ---------- the cipher and its inverse ----------

  /** The state after round r of the cipher, r < 10. */
  function Encrypting(rk: Schedule, s: Block, r: nat): Block
    requires r < ROUNDS
  {
    if r == 0 then Added(s, RoundKey(rk, 0))
    else Added(MixColumns(ShiftRows(SubBytes(Encrypting(rk, s, r - 1)))), RoundKey(rk, r))
  }

  function Encrypted(rk: Schedule, s: Block): Block
  {
    Added(ShiftRows(SubBytes(Encrypting(rk, s, ROUNDS - 1))), RoundKey(rk, ROUNDS))
  }

  /** The state before the inverse of round r - 1, counting down from 10. */
  function Decrypting(rk: Schedule, s: Block, r: nat): Block
    requires 1 <= r <= ROUNDS
    decreases ROUNDS - r
  {
    if r == ROUNDS then Added(s, RoundKey(rk, ROUNDS))
    else InvMixColumns(Added(InvSubBytes(InvShiftRows(Decrypting(rk, s, r + 1))), RoundKey(rk, r)))
  }

  function Decrypted(rk: Schedule, s: Block): Block
  {
    Added(InvSubBytes(InvShiftRows(Decrypting(rk, s, 1))), RoundKey(rk, 0))
  }

  lemma SubInverse(s: Block)
    ensures InvSubBytes(SubBytes(s)) == s
  {
    hide SBox;
    hide InvSBox;
    forall i | 0 <= i < 16
      ensures InvSubBytes(SubBytes(s))[i] == s[i]
    {
      SBoxInverse(s[i]);
    }
  }

  lemma LeftRight(i: nat)
    requires i < 16
    ensures Left(Right(i)) == i
  {
  }

  lemma ShiftInverse(s: Block)
    ensures InvShiftRows(ShiftRows(s)) == s
  {
    hide Left;
    hide Right;
    forall i | 0 <= i < 16
      ensures InvShiftRows(ShiftRows(s))[i] == s[i]
    {
      LeftRight(i);
    }
  }

  lemma AddInverse(s: Block, k: Block)
    ensures Added(Added(s, k), k) == s
  {
    hide Xor;
    forall i | 0 <= i < 16
      ensures Added(Added(s, k), k)[i] == s[i]
    {
      XorTwice(s[i], k[i]);
    }
  }

  lemma DownDown(i: nat, j: nat, k: nat)
    requires i < 16 && j < 4 && k < 4
    ensures Down(Down(i, j), k) == if j + k < 4 then Down(i, j + k) else Down(i, j + k - 4)
  {
    assert Down(i, j) % 4 == if i % 4 + j < 4 then i % 4 + j else i % 4 + j - 4;
  }

  lemma DownNone(i: nat)
    requires i < 16
    ensures Down(i, 0) == i
  {
  }

  lemma MixInverse(s: Block)
    ensures InvMixColumns(MixColumns(s)) == s
  {
    hide Mix;
    hide InvMix;
    hide Down;
    forall i | 0 <= i < 16
      ensures InvMixColumns(MixColumns(s))[i] == s[i]
    {
      MixedDown(s, i, 1);
      MixedDown(s, i, 2);
      MixedDown(s, i, 3);
      DownNone(i);
      Unmixed(s[i], s[Down(i, 1)], s[Down(i, 2)], s[Down(i, 3)]);
    }
  }

  /** A mixed column, seen from the byte k rows below. */
  lemma MixedDown(s: Block, i: nat, k: nat)
    requires i < 16 && 1 <= k < 4
    ensures MixColumns(s)[Down(i, k)] ==
      if k == 1 then Mix(s[Down(i, 1)], s[Down(i, 2)], s[Down(i, 3)], s[Down(i, 0)])
      else if k == 2 then Mix(s[Down(i, 2)], s[Down(i, 3)], s[Down(i, 0)], s[Down(i, 1)])
      else Mix(s[Down(i, 3)], s[Down(i, 0)], s[Down(i, 1)], s[Down(i, 2)])
  {
    hide Mix;
    hide Down;
    DownDown(i, k, 1);
    DownDown(i, k, 2);
    DownDown(i, k, 3);
  }

  /** Before the inverse of round r, decryption is where encryption was in that round. */
  lemma {:induction false} DecryptingEncrypted(rk: Schedule, s: Block, r: nat)
    requires 1 <= r <= ROUNDS
    ensures Decrypting(rk, Encrypted(rk, s), r) == ShiftRows(SubBytes(Encrypting(rk, s, r - 1)))
    decreases ROUNDS - r
  {
    hide SubBytes;
    hide InvSubBytes;
    hide ShiftRows;
    hide InvShiftRows;
    hide MixColumns;
    hide InvMixColumns;
    hide Added;
    hide RoundKey;
    var before := ShiftRows(SubBytes(Encrypting(rk, s, r - 1)));
    if r == ROUNDS {
      AddInverse(before, RoundKey(rk, ROUNDS));
    } else {
      DecryptingEncrypted(rk, s, r + 1);
      SubInverse(Encrypting(rk, s, r));
      ShiftInverse(SubBytes(Encrypting(rk, s, r)));
      AddInverse(MixColumns(before), RoundKey(rk, r));
      MixInverse(before);
    }
  }

  /** Decryption undoes encryption, for every key schedule and every block. */
  lemma DecryptEncrypt(rk: Schedule, s: Block)
    ensures Decrypted(rk, Encrypted(rk, s)) == s
  {
    hide SubBytes;
    hide InvSubBytes;
    hide ShiftRows;
    hide InvShiftRows;
    hide Added;
    hide RoundKey;
    hide Encrypted;
    hide Decrypting;
    DecryptingEncrypted(rk, s, 1);
    SubInverse(Encrypting(rk, s, 0));
    ShiftInverse(SubBytes(Encrypting(rk, s, 0)));
    AddInverse(s, RoundKey(rk, 0));
  }
}
