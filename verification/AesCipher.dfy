/** The software cipher of kernel/crypto/aes.c on 16 bytes of a buffer, in place. */
module AesCipher {
  import opened AesField
  import opened Aes

  /** Nothing changed outside the 16 bytes at off. */
  twostate predicate OnlyAt(a: array<bv8>, off: nat)
    reads a
  {
    forall k :: 0 <= k < a.Length && (k < off || off + 16 <= k) ==> a[k] == old(a[k])
  }

  ghost function At(a: array<bv8>, off: nat): Block
    requires off + 16 <= a.Length
    reads a
  {
    a[off..off + 16]
  }

  method SubBytesAt(a: array<bv8>, off: nat)
    requires off + 16 <= a.Length
    modifies a
    ensures At(a, off) == SubBytes(old(At(a, off))) && OnlyAt(a, off)
  {
    hide SBox;
    var i := 0;
    while i < 16
      invariant i <= 16 && OnlyAt(a, off)
      invariant forall k :: off <= k < off + i ==> a[k] == SBox(old(a[k]))
      invariant forall k :: off + i <= k < off + 16 ==> a[k] == old(a[k])
    {
      a[off + i] := SBox(a[off + i]);
      i := i + 1;
    }
  }

  method InvSubBytesAt(a: array<bv8>, off: nat)
    requires off + 16 <= a.Length
    modifies a
    ensures At(a, off) == InvSubBytes(old(At(a, off))) && OnlyAt(a, off)
  {
    hide InvSBox;
    var i := 0;
    while i < 16
      invariant i <= 16 && OnlyAt(a, off)
      invariant forall k :: off <= k < off + i ==> a[k] == InvSBox(old(a[k]))
      invariant forall k :: off + i <= k < off + 16 ==> a[k] == old(a[k])
    {
      a[off + i] := InvSBox(a[off + i]);
      i := i + 1;
    }
  }

  method AddRoundKeyAt(a: array<bv8>, off: nat, rk: Schedule, r: nat)
    requires off + 16 <= a.Length && r <= ROUNDS
    modifies a
    ensures At(a, off) == Added(old(At(a, off)), RoundKey(rk, r)) && OnlyAt(a, off)
  {
    hide Xor;
    var i := 0;
    while i < 16
      invariant i <= 16 && OnlyAt(a, off)
      invariant forall k :: off <= k < off + i ==> a[k] == Xor(old(a[k]), rk[16 * r + (k - off)])
      invariant forall k :: off + i <= k < off + 16 ==> a[k] == old(a[k])
    {
      a[off + i] := Xor(a[off + i], rk[16 * r + i]);
      i := i + 1;
    }
  }

  /** The bytes at i, j, k and l move one place to the front, the first to the end. */
  method Cycle(a: array<bv8>, i: nat, j: nat, k: nat, l: nat)
    requires i < a.Length && j < a.Length && k < a.Length && l < a.Length
    requires i != j && i != k && i != l && j != k && j != l && k != l
    modifies a
    ensures a[i] == old(a[j]) && a[j] == old(a[k]) && a[k] == old(a[l]) && a[l] == old(a[i])
    ensures forall x :: 0 <= x < a.Length && x != i && x != j && x != k && x != l ==> a[x] == old(a[x])
  {
    var tmp := a[i];
    a[i] := a[j];
    a[j] := a[k];
    a[k] := a[l];
    a[l] := tmp;
  }

  method Swap(a: array<bv8>, i: nat, j: nat)
    requires i < a.Length && j < a.Length && i != j
    modifies a
    ensures a[i] == old(a[j]) && a[j] == old(a[i])
    ensures forall x :: 0 <= x < a.Length && x != i && x != j ==> a[x] == old(a[x])
  {
    var tmp := a[i];
    a[i] := a[j];
    a[j] := tmp;
  }

  method ShiftRowsAt(a: array<bv8>, off: nat)
    requires off + 16 <= a.Length
    modifies a
    ensures At(a, off) == ShiftRows(old(At(a, off))) && OnlyAt(a, off)
  {
    hide ShiftRows;
    ghost var m := a[..];
    Cycle(a, off + 1, off + 5, off + 9, off + 13);
    Swap(a, off + 2, off + 10);
    Swap(a, off + 6, off + 14);
    Cycle(a, off + 15, off + 11, off + 7, off + 3);
    Shifted(m, a[..], off);
  }

  method InvShiftRowsAt(a: array<bv8>, off: nat)
    requires off + 16 <= a.Length
    modifies a
    ensures At(a, off) == InvShiftRows(old(At(a, off))) && OnlyAt(a, off)
  {
    hide InvShiftRows;
    ghost var m := a[..];
    Cycle(a, off + 13, off + 9, off + 5, off + 1);
    Swap(a, off + 2, off + 10);
    Swap(a, off + 6, off + 14);
    Cycle(a, off + 3, off + 7, off + 11, off + 15);
    InvShifted(m, a[..], off);
  }

  lemma Shifted(m: seq<bv8>, m': seq<bv8>, off: nat)
    requires off + 16 <= |m| == |m'|
    requires m'[off + 0] == m[off + 0]
    requires m'[off + 1] == m[off + 5]
    requires m'[off + 2] == m[off + 10]
    requires m'[off + 3] == m[off + 15]
    requires m'[off + 4] == m[off + 4]
    requires m'[off + 5] == m[off + 9]
    requires m'[off + 6] == m[off + 14]
    requires m'[off + 7] == m[off + 3]
    requires m'[off + 8] == m[off + 8]
    requires m'[off + 9] == m[off + 13]
    requires m'[off + 10] == m[off + 2]
    requires m'[off + 11] == m[off + 7]
    requires m'[off + 12] == m[off + 12]
    requires m'[off + 13] == m[off + 1]
    requires m'[off + 14] == m[off + 6]
    requires m'[off + 15] == m[off + 11]
    ensures m'[off..off + 16] == ShiftRows(m[off..off + 16])
  {
    LeftValues();
    hide Left;
    Same16(m'[off..off + 16], ShiftRows(m[off..off + 16]));
  }

  lemma InvShifted(m: seq<bv8>, m': seq<bv8>, off: nat)
    requires off + 16 <= |m| == |m'|
    requires m'[off + 0] == m[off + 0]
    requires m'[off + 1] == m[off + 13]
    requires m'[off + 2] == m[off + 10]
    requires m'[off + 3] == m[off + 7]
    requires m'[off + 4] == m[off + 4]
    requires m'[off + 5] == m[off + 1]
    requires m'[off + 6] == m[off + 14]
    requires m'[off + 7] == m[off + 11]
    requires m'[off + 8] == m[off + 8]
    requires m'[off + 9] == m[off + 5]
    requires m'[off + 10] == m[off + 2]
    requires m'[off + 11] == m[off + 15]
    requires m'[off + 12] == m[off + 12]
    requires m'[off + 13] == m[off + 9]
    requires m'[off + 14] == m[off + 6]
    requires m'[off + 15] == m[off + 3]
    ensures m'[off..off + 16] == InvShiftRows(m[off..off + 16])
  {
    RightValues();
    hide Right;
    Same16(m'[off..off + 16], InvShiftRows(m[off..off + 16]));
  }

  lemma LeftValues()
    ensures Left(0) == 0 && Left(1) == 5 && Left(2) == 10 && Left(3) == 15
    ensures Left(4) == 4 && Left(5) == 9 && Left(6) == 14 && Left(7) == 3
    ensures Left(8) == 8 && Left(9) == 13 && Left(10) == 2 && Left(11) == 7
    ensures Left(12) == 12 && Left(13) == 1 && Left(14) == 6 && Left(15) == 11
  {
  }

  lemma RightValues()
    ensures Right(0) == 0 && Right(1) == 13 && Right(2) == 10 && Right(3) == 7
    ensures Right(4) == 4 && Right(5) == 1 && Right(6) == 14 && Right(7) == 11
    ensures Right(8) == 8 && Right(9) == 5 && Right(10) == 2 && Right(11) == 15
    ensures Right(12) == 12 && Right(13) == 9 && Right(14) == 6 && Right(15) == 3
  {
  }

  lemma Same16(s: Block, t: Block)
    requires s[0] == t[0] && s[1] == t[1] && s[2] == t[2] && s[3] == t[3]
    requires s[4] == t[4] && s[5] == t[5] && s[6] == t[6] && s[7] == t[7]
    requires s[8] == t[8] && s[9] == t[9] && s[10] == t[10] && s[11] == t[11]
    requires s[12] == t[12] && s[13] == t[13] && s[14] == t[14] && s[15] == t[15]
    ensures s == t
  {
  }

  /** The indices of column c as its bytes see them. */
  lemma ColumnDown(c: nat)
    requires c < 4
    ensures Down(4 * c, 1) == 4 * c + 1 && Down(4 * c, 2) == 4 * c + 2 && Down(4 * c, 3) == 4 * c + 3
    ensures Down(4 * c + 1, 1) == 4 * c + 2 && Down(4 * c + 1, 2) == 4 * c + 3 && Down(4 * c + 1, 3) == 4 * c
    ensures Down(4 * c + 2, 1) == 4 * c + 3 && Down(4 * c + 2, 2) == 4 * c && Down(4 * c + 2, 3) == 4 * c + 1
    ensures Down(4 * c + 3, 1) == 4 * c && Down(4 * c + 3, 2) == 4 * c + 1 && Down(4 * c + 3, 3) == 4 * c + 2
  {
  }

  /** The bytes of column c after mixing, in the order of the source. */
  lemma MixedColumn(s: Block, c: nat)
    requires c < 4
    ensures var a0, a1, a2, a3 := s[4 * c], s[4 * c + 1], s[4 * c + 2], s[4 * c + 3];
      && MixColumns(s)[4 * c] == Xor4(Mul2(a0), Mul3(a1), a2, a3)
      && MixColumns(s)[4 * c + 1] == Xor4(a0, Mul2(a1), Mul3(a2), a3)
      && MixColumns(s)[4 * c + 2] == Xor4(a0, a1, Mul2(a2), Mul3(a3))
      && MixColumns(s)[4 * c + 3] == Xor4(Mul3(a0), a1, a2, Mul2(a3))
  {
    hide Xor4;
    hide Mul2;
    hide Mul3;
    hide Down;
    var a0, a1, a2, a3 := s[4 * c], s[4 * c + 1], s[4 * c + 2], s[4 * c + 3];
    ColumnDown(c);
    Rotate(a0, Mul2(a1), Mul3(a2), a3);
    Rotate(a0, a1, Mul2(a2), Mul3(a3));
    Rotate(Mul3(a0), a1, a2, Mul2(a3));
  }

  method MixColumnAt(a: array<bv8>, off: nat, c: nat, ghost s: Block)
    requires off + 16 <= a.Length && c < 4 && forall r :: 4 * c <= r < 4 * c + 4 ==> a[off + r] == s[r]
    modifies a
    ensures forall r :: 4 * c <= r < 4 * c + 4 ==> a[off + r] == MixColumns(s)[r]
    ensures forall k :: 0 <= k < a.Length && !(off + 4 * c <= k < off + 4 * c + 4) ==> a[k] == old(a[k])
  {
    hide Xor4;
    hide Mul2;
    hide Mul3;
    hide MixColumns;
    MixedColumn(s, c);
    var i := off + 4 * c;
    var a0, a1, a2, a3 := a[i], a[i + 1], a[i + 2], a[i + 3];
    a[i] := Xor4(Mul2(a0), Mul3(a1), a2, a3);
    a[i + 1] := Xor4(a0, Mul2(a1), Mul3(a2), a3);
    a[i + 2] := Xor4(a0, a1, Mul2(a2), Mul3(a3));
    a[i + 3] := Xor4(Mul3(a0), a1, a2, Mul2(a3));
  }

  method MixColumnsAt(a: array<bv8>, off: nat)
    requires off + 16 <= a.Length
    modifies a
    ensures At(a, off) == MixColumns(old(At(a, off))) && OnlyAt(a, off)
  {
    hide MixColumns;
    ghost var s := At(a, off);
    var c := 0;
    while c < 4
      invariant c <= 4 && OnlyAt(a, off)
      invariant forall r :: 0 <= r < 4 * c ==> a[off + r] == MixColumns(s)[r]
      invariant forall r :: 4 * c <= r < 16 ==> a[off + r] == s[r]
    {
      MixColumnAt(a, off, c, s);
      c := c + 1;
    }
  }

  /** The bytes of column c after unmixing, in the order of the source. */
  lemma InvMixedColumn(s: Block, c: nat)
    requires c < 4
    ensures var a0, a1, a2, a3 := s[4 * c], s[4 * c + 1], s[4 * c + 2], s[4 * c + 3];
      && InvMixColumns(s)[4 * c] == Xor4(Mul14(a0), Mul11(a1), Mul13(a2), Mul9(a3))
      && InvMixColumns(s)[4 * c + 1] == Xor4(Mul9(a0), Mul14(a1), Mul11(a2), Mul13(a3))
      && InvMixColumns(s)[4 * c + 2] == Xor4(Mul13(a0), Mul9(a1), Mul14(a2), Mul11(a3))
      && InvMixColumns(s)[4 * c + 3] == Xor4(Mul11(a0), Mul13(a1), Mul9(a2), Mul14(a3))
  {
    hide Xor4;
    hide Mul9;
    hide Mul11;
    hide Mul13;
    hide Mul14;
    hide Down;
    var a0, a1, a2, a3 := s[4 * c], s[4 * c + 1], s[4 * c + 2], s[4 * c + 3];
    ColumnDown(c);
    Rotate(Mul9(a0), Mul14(a1), Mul11(a2), Mul13(a3));
    Rotate(Mul13(a0), Mul9(a1), Mul14(a2), Mul11(a3));
    Rotate(Mul11(a0), Mul13(a1), Mul9(a2), Mul14(a3));
  }

  method InvMixColumnAt(a: array<bv8>, off: nat, c: nat, ghost s: Block)
    requires off + 16 <= a.Length && c < 4 && forall r :: 4 * c <= r < 4 * c + 4 ==> a[off + r] == s[r]
    modifies a
    ensures forall r :: 4 * c <= r < 4 * c + 4 ==> a[off + r] == InvMixColumns(s)[r]
    ensures forall k :: 0 <= k < a.Length && !(off + 4 * c <= k < off + 4 * c + 4) ==> a[k] == old(a[k])
  {
    hide Xor4;
    hide Mul9;
    hide Mul11;
    hide Mul13;
    hide Mul14;
    hide InvMixColumns;
    InvMixedColumn(s, c);
    var i := off + 4 * c;
    var a0, a1, a2, a3 := a[i], a[i + 1], a[i + 2], a[i + 3];
    a[i] := Xor4(Mul14(a0), Mul11(a1), Mul13(a2), Mul9(a3));
    a[i + 1] := Xor4(Mul9(a0), Mul14(a1), Mul11(a2), Mul13(a3));
    a[i + 2] := Xor4(Mul13(a0), Mul9(a1), Mul14(a2), Mul11(a3));
    a[i + 3] := Xor4(Mul11(a0), Mul13(a1), Mul9(a2), Mul14(a3));
  }

  method InvMixColumnsAt(a: array<bv8>, off: nat)
    requires off + 16 <= a.Length
    modifies a
    ensures At(a, off) == InvMixColumns(old(At(a, off))) && OnlyAt(a, off)
  {
    hide InvMixColumns;
    ghost var s := At(a, off);
    var c := 0;
    while c < 4
      invariant c <= 4 && OnlyAt(a, off)
      invariant forall r :: 0 <= r < 4 * c ==> a[off + r] == InvMixColumns(s)[r]
      invariant forall r :: 4 * c <= r < 16 ==> a[off + r] == s[r]
    {
      InvMixColumnAt(a, off, c, s);
      c := c + 1;
    }
  }

  /** aes_encrypt_block_sw */
  method EncryptAt(rk: Schedule, a: array<bv8>, off: nat)
    requires off + 16 <= a.Length
    modifies a
    ensures At(a, off) == Encrypted(rk, old(At(a, off))) && OnlyAt(a, off)
  {
    hide SubBytes;
    hide ShiftRows;
    hide MixColumns;
    hide Added;
    hide RoundKey;
    hide At;
    ghost var s := At(a, off);
    AddRoundKeyAt(a, off, rk, 0);
    var round := 1;
    while round < ROUNDS
      invariant 1 <= round <= ROUNDS && OnlyAt(a, off) && At(a, off) == Encrypting(rk, s, round - 1)
    {
      SubBytesAt(a, off);
      ShiftRowsAt(a, off);
      MixColumnsAt(a, off);
      AddRoundKeyAt(a, off, rk, round);
      round := round + 1;
    }
    SubBytesAt(a, off);
    ShiftRowsAt(a, off);
    AddRoundKeyAt(a, off, rk, ROUNDS);
  }

  /** aes_decrypt_block_sw */
  method DecryptAt(rk: Schedule, a: array<bv8>, off: nat)
    requires off + 16 <= a.Length
    modifies a
    ensures At(a, off) == Decrypted(rk, old(At(a, off))) && OnlyAt(a, off)
  {
    hide InvSubBytes;
    hide InvShiftRows;
    hide InvMixColumns;
    hide Added;
    hide RoundKey;
    hide At;
    ghost var s := At(a, off);
    AddRoundKeyAt(a, off, rk, ROUNDS);
    var round := ROUNDS - 1;
    while round >= 1
      invariant 0 <= round < ROUNDS && OnlyAt(a, off) && At(a, off) == Decrypting(rk, s, round + 1)
    {
      InvShiftRowsAt(a, off);
      InvSubBytesAt(a, off);
      AddRoundKeyAt(a, off, rk, round);
      InvMixColumnsAt(a, off);
      round := round - 1;
    }
    InvShiftRowsAt(a, off);
    InvSubBytesAt(a, off);
    AddRoundKeyAt(a, off, rk, 0);
  }
}
