/**
 * Bytes as elements of GF(2^8) and the S-box of kernel/crypto/aes.c. The multiplication tables
 * are the multiplication modulo x^8 + x^4 + x^3 + x + 1 that FIPS 197 section 4.2 defines.
 */
module AesField {
  // ---------- the S-box, 16 entries to a row ----------

  function SBoxRow(x: bv8): bv128
  {
    if x < 0x10 then 0x637c777b_f26b6fc5_3001672b_fed7ab76
    else if x < 0x20 then 0xca82c97d_fa5947f0_add4a2af_9ca472c0
    else if x < 0x30 then 0xb7fd9326_363ff7cc_34a5e5f1_71d83115
    else if x < 0x40 then 0x04c723c3_1896059a_071280e2_eb27b275
    else if x < 0x50 then 0x09832c1a_1b6e5aa0_523bd6b3_29e32f84
    else if x < 0x60 then 0x53d100ed_20fcb15b_6acbbe39_4a4c58cf
    else if x < 0x70 then 0xd0efaafb_434d3385_45f9027f_503c9fa8
    else if x < 0x80 then 0x51a3408f_929d38f5_bcb6da21_10fff3d2
    else if x < 0x90 then 0xcd0c13ec_5f974417_c4a77e3d_645d1973
    else if x < 0xa0 then 0x60814fdc_222a9088_46eeb814_de5e0bdb
    else if x < 0xb0 then 0xe0323a0a_4906245c_c2d3ac62_9195e479
    else if x < 0xc0 then 0xe7c8376d_8dd54ea9_6c56f4ea_657aae08
    else if x < 0xd0 then 0xba78252e_1ca6b4c6_e8dd741f_4bbd8b8a
    else if x < 0xe0 then 0x703eb566_4803f60e_613557b9_86c11d9e
    else if x < 0xf0 then 0xe1f89811_69d98e94_9b1e87e9_ce5528df
    else 0x8ca1890d_bfe64268_41992d0f_b054bb16
  }

  /** sbox[x] */
  function SBox(x: bv8): bv8
  {
    ((SBoxRow(x) >> (((0xf - (x & 0xf)) as bv128) << 3)) & 0xff) as bv8
  }

  function InvSBoxRow(x: bv8): bv128
  {
    if x < 0x10 then 0x52096ad5_3036a538_bf40a39e_81f3d7fb
    else if x < 0x20 then 0x7ce33982_9b2fff87_348e4344_c4dee9cb
    else if x < 0x30 then 0x547b9432_a6c2233d_ee4c950b_42fac34e
    else if x < 0x40 then 0x082ea166_28d924b2_765ba249_6d8bd125
    else if x < 0x50 then 0x72f8f664_86689816_d4a45ccc_5d65b692
    else if x < 0x60 then 0x6c704850_fdedb9da_5e154657_a78d9d84
    else if x < 0x70 then 0x90d8ab00_8cbcd30a_f7e45805_b8b34506
    else if x < 0x80 then 0xd02c1e8f_ca3f0f02_c1afbd03_01138a6b
    else if x < 0x90 then 0x3a911141_4f67dcea_97f2cfce_f0b4e673
    else if x < 0xa0 then 0x96ac7422_e7ad3585_e2f937e8_1c75df6e
    else if x < 0xb0 then 0x47f11a71_1d29c589_6fb7620e_aa18be1b
    else if x < 0xc0 then 0xfc563e4b_c6d27920_9adbc0fe_78cd5af4
    else if x < 0xd0 then 0x1fdda833_8807c731_b1121059_2780ec5f
    else if x < 0xe0 then 0x60517fa9_19b54a0d_2de57a9f_93c99cef
    else if x < 0xf0 then 0xa0e03b4d_ae2af5b0_c8ebbb3c_83539961
    else 0x172b047e_ba77d626_e1691463_55210c7d
  }

  /** inv_sbox[x] */
  function InvSBox(x: bv8): bv8
  {
    ((InvSBoxRow(x) >> (((0xf - (x & 0xf)) as bv128) << 3)) & 0xff) as bv8
  }

  lemma SBoxInverse(x: bv8)
    ensures InvSBox(SBox(x)) == x
  {
  }

  // ---------- multiplication ----------

  function Xor(a: bv8, b: bv8): bv8
  {
    a ^ b
  }

  function Xor3(a: bv8, b: bv8, c: bv8): bv8
  {
    a ^ b ^ c
  }

  function Xor4(a: bv8, b: bv8, c: bv8, d: bv8): bv8
  {
    a ^ b ^ c ^ d
  }

  /** Multiplication by x. */
  function Xtime(a: bv8): bv8
  {
    (a << 1) ^ (if a & 0x80 != 0 then 0x1b else 0)
  }

  function X2(a: bv8): bv8
  {
    Xtime(Xtime(a))
  }

  function X3(a: bv8): bv8
  {
    Xtime(X2(a))
  }

  function Mul2(a: bv8): bv8
  {
    Xtime(a)
  }

  function Mul3(a: bv8): bv8
  {
    Xor(Xtime(a), a)
  }

  function Mul9(a: bv8): bv8
  {
    Xor(X3(a), a)
  }

  function Mul11(a: bv8): bv8
  {
    Xor3(X3(a), Xtime(a), a)
  }

  function Mul13(a: bv8): bv8
  {
    Xor3(X3(a), X2(a), a)
  }

  function Mul14(a: bv8): bv8
  {
    Xor3(X3(a), X2(a), Xtime(a))
  }

  /** One byte of a mixed column. */
  function Mix(a0: bv8, a1: bv8, a2: bv8, a3: bv8): bv8
  {
    Xor4(Mul2(a0), Mul3(a1), a2, a3)
  }

  /** One byte of an unmixed column. */
  function InvMix(b0: bv8, b1: bv8, b2: bv8, b3: bv8): bv8
  {
    Xor4(Mul14(b0), Mul11(b1), Mul13(b2), Mul9(b3))
  }

  // ---------- sums ----------

  lemma XorTwice(a: bv8, k: bv8)
    ensures Xor(Xor(a, k), k) == a
  {
  }

  lemma Turn(a: bv8, b: bv8, c: bv8, d: bv8)
    ensures Xor4(a, b, c, d) == Xor4(b, c, d, a)
  {
  }

  lemma Rotate(a: bv8, b: bv8, c: bv8, d: bv8)
    ensures Xor4(a, b, c, d) == Xor4(b, c, d, a) && Xor4(a, b, c, d) == Xor4(c, d, a, b) && Xor4(a, b, c, d) == Xor4(d, a, b, c)
  {
    hide *;
    Turn(a, b, c, d);
    Turn(b, c, d, a);
    Turn(c, d, a, b);
  }

  lemma Comm(a: bv8, b: bv8)
    ensures Xor(a, b) == Xor(b, a)
  {
  }

  lemma Assoc(a: bv8, b: bv8, c: bv8)
    ensures Xor(Xor(a, b), c) == Xor(a, Xor(b, c))
  {
  }

  lemma Swap2(p: bv8, q: bv8, r: bv8, s: bv8)
    ensures Xor(Xor(p, q), Xor(r, s)) == Xor(Xor(p, r), Xor(q, s))
  {
    hide *;
    Assoc(p, q, Xor(r, s));
    Assoc(q, r, s);
    Comm(q, r);
    Assoc(r, q, s);
    Assoc(p, r, Xor(q, s));
  }

  lemma Swap3(p: bv8, q: bv8, r: bv8, s: bv8, t: bv8, u: bv8)
    ensures Xor3(Xor(p, q), Xor(r, s), Xor(t, u)) == Xor(Xor3(p, r, t), Xor3(q, s, u))
  {
    hide *;
    Nest3(Xor(p, q), Xor(r, s), Xor(t, u));
    Nest3(p, r, t);
    Nest3(q, s, u);
    Swap2(p, q, r, s);
    Swap2(Xor(p, r), Xor(q, s), t, u);
  }

  lemma Nest3(x: bv8, y: bv8, z: bv8)
    ensures Xor3(x, y, z) == Xor(Xor(x, y), z)
  {
  }

  lemma Nest(x: bv8, y: bv8, z: bv8, w: bv8)
    ensures Xor4(x, y, z, w) == Xor(Xor(Xor(x, y), z), w)
  {
  }

  lemma Pairs(x: bv8, y: bv8, z: bv8, w: bv8)
    ensures Xor4(x, y, z, w) == Xor(Xor(x, y), Xor(z, w))
  {
  }

  lemma Swap4(p: bv8, q: bv8, r: bv8, s: bv8, t: bv8, u: bv8, v: bv8, w: bv8)
    ensures Xor4(Xor(p, q), Xor(r, s), Xor(t, u), Xor(v, w)) == Xor(Xor4(p, r, t, v), Xor4(q, s, u, w))
  {
    hide *;
    Pairs(Xor(p, q), Xor(r, s), Xor(t, u), Xor(v, w));
    Pairs(p, r, t, v);
    Pairs(q, s, u, w);
    Swap2(p, q, r, s);
    Swap2(t, u, v, w);
    Swap2(Xor(p, r), Xor(q, s), Xor(t, v), Xor(u, w));
  }

  /** Summing a square of bytes by rows or by columns. */
  lemma Square(a: seq<bv8>, b: seq<bv8>, c: seq<bv8>, d: seq<bv8>)
    requires |a| == 4 && |b| == 4 && |c| == 4 && |d| == 4
    ensures Xor4(Xor4(a[0], a[1], a[2], a[3]), Xor4(b[0], b[1], b[2], b[3]), Xor4(c[0], c[1], c[2], c[3]), Xor4(d[0], d[1], d[2], d[3]))
         == Xor4(Xor4(a[0], b[0], c[0], d[0]), Xor4(a[1], b[1], c[1], d[1]), Xor4(a[2], b[2], c[2], d[2]), Xor4(a[3], b[3], c[3], d[3]))
  {
    hide *;
    Pairs(a[0], a[1], a[2], a[3]);
    Pairs(b[0], b[1], b[2], b[3]);
    Pairs(c[0], c[1], c[2], c[3]);
    Pairs(d[0], d[1], d[2], d[3]);
    Swap4(Xor(a[0], a[1]), Xor(a[2], a[3]), Xor(b[0], b[1]), Xor(b[2], b[3]), Xor(c[0], c[1]), Xor(c[2], c[3]), Xor(d[0], d[1]), Xor(d[2], d[3]));
    Swap4(a[0], a[1], b[0], b[1], c[0], c[1], d[0], d[1]);
    Swap4(a[2], a[3], b[2], b[3], c[2], c[3], d[2], d[3]);
    Pairs(Xor4(a[0], b[0], c[0], d[0]), Xor4(a[1], b[1], c[1], d[1]), Xor4(a[2], b[2], c[2], d[2]), Xor4(a[3], b[3], c[3], d[3]));
  }

  lemma OnlyFirst(a: bv8)
    ensures Xor4(a, 0, 0, 0) == a
  {
  }

  // ---------- multiplication is linear ----------

  lemma XtimeLinear(x: bv8, y: bv8)
    ensures Xtime(Xor(x, y)) == Xor(Xtime(x), Xtime(y))
  {
    if x & 0x80 == 0 {
      if y & 0x80 == 0 { } else { }
    } else {
      if y & 0x80 == 0 { } else { }
    }
  }

  lemma PowersLinear(x: bv8, y: bv8)
    ensures X2(Xor(x, y)) == Xor(X2(x), X2(y)) && X3(Xor(x, y)) == Xor(X3(x), X3(y))
  {
    hide Xtime;
    hide Xor;
    XtimeLinear(x, y);
    XtimeLinear(Xtime(x), Xtime(y));
    XtimeLinear(X2(x), X2(y));
  }

  lemma MulLinear(x: bv8, y: bv8)
    ensures Mul9(Xor(x, y)) == Xor(Mul9(x), Mul9(y)) && Mul11(Xor(x, y)) == Xor(Mul11(x), Mul11(y))
    ensures Mul13(Xor(x, y)) == Xor(Mul13(x), Mul13(y)) && Mul14(Xor(x, y)) == Xor(Mul14(x), Mul14(y))
  {
    hide Xtime;
    hide X2;
    hide X3;
    hide Xor;
    hide Xor3;
    XtimeLinear(x, y);
    PowersLinear(x, y);
    Swap2(X3(x), X3(y), x, y);
    Swap3(X3(x), X3(y), Xtime(x), Xtime(y), x, y);
    Swap3(X3(x), X3(y), X2(x), X2(y), x, y);
    Swap3(X3(x), X3(y), X2(x), X2(y), Xtime(x), Xtime(y));
  }

  lemma MulLinear4(x: bv8, y: bv8, z: bv8, w: bv8)
    ensures Mul9(Xor4(x, y, z, w)) == Xor4(Mul9(x), Mul9(y), Mul9(z), Mul9(w))
    ensures Mul11(Xor4(x, y, z, w)) == Xor4(Mul11(x), Mul11(y), Mul11(z), Mul11(w))
    ensures Mul13(Xor4(x, y, z, w)) == Xor4(Mul13(x), Mul13(y), Mul13(z), Mul13(w))
    ensures Mul14(Xor4(x, y, z, w)) == Xor4(Mul14(x), Mul14(y), Mul14(z), Mul14(w))
  {
    hide *;
    Nest(x, y, z, w);
    Nest(Mul9(x), Mul9(y), Mul9(z), Mul9(w));
    Nest(Mul11(x), Mul11(y), Mul11(z), Mul11(w));
    Nest(Mul13(x), Mul13(y), Mul13(z), Mul13(w));
    Nest(Mul14(x), Mul14(y), Mul14(z), Mul14(w));
    MulLinear(x, y);
    MulLinear(Xor(x, y), z);
    MulLinear(Xor(Xor(x, y), z), w);
  }

  // ---------- the two matrices are inverse ----------

  lemma Row0(a: bv8, x1: bv8, x2: bv8, x3: bv8, x4: bv8)
    ensures Xor4(Xor3(x4, x3, x2), Xor3(x3, x1, a), Xor3(x3, x2, a), Xor(Xor(x4, x3), Xor(x1, a))) == a
  {
  }

  lemma Row1(a: bv8, x1: bv8, x2: bv8, x3: bv8, x4: bv8)
    ensures Xor4(Xor3(Xor(x4, x3), Xor(x3, x2), Xor(x2, x1)), Xor3(x4, x2, x1), Xor3(x3, x2, a), Xor(x3, a)) == 0
  {
  }

  lemma Row2(a: bv8, x1: bv8, x2: bv8, x3: bv8, x4: bv8)
    ensures Xor4(Xor3(x3, x2, x1), Xor3(Xor(x4, x3), Xor(x2, x1), Xor(x1, a)), Xor3(x4, x3, x1), Xor(x3, a)) == 0
  {
  }

  lemma Row3(a: bv8, x1: bv8, x2: bv8, x3: bv8, x4: bv8)
    ensures Xor4(Xor3(x3, x2, x1), Xor3(x3, x1, a), Xor3(Xor(x4, x3), Xor(x3, x2), Xor(x1, a)), Xor(x4, x1)) == 0
  {
  }

  lemma Powers(a: bv8)
    ensures Xtime(Xtime(a)) == X2(a) && X2(Xtime(a)) == X3(a)
  {
  }

  /** The first row of the product of the two matrices is 1, 0, 0, 0. */
  lemma Product(a: bv8)
    ensures Xor4(Mul14(Mul2(a)), Mul11(a), Mul13(a), Mul9(Mul3(a))) == a
    ensures Xor4(Mul14(Mul3(a)), Mul11(Mul2(a)), Mul13(a), Mul9(a)) == 0
    ensures Xor4(Mul14(a), Mul11(Mul3(a)), Mul13(Mul2(a)), Mul9(a)) == 0
    ensures Xor4(Mul14(a), Mul11(a), Mul13(Mul3(a)), Mul9(Mul2(a))) == 0
  {
    hide Xtime;
    hide X2;
    hide X3;
    hide Xor;
    hide Xor3;
    hide Xor4;
    Powers(a);
    XtimeLinear(Xtime(a), a);
    PowersLinear(Xtime(a), a);
    Row0(a, Xtime(a), X2(a), X3(a), X3(Xtime(a)));
    Row1(a, Xtime(a), X2(a), X3(a), X3(Xtime(a)));
    Row2(a, Xtime(a), X2(a), X3(a), X3(Xtime(a)));
    Row3(a, Xtime(a), X2(a), X3(a), X3(Xtime(a)));
  }

  /** Unmixing a mixed column gives its first byte back; the other bytes follow by rotation. */
  lemma Unmixed(a0: bv8, a1: bv8, a2: bv8, a3: bv8)
    ensures InvMix(Mix(a0, a1, a2, a3), Mix(a1, a2, a3, a0), Mix(a2, a3, a0, a1), Mix(a3, a0, a1, a2)) == a0
  {
    hide Xor4;
    hide Mul2;
    hide Mul3;
    hide Mul9;
    hide Mul11;
    hide Mul13;
    hide Mul14;
    Rotate(a0, Mul2(a1), Mul3(a2), a3);
    Rotate(a0, a1, Mul2(a2), Mul3(a3));
    Rotate(Mul3(a0), a1, a2, Mul2(a3));
    MulLinear4(Mul2(a0), Mul3(a1), a2, a3);
    MulLinear4(a0, Mul2(a1), Mul3(a2), a3);
    MulLinear4(a0, a1, Mul2(a2), Mul3(a3));
    MulLinear4(Mul3(a0), a1, a2, Mul2(a3));
    Square([Mul14(Mul2(a0)), Mul14(Mul3(a1)), Mul14(a2), Mul14(a3)],
           [Mul11(a0), Mul11(Mul2(a1)), Mul11(Mul3(a2)), Mul11(a3)],
           [Mul13(a0), Mul13(a1), Mul13(Mul2(a2)), Mul13(Mul3(a3))],
           [Mul9(Mul3(a0)), Mul9(a1), Mul9(a2), Mul9(Mul2(a3))]);
    Product(a0);
    Product(a1);
    Product(a2);
    Product(a3);
    OnlyFirst(a0);
  }
}
