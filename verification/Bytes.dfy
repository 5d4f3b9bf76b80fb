/** Little-endian numbers in byte strings and buffers. */
module Bytes {
  /** The k low bytes of n, lowest first. */
  function Le(n: nat, k: nat): (s: seq<bv8>)
    ensures |s| == k
  {
    if k == 0 then [] else [(n % 256) as bv8] + Le(n / 256, k - 1)
  }

  /** The number whose bytes are s, lowest first. */
  function FromLe(s: seq<bv8>): nat
  {
    if s == [] then 0 else s[0] as nat + 256 * FromLe(s[1..])
  }

  function Pow256(k: nat): (p: nat)
    ensures p > 0
  {
    if k == 0 then 1 else 256 * Pow256(k - 1)
  }

  lemma NibbleBits(n: nat) returns (b: bv4)
    requires n < 16
    ensures b as nat == n
  {
    b := if n == 0 then 0 else if n == 1 then 1 else if n == 2 then 2 else if n == 3 then 3
      else if n == 4 then 4 else if n == 5 then 5 else if n == 6 then 6 else if n == 7 then 7
      else if n == 8 then 8 else if n == 9 then 9 else if n == 10 then 10 else if n == 11 then 11
      else if n == 12 then 12 else if n == 13 then 13 else if n == 14 then 14 else 15;
  }

  lemma NibblesValue(h: bv4, l: bv4)
    ensures (((h as bv8) << 4) | (l as bv8)) as nat == h as nat * 16 + l as nat
  {
  }

  /** Every number below 256 has a bit pattern. */
  lemma ByteBits(n: nat) returns (b: bv8)
    requires n < 256
    ensures b as nat == n
  {
    var h := NibbleBits(n / 16);
    var l := NibbleBits(n % 16);
    b := ((h as bv8) << 4) | (l as bv8);
    NibblesValue(h, l);
  }

  lemma BitsRoundTrip(b: bv8)
    ensures b as nat as bv8 == b
  {
  }

  lemma ByteRoundTrip(n: nat)
    requires n < 256
    ensures n as bv8 as nat == n
  {
    var b := ByteBits(n);
    BitsRoundTrip(b);
  }

  lemma {:induction false} LeRoundTrip(n: nat, k: nat)
    requires n < Pow256(k)
    ensures FromLe(Le(n, k)) == n
  {
    if k > 0 {
      LeRoundTrip(n / 256, k - 1);
      ByteRoundTrip(n % 256);
      assert Le(n, k)[1..] == Le(n / 256, k - 1);
    }
  }

  lemma {:induction false} FromLeBound(s: seq<bv8>)
    ensures FromLe(s) < Pow256(|s|)
  {
    if s != [] { FromLeBound(s[1..]); }
  }

  lemma {:induction false} FromLeAppend(s: seq<bv8>, b: bv8)
    ensures FromLe(s + [b]) == FromLe(s) + Pow256(|s|) * b as nat
  {
    if s == [] {
      assert [b][1..] == [];
    } else {
      FromLeAppend(s[1..], b);
      assert (s + [b])[1..] == s[1..] + [b];
      Distribute(256, Pow256(|s| - 1), b as nat);
    }
  }

  lemma Distribute(a: nat, p: nat, b: nat)
    ensures a * (p * b) == (a * p) * b
  {
  }

  /** The writers wr_u8 to wr_u64: k bytes of n at off. */
  method WriteLe(buf: array<bv8>, off: nat, n: nat, k: nat)
    requires off + k <= buf.Length
    modifies buf
    ensures buf[off..off + k] == Le(n, k)
    ensures forall j :: 0 <= j < buf.Length && (j < off || off + k <= j) ==> buf[j] == old(buf[j])
  {
    var i, v := 0, n;
    while i < k
      invariant i <= k && buf[off..off + i] + Le(v, k - i) == Le(n, k)
      invariant forall j :: 0 <= j < buf.Length && (j < off || off + k <= j) ==> buf[j] == old(buf[j])
    {
      ghost var done := buf[off..off + i];
      buf[off + i] := (v % 256) as bv8;
      assert buf[off..off + i + 1] == done + [(v % 256) as bv8];
      assert done + ([(v % 256) as bv8] + Le(v / 256, k - i - 1)) == done + [(v % 256) as bv8] + Le(v / 256, k - i - 1);
      i, v := i + 1, v / 256;
    }
    assert buf[off..off + k] + [] == buf[off..off + k];
  }

  /** The readers rd_u8 to rd_u64: the number in k bytes at off. */
  method ReadLe(buf: array<bv8>, off: nat, k: nat) returns (v: nat)
    requires off + k <= buf.Length
    ensures v == FromLe(buf[off..off + k])
  {
    var i, p := 0, 1;
    v := 0;
    while i < k
      invariant i <= k && p == Pow256(i) && v == FromLe(buf[off..off + i])
    {
      FromLeAppend(buf[off..off + i], buf[off + i]);
      assert buf[off..off + i + 1] == buf[off..off + i] + [buf[off + i]];
      v := v + p * buf[off + i] as nat;
      i, p := i + 1, 256 * p;
    }
  }
}
