/** The image of a binary dump as bytes: little-endian numbers at any offset, and the layout of its
    header on a 64-bit platform. */
module ApcImage {
  import opened Machine

  type byte = x: int | 0 <= x < 256
  type Bytes = seq<byte>

  // struct apc_bd_t: size, swizzled, md5, crc, num_entries, entries, num_swizzled_ptrs, swizzled_ptrs
  const SIZE: nat := 0
  const SWIZZLED: nat := 4
  const MD5: nat := 8
  const CRC: nat := 24
  const ENTRIES: nat := 32
  const COUNT: nat := 40
  const TABLE: nat := 48
  const HEADER: nat := 56
  const PTR: nat := 8

  function Pow(n: nat): nat { if n == 0 then 1 else 256 * Pow(n - 1) }

  function Value(b: Bytes): nat { if b == [] then 0 else b[0] + 256 * Value(b[1..]) }

  function Enc(v: nat, n: nat): (b: Bytes)
    ensures |b| == n
  {
    if n == 0 then [] else [v % 256] + Enc(v / 256, n - 1)
  }

  lemma {:induction false} ValueOfEnc(v: nat, n: nat)
    requires v < Pow(n)
    ensures Value(Enc(v, n)) == v
  {
    if n == 0 {
    } else {
      ValueOfEnc(v / 256, n - 1);
      assert Enc(v, n)[1..] == Enc(v / 256, n - 1);
    }
  }

  lemma Widths()
    ensures Pow(4) == UINT_MOD && Pow(8) == ULONG_MOD
  {
    assert Pow(2) == 65536;
    assert Pow(4) == 65536 * Pow(2);
    assert Pow(6) == 65536 * Pow(4);
    assert Pow(8) == 65536 * Pow(6);
  }

  function Get(s: Bytes, i: nat, n: nat): nat
    requires i + n <= |s|
  {
    Value(s[i..i + n])
  }

  /** t is s with the number v stored in the n bytes at offset i. */
  predicate Wrote(s: Bytes, t: Bytes, i: nat, n: nat, v: nat) {
    && i + n <= |s| == |t| && Get(t, i, n) == v
    && forall j: nat :: j < |s| && !(i <= j < i + n) ==> t[j] == s[j]
  }

  /** t reads like s in the bytes from lo up to hi. */
  predicate Same(s: Bytes, t: Bytes, lo: nat, hi: nat) {
    hi <= |s| && hi <= |t| && forall j: nat :: lo <= j < hi ==> t[j] == s[j]
  }

  lemma GetSame(s: Bytes, t: Bytes, lo: nat, hi: nat, i: nat, n: nat)
    requires Same(s, t, lo, hi) && lo <= i && i + n <= hi
    ensures Get(t, i, n) == Get(s, i, n)
  {
    assert s[i..i + n] == t[i..i + n];
  }

  lemma WroteApart(s: Bytes, t: Bytes, i: nat, n: nat, v: nat, c: nat, m: nat)
    requires Wrote(s, t, i, n, v) && c + m <= |s| && (i + n <= c || c + m <= i)
    ensures Get(t, c, m) == Get(s, c, m)
  {
    GetSame(s, t, c, c + m, c, m);
  }
}
