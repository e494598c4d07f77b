/** The integers of a 64-bit platform, and their remainders. */
module Machine {
  const INT_MAX: nat := 0x7fff_ffff
  const UINT_MOD: nat := 0x1_0000_0000
  const ULONG_MOD: nat := 0x1_0000_0000_0000_0000

  lemma Multiples(d: int, m: int)
    requires m > 0
    ensures d >= 1 ==> d * m >= m
    ensures d <= -1 ==> d * m <= -m
  {
  }

  lemma Remainder(a: int, q: int, r: int, m: int)
    requires 0 <= r < m && a == q * m + r
    ensures a % m == r
  {
    Multiples(a / m - q, m);
    assert (a / m - q) * m == r - a % m;
  }
}
