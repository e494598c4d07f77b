/** Folding a hash value into the index of a cache or a chain. */
module HashFold {
  import opened Machine

  /** xc_hash_t. */
  datatype Hasher = Hasher(bits: nat, size: nat, mask: nat)

  // ---- bits --------------------------------------------------------------------------------------

  function Pow2(n: nat): (p: nat)
    ensures p > 0
  {
    if n == 0 then 1 else 2 * Pow2(n - 1)
  }

  function Xor(a: nat, b: nat): nat
    decreases a + b
  {
    if a == 0 && b == 0 then 0 else 2 * Xor(a / 2, b / 2) + (if a % 2 == b % 2 then 0 else 1)
  }

  function And(a: nat, b: nat): nat
    decreases a
  {
    if a == 0 || b == 0 then 0 else 2 * And(a / 2, b / 2) + (if a % 2 == 1 && b % 2 == 1 then 1 else 0)
  }

  /** v >> n. */
  function Shr(v: nat, n: nat): (r: nat)
    ensures r <= v && (v > 0 && n > 0 ==> r < v)
    decreases n
  {
    if n == 0 then v else Shr(v / 2, n - 1)
  }

  /** The n low bits of v. */
  function Low(v: nat, n: nat): (r: nat)
    ensures r < Pow2(n)
    decreases n
  {
    if n == 0 then 0 else v % 2 + 2 * Low(v / 2, n - 1)
  }

  /** The number with the n low bits of low, and above them rest. */
  function Above(low: nat, n: nat, rest: nat): nat
    decreases n
  {
    if n == 0 then rest else low % 2 + 2 * Above(low / 2, n - 1, rest)
  }

  lemma {:induction false} XorStays(a: nat, b: nat, k: nat)
    requires a < Pow2(k) && b < Pow2(k)
    ensures Xor(a, b) < Pow2(k)
  {
    if k == 0 {
    } else {
      XorStays(a / 2, b / 2, k - 1);
    }
  }

  lemma Halve(a: nat, m: nat)
    requires m > 0
    ensures a % (2 * m) == 2 * (a / 2 % m) + a % 2
  {
    var h := a / 2;
    assert h == (h / m) * m + h % m;
    assert a == (h / m) * (2 * m) + (2 * (h % m) + a % 2);
    Remainder(a, h / m, 2 * (h % m) + a % 2, 2 * m);
  }

  /** The low bits are the remainder modulo the power of two. */
  lemma {:induction false} LowIsRemainder(a: nat, n: nat)
    ensures Low(a, n) == a % Pow2(n)
  {
    if n == 0 {
      // the remainder modulo one
    } else {
      LowIsRemainder(a / 2, n - 1);
      Halve(a, Pow2(n - 1));
    }
  }

  /** Masking with a power of two less one takes the low bits: the remainder modulo that power. */
  lemma MaskIsRemainder(a: nat, k: nat)
    ensures And(a, Pow2(k) - 1) == a % Pow2(k)
  {
    MaskTakesLow(a, k);
    LowIsRemainder(a, k);
  }

  lemma {:induction false} MaskTakesLow(a: nat, k: nat)
    ensures And(a, Pow2(k) - 1) == Low(a, k)
  {
    if k == 0 {
    } else {
      MaskTakesLow(a / 2, k - 1);
      if a == 0 { LowOfZero(k); }
    }
  }

  lemma {:induction false} LowOfZero(k: nat)
    ensures Low(0, k) == 0
  {
    if k == 0 {
    } else {
      LowOfZero(k - 1);
    }
  }

  lemma {:induction false} AboveParts(low: nat, n: nat, rest: nat)
    ensures Shr(Above(low, n, rest), n) == rest
  {
    if n == 0 {
    } else {
      AboveParts(low / 2, n - 1, rest);
    }
  }

  lemma {:induction false} LowOfAbove(low: nat, n: nat, rest: nat, k: nat)
    requires k <= n
    ensures Low(Above(low, n, rest), k) == Low(low, k)
  {
    if k == 0 {
    } else {
      LowOfAbove(low / 2, n - 1, rest, k - 1);
    }
  }

  lemma {:induction false} LowOfLow(v: nat, k: nat)
    ensures Low(Low(v, k), k) == Low(v, k)
  {
    if k == 0 {
    } else {
      LowOfLow(v / 2, k - 1);
    }
  }

  // ---- the hasher ----------------------------------------------------------------------------------

  /** What xc_config_hash leaves: the size is a power of two, and bits is one more than its logarithm. */
  ghost predicate HasherOk(h: Hasher) {
    h.bits > 0 && h.size == Pow2(h.bits - 1) && h.mask == h.size - 1
  }

  const MAX_SIZE: nat := 0x4000_0000

  /** The int that `size` holds after n doublings, in two's complement. */
  function Doubled(n: nat): int {
    if n == 0 then 1 else
      var d := 2 * Doubled(n - 1);
      if d == INT_MAX + 1 then -0x8000_0000 else if d + UINT_MOD == 0 then 0 else d
  }

  lemma {:induction false} Doubling(n: nat, k: nat)
    ensures Pow2(n) <= Pow2(n + k)
  {
    if k == 0 {
      // the same power
    } else {
      Doubling(n, k - 1);
    }
  }

  lemma FiveDoublings(n: nat)
    ensures Pow2(n + 5) == 32 * Pow2(n)
  {
    assert Pow2(n + 4) == 2 * Pow2(n + 3) && Pow2(n + 2) == 2 * Pow2(n + 1);
  }

  lemma LargestSize()
    ensures Pow2(30) == MAX_SIZE
  {
    FiveDoublings(0);
    FiveDoublings(5);
    FiveDoublings(10);
    FiveDoublings(15);
    FiveDoublings(20);
    FiveDoublings(25);
  }

  lemma {:induction false} DoubledIs(n: nat)
    ensures Doubled(n) == if n <= 30 then Pow2(n) else if n == 31 then -0x8000_0000 else 0
  {
    if n == 0 {
      // one
    } else {
      DoubledIs(n - 1);
      LargestSize();
      if n <= 30 { Doubling(n, 30 - n); }
    }
  }

  /** The loop of xc_config_hash ever reaches the size wanted exactly if that is at most 2^30: beyond,
      the doubling overflows to a negative number and then stays at zero. */
  lemma ConfigHashStopsIff(wanted: int)
    ensures (exists n: nat :: Doubled(n) >= wanted) <==> wanted <= MAX_SIZE
  {
    LargestSize();
    forall n: nat ensures Doubled(n) <= MAX_SIZE {
      DoubledIs(n);
      if n <= 30 { Doubling(n, 30 - n); }
    }
    DoubledIs(30);
  }

  /** For 1073741825 slots the loop doubles forever. */
  lemma LoopsForever()
    ensures forall n: nat :: Doubled(n) < 1073741825
  {
    ConfigHashStopsIff(1073741825);
    forall n: nat ensures Doubled(n) < 1073741825 {
      assert !(Doubled(n) >= 1073741825);
    }
  }

  /** xc_config_hash, for sizes whose power of two an int can hold. */
  method ConfigHash(wanted: int) returns (h: Hasher)
    requires wanted <= MAX_SIZE
    ensures HasherOk(h) && wanted <= h.size && (h.size == 1 || h.size / 2 < wanted)
  {
    var size: nat, bits: nat := 1, 1;
    while size < wanted
      invariant bits > 0 && size == Pow2(bits - 1) && (size == 1 || size / 2 < wanted)
      decreases wanted - size
    {
      bits := bits + 1;
      size := size * 2;
    }
    return Hasher(bits, size, size - 1);
  }

  /** The rounds of xc_hash_fold. */
  function FoldFrom(h: Hasher, v: nat, folded: nat): nat
    requires h.bits > 0
    decreases v
  {
    if v == 0 then folded else FoldFrom(h, Shr(v, h.bits), Xor(folded, And(v, h.mask)))
  }

  lemma MaskedIsSmall(h: Hasher, v: nat)
    requires HasherOk(h)
    ensures And(v, h.mask) < h.size
  {
    MaskTakesLow(v, h.bits - 1);
  }

  lemma FoldedStays(h: Hasher, folded: nat, group: nat)
    requires HasherOk(h) && folded < h.size && group < h.size
    ensures Xor(folded, group) < h.size
  {
    XorStays(folded, group, h.bits - 1);
  }

  /** xc_hash_fold: the index is always below the size. */
  method Fold(h: Hasher, hvalue: nat) returns (folded: nat)
    requires HasherOk(h)
    ensures folded == FoldFrom(h, hvalue, 0) && folded < h.size
  {
    var v: nat := hvalue;
    folded := 0;
    while v != 0
      invariant FoldFrom(h, hvalue, 0) == FoldFrom(h, v, folded) && folded < h.size
      decreases v
    {
      MaskedIsSmall(h, v);
      FoldedStays(h, folded, And(v, h.mask));
      folded := Xor(folded, And(v, h.mask));
      v := Shr(v, h.bits);
    }
  }

  // ---- what the index depends on ----------------------------------------------------------------

  /** v without the bit that each round shifts out unmasked: the shift is one wider than the mask. */
  function Seen(h: Hasher, v: nat): nat
    requires h.bits > 0
    decreases v
  {
    if v == 0 then 0 else Above(Low(v, h.bits - 1), h.bits, Seen(h, Shr(v, h.bits)))
  }

  lemma {:induction false} XorZero(a: nat)
    ensures Xor(a, 0) == a
  {
    if a == 0 {
    } else {
      XorZero(a / 2);
    }
  }

  lemma {:induction false} ShrZero(n: nat)
    ensures Shr(0, n) == 0
  {
    if n == 0 {
    } else {
      ShrZero(n - 1);
    }
  }

  /** A round in terms of the low bits, also when nothing is left. */
  lemma FoldStep(h: Hasher, v: nat, folded: nat)
    requires HasherOk(h)
    ensures FoldFrom(h, v, folded) == FoldFrom(h, Shr(v, h.bits), Xor(folded, Low(v, h.bits - 1)))
  {
    MaskTakesLow(v, h.bits - 1);
    if v == 0 {
      XorZero(folded);
      LowOfZero(h.bits - 1);
      ShrZero(h.bits);
    }
  }

  lemma SeenParts(h: Hasher, v: nat)
    requires HasherOk(h) && v > 0
    ensures Shr(Seen(h, v), h.bits) == Seen(h, Shr(v, h.bits)) && Low(Seen(h, v), h.bits - 1) == Low(v, h.bits - 1)
  {
    var low, rest := Low(v, h.bits - 1), Seen(h, Shr(v, h.bits));
    AboveParts(low, h.bits, rest);
    LowOfAbove(low, h.bits, rest, h.bits - 1);
    LowOfLow(v, h.bits - 1);
  }

  /** Values that differ only in those bits get the same index. */
  lemma {:induction false} UnseenBitsDoNotMatter(h: Hasher, v: nat, folded: nat)
    requires HasherOk(h)
    ensures FoldFrom(h, v, folded) == FoldFrom(h, Seen(h, v), folded)
    decreases v
  {
    if v == 0 {
    } else {
      var next, low := Shr(v, h.bits), Low(v, h.bits - 1);
      FoldStep(h, v, folded);
      FoldStep(h, Seen(h, v), folded);
      SeenParts(h, v);
      UnseenBitsDoNotMatter(h, next, Xor(folded, low));
    }
  }

  // ---- one bit -----------------------------------------------------------------------------------

  /** v with bit i the other way round. */
  function Flip(v: nat, i: nat): (r: nat)
    ensures r != v
    decreases i
  {
    if i == 0 then (if v % 2 == 0 then v + 1 else v - 1) else v % 2 + 2 * Flip(v / 2, i - 1)
  }

  lemma FlipHalves(v: nat, i: nat)
    ensures Flip(v, i) / 2 == (if i == 0 then v / 2 else Flip(v / 2, i - 1))
    ensures Flip(v, i) % 2 == (if i == 0 then 1 - v % 2 else v % 2)
  {
  }

  lemma XorHalves(a: nat, b: nat)
    ensures Xor(a, b) / 2 == Xor(a / 2, b / 2)
    ensures Xor(a, b) % 2 == (if a % 2 == b % 2 then 0 else 1)
  {
  }

  lemma SameHalves(a: nat, b: nat)
    requires a / 2 == b / 2 && a % 2 == b % 2
    ensures a == b
  {
  }

  lemma LowHalves(v: nat, k: nat)
    requires k > 0
    ensures Low(v, k) / 2 == Low(v / 2, k - 1) && Low(v, k) % 2 == v % 2
  {
  }

  lemma {:induction false} LowOfFlip(v: nat, i: nat, k: nat)
    ensures Low(Flip(v, i), k) == if i < k then Flip(Low(v, k), i) else Low(v, k)
    decreases k
  {
    if k == 0 {
      // no bits are left
    } else {
      FlipHalves(v, i);
      FlipHalves(Low(v, k), i);
      LowHalves(v, k);
      LowHalves(Flip(v, i), k);
      if i > 0 { LowOfFlip(v / 2, i - 1, k - 1); }
      SameHalves(Low(Flip(v, i), k), if i < k then Flip(Low(v, k), i) else Low(v, k));
    }
  }

  lemma {:induction false} ShrOfFlip(v: nat, i: nat, n: nat)
    ensures Shr(Flip(v, i), n) == if i < n then Shr(v, n) else Flip(Shr(v, n), i - n)
    decreases n
  {
    FlipHalves(v, i);
    if n == 0 || i == 0 {
      // nothing goes, or the flipped bit goes first
    } else {
      ShrOfFlip(v / 2, i - 1, n - 1);
    }
  }

  lemma {:induction false} XorOfFlip(a: nat, b: nat, i: nat)
    ensures Xor(Flip(a, i), b) == Flip(Xor(a, b), i)
    decreases i
  {
    var x, y := Xor(Flip(a, i), b), Flip(Xor(a, b), i);
    FlipHalves(a, i);
    XorHalves(Flip(a, i), b);
    XorHalves(a, b);
    FlipHalves(Xor(a, b), i);
    if i == 0 {
      // the upper halves are those of a
    } else {
      XorOfFlip(a / 2, b / 2, i - 1);
    }
    SameHalves(x, y);
  }

  lemma {:induction false} XorCommutes(a: nat, b: nat)
    ensures Xor(a, b) == Xor(b, a)
    decreases a + b
  {
    if a == 0 && b == 0 {
      // both are zero
    } else {
      XorCommutes(a / 2, b / 2);
    }
  }

  lemma {:induction false} FoldOfFlip(h: Hasher, v: nat, folded: nat, i: nat)
    requires h.bits > 0
    ensures FoldFrom(h, v, Flip(folded, i)) == Flip(FoldFrom(h, v, folded), i)
    decreases v
  {
    if v == 0 {
      // the accumulator is the result
    } else {
      XorOfFlip(folded, And(v, h.mask), i);
      FoldOfFlip(h, Shr(v, h.bits), Xor(folded, And(v, h.mask)), i);
    }
  }

  /** The position of bit i in its group. */
  function Position(i: nat, bits: nat): nat
    requires bits > 0
  {
    if i < bits then i else Position(i - bits, bits)
  }

  lemma {:induction false} PositionIsRemainder(i: nat, bits: nat)
    requires bits > 0
    ensures Position(i, bits) == i % bits
  {
    if i < bits {
      Remainder(i, 0, i, bits);
    } else {
      PositionIsRemainder(i - bits, bits);
      Remainder(i, (i - bits) / bits + 1, (i - bits) % bits, bits);
    }
  }

  /** Flipping bit i of the hash value flips one bit of the index, the one at the bit's position in its
      group, if that is within the mask, and otherwise changes nothing. */
  lemma {:induction false} FlippedBit(h: Hasher, v: nat, folded: nat, i: nat)
    requires HasherOk(h)
    ensures var p, f := Position(i, h.bits), FoldFrom(h, v, folded);
      FoldFrom(h, Flip(v, i), folded) == if p < h.bits - 1 then Flip(f, p) else f
    decreases i
  {
    var low, rest := Low(v, h.bits - 1), Shr(v, h.bits);
    FoldStep(h, v, folded);
    FlippedRound(h, v, folded, i);
    if i < h.bits {
      FlippedLow(h, rest, folded, low, i);
    } else {
      FlippedBit(h, rest, Xor(folded, low), i - h.bits);
    }
  }

  /** The first round sees the flipped bit, or drops it, or leaves it to the rounds that follow. */
  lemma FlippedRound(h: Hasher, v: nat, folded: nat, i: nat)
    requires HasherOk(h)
    ensures var low, rest := Low(v, h.bits - 1), Shr(v, h.bits);
      FoldFrom(h, Flip(v, i), folded) ==
        FoldFrom(h, if i < h.bits then rest else Flip(rest, i - h.bits),
                 Xor(folded, if i < h.bits - 1 then Flip(low, i) else low))
  {
    FoldStep(h, Flip(v, i), folded);
    LowOfFlip(v, i, h.bits - 1);
    ShrOfFlip(v, i, h.bits);
  }

  lemma FlippedLow(h: Hasher, rest: nat, folded: nat, low: nat, i: nat)
    requires h.bits > 0
    ensures FoldFrom(h, rest, Xor(folded, Flip(low, i))) == Flip(FoldFrom(h, rest, Xor(folded, low)), i)
  {
    XorCommutes(folded, Flip(low, i));
    XorCommutes(folded, low);
    XorOfFlip(low, folded, i);
    FoldOfFlip(h, rest, Xor(folded, low), i);
  }

  /** A bit of the hash value reaches the index exactly if its position modulo bits is below bits - 1:
      the shift is one wider than the mask. */
  lemma BitReachesIndexIff(h: Hasher, v: nat, i: nat)
    requires HasherOk(h)
    ensures FoldFrom(h, Flip(v, i), 0) != FoldFrom(h, v, 0) <==> i % h.bits < h.bits - 1
  {
    FlippedBit(h, v, 0, i);
    PositionIsRemainder(i, h.bits);
  }

  /** With the default of 8K slots, hash values that differ in bit 13 alone share a chain. */
  lemma DefaultSlots(v: nat)
    ensures var h := Hasher(14, 8192, 8191);
      HasherOk(h) && FoldFrom(h, Flip(v, 13), 0) == FoldFrom(h, v, 0)
  {
    var h := Hasher(14, 8192, 8191);
    FiveDoublings(0);
    FiveDoublings(5);
    assert Pow2(12) == 2 * Pow2(11) && Pow2(11) == 2 * Pow2(10);
    assert Pow2(13) == 2 * Pow2(12);
    BitReachesIndexIff(h, v, 13);
  }
}
