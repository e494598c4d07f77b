/** Carving the shared segment into one region per cache. */
module Arenas {
  import opened Machine
  import opened Chains
  import Blocks

  // ---- the size of a region --------------------------------------------------------------------

  /** What is left after the loop of xc_cache_init, or None when it gives up ("cache too small"). */
  function Carved(shmsize: nat, count: nat): Option<nat>
    requires count > 0
  {
    var q := shmsize / count;
    if q >= UINT_MOD then Some(q % UINT_MOD)
    else if 0 < q < Blocks.WORD then None
    else Some(q - q % Blocks.WORD)
  }

  lemma FitsIff(m: nat, shmsize: nat, count: nat)
    requires count > 0
    ensures m * count <= shmsize <==> m <= shmsize / count
  {
    var q := shmsize / count;
    assert q * count <= shmsize < (q + 1) * count;
    if m <= q { Times(m, q, count); } else { Times(q + 1, m, count); }
  }

  lemma Times(a: nat, b: nat, c: nat)
    requires a <= b
    ensures a * c <= b * c
  {
  }

  lemma AlignIs(n: nat)
    ensures var a := Blocks.Align(n); a % Blocks.WORD == 0 && n <= a < n + Blocks.WORD
    ensures forall m: nat :: m % Blocks.WORD == 0 && n <= m ==> Blocks.Align(n) <= m
  {
  }

  /** The region size is the largest aligned value not above the fair share, exactly when the share
      fits the 32 bits it is kept in. */
  lemma CarvedIsLargestIff(shmsize: nat, count: nat)
    requires count > 0 && Carved(shmsize, count).Some?
    ensures var m, q := Carved(shmsize, count).value, shmsize / count;
      && m * count <= shmsize
      && (m % Blocks.WORD == 0 && m <= q < m + Blocks.WORD <==> q < UINT_MOD)
      && (m % Blocks.WORD == 0 <==> q < UINT_MOD || q % Blocks.WORD == 0)
  {
    var m, q := Carved(shmsize, count).value, shmsize / count;
    FitsIff(m, shmsize, count);
    if q >= UINT_MOD { LowBits(q); }
  }

  lemma LowBits(q: nat)
    ensures q % UINT_MOD % Blocks.WORD == q % Blocks.WORD
  {
    assert UINT_MOD == 0x2000_0000 * Blocks.WORD;
    assert q == q / UINT_MOD * UINT_MOD + q % UINT_MOD;
  }

  /** With an int setting every arena is so small that the search turns a request down exactly when no
      free block fits: the INT_MAX it starts from never matters. */
  lemma CarvedArenaRefusesExactly(v: nat, count: nat, bs: seq<Blocks.Block>, lo: nat, r: nat)
    requires v <= INT_MAX && count > 0 && Carved(v, count).Some?
    requires Carved(v, count).value >= Blocks.BLOCK_BYTES
    requires Blocks.Tiled(bs, lo, Carved(v, count).value - Blocks.BLOCK_BYTES)
    ensures Blocks.NoFit(bs, r) <==>
      forall j :: 0 <= j < |bs| ==> !Blocks.Exact(bs[j], r) && !Blocks.Larger(bs[j], r)
  {
    var m := Carved(v, count).value;
    FitsIff(m, v, count);
    Times(1, count, m);
    Blocks.NoFitInSmallArena(bs, lo, m - Blocks.BLOCK_BYTES, r);
  }

  // ---- the regions -------------------------------------------------------------------------------

  datatype Region = Region(offset: nat, bytes: nat)

  function RegionsFrom(start: nat, bytes: nat, n: nat): (rs: seq<Region>)
    ensures |rs| == n
    ensures forall i: nat :: i < n ==> rs[i] == Region(start + i * bytes, bytes)
  {
    if n == 0 then [] else RegionsFrom(start, bytes, n - 1) + [Region(start + (n - 1) * bytes, bytes)]
  }

  datatype Carving = Caches(regions: seq<Region>) | TooSmall | InternalError | Unworkable

  class Segment {
    const size: nat
    var memoffset: nat

    constructor (size: nat)
      ensures this.size == size && memoffset == 0
    {
      this.size := size;
      memoffset := 0;
    }

    /** xc_mmap_meminit: the next bytes of the segment, or the internal error. */
    method MemInit(bytes: nat) returns (r: Option<Region>)
      modifies this
      ensures if old(memoffset) + bytes > size then r == None && memoffset == old(memoffset)
              else r == Some(Region(old(memoffset), bytes)) && memoffset == old(memoffset) + bytes
    {
      if memoffset + bytes > size { return None; }
      r := Some(Region(memoffset, bytes));
      memoffset := memoffset + bytes;
    }

    /** xc_cache_init. works: whether the structures and the lock of the i-th cache can be made. */
    method CacheInit(count: nat, shmsize: nat, works: nat -> bool) returns (r: Carving)
      requires 0 < count < INT_MAX
      modifies this
      ensures r.TooSmall? <==> 0 < shmsize / count < 8
      ensures r.TooSmall? <==> Carved(shmsize, count).None?
      ensures r.Caches? ==> var m := Carved(shmsize, count).value;
        r.regions == RegionsFrom(old(memoffset), m, count) && memoffset == old(memoffset) + count * m
      ensures r.InternalError? ==> old(memoffset) + count * Carved(shmsize, count).value > size
      ensures r.Unworkable? ==> exists i: nat :: i < count && !works(i)
      ensures r.Caches? ==> forall i: nat :: i < count ==> works(i)
    {
      var fit := MemSize(shmsize, count);
      if fit == None { return TooSmall; }
      r := MakeCaches(count, fit.value, works);
    }

    /** The loop that makes the caches. */
    method MakeCaches(count: nat, m: nat, works: nat -> bool) returns (r: Carving)
      modifies this
      ensures !r.TooSmall?
      ensures r.Caches? ==>
        r.regions == RegionsFrom(old(memoffset), m, count) && memoffset == old(memoffset) + count * m
      ensures r.InternalError? ==> old(memoffset) + count * m > size
      ensures r.Unworkable? ==> exists i: nat :: i < count && !works(i)
      ensures r.Caches? ==> forall i: nat :: i < count ==> works(i)
    {
      var regions := [];
      for i := 0 to count
        invariant regions == RegionsFrom(old(memoffset), m, i) && memoffset == old(memoffset) + i * m
        invariant forall j: nat :: j < i ==> works(j)
      {
        Times(i + 1, count, m);
        var region := MemInit(m);
        if region == None { return InternalError; }
        if !works(i) { return Unworkable; }
        regions := regions + [region.value];
      }
      return Caches(regions);
    }
  }

  predicate TooBig(memsize: nat, shmsize: nat, count: nat) { Blocks.Align(memsize) * count > shmsize }

  lemma TooBigIff(memsize: nat, shmsize: nat, count: nat)
    requires count > 0
    ensures TooBig(memsize, shmsize, count) <==> Blocks.Align(memsize) > shmsize / count
  {
    FitsIff(Blocks.Align(memsize), shmsize, count);
  }

  /** Where the loop may be, for a share of q bytes. */
  predicate Shrinking(q: nat, memsize: nat) {
    if q < UINT_MOD then q - q % Blocks.WORD <= memsize <= q && (q < Blocks.WORD ==> memsize == q)
    else memsize == q % UINT_MOD
  }

  lemma ShrinkingStep(q: nat, memsize: nat)
    requires Shrinking(q, memsize)
    ensures var again := Blocks.Align(memsize) > q && Blocks.Align(memsize) != memsize;
      && (again && memsize < Blocks.WORD ==> 0 < q < Blocks.WORD)
      && (again && memsize >= Blocks.WORD ==> Shrinking(q, memsize - 1))
      && (!again && q >= UINT_MOD ==> memsize == q % UINT_MOD)
      && (!again && q < UINT_MOD ==> memsize == q - q % Blocks.WORD && !(0 < q < Blocks.WORD))
  {
    if q >= UINT_MOD {
      assert memsize < UINT_MOD;
      AlignIs(memsize);
    }
  }

  /** The loop that makes an aligned region size fit. */
  method MemSize(shmsize: nat, count: nat) returns (r: Option<nat>)
    requires 0 < count < INT_MAX
    ensures r == Carved(shmsize, count)
    ensures r == None <==> 0 < shmsize / count < 8
  {
    ghost var q: nat := shmsize / count;
    var memsize: nat := shmsize / count % UINT_MOD;
    while TooBig(memsize, shmsize, count) && Blocks.Align(memsize) != memsize
      invariant Shrinking(q, memsize)
      decreases memsize
    {
      TooBigIff(memsize, shmsize, count);
      ShrinkingStep(q, memsize);
      if memsize < Blocks.Align(1) { return None; }
      memsize := memsize - 1;
    }
    TooBigIff(memsize, shmsize, count);
    ShrinkingStep(q, memsize);
    return Some(memsize);
  }

  // ---- the whole segment ------------------------------------------------------------------------------

  function AlignWide(n: nat): nat { Blocks.Align(n) % ULONG_MOD }

  /** The check of xc_init rejects exactly the sizes whose aligned sum does not fit an address. */
  lemma InitAcceptsIff(php: nat, vars: nat)
    requires php < ULONG_MOD && vars < ULONG_MOD
    ensures var a, b, shmsize := Blocks.Align(php), Blocks.Align(vars), (AlignWide(php) + AlignWide(vars)) % ULONG_MOD;
      && (shmsize >= php && shmsize >= vars <==> a + b < ULONG_MOD)
      && (a + b < ULONG_MOD ==> shmsize == a + b)
  {
    AlignWideIs(php);
    AlignWideIs(vars);
  }

  lemma AlignWideIs(n: nat)
    requires n < ULONG_MOD
    ensures var a := Blocks.Align(n);
      && n <= a <= ULONG_MOD && AlignWide(n) == (if a == ULONG_MOD then 0 else a)
      && (a < ULONG_MOD ==> a <= ULONG_MOD - Blocks.WORD)
  {
    AlignIs(n);
    assert ULONG_MOD % Blocks.WORD == 0;
  }

  /** The size of the segment, if it is accepted. */
  method SegmentSize(php: nat, vars: nat) returns (r: Option<nat>)
    requires php < ULONG_MOD && vars < ULONG_MOD
    ensures var sum := Blocks.Align(php) + Blocks.Align(vars);
      r == (if sum < ULONG_MOD then Some(sum) else None) && php <= Blocks.Align(php) && vars <= Blocks.Align(vars)
  {
    InitAcceptsIff(php, vars);
    AlignIs(php);
    AlignIs(vars);
    var shmsize := (AlignWide(php) + AlignWide(vars)) % ULONG_MOD;
    return if shmsize < php || shmsize < vars then None else Some(shmsize);
  }

  /** What an int setting becomes as a zend_ulong: negative ones end up at the top. */
  predicate IntSetting(v: nat) { v <= INT_MAX || ULONG_MOD - INT_MAX - 1 <= v < ULONG_MOD }

  /** A setting yields a share of 32 bits or more exactly if it was negative. */
  lemma WideShareIff(v: nat, count: nat)
    requires IntSetting(v) && 0 < count < INT_MAX
    ensures v / count >= UINT_MOD <==> v > INT_MAX
  {
    FitsIff(UINT_MOD, v, count);
    Times(count, INT_MAX, UINT_MOD);
    Times(1, count, UINT_MOD);
  }

  /** The check of xc_init lets a negative size pass if it is -8 or less; the segment is then within
      2^31 bytes of the whole address space, which no mapping reaches. */
  lemma NegativeSettingPassesIff(v: nat)
    requires IntSetting(v) && v > INT_MAX
    ensures Blocks.Align(v) + Blocks.Align(0) < ULONG_MOD <==> v <= ULONG_MOD - Blocks.WORD
    ensures Blocks.Align(v) >= ULONG_MOD - INT_MAX - 1
  {
    AlignIs(v);
    AlignWideIs(v);
  }

  datatype Startup =
    | Started(php: seq<Region>, vars: seq<Region>, size: nat)
    | Rejected
    | NoSegment
    | Failed(reason: Carving)

  /** All regions lie in the segment and none reaches into a later one. */
  ghost predicate InOrder(rs: seq<Region>, lo: nat, hi: nat) {
    && (forall i: nat :: i < |rs| ==> lo <= rs[i].offset && rs[i].offset + rs[i].bytes <= hi)
    && (forall i: nat, j: nat :: i < j < |rs| ==> rs[i].offset + rs[i].bytes <= rs[j].offset)
  }

  ghost predicate Aligned(rs: seq<Region>) { forall i: nat :: i < |rs| ==> rs[i].offset % Blocks.WORD == 0 }

  lemma RegionsInOrder(start: nat, bytes: nat, n: nat)
    ensures InOrder(RegionsFrom(start, bytes, n), start, start + n * bytes)
  {
    var rs := RegionsFrom(start, bytes, n);
    forall i: nat | i < n ensures start <= rs[i].offset && rs[i].offset + rs[i].bytes <= start + n * bytes {
      RegionEnds(start, bytes, i, n);
    }
    forall i: nat, j: nat | i < j < n ensures rs[i].offset + rs[i].bytes <= rs[j].offset {
      RegionEnds(start, bytes, i, j);
    }
  }

  lemma RegionEnds(start: nat, bytes: nat, i: nat, j: nat)
    requires i < j
    ensures start <= start + i * bytes && start + i * bytes + bytes <= start + j * bytes
  {
    Times(i + 1, j, bytes);
  }

  lemma RegionsAligned(start: nat, bytes: nat, n: nat)
    requires start % Blocks.WORD == 0 && bytes % Blocks.WORD == 0
    ensures Aligned(RegionsFrom(start, bytes, n)) && (start + n * bytes) % Blocks.WORD == 0
  {
    forall i: nat ensures (start + i * bytes) % Blocks.WORD == 0 {
      assert i * bytes == i * (bytes / Blocks.WORD) * Blocks.WORD;
    }
  }

  lemma TwoInOrder(a: seq<Region>, b: seq<Region>, mid: nat, hi: nat)
    requires InOrder(a, 0, mid) && InOrder(b, mid, hi) && mid <= hi
    ensures InOrder(a + b, 0, hi)
    ensures Aligned(a) && Aligned(b) ==> Aligned(a + b)
  {
  }

  /** The share of each cache fits its 32 bits, if there is such a cache. */
  predicate NarrowShare(shmsize: nat, count: nat)
    requires count > 0
  {
    shmsize == 0 || shmsize / count < UINT_MOD
  }

  /** Regions as carved from a size for a number of caches. */
  ghost predicate CarvedFrom(rs: seq<Region>, bytes: nat, count: nat)
    requires count > 0
  {
    forall i: nat :: i < |rs| ==> Carved(bytes, count) == Some(rs[i].bytes)
  }

  /** A kind of cache can be made: it is switched off, or each share is zero or at least 8 bytes and every
      cache works. */
  ghost predicate Workable(bytes: nat, count: nat, works: nat -> bool)
    requires count > 0
  {
    bytes == 0 || ((bytes / count == 0 || bytes / count >= 8) && forall i: nat :: i < count ==> works(i))
  }

  /** One kind of cache: nothing if its size is zero. */
  method InitKind(seg: Segment, count: nat, bytes: nat, works: nat -> bool) returns (r: Carving)
    requires 0 < count < INT_MAX && seg.memoffset + bytes <= seg.size
    modifies seg
    ensures !r.InternalError?
    ensures r.Caches? <==> Workable(bytes, count, works)
    ensures r.Caches? ==>
      seg.memoffset <= old(seg.memoffset) + bytes && InOrder(r.regions, old(seg.memoffset), seg.memoffset)
    ensures r.Caches? && NarrowShare(bytes, count) && old(seg.memoffset) % Blocks.WORD == 0 ==>
      Aligned(r.regions) && seg.memoffset % Blocks.WORD == 0
    ensures r.Caches? ==> |r.regions| == (if bytes == 0 then 0 else count) && CarvedFrom(r.regions, bytes, count)
  {
    if bytes == 0 { return Caches([]); }
    r := seg.CacheInit(count, bytes, works);
    if Carved(bytes, count).Some? {
      ghost var m := Carved(bytes, count).value;
      CarvedIsLargestIff(bytes, count);
      RegionsInOrder(old(seg.memoffset), m, count);
      if NarrowShare(bytes, count) && old(seg.memoffset) % Blocks.WORD == 0 {
        RegionsAligned(old(seg.memoffset), m, count);
      }
    }
  }

  lemma SmallSettings(phpSize: nat, varSize: nat, phpCount: nat, varCount: nat, size: nat)
    requires 0 < phpCount < INT_MAX && 0 < varCount < INT_MAX
    requires size == Blocks.Align(phpSize) + Blocks.Align(varSize)
    ensures IntSetting(phpSize) && IntSetting(varSize) && size < ULONG_MOD - INT_MAX - 1 ==>
      phpSize <= INT_MAX && varSize <= INT_MAX && NarrowShare(phpSize, phpCount) && NarrowShare(varSize, varCount)
  {
    AlignIs(phpSize);
    AlignIs(varSize);
    if IntSetting(phpSize) { WideShareIff(phpSize, phpCount); }
    if IntSetting(varSize) { WideShareIff(varSize, varCount); }
  }

  /** xc_init: the internal error of meminit never happens, and all regions handed out are inside the
      segment, pairwise disjoint, and aligned while every share fits 32 bits. That is so for all settings if
      no segment within 2^31 bytes of the address space can be mapped; limit is the largest that can. */
  method XcInit(phpSize: nat, varSize: nat, phpCount: nat, varCount: nat, limit: nat, works: nat -> bool)
      returns (r: Startup)
    requires phpSize < ULONG_MOD && varSize < ULONG_MOD
    requires 0 < phpCount < INT_MAX && 0 < varCount < INT_MAX
    ensures r.Rejected? <==> Blocks.Align(phpSize) + Blocks.Align(varSize) >= ULONG_MOD
    ensures r.NoSegment? ==> Blocks.Align(phpSize) + Blocks.Align(varSize) > limit
    ensures r.Started? <==>
      && Blocks.Align(phpSize) + Blocks.Align(varSize) < ULONG_MOD
      && Blocks.Align(phpSize) + Blocks.Align(varSize) <= limit
      && Workable(phpSize, phpCount, works) && Workable(varSize, varCount, works)
    ensures r.Failed? ==> !r.reason.InternalError? && !r.reason.Caches?
    ensures r.Started? ==> InOrder(r.php + r.vars, 0, r.size) && r.size == Blocks.Align(phpSize) + Blocks.Align(varSize)
    ensures r.Started? && NarrowShare(phpSize, phpCount) && NarrowShare(varSize, varCount) ==> Aligned(r.php + r.vars)
    ensures r.Started? && IntSetting(phpSize) && IntSetting(varSize) && limit < ULONG_MOD - INT_MAX - 1 ==>
      Aligned(r.php + r.vars)
    ensures r.Started? && IntSetting(phpSize) && IntSetting(varSize) && limit < ULONG_MOD - INT_MAX - 1 ==>
      phpSize <= INT_MAX && varSize <= INT_MAX
    ensures r.Started? ==> CarvedFrom(r.php, phpSize, phpCount) && CarvedFrom(r.vars, varSize, varCount)
    ensures r.Started? ==>
      |r.php| == (if phpSize == 0 then 0 else phpCount) && |r.vars| == if varSize == 0 then 0 else varCount
  {
    var size := SegmentSize(phpSize, varSize);
    if size == None { return Rejected; }
    if size.value > limit { return NoSegment; }
    SmallSettings(phpSize, varSize, phpCount, varCount, size.value);
    var seg := new Segment(size.value);
    var php := InitKind(seg, phpCount, phpSize, works);
    if !php.Caches? { return Failed(php); }
    ghost var mid := seg.memoffset;
    var vars := InitKind(seg, varCount, varSize, works);
    if !vars.Caches? { return Failed(vars); }
    TwoInOrder(php.regions, vars.regions, mid, size.value);
    return Started(php.regions, vars.regions, size.value);
  }
}
