/** The abstract state of one XCache arena: the blocks of the arena in address order.
    Block starts are word indices (every start is aligned), block sizes are bytes. */
module Blocks {
  import opened Machine

  const WORD: nat := 8              // XCACHE_PLATFORM_ALIGNMENT on a 64-bit platform
  const HEADER_BYTES: nat := 8      // BLOCK_HEADER_SIZE()
  const BLOCK_BYTES: nat := 16      // sizeof(xc_block_t)

  function Align(n: nat): nat { (n + 7) / 8 * 8 }

  /** The size of the block that serves a request, in 32-bit unsigned arithmetic. */
  function RealSize(size: nat): nat
    requires size < UINT_MOD
  {
    Align((HEADER_BYTES + size) % UINT_MOD) % UINT_MOD
  }

  /** The 32-bit computation yields room for header and payload exactly when it does not wrap. */
  lemma RealSizeHoldsRequest(size: nat)
    requires size < UINT_MOD
    ensures RealSize(size) >= HEADER_BYTES + size <==> size <= UINT_MOD - BLOCK_BYTES
    ensures size <= UINT_MOD - BLOCK_BYTES ==> RealSize(size) < HEADER_BYTES + size + WORD
    ensures RealSize(size) % WORD == 0
  {
    if size > UINT_MOD - BLOCK_BYTES {
      if size < UINT_MOD - 8 {
        assert HEADER_BYTES + size < UINT_MOD;
      }
    }
  }

  /** A block can hold its own free-list header after being freed exactly when the request was
      non-empty and did not wrap. */
  lemma RealSizeHoldsFreeHeader(size: nat)
    requires size < UINT_MOD
    ensures RealSize(size) >= BLOCK_BYTES <==> 1 <= size <= UINT_MOD - BLOCK_BYTES
  {
    RealSizeHoldsRequest(size);
    if size > UINT_MOD - BLOCK_BYTES {
      if size < UINT_MOD - 8 {
        assert HEADER_BYTES + size < UINT_MOD;
      } else {
        assert (HEADER_BYTES + size) % UINT_MOD == HEADER_BYTES + size - UINT_MOD < 8;
      }
    }
  }

  /** A request of no bytes gets a header and nothing behind it; one near 2^32 gets nothing at all. */
  lemma TooSmallRequests()
    ensures RealSize(0) == HEADER_BYTES < BLOCK_BYTES && RealSize(UINT_MOD - HEADER_BYTES) == 0
  {
  }

  datatype Block = Block(off: nat, bytes: nat, free: bool)

  /** b ends where c starts, and b can hold a free-list header. */
  ghost predicate Abuts(b: Block, c: Block) {
    WORD * b.off + b.bytes == WORD * c.off && b.bytes >= BLOCK_BYTES && c.bytes > 0
  }

  ghost predicate AbutsAt(bs: seq<Block>, i: nat)
    requires 0 < i < |bs|
  {
    Abuts(bs[i - 1], bs[i])
  }

  ghost predicate Laid(bs: seq<Block>) {
    forall i: nat :: 0 < i < |bs| ==> AbutsAt(bs, i)
  }

  ghost predicate BothFree(bs: seq<Block>, i: nat)
    requires 0 < i < |bs|
  {
    bs[i - 1].free && bs[i].free
  }

  ghost predicate Coalesced(bs: seq<Block>) {
    forall i: nat :: 0 < i < |bs| ==> !BothFree(bs, i)
  }

  /** The blocks cover bytes [WORD * lo, hi) without gap or overlap, and every block with a
      successor can hold a free-list header. */
  ghost predicate Tiled(bs: seq<Block>, lo: nat, hi: nat) {
    && |bs| > 0
    && bs[0].off == lo
    && WORD * bs[|bs| - 1].off + bs[|bs| - 1].bytes == hi
    && Laid(bs)
  }

  /** Tiled, and no two neighbours are both free. */
  ghost predicate Inv(bs: seq<Block>, lo: nat, hi: nat) {
    Tiled(bs, lo, hi) && Coalesced(bs)
  }

  ghost function FreeUpTo(bs: seq<Block>, k: nat): seq<nat>
    requires k <= |bs|
  {
    if k == 0 then [] else FreeUpTo(bs, k - 1) + (if bs[k - 1].free then [bs[k - 1].off] else [])
  }

  ghost function FreeBytesUpTo(bs: seq<Block>, k: nat): nat
    requires k <= |bs|
  {
    if k == 0 then 0 else FreeBytesUpTo(bs, k - 1) + (if bs[k - 1].free then bs[k - 1].bytes else 0)
  }

  /** The free list: starts of the free blocks, in address order. */
  ghost function FreeOffs(bs: seq<Block>): seq<nat> { FreeUpTo(bs, |bs|) }

  ghost function FreeBytes(bs: seq<Block>): nat { FreeBytesUpTo(bs, |bs|) }

  // ---- choosing a block -------------------------------------------------------------

  ghost predicate Exact(b: Block, r: nat) { b.free && b.bytes == r }

  /** Big enough to leave a block with its own header behind; INT_MAX is the search's sentinel. */
  ghost predicate Splittable(b: Block, r: nat) { b.free && BLOCK_BYTES + r < b.bytes < INT_MAX }

  ghost predicate NoFit(bs: seq<Block>, r: nat) {
    forall j :: 0 <= j < |bs| ==> !Exact(bs[j], r) && !Splittable(bs[j], r)
  }

  /** Block i is the first exact fit, or, without an exact fit, the first smallest splittable one. */
  ghost predicate BestFit(bs: seq<Block>, r: nat, i: nat) {
    && i < |bs|
    && if Exact(bs[i], r) then forall j :: 0 <= j < i ==> !Exact(bs[j], r)
       else
         && Splittable(bs[i], r)
         && (forall j :: 0 <= j < |bs| ==> !Exact(bs[j], r))
         && (forall j :: 0 <= j < |bs| && Splittable(bs[j], r) ==> bs[i].bytes <= bs[j].bytes)
         && (forall j :: 0 <= j < i && Splittable(bs[j], r) ==> bs[i].bytes < bs[j].bytes)
  }

  lemma BestFitUnique(bs: seq<Block>, r: nat, i: nat, j: nat)
    requires BestFit(bs, r, i) && BestFit(bs, r, j)
    ensures i == j && !NoFit(bs, r)
  {
    assert Exact(bs[i], r) || Splittable(bs[i], r);
    assert Exact(bs[j], r) || Splittable(bs[j], r);
  }

  // ---- what allocating and freeing do to the blocks ------------------------------------

  /** The pieces of a block that serves a request of r bytes. */
  ghost function Carve(b: Block, r: nat): seq<Block>
    requires r <= b.bytes
  {
    if b.bytes == r then [b.(free := false)]
    else [Block(b.off, r, false), Block(b.off + r / WORD, b.bytes - r, true)]
  }

  ghost function AllocAt(bs: seq<Block>, i: nat, r: nat): seq<Block>
    requires i < |bs| && r <= bs[i].bytes
  {
    bs[..i] + Carve(bs[i], r) + bs[i + 1..]
  }

  ghost function MergeNext(bs: seq<Block>, i: nat): seq<Block>
    requires i < |bs|
  {
    if i + 1 < |bs| && bs[i].free && bs[i + 1].free
    then bs[..i] + [Block(bs[i].off, bs[i].bytes + bs[i + 1].bytes, true)] + bs[i + 2..]
    else bs
  }

  ghost function Marked(bs: seq<Block>, i: nat): seq<Block>
    requires i < |bs|
  {
    bs[i := bs[i].(free := true)]
  }

  ghost function FreeAt(bs: seq<Block>, i: nat): seq<Block>
    requires i < |bs|
  {
    if i > 0 && bs[i - 1].free then MergeNext(MergeNext(Marked(bs, i), i - 1), i - 1)
    else MergeNext(Marked(bs, i), i)
  }

  ghost predicate ValidRequest(r: nat) { r >= BLOCK_BYTES && r % WORD == 0 }

  lemma LaidAppend(a: seq<Block>, b: seq<Block>)
    ensures Laid(a + b) <==> Laid(a) && Laid(b) && (a != [] && b != [] ==> Abuts(a[|a| - 1], b[0]))
  {
    var c := a + b;
    if Laid(c) {
      forall i: nat | 0 < i < |a| ensures AbutsAt(a, i) { assert AbutsAt(c, i); }
      forall i: nat | 0 < i < |b| ensures AbutsAt(b, i) { assert AbutsAt(c, |a| + i); }
      if a != [] && b != [] { assert AbutsAt(c, |a|); }
    }
    if Laid(a) && Laid(b) && (a != [] && b != [] ==> Abuts(a[|a| - 1], b[0])) {
      forall i: nat | 0 < i < |c| ensures AbutsAt(c, i) {
        if i < |a| { assert AbutsAt(a, i); } else if i > |a| { assert AbutsAt(b, i - |a|); }
      }
    }
  }

  lemma CoalescedAppend(a: seq<Block>, b: seq<Block>)
    ensures Coalesced(a + b) <==>
            Coalesced(a) && Coalesced(b) && (a != [] && b != [] ==> !(a[|a| - 1].free && b[0].free))
  {
    var c := a + b;
    if Coalesced(c) {
      forall i: nat | 0 < i < |a| ensures !BothFree(a, i) { assert !BothFree(c, i); }
      forall i: nat | 0 < i < |b| ensures !BothFree(b, i) { assert !BothFree(c, |a| + i); }
      if a != [] && b != [] { assert !BothFree(c, |a|); }
    }
    if Coalesced(a) && Coalesced(b) && (a != [] && b != [] ==> !(a[|a| - 1].free && b[0].free)) {
      forall i: nat | 0 < i < |c| ensures !BothFree(c, i) {
        if i < |a| { assert !BothFree(a, i); } else if i > |a| { assert !BothFree(b, i - |a|); }
      }
    }
  }

  /** Replacing the blocks in [from, to) by a laid run that covers the same bytes keeps the tiling. */
  lemma SpliceTiled(bs: seq<Block>, lo: nat, hi: nat, from: nat, to: nat, mid: seq<Block>)
    requires Tiled(bs, lo, hi) && from < to <= |bs| && |mid| > 0 && Laid(mid)
    requires mid[0].off == bs[from].off && (from > 0 ==> mid[0].bytes > 0)
    requires var m, b := mid[|mid| - 1], bs[to - 1];
             WORD * m.off + m.bytes == WORD * b.off + b.bytes && (to < |bs| ==> m.bytes >= BLOCK_BYTES)
    ensures Tiled(bs[..from] + mid + bs[to..], lo, hi)
  {
    var pre, post := bs[..from], bs[to..];
    SpliceLaid(pre, bs[from..to], mid, post, bs);
    assert bs == pre + bs[from..to] + post;
    var n := pre + mid + post;
    assert n[0] == (if from > 0 then bs[0] else mid[0]);
    assert n[|n| - 1] == (if to < |bs| then bs[|bs| - 1] else mid[|mid| - 1]);
  }

  lemma SpliceLaid(pre: seq<Block>, was: seq<Block>, mid: seq<Block>, post: seq<Block>, bs: seq<Block>)
    requires bs == pre + was + post && Laid(bs) && Laid(mid) && |was| > 0 && |mid| > 0
    requires mid[0].off == was[0].off && (pre != [] ==> mid[0].bytes > 0)
    requires var m, b := mid[|mid| - 1], was[|was| - 1];
             WORD * m.off + m.bytes == WORD * b.off + b.bytes && (post != [] ==> m.bytes >= BLOCK_BYTES)
    ensures Laid(pre + mid + post)
  {
    LaidAppend(pre + was, post);
    LaidAppend(pre, was);
    LaidAppend(pre, mid);
    LaidAppend(pre + mid, post);
  }

  lemma SpliceCoalesced(bs: seq<Block>, from: nat, to: nat, mid: seq<Block>)
    requires Coalesced(bs) && from < to <= |bs| && |mid| > 0 && Coalesced(mid)
    requires from > 0 ==> !(bs[from - 1].free && mid[0].free)
    requires to < |bs| ==> !(mid[|mid| - 1].free && bs[to].free)
    ensures Coalesced(bs[..from] + mid + bs[to..])
  {
    var pre, post := bs[..from], bs[to..];
    assert bs == pre + bs[from..] == bs[..to] + post;
    CoalescedAppend(pre, bs[from..]);
    CoalescedAppend(bs[..to], post);
    CoalescedAppend(pre, mid);
    CoalescedAppend(pre + mid, post);
  }

  lemma AllocKeepsInv(bs: seq<Block>, lo: nat, hi: nat, i: nat, r: nat)
    requires Inv(bs, lo, hi) && ValidRequest(r)
    requires i < |bs| && (Exact(bs[i], r) || Splittable(bs[i], r))
    ensures Inv(AllocAt(bs, i, r), lo, hi)
  {
    if i + 1 < |bs| { assert AbutsAt(bs, i + 1) && !BothFree(bs, i + 1); }
    SpliceTiled(bs, lo, hi, i, i + 1, Carve(bs[i], r));
    SpliceCoalesced(bs, i, i + 1, Carve(bs[i], r));
  }

  lemma MarkedTiled(bs: seq<Block>, lo: nat, hi: nat, i: nat)
    requires Tiled(bs, lo, hi) && i < |bs|
    ensures Tiled(Marked(bs, i), lo, hi)
  {
    var n := Marked(bs, i);
    forall k: nat | 0 < k < |n| ensures AbutsAt(n, k) { assert AbutsAt(bs, k); }
  }

  lemma MergeTiled(bs: seq<Block>, lo: nat, hi: nat, i: nat)
    requires Tiled(bs, lo, hi) && i < |bs|
    ensures Tiled(MergeNext(bs, i), lo, hi)
  {
    if i + 1 < |bs| && bs[i].free && bs[i + 1].free {
      assert AbutsAt(bs, i + 1);
      if i + 2 < |bs| { assert AbutsAt(bs, i + 2); }
      SpliceTiled(bs, lo, hi, i, i + 2, [Block(bs[i].off, bs[i].bytes + bs[i + 1].bytes, true)]);
    }
  }

  /** What freeing block i leaves: one free block that swallowed its free neighbours. */
  lemma FreeAtShape(bs: seq<Block>, i: nat) returns (from: nat, to: nat, m: Block)
    requires Coalesced(bs) && i < |bs| && !bs[i].free
    ensures from == (if i > 0 && bs[i - 1].free then i - 1 else i)
    ensures to == (if i + 1 < |bs| && bs[i + 1].free then i + 2 else i + 1)
    ensures m.off == bs[from].off && m.free
    ensures m.bytes == bs[i].bytes + (if from < i then bs[from].bytes else 0)
                                   + (if i + 1 < to then bs[i + 1].bytes else 0)
    ensures FreeAt(bs, i) == bs[..from] + [m] + bs[to..]
    ensures from > 0 ==> !bs[from - 1].free
    ensures to < |bs| ==> !bs[to].free
  {
    if i > 1 { assert !BothFree(bs, i - 1); }
    if i + 2 < |bs| { assert !BothFree(bs, i + 2); }
    var b: Block;
    if i > 0 && bs[i - 1].free {
      from, b := i - 1, Block(bs[i - 1].off, bs[i - 1].bytes + bs[i].bytes, true);
      MergedLeft(bs, i);
    } else {
      from, b := i, bs[i].(free := true);
      assert Marked(bs, i) == bs[..i] + [b] + bs[i + 1..];
    }
    assert FreeAt(bs, i) == MergeNext(bs[..from] + [b] + bs[i + 1..], from);
    MergedRight(bs, from, b, i);
    if i + 1 < |bs| && bs[i + 1].free {
      to, m := i + 2, Block(b.off, b.bytes + bs[i + 1].bytes, true);
    } else {
      to, m := i + 1, b;
    }
  }

  lemma MergedLeft(bs: seq<Block>, i: nat)
    requires 0 < i < |bs| && bs[i - 1].free
    ensures MergeNext(Marked(bs, i), i - 1) ==
            bs[..i - 1] + [Block(bs[i - 1].off, bs[i - 1].bytes + bs[i].bytes, true)] + bs[i + 1..]
  {
  }

  /** Merging free block b, which stands for the blocks in [from, i], with the block after i. */
  lemma MergedRight(bs: seq<Block>, from: nat, b: Block, i: nat)
    requires from <= i < |bs| && b.free
    ensures i + 1 < |bs| && bs[i + 1].free ==>
      MergeNext(bs[..from] + [b] + bs[i + 1..], from) ==
        bs[..from] + [Block(b.off, b.bytes + bs[i + 1].bytes, true)] + bs[i + 2..]
    ensures !(i + 1 < |bs| && bs[i + 1].free) ==>
      MergeNext(bs[..from] + [b] + bs[i + 1..], from) == bs[..from] + [b] + bs[i + 1..]
  {
    var cs := bs[..from] + [b] + bs[i + 1..];
    assert cs[..from] == bs[..from] && cs[from] == b;
    if i + 1 < |bs| {
      assert cs[from + 1] == bs[i + 1] && cs[from + 2..] == bs[i + 2..];
    }
  }

  lemma FreeKeepsInv(bs: seq<Block>, lo: nat, hi: nat, i: nat)
    requires Inv(bs, lo, hi) && i < |bs| && !bs[i].free
    ensures Inv(FreeAt(bs, i), lo, hi)
  {
    var from, to, m := FreeAtShape(bs, i);
    SpliceCoalesced(bs, from, to, [m]);
    MarkedTiled(bs, lo, hi, i);
    var marked := Marked(bs, i);
    if from < i {
      MergeTiled(marked, lo, hi, i - 1);
      MergeTiled(MergeNext(marked, i - 1), lo, hi, i - 1);
    } else {
      MergeTiled(marked, lo, hi, i);
    }
  }

  // ---- free lists and free bytes of concatenations -------------------------------------

  lemma {:induction false} FreeOfPrefix(a: seq<Block>, b: seq<Block>, k: nat)
    requires k <= |a|
    ensures FreeUpTo(a + b, k) == FreeUpTo(a, k)
    ensures FreeBytesUpTo(a + b, k) == FreeBytesUpTo(a, k)
  {
    if k == 0 {
    } else {
      FreeOfPrefix(a, b, k - 1);
    }
  }

  lemma {:induction false} FreeOfAppend(a: seq<Block>, b: seq<Block>, k: nat)
    requires k <= |b|
    ensures FreeUpTo(a + b, |a| + k) == FreeUpTo(a, |a|) + FreeUpTo(b, k)
    ensures FreeBytesUpTo(a + b, |a| + k) == FreeBytesUpTo(a, |a|) + FreeBytesUpTo(b, k)
  {
    if k == 0 {
      FreeOfPrefix(a, b, |a|);
    } else {
      FreeOfAppend(a, b, k - 1);
      assert (a + b)[|a| + k - 1] == b[k - 1];
    }
  }

  lemma FreeAppend(a: seq<Block>, b: seq<Block>)
    ensures FreeOffs(a + b) == FreeOffs(a) + FreeOffs(b)
    ensures FreeBytes(a + b) == FreeBytes(a) + FreeBytes(b)
  {
    FreeOfAppend(a, b, |b|);
  }

  lemma FreeAppend3(a: seq<Block>, b: seq<Block>, c: seq<Block>)
    ensures FreeOffs(a + b + c) == FreeOffs(a) + FreeOffs(b) + FreeOffs(c)
    ensures FreeBytes(a + b + c) == FreeBytes(a) + FreeBytes(b) + FreeBytes(c)
  {
    var ab := a + b;
    FreeAppend(a, b);
    FreeAppend(ab, c);
  }

  lemma FreeOne(b: Block)
    ensures FreeOffs([b]) == if b.free then [b.off] else []
    ensures FreeBytes([b]) == if b.free then b.bytes else 0
  {
    assert FreeUpTo([b], 0) == [] && FreeBytesUpTo([b], 0) == 0;
  }

  // ---- consequences of the invariant ------------------------------------------------------

  /** Starts strictly increase, two words at least apart. */
  lemma {:induction false} StartsIncrease(bs: seq<Block>, i: nat, j: nat)
    requires Laid(bs) && i < j < |bs|
    ensures WORD * bs[i].off + bs[i].bytes <= WORD * bs[j].off
    ensures bs[i].off + 2 <= bs[j].off
    decreases j
  {
    assert AbutsAt(bs, j);
    if i + 1 < j {
      StartsIncrease(bs, i, j - 1);
      assert AbutsAt(bs, j - 1);
    } else {
      assert AbutsAt(bs, i + 1);
    }
  }

  lemma HeadersInside(bs: seq<Block>, lo: nat, hi: nat, i: nat)
    requires Tiled(bs, lo, hi) && i < |bs|
    ensures lo <= bs[i].off && WORD * bs[i].off + bs[i].bytes <= hi
    ensures i > 0 ==> bs[i].bytes > 0 && lo + 2 <= bs[i].off
  {
    if i > 0 {
      StartsIncrease(bs, 0, i);
      assert AbutsAt(bs, i);
    }
    if i + 1 < |bs| { StartsIncrease(bs, i, |bs| - 1); }
  }

  /** Payloads of two live blocks never share a byte and lie inside the arena. */
  lemma PayloadsDisjoint(bs: seq<Block>, lo: nat, hi: nat, i: nat, j: nat, x: nat)
    requires Inv(bs, lo, hi) && i < |bs| && j < |bs|
    requires !bs[i].free && !bs[j].free
    requires WORD * bs[i].off + HEADER_BYTES <= x < WORD * bs[i].off + bs[i].bytes
    ensures WORD * lo <= x < hi
    ensures WORD * bs[j].off <= x < WORD * bs[j].off + bs[j].bytes ==> i == j
  {
    HeadersInside(bs, lo, hi, i);
    if i < j { StartsIncrease(bs, i, j); } else if j < i { StartsIncrease(bs, j, i); }
  }

  ghost function Used(bs: seq<Block>): set<Block> { set b | b in bs && !b.free }

  lemma {:induction false} TailTiled(bs: seq<Block>, lo: nat, hi: nat)
    requires Tiled(bs, lo, hi) && |bs| > 1
    ensures Tiled(bs[1..], bs[1].off, hi)
    ensures Coalesced(bs) ==> Coalesced(bs[1..])
    ensures Used(bs) == (if bs[0].free then {} else {bs[0]}) + Used(bs[1..])
    ensures bs[0] !in bs[1..]
  {
    assert bs == bs[..1] + bs[1..];
    LaidAppend(bs[..1], bs[1..]);
    CoalescedAppend(bs[..1], bs[1..]);
    if bs[0] in bs[1..] {
      var k: nat :| k < |bs[1..]| && bs[1..][k] == bs[0];
      StartsIncrease(bs, 0, k + 1);
    }
  }

  /** Every used block other than a first block starts at or after the second block. */
  lemma UsedAfterFirst(bs: seq<Block>, lo: nat, hi: nat, b: Block)
    requires Inv(bs, lo, hi) && b in Used(bs)
    ensures b == bs[0] || (|bs| > 1 && b.off >= bs[1].off > lo)
  {
    var k: nat :| k < |bs| && bs[k] == b;
    if k > 0 {
      StartsIncrease(bs, 0, 1);
      if k > 1 { StartsIncrease(bs, 1, k); }
    }
  }

  /** The free blocks are determined by the allocated ones: two states of the same arena with
      the same live blocks are equal, whatever the history that led to them. */
  lemma {:induction false} DeterminedByUsed(bs: seq<Block>, cs: seq<Block>, lo: nat, hi: nat)
    requires Inv(bs, lo, hi) && Inv(cs, lo, hi) && Used(bs) == Used(cs)
    ensures bs == cs
    decreases |bs|
  {
    SameFirst(bs, cs, lo, hi);
    if |bs| == 1 {
      // one block fills the arena in both
    } else {
      TailTiled(bs, lo, hi);
      TailTiled(cs, lo, hi);
      assert AbutsAt(bs, 1) && AbutsAt(cs, 1);
      assert bs[0] !in Used(bs[1..]) && cs[0] !in Used(cs[1..]);
      DeterminedByUsed(bs[1..], cs[1..], bs[1].off, hi);
      assert bs == [bs[0]] + bs[1..] && cs == [cs[0]] + cs[1..];
    }
  }

  lemma SameFirst(bs: seq<Block>, cs: seq<Block>, lo: nat, hi: nat)
    requires Inv(bs, lo, hi) && Inv(cs, lo, hi) && Used(bs) == Used(cs)
    ensures bs[0] == cs[0] && (|bs| > 1 <==> |cs| > 1)
  {
    if !bs[0].free {
      UsedAfterFirst(cs, lo, hi, bs[0]);
    } else if !cs[0].free {
      UsedAfterFirst(bs, lo, hi, cs[0]);
    } else {
      if |bs| > 1 {
        assert AbutsAt(bs, 1) && !BothFree(bs, 1);
        FreeOrUsed(bs, 1);
        UsedAfterFirst(cs, lo, hi, bs[1]);
        assert AbutsAt(cs, 1);
      }
      if |cs| > 1 {
        assert AbutsAt(cs, 1) && !BothFree(cs, 1);
        FreeOrUsed(cs, 1);
        UsedAfterFirst(bs, lo, hi, cs[1]);
        assert AbutsAt(bs, 1);
      }
    }
    if bs[0] == cs[0] {
      if |bs| > 1 { HeadersInside(bs, lo, hi, |bs| - 1); assert AbutsAt(bs, 1); HeadersInside(bs, lo, hi, 1); }
      if |cs| > 1 { HeadersInside(cs, lo, hi, |cs| - 1); assert AbutsAt(cs, 1); HeadersInside(cs, lo, hi, 1); }
    }
  }

  /** Freeing what was just allocated restores the blocks, hence the exact free list. */
  lemma FreeUndoesAlloc(bs: seq<Block>, lo: nat, hi: nat, i: nat, r: nat)
    requires Inv(bs, lo, hi) && ValidRequest(r)
    requires i < |bs| && (Exact(bs[i], r) || Splittable(bs[i], r))
    ensures !AllocAt(bs, i, r)[i].free
    ensures FreeAt(AllocAt(bs, i, r), i) == bs
  {
    var n := AllocAt(bs, i, r);
    AllocKeepsInv(bs, lo, hi, i, r);
    var from, to, m := FreeAtShape(n, i);
    if i > 0 { assert !BothFree(bs, i); }
    if i + 1 < |bs| { assert !BothFree(bs, i + 1); }
    assert n[..i] == bs[..i];
    assert from == i;
    assert n[to..] == bs[i + 1..];
    assert m == bs[i];
    assert bs == bs[..i] + [bs[i]] + bs[i + 1..];
  }

  /** With nothing allocated the arena is the single initial block again. */
  lemma NothingUsedIsInitial(bs: seq<Block>, lo: nat, hi: nat)
    requires WORD * lo <= hi && Inv(bs, lo, hi) && Used(bs) == {}
    ensures bs == [Block(lo, hi - WORD * lo, true)]
  {
    FreeOrUsed(bs, 0);
    assert |bs| > 1 ==> !BothFree(bs, 1);
    if |bs| > 1 { FreeOrUsed(bs, 1); }
  }

  lemma FreeOrUsed(bs: seq<Block>, i: nat)
    requires i < |bs|
    ensures bs[i].free || bs[i] in Used(bs)
  {
  }

  // ---- the free list and avail ------------------------------------------------------------

  lemma FreeBytesCoverEach(bs: seq<Block>, i: nat)
    requires i < |bs| && bs[i].free
    ensures bs[i].bytes <= FreeBytes(bs)
  {
    FreeSplit(bs, i);
  }

  /** Free block b is more than large enough to be split for a request. */
  ghost predicate Larger(b: Block, r: nat) { b.free && b.bytes > BLOCK_BYTES + r }

  /** A request is turned down although a larger free block exists exactly when no free block fits
      exactly and every larger one reaches the INT_MAX the search starts from. */
  lemma RefusedDespiteRoomIff(bs: seq<Block>, r: nat)
    ensures NoFit(bs, r) && (exists j :: 0 <= j < |bs| && Larger(bs[j], r))
       <==> && (exists j :: 0 <= j < |bs| && Larger(bs[j], r))
            && (forall j :: 0 <= j < |bs| ==> !Exact(bs[j], r))
            && (forall j :: 0 <= j < |bs| && Larger(bs[j], r) ==> bs[j].bytes >= INT_MAX)
  {
    forall j | 0 <= j < |bs| ensures Splittable(bs[j], r) <==> Larger(bs[j], r) && bs[j].bytes < INT_MAX {}
  }

  /** In an arena below INT_MAX bytes that never happens: a request is turned down exactly when no free
      block fits exactly or is larger. */
  lemma NoFitInSmallArena(bs: seq<Block>, lo: nat, hi: nat, r: nat)
    requires Tiled(bs, lo, hi) && hi < INT_MAX
    ensures NoFit(bs, r) <==> forall j :: 0 <= j < |bs| ==> !Exact(bs[j], r) && !Larger(bs[j], r)
  {
    forall j | 0 <= j < |bs| ensures Splittable(bs[j], r) <==> Larger(bs[j], r) {
      HeadersInside(bs, lo, hi, j);
    }
  }

  /** The early exit on too few free bytes never turns down a request some block could serve. */
  lemma EarlyExitIsSound(bs: seq<Block>, r: nat)
    requires FreeBytes(bs) < r
    ensures NoFit(bs, r)
  {
    forall j | 0 <= j < |bs| ensures !Exact(bs[j], r) && !Splittable(bs[j], r) {
      if bs[j].free { FreeBytesCoverEach(bs, j); }
    }
  }

  /** The list and the byte total split at any block. */
  lemma FreeSplit(bs: seq<Block>, i: nat)
    requires i < |bs|
    ensures FreeOffs(bs) == FreeOffs(bs[..i]) + (if bs[i].free then [bs[i].off] else []) + FreeOffs(bs[i + 1..])
    ensures FreeBytes(bs) == FreeBytes(bs[..i]) + (if bs[i].free then bs[i].bytes else 0) + FreeBytes(bs[i + 1..])
  {
    var before, after := bs[..i], bs[i + 1..];
    assert bs == before + [bs[i]] + after;
    FreeOne(bs[i]);
    FreeAppend3(before, [bs[i]], after);
  }

  lemma FreeTail(bs: seq<Block>)
    requires |bs| > 0
    ensures FreeOffs(bs) == (if bs[0].free then [bs[0].off] else []) + FreeOffs(bs[1..])
  {
    FreeSplit(bs, 0);
    assert bs[..0] == [];
  }

  lemma AllocFreeList(bs: seq<Block>, i: nat, r: nat)
    requires i < |bs| && bs[i].free && r <= bs[i].bytes
    ensures FreeOffs(AllocAt(bs, i, r)) == FreeOffs(bs[..i]) + FreeOffs(Carve(bs[i], r)) + FreeOffs(bs[i + 1..])
    ensures FreeBytes(AllocAt(bs, i, r)) == FreeBytes(bs) - r
  {
    var before, after := bs[..i], bs[i + 1..];
    FreeSplit(bs, i);
    CarveFree(bs[i], r);
    FreeAppend3(before, Carve(bs[i], r), after);
  }

  lemma CarveFree(b: Block, r: nat)
    requires b.free && r <= b.bytes
    ensures b.bytes == r ==> FreeOffs(Carve(b, r)) == []
    ensures b.bytes != r ==> FreeOffs(Carve(b, r)) == [b.off + r / WORD]
    ensures FreeBytes(Carve(b, r)) == b.bytes - r
  {
    if b.bytes == r {
      FreeOne(b.(free := false));
    } else {
      var used, rest := Block(b.off, r, false), Block(b.off + r / WORD, b.bytes - r, true);
      FreeOne(used);
      FreeOne(rest);
      FreeAppend([used], [rest]);
      assert Carve(b, r) == [used] + [rest];
    }
  }

  /** The list of a prefix that ends in a free block. */
  lemma FreeLast(bs: seq<Block>)
    requires |bs| > 0 && bs[|bs| - 1].free
    ensures FreeOffs(bs) == FreeOffs(bs[..|bs| - 1]) + [bs[|bs| - 1].off]
  {
    FreeSplit(bs, |bs| - 1);
    assert bs[|bs|..] == [];
  }

  lemma MarkedFreeList(bs: seq<Block>, i: nat)
    requires i < |bs| && !bs[i].free
    ensures FreeOffs(Marked(bs, i)) == FreeOffs(bs[..i]) + [bs[i].off] + FreeOffs(bs[i + 1..])
    ensures FreeOffs(bs) == FreeOffs(bs[..i]) + FreeOffs(bs[i + 1..])
    ensures FreeBytes(Marked(bs, i)) == FreeBytes(bs) + bs[i].bytes
  {
    var n := Marked(bs, i);
    FreeSplit(bs, i);
    FreeSplit(n, i);
    assert n[..i] == bs[..i] && n[i + 1..] == bs[i + 1..];
    assert FreeOffs(bs[..i]) + [] == FreeOffs(bs[..i]);
  }

  lemma MergedFreeList(bs: seq<Block>, i: nat)
    requires i + 1 < |bs| && bs[i].free && bs[i + 1].free
    ensures FreeOffs(bs) == FreeOffs(bs[..i]) + [bs[i].off] + ([bs[i + 1].off] + FreeOffs(bs[i + 2..]))
    ensures FreeOffs(MergeNext(bs, i)) == FreeOffs(bs[..i]) + [bs[i].off] + FreeOffs(bs[i + 2..])
    ensures FreeBytes(MergeNext(bs, i)) == FreeBytes(bs)
  {
    var before, after, m := bs[..i], bs[i + 2..], Block(bs[i].off, bs[i].bytes + bs[i + 1].bytes, true);
    FreeSplit(bs, i);
    assert bs[i + 1..] == [bs[i + 1]] + after;
    FreeOne(bs[i + 1]);
    FreeAppend([bs[i + 1]], after);
    FreeOne(m);
    FreeAppend3(before, [m], after);
  }

  // ---- runs ---------------------------------------------------------------------------------

  datatype Op = Malloc(size: nat) | Free(start: nat)

  /** One allocator call: a request that does not wrap is served by the best fit or refused;
      only a live block is freed. */
  ghost predicate Step(bs: seq<Block>, op: Op, after: seq<Block>) {
    match op
    case Malloc(size) =>
      && 1 <= size <= UINT_MOD - BLOCK_BYTES
      && var r := RealSize(size);
         if NoFit(bs, r) then after == bs
         else exists i: nat :: BestFit(bs, r, i) && r <= bs[i].bytes && after == AllocAt(bs, i, r)
    case Free(start) =>
      exists i: nat :: i < |bs| && !bs[i].free && bs[i].off == start && after == FreeAt(bs, i)
  }

  ghost predicate Run(states: seq<seq<Block>>, ops: seq<Op>) {
    |states| == |ops| + 1 && forall k: nat :: k < |ops| ==> Step(states[k], ops[k], states[k + 1])
  }

  lemma StepKeepsInv(bs: seq<Block>, op: Op, after: seq<Block>, lo: nat, hi: nat)
    requires Inv(bs, lo, hi) && Step(bs, op, after)
    ensures Inv(after, lo, hi)
  {
    match op
    case Malloc(size) =>
      var r := RealSize(size);
      RealSizeHoldsFreeHeader(size);
      RealSizeHoldsRequest(size);
      if !NoFit(bs, r) {
        var i: nat :| BestFit(bs, r, i) && r <= bs[i].bytes && after == AllocAt(bs, i, r);
        AllocKeepsInv(bs, lo, hi, i, r);
      }
    case Free(start) =>
      var i: nat :| i < |bs| && !bs[i].free && bs[i].off == start && after == FreeAt(bs, i);
      FreeKeepsInv(bs, lo, hi, i);
  }

  /** Any run from the initial block keeps the arena tiled and coalesced; and whenever two
      moments of the run have the same live blocks, they have the same free list. */
  lemma {:induction false} RunsAreCanonical(states: seq<seq<Block>>, ops: seq<Op>, lo: nat, hi: nat, j: nat, k: nat)
    requires WORD * lo <= hi && Run(states, ops) && states[0] == [Block(lo, hi - WORD * lo, true)]
    requires j <= |ops| && k <= |ops|
    ensures Inv(states[k], lo, hi)
    ensures Used(states[j]) == Used(states[k]) ==> states[j] == states[k]
    ensures Used(states[k]) == {} ==> states[k] == states[0]
  {
    RunKeepsInv(states, ops, lo, hi, j);
    RunKeepsInv(states, ops, lo, hi, k);
    if Used(states[j]) == Used(states[k]) { DeterminedByUsed(states[j], states[k], lo, hi); }
    if Used(states[k]) == {} { NothingUsedIsInitial(states[k], lo, hi); }
  }

  lemma {:induction false} RunKeepsInv(states: seq<seq<Block>>, ops: seq<Op>, lo: nat, hi: nat, k: nat)
    requires WORD * lo <= hi && Run(states, ops) && states[0] == [Block(lo, hi - WORD * lo, true)]
    requires k <= |ops|
    ensures Inv(states[k], lo, hi)
  {
    if k == 0 {
    } else {
      RunKeepsInv(states, ops, lo, hi, k - 1);
      StepKeepsInv(states[k - 1], ops[k - 1], states[k], lo, hi);
    }
  }
}
