/** The words of an XCache arena: block headers live in the memory they describe, and the free list
    is threaded through the free blocks. What each write of the allocator does to them. */
module MemSpec {
  import opened Machine
  import opened Blocks

  const HEAD: nat := 3              // word of mem->headblock: word 3 is its size, word 4 its next
  const FIRST: nat := 5             // word of the first block, right after the aligned header
  const MINSIZE: nat := 56          // ALIGN(sizeof(xc_mem_t)) + sizeof(xc_block_t)
  const NULL: nat := 0

  // ---- the free list in memory --------------------------------------------------------------

  /** The k-th node of the list that starts at the head pseudo-block. */
  ghost function Node(fs: seq<nat>, k: nat): nat
    requires k <= |fs|
  {
    if k == 0 then HEAD else fs[k - 1]
  }

  ghost predicate Spaced(fs: seq<nat>) {
    forall k: nat, l: nat :: k < l <= |fs| ==> Node(fs, k) + 2 <= Node(fs, l)
  }

  ghost predicate LinkAt(m: seq<nat>, fs: seq<nat>, k: nat)
    requires k <= |fs|
  {
    Node(fs, k) + 1 < |m| && m[Node(fs, k) + 1] == (if k < |fs| then fs[k] else NULL)
  }

  ghost predicate Linked(m: seq<nat>, fs: seq<nat>) {
    forall k: nat :: k <= |fs| ==> LinkAt(m, fs, k)
  }

  ghost predicate SizeAt(m: seq<nat>, bs: seq<Block>, i: nat)
    requires i < |bs|
  {
    bs[i].off + 1 < |m| && m[bs[i].off] == bs[i].bytes
  }

  ghost predicate SizesStored(m: seq<nat>, bs: seq<Block>) {
    forall i: nat :: i < |bs| ==> SizeAt(m, bs, i)
  }

  /** The words of the arena say exactly: these are the blocks, and the free ones are listed. */
  ghost predicate Represents(m: seq<nat>, bs: seq<Block>) {
    |m| > HEAD && m[HEAD] == 0 && SizesStored(m, bs) && Linked(m, FreeOffs(bs))
  }

  lemma Unlink(m: seq<nat>, a: seq<nat>, x: nat, b: seq<nat>)
    requires Linked(m, a + [x] + b) && Spaced(a + [x] + b)
    ensures Node(a, |a|) + 1 < |m| && x + 1 < |m|
    ensures m[Node(a, |a|) + 1] == x
    ensures Linked(m[Node(a, |a|) + 1 := m[x + 1]], a + b) && Spaced(a + b)
  {
    var fs, gs := a + [x] + b, a + b;
    var p := Node(a, |a|);
    assert Node(fs, |a|) == p && Node(fs, |a| + 1) == x;
    assert LinkAt(m, fs, |a|) && LinkAt(m, fs, |a| + 1);
    var n := m[p + 1 := m[x + 1]];
    forall k: nat | k <= |gs| ensures LinkAt(n, gs, k) {
      if k < |a| {
        assert Node(fs, k) == Node(gs, k) && LinkAt(m, fs, k);
        assert Node(fs, k) + 2 <= Node(fs, |a|);
      } else if k > |a| {
        assert Node(fs, k + 1) == Node(gs, k) && LinkAt(m, fs, k + 1);
        assert Node(fs, |a|) + 2 <= Node(fs, k + 1);
      }
    }
    forall k: nat, l: nat | k < l <= |gs| ensures Node(gs, k) + 2 <= Node(gs, l) {
      var k', l' := if k <= |a| then k else k + 1, if l <= |a| then l else l + 1;
      assert Node(gs, k) == Node(fs, k') && Node(gs, l) == Node(fs, l');
    }
  }

  lemma Insert(m: seq<nat>, a: seq<nat>, x: nat, b: seq<nat>)
    requires Linked(m, a + b) && Spaced(a + [x] + b) && x + 1 < |m|
    ensures Node(a, |a|) + 1 < |m|
    ensures Linked(m[x + 1 := m[Node(a, |a|) + 1]][Node(a, |a|) + 1 := x], a + [x] + b)
  {
    var fs, gs := a + [x] + b, a + b;
    var p := Node(a, |a|);
    assert Node(fs, |a|) == p && Node(fs, |a| + 1) == x && Node(gs, |a|) == p;
    assert LinkAt(m, gs, |a|);
    var n := m[x + 1 := m[p + 1]][p + 1 := x];
    forall k: nat | k <= |fs| ensures LinkAt(n, fs, k) {
      if k < |a| {
        assert Node(fs, k) == Node(gs, k) && LinkAt(m, gs, k);
        assert Node(fs, k) + 2 <= Node(fs, |a|);
      } else if k > |a| + 1 {
        assert Node(fs, k) == Node(gs, k - 1) && LinkAt(m, gs, k - 1);
        assert Node(fs, |a| + 1) + 2 <= Node(fs, k);
      }
    }
  }

  lemma Replace(m: seq<nat>, a: seq<nat>, x: nat, y: nat, b: seq<nat>)
    requires Linked(m, a + [x] + b) && Spaced(a + [x] + b) && Spaced(a + [y] + b) && y + 1 < |m|
    ensures Node(a, |a|) + 1 < |m| && x + 1 < |m|
    ensures Linked(m[y + 1 := m[x + 1]][Node(a, |a|) + 1 := y], a + [y] + b)
  {
    var fs, gs := a + [x] + b, a + [y] + b;
    var p := Node(a, |a|);
    assert Node(fs, |a|) == p && Node(fs, |a| + 1) == x && Node(gs, |a|) == p && Node(gs, |a| + 1) == y;
    assert LinkAt(m, fs, |a|) && LinkAt(m, fs, |a| + 1);
    var n := m[y + 1 := m[x + 1]][p + 1 := y];
    forall k: nat | k <= |gs| ensures LinkAt(n, gs, k) {
      if k < |a| {
        assert Node(fs, k) == Node(gs, k) && LinkAt(m, fs, k);
        assert Node(fs, k) + 2 <= Node(fs, |a|);
      } else if k > |a| + 1 {
        assert Node(fs, k) == Node(gs, k) && LinkAt(m, fs, k);
        assert Node(gs, |a| + 1) + 2 <= Node(gs, k);
      }
    }
  }

  /** Every listed start is the start of a free block. */
  lemma {:induction false} ListedIsBlock(bs: seq<Block>, k: nat) returns (i: nat)
    requires k < |FreeOffs(bs)|
    ensures i < |bs| && bs[i].free && FreeOffs(bs)[k] == bs[i].off
  {
    FreeTail(bs);
    if bs[0].free && k == 0 {
      i := 0;
    } else {
      i := ListedIsBlock(bs[1..], if bs[0].free then k - 1 else k);
      i := i + 1;
    }
  }

  lemma {:induction false} FreeListSpaced(bs: seq<Block>, lo: nat, hi: nat)
    requires Tiled(bs, lo, hi) && lo >= HEAD + 2
    ensures Spaced(FreeOffs(bs))
  {
    var fs := FreeOffs(bs);
    FreeTail(bs);
    if |bs| == 1 {
      assert bs[1..] == [];
    } else {
      TailTiled(bs, lo, hi);
      var gs := FreeOffs(bs[1..]);
      StartsIncrease(bs, 0, 1);
      FreeListSpaced(bs[1..], bs[1].off, hi);
      if bs[0].free {
        forall l: nat | 1 <= l <= |gs| ensures bs[0].off + 2 <= Node(gs, l) {
          var i := ListedIsBlock(bs[1..], l - 1);
          StartsIncrease(bs, 0, i + 1);
        }
        assert fs == [bs[0].off] + gs;
        forall k: nat, l: nat | k < l <= |fs| ensures Node(fs, k) + 2 <= Node(fs, l) {
          if l > 1 {
            assert Node(fs, l) == Node(gs, l - 1);
            if k != 1 { assert Node(fs, k) == Node(gs, if k == 0 then 0 else k - 1); }
          }
        }
      } else {
        assert fs == gs;
      }
    }
  }

  /** The next free block at or after index `seen`. */
  lemma {:induction false} NextFree(bs: seq<Block>, seen: nat) returns (i: nat)
    requires seen <= |bs| && FreeOffs(bs[seen..]) != []
    ensures seen <= i < |bs| && bs[i].free
    ensures forall j :: seen <= j < i ==> !bs[j].free
    ensures FreeOffs(bs[seen..]) == [bs[i].off] + FreeOffs(bs[i + 1..])
    ensures FreeOffs(bs[..i]) == FreeOffs(bs[..seen])
    decreases |bs| - seen
  {
    FreeTail(bs[seen..]);
    assert bs[seen..][1..] == bs[seen + 1..];
    if bs[seen].free {
      i := seen;
    } else {
      i := NextFree(bs, seen + 1);
      FreeSplit(bs[..seen + 1], seen);
      assert bs[..seen + 1][..seen] == bs[..seen] && bs[..seen + 1][seen + 1..] == [];
    }
  }

  /** The walk ends (at NULL) only when no free block is left. */
  lemma NoneLeft(bs: seq<Block>, lo: nat, hi: nat, seen: nat)
    requires Tiled(bs, lo, hi) && lo > NULL && seen <= |bs|
    ensures FreeOffs(bs[seen..]) != [] ==> FreeOffs(bs[seen..])[0] != NULL
    ensures FreeOffs(bs[seen..]) == [] ==> forall j :: seen <= j < |bs| ==> !bs[j].free
  {
    var fs := FreeOffs(bs[seen..]);
    if fs != [] {
      var i := NextFree(bs, seen);
      HeadersInside(bs, lo, hi, i);
    } else {
      forall j | seen <= j < |bs| ensures !bs[j].free {
        FreeSplit(bs[seen..], j - seen);
      }
    }
  }

  lemma SplitList(bs: seq<Block>, seen: nat)
    requires seen <= |bs|
    ensures FreeOffs(bs) == FreeOffs(bs[..seen]) + FreeOffs(bs[seen..])
  {
    assert bs == bs[..seen] + bs[seen..];
    FreeAppend(bs[..seen], bs[seen..]);
  }

  lemma NodeOfSplit(a: seq<nat>, b: seq<nat>)
    ensures Node(a + b, |a|) == Node(a, |a|)
    ensures b != [] ==> Node(a + b, |a| + 1) == b[0]
  {
  }

  /** x is a list node: the head pseudo-block or the start of a block. */
  ghost predicate IsNode(bs: seq<Block>, x: nat) {
    x == HEAD || exists j: nat :: j < |bs| && bs[j].off == x
  }

  lemma ListNode(bs: seq<Block>, i: nat)
    requires i <= |bs|
    ensures IsNode(bs, PrevOf(bs, i))
  {
    var before := FreeOffs(bs[..i]);
    if before != [] { var j := ListedIsBlock(bs[..i], |before| - 1); }
  }

  /** Writing the `next` word of a list node touches no size word. */
  lemma NextWordIsNoSize(m: seq<nat>, bs: seq<Block>, lo: nat, hi: nat, x: nat, v: nat)
    requires Tiled(bs, lo, hi) && lo >= HEAD + 2 && SizesStored(m, bs)
    requires IsNode(bs, x) && x + 1 < |m|
    ensures SizesStored(m[x + 1 := v], bs) && x + 1 != HEAD
  {
    forall i: nat | i < |bs| ensures bs[i].off != x + 1 {
      HeadersInside(bs, lo, hi, i);
      if x != HEAD {
        var j: nat :| j < |bs| && bs[j].off == x;
        if i < j { StartsIncrease(bs, i, j); } else if j < i { StartsIncrease(bs, j, i); }
      }
    }
    NoStrayWrite(m, bs, x + 1, v);
    if x != HEAD {
      var j: nat :| j < |bs| && bs[j].off == x;
      HeadersInside(bs, lo, hi, j);
    }
  }

  lemma NoStrayWrite(m: seq<nat>, bs: seq<Block>, x: nat, v: nat)
    requires SizesStored(m, bs) && x < |m| && forall i: nat :: i < |bs| ==> bs[i].off != x
    ensures SizesStored(m[x := v], bs)
  {
    var n := m[x := v];
    forall i: nat | i < |bs| ensures SizeAt(n, bs, i) { assert SizeAt(m, bs, i); }
  }

  // ---- walking the list -------------------------------------------------------------------------

  /** The walk stands on node `prev`, and the free blocks it has passed are those below index `seen`. */
  ghost predicate Walked(m: seq<nat>, bs: seq<Block>, seen: nat, prev: nat) {
    && seen <= |bs|
    && prev == PrevOf(bs, seen)
    && NULL < prev < |m| - 1
    && var rest := FreeOffs(bs[seen..]);
       m[prev + 1] == (if rest == [] then NULL else rest[0])
  }

  lemma WalkStart(m: seq<nat>, bs: seq<Block>)
    requires Represents(m, bs)
    ensures Walked(m, bs, 0, HEAD)
  {
    assert bs[0..] == bs && bs[..0] == [];
    assert LinkAt(m, FreeOffs(bs), 0);
  }

  /** Standing on free block i. */
  lemma StandOn(m: seq<nat>, bs: seq<Block>, lo: nat, hi: nat, i: nat)
    requires Tiled(bs, lo, hi) && lo > NULL && Represents(m, bs) && i < |bs| && bs[i].free
    ensures bs[i].off + 1 < |m| && m[bs[i].off] == bs[i].bytes && Walked(m, bs, i + 1, bs[i].off)
  {
    assert SizeAt(m, bs, i);
    HeadersInside(bs, lo, hi, i);
    SplitList(bs, i + 1);
    FreeLast(bs[..i + 1]);
    assert bs[..i + 1][..i] == bs[..i];
    assert LinkAt(m, FreeOffs(bs), |FreeOffs(bs[..i + 1])|);
  }

  lemma WalkStep(m: seq<nat>, bs: seq<Block>, lo: nat, hi: nat, seen: nat, prev: nat) returns (i: nat)
    requires Tiled(bs, lo, hi) && lo > NULL && Represents(m, bs)
    requires Walked(m, bs, seen, prev) && m[prev + 1] != NULL
    ensures seen <= i < |bs| && bs[i].free && forall j :: seen <= j < i ==> !bs[j].free
    ensures var cur := m[prev + 1];
            cur == bs[i].off && cur + 1 < |m| && m[cur] == bs[i].bytes && Walked(m, bs, i + 1, cur)
    ensures prev == PrevOf(bs, i)
  {
    i := NextFree(bs, seen);
    StandOn(m, bs, lo, hi, i);
  }

  /** The first k blocks contain no exact fit, and `best` is the splittable one to prefer. */
  ghost predicate BestSoFar(bs: seq<Block>, r: nat, k: nat, found: bool, best: nat, minsize: nat) {
    && k <= |bs|
    && (forall j :: 0 <= j < k ==> !Exact(bs[j], r))
    && (forall j :: 0 <= j < k && Splittable(bs[j], r) ==>
          found && minsize <= bs[j].bytes && (j < best ==> minsize < bs[j].bytes))
    && if found then best < k && Splittable(bs[best], r) && minsize == bs[best].bytes else minsize == INT_MAX
  }

  lemma BestDone(bs: seq<Block>, r: nat, seen: nat, found: bool, best: nat, minsize: nat)
    requires BestSoFar(bs, r, seen, found, best, minsize)
    requires forall j :: seen <= j < |bs| ==> !bs[j].free
    ensures !found <==> NoFit(bs, r)
    ensures found ==> BestFit(bs, r, best)
  {
  }

  // ---- what one call writes ------------------------------------------------------------------------

  lemma PerfectFitWrites(m: seq<nat>, bs: seq<Block>, lo: nat, hi: nat, i: nat, r: nat)
    requires Inv(bs, lo, hi) && lo >= HEAD + 2 && Represents(m, bs)
    requires i < |bs| && Exact(bs[i], r)
    requires PrevOf(bs, i) + 1 < |m| && bs[i].off + 1 < |m|
    ensures Represents(m[PrevOf(bs, i) + 1 := m[bs[i].off + 1]], AllocAt(bs, i, r))
  {
    var before, after := FreeOffs(bs[..i]), FreeOffs(bs[i + 1..]);
    var bs' := AllocAt(bs, i, r);
    FreeSplit(bs, i);
    AllocFreeList(bs, i, r);
    CarveFree(bs[i], r);
    FreeListSpaced(bs, lo, hi);
    Unlink(m, before, bs[i].off, after);
    assert before + [] == before;
    ListNode(bs, i);
    NextWordIsNoSize(m, bs, lo, hi, PrevOf(bs, i), m[bs[i].off + 1]);
    var n := m[PrevOf(bs, i) + 1 := m[bs[i].off + 1]];
    forall k: nat | k < |bs'| ensures SizeAt(n, bs', k) { assert SizeAt(n, bs, k); }
  }

  lemma StartsDistinct(bs: seq<Block>, i: nat, j: nat)
    requires Laid(bs) && i < |bs| && j < |bs| && i != j
    ensures bs[i].off != bs[j].off && bs[i].off != bs[j].off + 1
  {
    if i < j { StartsIncrease(bs, i, j); } else { StartsIncrease(bs, j, i); }
  }

  lemma SplitSizes(m: seq<nat>, bs: seq<Block>, lo: nat, hi: nat, i: nat, r: nat)
    requires Inv(bs, lo, hi) && SizesStored(m, bs)
    requires i < |bs| && Splittable(bs[i], r) && ValidRequest(r)
    requires bs[i].off + r / WORD + 1 < |m|
    ensures bs[i].off + 1 < |m|
    ensures SizesStored(m[bs[i].off + r / WORD := bs[i].bytes - r][bs[i].off := r], AllocAt(bs, i, r))
  {
    var bs' := AllocAt(bs, i, r);
    AllocKeepsInv(bs, lo, hi, i, r);
    assert SizeAt(m, bs, i);
    var n := m[bs[i].off + r / WORD := bs[i].bytes - r][bs[i].off := r];
    assert bs'[i] == Block(bs[i].off, r, false) && bs'[i + 1] == Block(bs[i].off + r / WORD, bs[i].bytes - r, true);
    forall k: nat | k < |bs'| ensures SizeAt(n, bs', k) {
      if k != i && k != i + 1 {
        StartsDistinct(bs', k, i);
        StartsDistinct(bs', k, i + 1);
        assert bs'[k] == bs[if k < i then k else k - 1] && SizeAt(m, bs, if k < i then k else k - 1);
      }
    }
  }

  /** Word x is the link word of no list node. */
  ghost predicate NoLinkAt(fs: seq<nat>, x: nat) {
    forall k: nat :: k <= |fs| ==> Node(fs, k) + 1 != x
  }

  /** Writing a size word touches no link. */
  lemma SizeWordIsNoLink(m: seq<nat>, fs: seq<nat>, x: nat, v: nat)
    requires Linked(m, fs) && x < |m| && NoLinkAt(fs, x)
    ensures Linked(m[x := v], fs)
  {
    var n := m[x := v];
    forall k: nat | k <= |fs| ensures LinkAt(n, fs, k) { assert LinkAt(m, fs, k); }
  }

  /** No link word of the old list lies where the split writes a size. */
  lemma SplitApart(bs: seq<Block>, lo: nat, hi: nat, i: nat, r: nat, k: nat)
    requires Inv(bs, lo, hi) && lo >= HEAD + 2
    requires i < |bs| && Splittable(bs[i], r) && ValidRequest(r) && k <= |FreeOffs(bs)|
    ensures var x := Node(FreeOffs(bs), k) + 1; x != bs[i].off && x != bs[i].off + r / WORD && x != HEAD
  {
    HeadersInside(bs, lo, hi, i);
    if k > 0 {
      var j := ListedIsBlock(bs, k - 1);
      HeadersInside(bs, lo, hi, j);
      if j < i { StartsIncrease(bs, j, i); } else if i < j { StartsIncrease(bs, i, j); }
    }
  }

  ghost function PrevOf(bs: seq<Block>, i: nat): nat
    requires i <= |bs|
  {
    Node(FreeOffs(bs[..i]), |FreeOffs(bs[..i])|)
  }

  lemma LinkTo(m: seq<nat>, a: seq<nat>, x: nat, b: seq<nat>)
    requires Linked(m, a + [x] + b)
    ensures Node(a, |a|) + 1 < |m| && m[Node(a, |a|) + 1] == x && x + 1 < |m|
  {
    var fs := a + [x] + b;
    assert Node(fs, |a|) == Node(a, |a|) && Node(fs, |a| + 1) == x;
    assert LinkAt(m, fs, |a|) && LinkAt(m, fs, |a| + 1);
  }

  lemma PrevLinksTo(m: seq<nat>, bs: seq<Block>, i: nat)
    requires Represents(m, bs) && i < |bs| && bs[i].free
    ensures PrevOf(bs, i) + 1 < |m| && m[PrevOf(bs, i) + 1] == bs[i].off
    ensures bs[i].off + 1 < |m| && m[bs[i].off] == bs[i].bytes
  {
    assert SizeAt(m, bs, i);
    FreeSplit(bs, i);
    LinkTo(m, FreeOffs(bs[..i]), bs[i].off, FreeOffs(bs[i + 1..]));
  }

  /** The two size words of a split. */
  ghost function Resized(m: seq<nat>, bs: seq<Block>, i: nat, r: nat): seq<nat>
    requires i < |bs| && r <= bs[i].bytes && bs[i].off + r / WORD + 1 < |m|
  {
    m[bs[i].off + r / WORD := bs[i].bytes - r][bs[i].off := r]
  }

  lemma ResizedKeepsLinks(m: seq<nat>, bs: seq<Block>, lo: nat, hi: nat, i: nat, r: nat)
    requires Inv(bs, lo, hi) && lo >= HEAD + 2 && Linked(m, FreeOffs(bs))
    requires i < |bs| && Splittable(bs[i], r) && ValidRequest(r) && bs[i].off + r / WORD + 1 < |m|
    ensures Linked(Resized(m, bs, i, r), FreeOffs(bs))
  {
    var fs, cur, newb := FreeOffs(bs), bs[i].off, bs[i].off + r / WORD;
    forall k: nat | k <= |fs| ensures Node(fs, k) + 1 != cur && Node(fs, k) + 1 != newb {
      SplitApart(bs, lo, hi, i, r, k);
    }
    SizeWordIsNoLink(m, fs, newb, bs[i].bytes - r);
    SizeWordIsNoLink(m[newb := bs[i].bytes - r], fs, cur, r);
  }

  lemma SplitListBefore(bs: seq<Block>, i: nat)
    requires i < |bs| && bs[i].free
    ensures FreeOffs(bs) == FreeOffs(bs[..i]) + [bs[i].off] + FreeOffs(bs[i + 1..])
  {
    FreeSplit(bs, i);
  }

  lemma SplitListAfter(bs: seq<Block>, i: nat, r: nat)
    requires i < |bs| && bs[i].free && r < bs[i].bytes
    ensures FreeOffs(AllocAt(bs, i, r)) == FreeOffs(bs[..i]) + [bs[i].off + r / WORD] + FreeOffs(bs[i + 1..])
  {
    AllocFreeList(bs, i, r);
    CarveFree(bs[i], r);
  }

  /** Relinking after the sizes are written: prev -> newb -> next. */
  lemma SplitRelinks(m: seq<nat>, bs: seq<Block>, lo: nat, hi: nat, i: nat, r: nat)
    requires Inv(bs, lo, hi) && lo >= HEAD + 2 && Linked(m, FreeOffs(bs))
    requires i < |bs| && Splittable(bs[i], r) && ValidRequest(r) && bs[i].off + r / WORD + 1 < |m|
    requires PrevOf(bs, i) + 1 < |m|
    ensures var newb := bs[i].off + r / WORD;
            Linked(m[newb + 1 := m[bs[i].off + 1]][PrevOf(bs, i) + 1 := newb], FreeOffs(AllocAt(bs, i, r)))
  {
    var before, after := FreeOffs(bs[..i]), FreeOffs(bs[i + 1..]);
    SplitListBefore(bs, i);
    SplitListAfter(bs, i, r);
    AllocKeepsInv(bs, lo, hi, i, r);
    FreeListSpaced(bs, lo, hi);
    FreeListSpaced(AllocAt(bs, i, r), lo, hi);
    Replace(m, before, bs[i].off, bs[i].off + r / WORD, after);
  }

  /** The arena after a split: sizes rewritten, then newb linked in place of cur. */
  ghost function SplitMemory(m: seq<nat>, bs: seq<Block>, i: nat, r: nat): seq<nat>
    requires i < |bs| && r <= bs[i].bytes && bs[i].off + r / WORD + 1 < |m| && PrevOf(bs, i) + 1 < |m|
  {
    var newb := bs[i].off + r / WORD;
    Resized(m, bs, i, r)[newb + 1 := m[bs[i].off + 1]][PrevOf(bs, i) + 1 := newb]
  }

  lemma SplitFits(m: seq<nat>, bs: seq<Block>, lo: nat, hi: nat, i: nat, r: nat)
    requires Inv(bs, lo, hi) && lo >= HEAD + 2 && |m| >= hi / WORD + 2 && Represents(m, bs)
    requires i < |bs| && Splittable(bs[i], r) && ValidRequest(r)
    ensures bs[i].off + r / WORD + 1 < |m| && HEAD < bs[i].off < bs[i].off + r / WORD
    ensures PrevOf(bs, i) + 1 < |m| && m[PrevOf(bs, i) + 1] == bs[i].off
  {
    HeadersInside(bs, lo, hi, i);
    PrevLinksTo(m, bs, i);
  }

  lemma SplitLinked(m: seq<nat>, bs: seq<Block>, lo: nat, hi: nat, i: nat, r: nat)
    requires Inv(bs, lo, hi) && lo >= HEAD + 2 && |m| >= hi / WORD + 2 && Linked(m, FreeOffs(bs))
    requires i < |bs| && Splittable(bs[i], r) && ValidRequest(r)
    requires bs[i].off + r / WORD + 1 < |m| && PrevOf(bs, i) + 1 < |m|
    ensures Linked(SplitMemory(m, bs, i, r), FreeOffs(AllocAt(bs, i, r)))
  {
    ResizedKeepsLinks(m, bs, lo, hi, i, r);
    SplitRelinks(Resized(m, bs, i, r), bs, lo, hi, i, r);
  }

  lemma SplitSized(m: seq<nat>, bs: seq<Block>, lo: nat, hi: nat, i: nat, r: nat)
    requires Inv(bs, lo, hi) && lo >= HEAD + 2 && SizesStored(m, bs)
    requires i < |bs| && Splittable(bs[i], r) && ValidRequest(r)
    requires bs[i].off + r / WORD + 1 < |m| && PrevOf(bs, i) + 1 < |m|
    ensures SizesStored(SplitMemory(m, bs, i, r), AllocAt(bs, i, r)) && PrevOf(bs, i) + 1 != HEAD
  {
    var bs' := AllocAt(bs, i, r);
    AllocKeepsInv(bs, lo, hi, i, r);
    SplitSizes(m, bs, lo, hi, i, r);
    assert bs'[..i] == bs[..i] && bs'[i + 1].off == bs[i].off + r / WORD;
    SplitLinks(Resized(m, bs, i, r), bs', lo, hi, i, PrevOf(bs, i), m[bs[i].off + 1], bs[i].off + r / WORD);
  }

  lemma SplitLinks(m: seq<nat>, bs: seq<Block>, lo: nat, hi: nat, i: nat, prev: nat, v: nat, newb: nat)
    requires Inv(bs, lo, hi) && lo >= HEAD + 2 && SizesStored(m, bs)
    requires i + 1 < |bs| && newb == bs[i + 1].off && newb + 1 < |m| && prev + 1 < |m|
    requires prev == PrevOf(bs, i)
    ensures SizesStored(m[newb + 1 := v][prev + 1 := newb], bs) && prev + 1 != HEAD
  {
    NextWordIsNoSize(m, bs, lo, hi, newb, v);
    ListNode(bs, i);
    NextWordIsNoSize(m[newb + 1 := v], bs, lo, hi, prev, newb);
  }

  lemma SplitWrites(m: seq<nat>, bs: seq<Block>, lo: nat, hi: nat, i: nat, r: nat)
    requires Inv(bs, lo, hi) && lo >= HEAD + 2 && |m| >= hi / WORD + 2 && Represents(m, bs)
    requires i < |bs| && Splittable(bs[i], r) && ValidRequest(r)
    ensures bs[i].off + r / WORD + 1 < |m| && HEAD < bs[i].off < bs[i].off + r / WORD
    ensures PrevOf(bs, i) + 1 < |m|
    ensures Represents(SplitMemory(m, bs, i, r), AllocAt(bs, i, r))
  {
    SplitFits(m, bs, lo, hi, i, r);
    SplitLinked(m, bs, lo, hi, i, r);
    SplitSized(m, bs, lo, hi, i, r);
  }

  /** The walk that looks for the block before `cur` ends on the list node before block i. */
  lemma WalkStop(m: seq<nat>, bs: seq<Block>, lo: nat, hi: nat, seen: nat, prev: nat, i: nat)
    requires Inv(bs, lo, hi) && lo > NULL && Represents(m, bs) && Walked(m, bs, seen, prev)
    requires seen <= i < |bs| && !bs[i].free && (m[prev + 1] == NULL || bs[i].off <= m[prev + 1])
    ensures prev == PrevOf(bs, i)
  {
    NoneLeft(bs, lo, hi, seen);
    if m[prev + 1] != NULL {
      var j := WalkStep(m, bs, lo, hi, seen, prev);
      if j < i { StartsIncrease(bs, j, i); }
    }
    NoFreeBetween(bs, seen, i);
  }

  lemma {:induction false} NoFreeBetween(bs: seq<Block>, k: nat, i: nat)
    requires k <= i <= |bs| && forall j :: k <= j < i ==> !bs[j].free
    ensures FreeOffs(bs[..i]) == FreeOffs(bs[..k])
    decreases i
  {
    if k == i {
      // nothing lies between
    } else {
      NoFreeBetween(bs, k, i - 1);
      FreeSplit(bs[..i], i - 1);
      assert bs[..i][..i - 1] == bs[..i - 1] && bs[..i][i..] == [];
    }
  }

  /** The node before block i touches it exactly when it is its free neighbour. */
  lemma PrevTouches(m: seq<nat>, bs: seq<Block>, lo: nat, hi: nat, i: nat)
    requires Tiled(bs, lo, hi) && lo >= HEAD + 2 && Represents(m, bs) && i < |bs|
    ensures PrevOf(bs, i) < |m|
    ensures WORD * PrevOf(bs, i) + m[PrevOf(bs, i)] == WORD * bs[i].off <==> i > 0 && bs[i - 1].free
    ensures i > 0 && bs[i - 1].free ==> PrevOf(bs, i) == bs[i - 1].off
  {
    var before := FreeOffs(bs[..i]);
    HeadersInside(bs, lo, hi, i);
    if i > 0 && bs[i - 1].free {
      assert AbutsAt(bs, i) && SizeAt(m, bs, i - 1);
      FreeLast(bs[..i]);
    } else if before != [] {
      var j := ListedIsBlock(bs[..i], |before| - 1);
      assert SizeAt(m, bs, j);
      StartsIncrease(bs, j, i - 1);
      StartsIncrease(bs, i - 1, i);
    }
  }

  /** The successor of free block i touches it exactly when it is its free neighbour. */
  lemma NextTouches(m: seq<nat>, bs: seq<Block>, lo: nat, hi: nat, i: nat)
    requires Tiled(bs, lo, hi) && lo >= HEAD + 2 && Represents(m, bs) && i < |bs| && bs[i].free
    ensures bs[i].off + 1 < |m| && m[bs[i].off] == bs[i].bytes
    ensures WORD * bs[i].off + bs[i].bytes == WORD * m[bs[i].off + 1] <==> i + 1 < |bs| && bs[i + 1].free
    ensures i + 1 < |bs| && bs[i + 1].free ==> m[bs[i].off + 1] == bs[i + 1].off
  {
    StandOn(m, bs, lo, hi, i);
    HeadersInside(bs, lo, hi, i);
    if m[bs[i].off + 1] != NULL {
      var j := WalkStep(m, bs, lo, hi, i + 1, bs[i].off);
      assert AbutsAt(bs, i + 1);
      if i + 1 < j { StartsIncrease(bs, i + 1, j); }
    } else {
      NoneLeft(bs, lo, hi, i + 1);
    }
  }

  /** Linking block i back into the list. */
  lemma MarkWrites(m: seq<nat>, bs: seq<Block>, lo: nat, hi: nat, i: nat)
    requires Tiled(bs, lo, hi) && lo >= HEAD + 2 && Represents(m, bs)
    requires i < |bs| && !bs[i].free
    ensures PrevOf(bs, i) + 1 < |m| && bs[i].off + 1 < |m| && m[bs[i].off] == bs[i].bytes
    ensures Represents(m[bs[i].off + 1 := m[PrevOf(bs, i) + 1]][PrevOf(bs, i) + 1 := bs[i].off], Marked(bs, i))
  {
    var before, after, prev := FreeOffs(bs[..i]), FreeOffs(bs[i + 1..]), PrevOf(bs, i);
    var bs' := Marked(bs, i);
    assert SizeAt(m, bs, i);
    MarkedFreeList(bs, i);
    MarkedTiled(bs, lo, hi, i);
    FreeListSpaced(bs', lo, hi);
    Insert(m, before, bs[i].off, after);
    ListNode(bs, i);
    NextWordIsNoSize(m, bs, lo, hi, bs[i].off, m[prev + 1]);
    NextWordIsNoSize(m[bs[i].off + 1 := m[prev + 1]], bs, lo, hi, prev, bs[i].off);
    var n := m[bs[i].off + 1 := m[prev + 1]][prev + 1 := bs[i].off];
    forall k: nat | k < |bs'| ensures SizeAt(n, bs', k) { assert SizeAt(n, bs, k); }
  }

  lemma MergeUnlinks(m: seq<nat>, bs: seq<Block>, lo: nat, hi: nat, i: nat)
    requires Tiled(bs, lo, hi) && lo >= HEAD + 2 && Represents(m, bs)
    requires i + 1 < |bs| && bs[i].free && bs[i + 1].free
    ensures bs[i].off + 1 < |m| && bs[i + 1].off + 1 < |m|
    ensures m[bs[i].off] == bs[i].bytes && m[bs[i + 1].off] == bs[i + 1].bytes
    ensures m[bs[i].off + 1] == bs[i + 1].off
    ensures Linked(m[bs[i].off + 1 := m[bs[i + 1].off + 1]], FreeOffs(MergeNext(bs, i)))
  {
    assert SizeAt(m, bs, i) && SizeAt(m, bs, i + 1);
    var cur, next, after := bs[i].off, bs[i + 1].off, FreeOffs(bs[i + 2..]);
    var before := FreeOffs(bs[..i]) + [cur];
    MergedFreeList(bs, i);
    FreeListSpaced(bs, lo, hi);
    assert before + ([next] + after) == before + [next] + after;
    Unlink(m, before, next, after);
    assert Node(before, |before|) == cur;
  }

  /** Swallowing the free block that follows free block i. */
  lemma MergeWrites(m: seq<nat>, bs: seq<Block>, lo: nat, hi: nat, i: nat)
    requires Tiled(bs, lo, hi) && lo >= HEAD + 2 && Represents(m, bs)
    requires i + 1 < |bs| && bs[i].free && bs[i + 1].free
    ensures bs[i].off + 1 < |m| && bs[i + 1].off + 1 < |m|
    ensures m[bs[i].off] == bs[i].bytes && m[bs[i + 1].off] == bs[i + 1].bytes
    ensures m[bs[i].off + 1] == bs[i + 1].off
    ensures Represents(m[bs[i].off := bs[i].bytes + bs[i + 1].bytes][bs[i].off + 1 := m[bs[i + 1].off + 1]],
                       MergeNext(bs, i))
  {
    MergeUnlinks(m, bs, lo, hi, i);
    var cur, next, sum := bs[i].off, bs[i + 1].off, bs[i].bytes + bs[i + 1].bytes;
    var n := m[cur + 1 := m[next + 1]];
    NextWordIsNoSize(m, bs, lo, hi, cur, m[next + 1]);
    MergeSizes(n, bs, lo, hi, i);
    MergeApart(bs, lo, hi, i);
    SizeWordIsNoLink(n, FreeOffs(MergeNext(bs, i)), cur, sum);
    assert n[cur := sum] == m[cur := sum][cur + 1 := m[next + 1]];
  }

  ghost function SwallowMemory(m: seq<nat>, bs: seq<Block>, i: nat): seq<nat>
    requires i + 1 < |bs| && bs[i].off + 1 < |m| && bs[i + 1].off + 1 < |m|
  {
    m[bs[i].off := bs[i].bytes + bs[i + 1].bytes][bs[i].off + 1 := m[bs[i + 1].off + 1]]
  }

  lemma SwallowWrites(m: seq<nat>, bs: seq<Block>, lo: nat, hi: nat, i: nat)
    requires Tiled(bs, lo, hi) && lo >= HEAD + 2 && Represents(m, bs)
    requires i + 1 < |bs| && bs[i].free && bs[i + 1].free
    ensures bs[i].off + 1 < |m| && bs[i + 1].off + 1 < |m|
    ensures m[bs[i].off] == bs[i].bytes && m[bs[i + 1].off] == bs[i + 1].bytes
    ensures Represents(SwallowMemory(m, bs, i), MergeNext(bs, i)) && Tiled(MergeNext(bs, i), lo, hi)
    ensures FreeBytes(MergeNext(bs, i)) == FreeBytes(bs)
  {
    MergeWrites(m, bs, lo, hi, i);
    MergeTiled(bs, lo, hi, i);
    MergedFreeList(bs, i);
  }

  lemma MergeSizes(m: seq<nat>, bs: seq<Block>, lo: nat, hi: nat, i: nat)
    requires Tiled(bs, lo, hi) && SizesStored(m, bs)
    requires i + 1 < |bs| && bs[i].free && bs[i + 1].free && bs[i].off + 1 < |m|
    ensures SizesStored(m[bs[i].off := bs[i].bytes + bs[i + 1].bytes], MergeNext(bs, i))
  {
    var bs', n := MergeNext(bs, i), m[bs[i].off := bs[i].bytes + bs[i + 1].bytes];
    forall k: nat | k < |bs'| ensures SizeAt(n, bs', k) {
      if k != i {
        var j := if k < i then k else k + 1;
        assert bs'[k] == bs[j] && SizeAt(m, bs, j);
        StartsDistinct(bs, j, i);
      }
    }
  }

  lemma MergeApart(bs: seq<Block>, lo: nat, hi: nat, i: nat)
    requires Tiled(bs, lo, hi) && lo >= HEAD + 2
    requires i + 1 < |bs| && bs[i].free && bs[i + 1].free
    ensures NoLinkAt(FreeOffs(MergeNext(bs, i)), bs[i].off)
    ensures bs[i].off != HEAD
  {
    var fs, bs' := FreeOffs(MergeNext(bs, i)), MergeNext(bs, i);
    MergeTiled(bs, lo, hi, i);
    HeadersInside(bs, lo, hi, i);
    forall k: nat | k <= |fs| ensures Node(fs, k) + 1 != bs[i].off {
      if k > 0 {
        var j := ListedIsBlock(bs', k - 1);
        if j != i { StartsDistinct(bs', i, j); }
      }
    }
  }

  /** The arena after the block after PrevOf(bs, i) is taken. */
  ghost function TakeMemory(m: seq<nat>, bs: seq<Block>, i: nat, r: nat): seq<nat>
    requires i < |bs| && r <= bs[i].bytes && bs[i].off + 1 < |m| && PrevOf(bs, i) + 1 < |m|
    requires bs[i].bytes != r ==> bs[i].off + r / WORD + 1 < |m|
  {
    if bs[i].bytes == r then m[PrevOf(bs, i) + 1 := m[bs[i].off + 1]] else SplitMemory(m, bs, i, r)
  }

  lemma TakeWrites(m: seq<nat>, bs: seq<Block>, lo: nat, hi: nat, i: nat, r: nat)
    requires Inv(bs, lo, hi) && lo >= HEAD + 2 && |m| >= hi / WORD + 2 && Represents(m, bs)
    requires i < |bs| && (Exact(bs[i], r) || Splittable(bs[i], r)) && ValidRequest(r)
    ensures PrevOf(bs, i) + 1 < |m| && m[PrevOf(bs, i) + 1] == bs[i].off
    ensures bs[i].off + 1 < |m| && m[bs[i].off] == bs[i].bytes
    ensures bs[i].bytes != r ==> bs[i].off + r / WORD + 1 < |m|
    ensures Represents(TakeMemory(m, bs, i, r), AllocAt(bs, i, r)) && Inv(AllocAt(bs, i, r), lo, hi)
    ensures FreeBytes(AllocAt(bs, i, r)) == FreeBytes(bs) - r
  {
    PrevLinksTo(m, bs, i);
    AllocFreeList(bs, i, r);
    AllocKeepsInv(bs, lo, hi, i, r);
    if bs[i].bytes == r { PerfectFitWrites(m, bs, lo, hi, i, r); } else { SplitWrites(m, bs, lo, hi, i, r); }
  }

  /** No word of a live payload is a size word or a link word. */
  lemma PayloadIsPrivate(bs: seq<Block>, lo: nat, hi: nat, i: nat, x: nat)
    requires Tiled(bs, lo, hi) && lo >= HEAD + 2 && i < |bs| && !bs[i].free
    requires bs[i].off < x && WORD * x + WORD <= WORD * bs[i].off + bs[i].bytes
    ensures forall j: nat :: j < |bs| ==> bs[j].off != x
    ensures NoLinkAt(FreeOffs(bs), x) && HEAD < x && WORD * x + WORD <= hi
  {
    HeadersInside(bs, lo, hi, i);
    forall j: nat | j < |bs| ensures bs[j].off != x && (bs[j].free ==> bs[j].off + 1 != x) {
      if j < i { StartsIncrease(bs, j, i); } else if i < j { StartsIncrease(bs, i, j); }
    }
    var fs := FreeOffs(bs);
    forall k: nat | k <= |fs| ensures Node(fs, k) + 1 != x {
      if k > 0 { var j := ListedIsBlock(bs, k - 1); }
    }
  }

  // ---- what one call leaves alone ----------------------------------------------------------------

  /** Word x belongs to the payload of live block b. */
  ghost predicate Owned(b: Block, x: nat) {
    !b.free && b.off < x && WORD * x + WORD <= WORD * b.off + b.bytes
  }

  /** Every word of every live payload of bs is the same in n as in m. */
  ghost predicate PayloadsKept(bs: seq<Block>, m: seq<nat>, n: seq<nat>) {
    |n| == |m| && forall b: Block, x: nat :: b in bs && Owned(b, x) ==> x < |m| && n[x] == m[x]
  }

  lemma PayloadIsNoLink(bs: seq<Block>, lo: nat, hi: nat, i: nat, b: Block, x: nat)
    requires Tiled(bs, lo, hi) && lo >= HEAD + 2 && i <= |bs| && b in bs && Owned(b, x)
    ensures PrevOf(bs, i) + 1 != x && WORD * x + WORD <= hi
  {
    var j: nat :| j < |bs| && bs[j] == b;
    PayloadIsPrivate(bs, lo, hi, j, x);
    SplitList(bs, i);
    NodeOfSplit(FreeOffs(bs[..i]), FreeOffs(bs[i..]));
    assert Node(FreeOffs(bs), |FreeOffs(bs[..i])|) == PrevOf(bs, i);
  }

  /** A word of a live payload lies before or behind every other block. */
  lemma PayloadIsOutside(bs: seq<Block>, i: nat, b: Block, x: nat)
    requires Laid(bs) && i < |bs| && b in bs && b != bs[i] && Owned(b, x)
    ensures x < bs[i].off || (WORD * bs[i].off + bs[i].bytes < WORD * x && bs[i].off + 1 < x)
  {
    var j: nat :| j < |bs| && bs[j] == b;
    if i < j { StartsIncrease(bs, i, j); } else { StartsIncrease(bs, j, i); }
  }

  lemma TakeKeepsPayloads(m: seq<nat>, bs: seq<Block>, lo: nat, hi: nat, i: nat, r: nat)
    requires Inv(bs, lo, hi) && lo >= HEAD + 2 && |m| >= hi / WORD + 2
    requires i < |bs| && (Exact(bs[i], r) || Splittable(bs[i], r)) && ValidRequest(r)
    requires bs[i].off + 1 < |m| && PrevOf(bs, i) + 1 < |m| && (bs[i].bytes != r ==> bs[i].off + r / WORD + 1 < |m|)
    ensures PayloadsKept(bs, m, TakeMemory(m, bs, i, r))
  {
    forall b: Block, x: nat | b in bs && Owned(b, x) ensures x < |m| && TakeMemory(m, bs, i, r)[x] == m[x] {
      PayloadIsNoLink(bs, lo, hi, i, b, x);
      PayloadIsOutside(bs, i, b, x);
    }
  }

  lemma RelinkKeepsPayloads(m: seq<nat>, bs: seq<Block>, lo: nat, hi: nat, i: nat, v: nat)
    requires Tiled(bs, lo, hi) && lo >= HEAD + 2 && |m| >= hi / WORD + 2
    requires i < |bs| && !bs[i].free && bs[i].off + 1 < |m| && PrevOf(bs, i) + 1 < |m|
    ensures PayloadsKept(Marked(bs, i), m, m[bs[i].off + 1 := v][PrevOf(bs, i) + 1 := bs[i].off])
  {
    var n := m[bs[i].off + 1 := v][PrevOf(bs, i) + 1 := bs[i].off];
    forall b: Block, x: nat | b in Marked(bs, i) && Owned(b, x) ensures x < |m| && n[x] == m[x] {
      var j: nat :| j < |bs| && Marked(bs, i)[j] == b;
      assert b == bs[j] && j != i;
      PayloadIsNoLink(bs, lo, hi, i, b, x);
      StartsDistinct(bs, i, j);
      PayloadIsOutside(bs, i, b, x);
    }
  }

  lemma SwallowKeepsPayloads(m: seq<nat>, bs: seq<Block>, lo: nat, hi: nat, i: nat)
    requires Tiled(bs, lo, hi) && lo >= HEAD + 2 && |m| >= hi / WORD + 2
    requires i + 1 < |bs| && bs[i].free && bs[i + 1].free && bs[i].off + 1 < |m| && bs[i + 1].off + 1 < |m|
    ensures PayloadsKept(MergeNext(bs, i), m, SwallowMemory(m, bs, i)) && LiveIn(bs, MergeNext(bs, i))
  {
    HeadersInside(bs, lo, hi, i);
    StartsIncrease(bs, i, i + 1);
    forall b: Block, x: nat | b in bs && Owned(b, x) ensures x < |m| && SwallowMemory(m, bs, i)[x] == m[x] {
      PayloadIsNoLink(bs, lo, hi, i, b, x);
      PayloadIsOutside(bs, i, b, x);
    }
  }

  /** Every live block of cs is one of bs. */
  ghost predicate LiveIn(bs: seq<Block>, cs: seq<Block>) { forall b: Block :: b in cs && !b.free ==> b in bs }

  lemma NothingWritten(bs: seq<Block>, lo: nat, hi: nat, m: seq<nat>)
    requires Tiled(bs, lo, hi) && lo >= HEAD + 2 && |m| >= hi / WORD
    ensures PayloadsKept(bs, m, m)
  {
    forall b: Block, x: nat | b in bs && Owned(b, x) ensures x < |m| { PayloadIsNoLink(bs, lo, hi, 0, b, x); }
  }

}
