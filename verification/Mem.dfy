/** The XCache allocator on the words of its arena; a caller may overwrite every word of a payload it
    owns, the `next` word included. */
module Mem {
  import opened Machine
  import opened Blocks
  import opened MemSpec

  class Arena {
    const size: nat                 // bytes handed to xc_mem_init
    const w: array<nat>             // the arena's words
    var avail: nat
    ghost var blocks: seq<Block>    // what the headers in memory mean

    ghost predicate Valid()
      reads this, w
    {
      && MINSIZE <= size < UINT_MOD && w.Length == size / WORD
      && Inv(blocks, FIRST, size - BLOCK_BYTES)
      && avail == FreeBytes(blocks)
      && Represents(w[..], blocks)
    }

    /** Lays out the header and the first block in memory with arbitrary contents. */
    constructor (size: nat, w: array<nat>)
      requires MINSIZE <= size < UINT_MOD && w.Length == size / WORD
      modifies w
      ensures Valid() && this.size == size && this.w == w
      ensures blocks == [Block(FIRST, size - MINSIZE, true)] && avail == size - MINSIZE
    {
      this.size := size;
      this.w := w;
      avail := size - MINSIZE;
      blocks := [Block(FIRST, size - MINSIZE, true)];
      new;
      w[HEAD], w[HEAD + 1] := 0, FIRST;
      w[FIRST], w[FIRST + 1] := avail, NULL;
      FreeOne(blocks[0]);
    }

    /** xc_mem_init: memory too small for the header and one block is refused untouched. */
    static method Init(size: nat, w: array<nat>) returns (a: Arena?)
      requires size < UINT_MOD && w.Length == size / WORD
      modifies w
      ensures a == null <==> size < MINSIZE
      ensures a == null ==> w[..] == old(w[..])
      ensures a != null ==>
        && fresh(a) && a.Valid() && a.size == size && a.w == w
        && a.blocks == [Block(FIRST, size - MINSIZE, true)] && a.avail == size - MINSIZE
    {
      if size < MINSIZE {
        return null;
      }
      a := new Arena(size, w);
    }

    /** The search loop: the list node before the block to use, or NULL. */
    method Search(realsize: nat) returns (b: nat)
      requires Valid() && ValidRequest(realsize)
      ensures b == NULL <==> NoFit(blocks, realsize)
      ensures b != NULL ==> exists best: nat :: BestFit(blocks, realsize, best) && b == PrevOf(blocks, best)
    {
      b := NULL;
      ghost var best := 0;
      var minsize := INT_MAX;
      var prev := HEAD;
      ghost var seen, lo, hi, m, bs := 0, FIRST, size - BLOCK_BYTES, w[..], blocks;
      WalkStart(m, bs);
      while w[prev + 1] != NULL
        invariant Walked(m, bs, seen, prev)
        invariant BestSoFar(bs, realsize, seen, b != NULL, best, minsize)
        invariant b != NULL ==> b == PrevOf(bs, best)
        decreases |bs| - seen
      {
        ghost var i := WalkStep(m, bs, lo, hi, seen, prev);
        var cur := w[prev + 1];
        if w[cur] == realsize {
          return prev;
        } else if w[cur] > BLOCK_BYTES + realsize && w[cur] < minsize {
          b, best, minsize := prev, i, w[cur];
        }
        prev, seen := cur, i + 1;
      }
      NoneLeft(bs, lo, hi, seen);
      BestDone(bs, realsize, seen, b != NULL, best, minsize);
    }

    /** Unlinks or splits the block after list node `prev`. */
    method Take(prev: nat, realsize: nat, ghost i: nat) returns (p: nat)
      requires Valid() && ValidRequest(realsize)
      requires i < |blocks| && (Exact(blocks[i], realsize) || Splittable(blocks[i], realsize))
      requires prev == PrevOf(blocks, i)
      modifies w, `avail, `blocks
      ensures Valid()
      ensures p == old(blocks)[i].off + 1 && blocks == AllocAt(old(blocks), i, realsize)
      ensures PayloadsKept(old(blocks), old(w[..]), w[..])
    {
      ghost var bs, m: seq<nat>, lo, hi := blocks, w[..], FIRST, size - BLOCK_BYTES;
      TakeWrites(m, bs, lo, hi, i, realsize);
      TakeKeepsPayloads(m, bs, lo, hi, i, realsize);
      var cur := w[prev + 1];
      p := cur + 1;
      avail := avail - realsize;
      blocks := AllocAt(bs, i, realsize);
      if w[cur] == realsize {
        w[prev + 1] := w[cur + 1];
      } else {
        var b := w[cur + 1];
        var newb := cur + realsize / WORD;
        w[newb] := w[cur] - realsize;
        w[newb + 1] := b;
        w[cur] := realsize;
        w[prev + 1] := newb;
      }
      assert w[..] == TakeMemory(m, bs, i, realsize);
    }

    /** Returns NULL exactly when no block fits; otherwise the payload of the best fit. */
    method Malloc(request: nat) returns (p: nat)
      requires Valid() && 1 <= request <= UINT_MOD - BLOCK_BYTES
      modifies w, `avail, `blocks
      ensures Valid()
      ensures p == NULL <==> NoFit(old(blocks), RealSize(request))
      ensures p == NULL ==> blocks == old(blocks) && avail == old(avail) && w[..] == old(w[..])
      ensures p != NULL ==>
        exists i: nat :: BestFit(old(blocks), RealSize(request), i) && RealSize(request) <= old(blocks)[i].bytes
          && p == old(blocks)[i].off + 1 && blocks == AllocAt(old(blocks), i, RealSize(request))
      ensures PayloadsKept(old(blocks), old(w[..]), w[..])
    {
      var realsize := RealSize(request);
      RealSizeHoldsRequest(request);
      RealSizeHoldsFreeHeader(request);
      NothingWritten(blocks, FIRST, size - BLOCK_BYTES, w[..]);
      if avail < realsize {
        EarlyExitIsSound(blocks, realsize);
        return NULL;
      }
      var prev := Search(realsize);
      if prev == NULL {
        return NULL;
      }
      ghost var i: nat :| BestFit(blocks, realsize, i) && prev == PrevOf(blocks, i);
      p := Take(prev, realsize, i);
    }

    /** The loop that finds the list node right before `cur`. */
    method FindPrev(cur: nat, ghost i: nat) returns (b: nat)
      requires Valid() && i < |blocks| && !blocks[i].free && cur == blocks[i].off
      ensures b == PrevOf(blocks, i)
    {
      b := HEAD;
      ghost var seen, lo, hi := 0, FIRST, size - BLOCK_BYTES;
      WalkStart(w[..], blocks);
      while w[b + 1] != NULL && w[b + 1] < cur
        invariant Walked(w[..], blocks, seen, b) && seen <= i
        decreases |blocks| - seen
      {
        ghost var j := WalkStep(w[..], blocks, lo, hi, seen, b);
        if i < j { StartsIncrease(blocks, i, j); }
        b, seen := w[b + 1], j + 1;
      }
      WalkStop(w[..], blocks, lo, hi, seen, b, i);
    }

    /** Puts live block i back into the list, after node b. */
    method Relink(cur: nat, b: nat, ghost i: nat) returns (freed: nat)
      requires Valid() && i < |blocks| && !blocks[i].free && cur == blocks[i].off && b == PrevOf(blocks, i)
      modifies w, `avail, `blocks
      ensures Between() && freed == old(blocks)[i].bytes && blocks == Marked(old(blocks), i)
      ensures PayloadsKept(blocks, old(w[..]), w[..])
    {
      ghost var bs, m: seq<nat>, lo, hi := blocks, w[..], FIRST, size - BLOCK_BYTES;
      MarkWrites(m, bs, lo, hi, i);
      RelinkKeepsPayloads(m, bs, lo, hi, i, m[PrevOf(bs, i) + 1]);
      MarkedFreeList(bs, i);
      MarkedTiled(bs, lo, hi, i);
      blocks := Marked(bs, i);
      w[cur + 1] := w[b + 1];
      w[b + 1] := cur;
      ghost var linked: seq<nat> := m[cur + 1 := m[b + 1]];
      assert w[..] == linked[b + 1 := cur];
      freed := w[cur];
      assert SizeAt(w[..], blocks, i);
      avail := avail + freed;
    }

    /** Frees the live payload at word p, which is that of block i; no other live payload changes. */
    method Free(p: nat, ghost i: nat) returns (freed: nat)
      requires Valid() && i < |blocks| && !blocks[i].free && p == blocks[i].off + 1
      modifies w, `avail, `blocks
      ensures Valid()
      ensures freed == old(blocks)[i].bytes && blocks == FreeAt(old(blocks), i)
      ensures PayloadsKept(blocks, old(w[..]), w[..])
    {
      ghost var bs := blocks;
      FreeKeepsInv(bs, FIRST, size - BLOCK_BYTES, i);
      var cur := p - 1;
      var b := FindPrev(cur, i);
      freed := Relink(cur, b, i);
      assert PrevOf(blocks, i) == b by { assert blocks[..i] == bs[..i]; }
      ghost var at;
      cur, at := JoinPrev(cur, b, i);
      JoinNext(cur, at);
    }

    /** Combines free block i with the node b before it, if that touches it. */
    method JoinPrev(cur: nat, b: nat, ghost i: nat) returns (start: nat, ghost at: nat)
      requires Between() && i < |blocks| && blocks[i].free && cur == blocks[i].off && b == PrevOf(blocks, i)
      modifies w, `blocks
      ensures Between() && at < |blocks| && blocks[at].free && start == blocks[at].off
      ensures if i > 0 && old(blocks)[i - 1].free then at == i - 1 && blocks == MergeNext(old(blocks), at)
              else at == i && blocks == old(blocks)
      ensures PayloadsKept(blocks, old(w[..]), w[..]) && LiveIn(old(blocks), blocks)
    {
      start, at := cur, i;
      PrevTouches(w[..], blocks, FIRST, size - BLOCK_BYTES, i);
      if WORD * b + w[b] == WORD * cur {
        start, at := b, i - 1;
        SwallowNext(b, cur, i - 1);
      } else {
        NothingWritten(blocks, FIRST, size - BLOCK_BYTES, w[..]);
      }
    }

    /** Combines free block `at` with the block its link names, if they touch. */
    method JoinNext(cur: nat, ghost at: nat)
      requires Between() && at < |blocks| && blocks[at].free && cur == blocks[at].off
      modifies w, `blocks
      ensures Between() && blocks == MergeNext(old(blocks), at)
      ensures PayloadsKept(blocks, old(w[..]), w[..]) && LiveIn(old(blocks), blocks)
    {
      NextTouches(w[..], blocks, FIRST, size - BLOCK_BYTES, at);
      var b := w[cur + 1];
      if WORD * cur + w[cur] == WORD * b {
        SwallowNext(cur, b, at);
      } else {
        NothingWritten(blocks, FIRST, size - BLOCK_BYTES, w[..]);
      }
    }

    ghost predicate Between()
      reads this, w
    {
      && MINSIZE <= size < UINT_MOD && w.Length == size / WORD
      && Tiled(blocks, FIRST, size - BLOCK_BYTES)
      && avail == FreeBytes(blocks)
      && Represents(w[..], blocks)
    }

    /** Combines free block `at`, which starts at cur, with the free block at next right after it. */
    method SwallowNext(cur: nat, next: nat, ghost at: nat)
      requires Between() && at + 1 < |blocks| && blocks[at].free && blocks[at + 1].free
      requires cur == blocks[at].off && next == blocks[at + 1].off
      modifies w, `blocks
      ensures Between() && blocks == MergeNext(old(blocks), at)
      ensures PayloadsKept(blocks, old(w[..]), w[..]) && LiveIn(old(blocks), blocks)
    {
      ghost var bs, m: seq<nat>, lo, hi := blocks, w[..], FIRST, size - BLOCK_BYTES;
      SwallowWrites(m, bs, lo, hi, at);
      SwallowKeepsPayloads(m, bs, lo, hi, at);
      blocks := MergeNext(bs, at);
      w[cur], w[cur + 1] := w[cur] + w[next], w[next + 1];
      assert w[..] == SwallowMemory(m, bs, at);
    }

    /** The owner of live block i may store anything in its payload, where a free block keeps
        its link. */
    method StorePayload(x: nat, v: nat, ghost i: nat)
      requires Valid() && i < |blocks| && !blocks[i].free
      requires blocks[i].off < x && WORD * x + WORD <= WORD * blocks[i].off + blocks[i].bytes
      modifies w
      ensures Valid() && x < w.Length && w[..] == old(w[..])[x := v]
    {
      ghost var m: seq<nat>, lo, hi := w[..], FIRST, size - BLOCK_BYTES;
      PayloadIsPrivate(blocks, lo, hi, i, x);
      NoStrayWrite(m, blocks, x, v);
      SizeWordIsNoLink(m, FreeOffs(blocks), x, v);
      w[x] := v;
      assert w[..] == m[x := v];
    }
  }
}
