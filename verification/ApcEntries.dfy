/** From a stored variable to a dump of it: the cells that the traversal finds are what dumping needs. */
module ApcEntries {
  import opened ApcImage
  import opened ApcBin
  import opened ApcDump
  import ApcWalk

  /** The cell lies in the payload of the image and points into the image. */
  ghost predicate CellOk(o: Bytes, base: nat, c: nat) {
    HEADER <= c && c + PTR <= |o| - 2 && Inside(base, |o|, Get(o, c, PTR))
  }

  /** Cell c belongs to some zval of the heap. */
  ghost predicate OfHeap(heap: ApcWalk.Heap, c: nat) {
    exists a :: a in heap && ApcWalk.Points(heap[a], c)
  }

  /** How the copied zvals lie in the image: every cell is one of its own pointers, and two cells are the
      same one or do not overlap. */
  ghost predicate LaidOut(heap: ApcWalk.Heap, o: Bytes, base: nat) {
    && (forall c: nat :: OfHeap(heap, c) ==> CellOk(o, base, c))
    && (forall b: nat, c: nat :: OfHeap(heap, b) && OfHeap(heap, c) ==> b == c || b + PTR <= c || c + PTR <= b)
  }

  lemma CellsAreOfHeap(heap: ApcWalk.Heap, zvs: seq<ApcWalk.Addr>, c: nat)
    requires c in ApcWalk.CellsOf(heap, zvs)
    ensures OfHeap(heap, c)
  {
    ApcWalk.CellsOfHave(heap, zvs, c);
  }

  /** What a traversal records satisfies everything that dumping and loading need of it. */
  lemma WalkedIsRecorded(heap: ApcWalk.Heap, o: Bytes, base: nat, zvs: seq<ApcWalk.Addr>, cells: seq<nat>)
    requires multiset(cells) == ApcWalk.CellsOf(heap, zvs)
    requires LaidOut(heap, o, base)
    requires HEADER < |o| <= base && base + |o| <= TOP && Inside(base, |o|, Get(o, ENTRIES, PTR))
    ensures Recorded(o, base, cells) && forall c :: c in cells ==> OfHeap(heap, c)
  {
    forall c | c in cells ensures OfHeap(heap, c) {
      assert c in multiset(cells);
      CellsAreOfHeap(heap, zvs, c);
    }
  }

  /** The same for a constant array of a file entry, although its cells may be recorded many times. */
  lemma TreeIsRecorded(heap: ApcWalk.Heap, rank: ApcWalk.Addr -> nat, o: Bytes, base: nat, zv: ApcWalk.Addr,
                       cells: seq<nat>)
    requires ApcWalk.Ranked(heap, rank) && zv in heap && cells == ApcWalk.TreeCells(heap, rank, zv)
    requires LaidOut(heap, o, base)
    requires HEADER < |o| <= base && base + |o| <= TOP && Inside(base, |o|, Get(o, ENTRIES, PTR))
    ensures Recorded(o, base, cells)
  {
    forall c | c in cells ensures OfHeap(heap, c) {
      ApcWalk.TreeIsReached(heap, rank, zv, c);
    }
  }

  /** Cells recorded before lie apart from those of the heap, or are the same. */
  ghost predicate ApartFrom(heap: ApcWalk.Heap, earlier: seq<nat>) {
    forall b: nat, c: nat :: b in earlier && OfHeap(heap, c) ==> b == c || b + PTR <= c || c + PTR <= b
  }

  lemma RecordedTogether(heap: ApcWalk.Heap, o: Bytes, base: nat, earlier: seq<nat>, cells: seq<nat>)
    requires Recorded(o, base, earlier) && Recorded(o, base, cells) && ApartFrom(heap, earlier)
    requires forall c :: c in cells ==> OfHeap(heap, c)
    ensures Recorded(o, base, earlier + cells)
  {
  }

  /** One user entry of apc_bin_dump, the first or a later one: the traversal, and the recording of the
      cells it comes by, one after the other. The dump that results can be swizzled, moved and loaded
      (ApcDump.DumpThenLoad). */
  method RecordEntry(d: Dump, heap: ApcWalk.Heap, zv: ApcWalk.Addr) returns (w: ApcWalk.Walker)
    requires d.Valid() && Recorded(d.mem[..], d.base, CellsOf(d.recorded, d.base))
    requires ApcWalk.Closed(heap) && zv in heap && LaidOut(heap, d.mem[..], d.base)
    requires ApartFrom(heap, CellsOf(d.recorded, d.base))
    modifies d`recorded
    ensures d.Valid() && fresh(w) && w.heap == heap
    ensures forall a :: a in w.copied <==> ApcWalk.Reach(heap, zv, a)
    ensures ApcWalk.Distinct(w.expanded) && ApcWalk.SetOf(w.expanded) == w.copied
    ensures CellsOf(d.recorded, d.base) == old(CellsOf(d.recorded, d.base)) + w.recorded
    ensures multiset(w.recorded) == ApcWalk.CellsOf(heap, w.expanded)
    ensures forall a, c :: ApcWalk.Reach(heap, zv, a) && a in heap && ApcWalk.Points(heap[a], c) ==> c in w.recorded
    ensures Recorded(d.mem[..], d.base, CellsOf(d.recorded, d.base))
  {
    ghost var o, earlier := d.mem[..], CellsOf(d.recorded, d.base);
    w := new ApcWalk.Walker(heap);
    w.SwizzleEntry(zv);
    WalkedIsRecorded(heap, o, d.base, w.expanded, w.recorded);
    RecordedTogether(heap, o, d.base, earlier, w.recorded);
    RecordCells(d, earlier, w.recorded);
  }

  method RecordCells(d: Dump, ghost earlier: seq<nat>, cells: seq<nat>)
    requires d.Valid() && CellsOf(d.recorded, d.base) == earlier && Recorded(d.mem[..], d.base, earlier + cells)
    modifies d`recorded
    ensures d.Valid() && CellsOf(d.recorded, d.base) == earlier + cells
  {
    for k := 0 to |cells|
      invariant d.Valid() && CellsOf(d.recorded, d.base) == (earlier + cells)[..|earlier| + k]
    {
      assert (earlier + cells)[|earlier| + k] == cells[k];
      RecordNext(d, earlier + cells, |earlier| + k, cells[k]);
    }
    assert (earlier + cells)[..|earlier + cells|] == earlier + cells;
  }

  lemma PrefixApart(cells: seq<nat>, k: nat)
    requires Apart(cells) && k <= |cells|
    ensures Apart(cells[..k])
  {
    assert forall c :: c in cells[..k] ==> c in cells;
  }

  method RecordNext(d: Dump, ghost cells: seq<nat>, ghost k: nat, c: nat)
    requires d.Valid() && Recorded(d.mem[..], d.base, cells) && k < |cells| && c == cells[k]
    requires CellsOf(d.recorded, d.base) == cells[..k]
    modifies d`recorded
    ensures d.Valid() && CellsOf(d.recorded, d.base) == cells[..k + 1]
  {
    assert cells[..k + 1] == cells[..k] + [c] && c in cells;
    assert CellsOf(d.recorded + [d.base + c], d.base) == CellsOf(d.recorded, d.base) + [c];
    PrefixApart(cells, k + 1);
    d.Record(d.base + c);
  }
}
