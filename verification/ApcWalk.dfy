/** The traversal of a stored variable that finds the pointers to record: nested arrays may share
    zvals and may contain themselves. */
module ApcWalk {
  type Addr = nat

  /** One element of an array: the zval it leads to and the pointer cells of the bucket. */
  datatype Bucket = Bucket(zv: Addr, cells: seq<nat>)

  /** Scalars and objects hold nothing to record, strings one pointer, arrays their buckets in list
      order and then the cells of the table itself. */
  datatype Zval = Scalar | Text(cell: nat) | Array(buckets: seq<Bucket>, cells: seq<nat>)

  type Heap = map<Addr, Zval>

  ghost predicate Closed(heap: Heap) {
    forall a, i: nat :: a in heap && heap[a].Array? && i < |heap[a].buckets| ==> heap[a].buckets[i].zv in heap
  }

  ghost predicate Child(heap: Heap, a: Addr, b: Addr) {
    a in heap && heap[a].Array? && exists i: nat :: i < |heap[a].buckets| && heap[a].buckets[i].zv == b
  }

  ghost predicate Path(heap: Heap, p: seq<Addr>) {
    p != [] && forall i: nat :: i + 1 < |p| ==> Child(heap, p[i], p[i + 1])
  }

  ghost predicate Reach(heap: Heap, a: Addr, b: Addr) {
    exists p: seq<Addr> :: Path(heap, p) && p[0] == a && p[|p| - 1] == b
  }

  lemma ReachSelf(heap: Heap, a: Addr)
    ensures Reach(heap, a, a)
  {
    assert Path(heap, [a]);
  }

  lemma ReachStep(heap: Heap, a: Addr, b: Addr, c: Addr)
    requires Child(heap, a, b) && Reach(heap, b, c)
    ensures Reach(heap, a, c)
  {
    var p: seq<Addr> :| Path(heap, p) && p[0] == b && p[|p| - 1] == c;
    var q := [a] + p;
    forall i: nat | i + 1 < |q| ensures Child(heap, q[i], q[i + 1]) {
      if i > 0 { assert Child(heap, p[i - 1], p[i - 1 + 1]); }
    }
    assert Path(heap, q);
  }

  /** Every child of a member of done is a member of all. */
  ghost predicate Saturated(heap: Heap, done: set<Addr>, all: set<Addr>) {
    forall a, b :: a in done && Child(heap, a, b) ==> b in all
  }

  lemma {:induction false} SaturatedContainsPath(heap: Heap, s: set<Addr>, p: seq<Addr>)
    requires Saturated(heap, s, s) && Path(heap, p) && p[0] in s
    ensures p[|p| - 1] in s
  {
    if |p| == 1 {
      // the path ends where it starts
    } else {
      assert Child(heap, p[0], p[0 + 1]);
      forall i: nat | i + 1 < |p[1..]| ensures Child(heap, p[1..][i], p[1..][i + 1]) {
        assert Child(heap, p[i + 1], p[i + 1 + 1]);
      }
      SaturatedContainsPath(heap, s, p[1..]);
    }
  }

  // ---- what is recorded -----------------------------------------------------------------------

  ghost function BucketCells(bs: seq<Bucket>, n: nat): multiset<nat>
    requires n <= |bs|
  {
    if n == 0 then multiset{} else BucketCells(bs, n - 1) + multiset(bs[n - 1].cells)
  }

  /** The pointer cells a zval itself accounts for. */
  ghost function OwnCells(z: Zval): multiset<nat> {
    match z
    case Scalar => multiset{}
    case Text(cell) => multiset{cell}
    case Array(buckets, cells) => BucketCells(buckets, |buckets|) + multiset(cells)
  }

  /** Cell c is the pointer of a string, or belongs to a bucket of an array or to its table. */
  ghost predicate Points(z: Zval, c: nat) {
    match z
    case Scalar => false
    case Text(cell) => c == cell
    case Array(buckets, cells) => c in cells || exists i: nat :: i < |buckets| && c in buckets[i].cells
  }

  lemma {:induction false} BucketCellsHave(bs: seq<Bucket>, n: nat, c: nat)
    requires n <= |bs|
    ensures c in BucketCells(bs, n) <==> exists i: nat :: i < n && c in bs[i].cells
  {
    if n == 0 {
    } else {
      BucketCellsHave(bs, n - 1, c);
    }
  }

  /** What a zval accounts for are all its pointers. */
  lemma OwnCellsPoint(z: Zval, c: nat)
    ensures c in OwnCells(z) <==> Points(z, c)
  {
    if z.Array? { BucketCellsHave(z.buckets, |z.buckets|, c); }
  }

  ghost function CellsOf(heap: Heap, zvs: seq<Addr>): multiset<nat> {
    if zvs == [] then multiset{}
    else
      var last := zvs[|zvs| - 1];
      CellsOf(heap, zvs[..|zvs| - 1]) + (if last in heap then OwnCells(heap[last]) else multiset{})
  }

  lemma {:induction false} CellsOfAppend(heap: Heap, a: seq<Addr>, b: seq<Addr>)
    ensures CellsOf(heap, a + b) == CellsOf(heap, a) + CellsOf(heap, b)
  {
    if b == [] {
      assert a + b == a;
    } else {
      assert (a + b)[..|a + b| - 1] == a + b[..|b| - 1];
      CellsOfAppend(heap, a, b[..|b| - 1]);
    }
  }

  lemma {:induction false} CellsOfHave(heap: Heap, zvs: seq<Addr>, c: nat)
    ensures c in CellsOf(heap, zvs) <==> exists a :: a in zvs && a in heap && Points(heap[a], c)
  {
    if zvs == [] {
    } else {
      var n := |zvs| - 1;
      CellsOfHave(heap, zvs[..n], c);
      assert zvs == zvs[..n] + [zvs[n]];
      if zvs[n] in heap { OwnCellsPoint(heap[zvs[n]], c); }
    }
  }

  ghost predicate Distinct(s: seq<Addr>) { forall i: nat, j: nat :: i < j < |s| ==> s[i] != s[j] }

  ghost function SetOf(s: seq<Addr>): set<Addr> { set a | a in s }

  // ---- without a set of visited zvals ------------------------------------------------------------

  /** Arrays nest without cycles: elements rank below the array. */
  ghost predicate Ranked(heap: Heap, rank: Addr -> nat) {
    forall a, i: nat :: a in heap && heap[a].Array? && i < |heap[a].buckets| ==>
      heap[a].buckets[i].zv in heap && rank(heap[a].buckets[i].zv) < rank(a)
  }

  /** The cells met on all paths from a, in the order in which they are met. */
  ghost function TreeCells(heap: Heap, rank: Addr -> nat, a: Addr): seq<nat>
    requires Ranked(heap, rank) && a in heap
    decreases rank(a), 1, 0
  {
    match heap[a]
    case Scalar => []
    case Text(cell) => [cell]
    case Array(bs, cells) => BucketTrees(heap, rank, a, |bs|) + cells
  }

  ghost function BucketTrees(heap: Heap, rank: Addr -> nat, a: Addr, n: nat): seq<nat>
    requires Ranked(heap, rank) && a in heap && heap[a].Array? && n <= |heap[a].buckets|
    decreases rank(a), 0, n
  {
    if n == 0 then []
    else
      var b := heap[a].buckets[n - 1];
      BucketTrees(heap, rank, a, n - 1) + (TreeCells(heap, rank, b.zv) + b.cells)
  }

  lemma ElementAppended(heap: Heap, rank: Addr -> nat, a: Addr, i: nat, was: seq<nat>)
    requires Ranked(heap, rank) && a in heap && heap[a].Array? && i < |heap[a].buckets|
    ensures var b := heap[a].buckets[i];
      was + BucketTrees(heap, rank, a, i) + (TreeCells(heap, rank, b.zv) + b.cells)
      == was + BucketTrees(heap, rank, a, i + 1)
  {
  }

  /** Cell c belongs to some zval that a reaches. */
  ghost predicate Reached(heap: Heap, a: Addr, c: nat) {
    exists b :: Reach(heap, a, b) && b in heap && Points(heap[b], c)
  }

  /** Cell c is met below one of the first n elements of a. */
  ghost predicate InElements(heap: Heap, rank: Addr -> nat, a: Addr, n: nat, c: nat)
    requires Ranked(heap, rank) && a in heap && heap[a].Array? && n <= |heap[a].buckets|
  {
    exists i: nat :: i < n && InElement(heap, rank, a, i, c)
  }

  ghost predicate InElement(heap: Heap, rank: Addr -> nat, a: Addr, i: nat, c: nat)
    requires Ranked(heap, rank) && a in heap && heap[a].Array? && i < |heap[a].buckets|
  {
    c in TreeCells(heap, rank, heap[a].buckets[i].zv)
  }

  lemma {:induction false} BucketTreesHave(heap: Heap, rank: Addr -> nat, a: Addr, n: nat, c: nat)
    requires Ranked(heap, rank) && a in heap && heap[a].Array? && n <= |heap[a].buckets|
    ensures c in BucketTrees(heap, rank, a, n) <==>
      c in BucketCells(heap[a].buckets, n) || InElements(heap, rank, a, n, c)
    decreases n
  {
    if n == 0 {
    } else {
      BucketTreesHave(heap, rank, a, n - 1, c);
      ElementsStep(heap, rank, a, n, c);
    }
  }

  lemma ElementsStep(heap: Heap, rank: Addr -> nat, a: Addr, n: nat, c: nat)
    requires Ranked(heap, rank) && a in heap && heap[a].Array? && 0 < n <= |heap[a].buckets|
    ensures InElements(heap, rank, a, n, c) <==>
      InElements(heap, rank, a, n - 1, c) || c in TreeCells(heap, rank, heap[a].buckets[n - 1].zv)
  {
    assert InElement(heap, rank, a, n - 1, c) <==> c in TreeCells(heap, rank, heap[a].buckets[n - 1].zv);
  }

  lemma {:induction false} TreeIsReached(heap: Heap, rank: Addr -> nat, a: Addr, c: nat)
    requires Ranked(heap, rank) && a in heap && c in TreeCells(heap, rank, a)
    ensures Reached(heap, a, c)
    decreases rank(a)
  {
    ReachSelf(heap, a);
    OwnCellsPoint(heap[a], c);
    if c in OwnCells(heap[a]) {
      // the zval's own
    } else {
      var bs := heap[a].buckets;
      BucketTreesHave(heap, rank, a, |bs|, c);
      var i: nat :| i < |bs| && InElement(heap, rank, a, i, c);
      TreeIsReached(heap, rank, bs[i].zv, c);
      var b :| Reach(heap, bs[i].zv, b) && b in heap && Points(heap[b], c);
      assert Child(heap, a, bs[i].zv);
      ReachStep(heap, a, bs[i].zv, b);
    }
  }

  lemma TreeHasOwn(heap: Heap, rank: Addr -> nat, a: Addr, c: nat)
    requires Ranked(heap, rank) && a in heap && c in OwnCells(heap[a])
    ensures c in TreeCells(heap, rank, a)
  {
    if heap[a].Array? { BucketTreesHave(heap, rank, a, |heap[a].buckets|, c); }
  }

  lemma TreeHasChild(heap: Heap, rank: Addr -> nat, a: Addr, b: Addr, c: nat)
    requires Ranked(heap, rank) && Child(heap, a, b)
    ensures b in heap && (c in TreeCells(heap, rank, b) ==> c in TreeCells(heap, rank, a))
  {
    var i: nat :| i < |heap[a].buckets| && heap[a].buckets[i].zv == b;
    assert InElement(heap, rank, a, i, c) <==> c in TreeCells(heap, rank, b);
    BucketTreesHave(heap, rank, a, |heap[a].buckets|, c);
  }

  lemma {:induction false} PathInTree(heap: Heap, rank: Addr -> nat, p: seq<Addr>, c: nat)
    requires Ranked(heap, rank) && Path(heap, p) && p[0] in heap && p[|p| - 1] in heap
    requires c in OwnCells(heap[p[|p| - 1]])
    ensures c in TreeCells(heap, rank, p[0])
    decreases |p|
  {
    if |p| == 1 {
      TreeHasOwn(heap, rank, p[0], c);
    } else {
      assert Child(heap, p[0], p[0 + 1]);
      TreeHasChild(heap, rank, p[0], p[1], c);
      forall i: nat | i + 1 < |p[1..]| ensures Child(heap, p[1..][i], p[1..][i + 1]) {
        assert Child(heap, p[i + 1], p[i + 1 + 1]);
      }
      PathInTree(heap, rank, p[1..], c);
    }
  }

  /** Following every path meets exactly the cells of the zvals that can be reached. */
  lemma TreeCellsAreReached(heap: Heap, rank: Addr -> nat, a: Addr, c: nat)
    requires Ranked(heap, rank) && a in heap
    ensures c in TreeCells(heap, rank, a) <==> Reached(heap, a, c)
  {
    if c in TreeCells(heap, rank, a) { TreeIsReached(heap, rank, a, c); }
    if Reached(heap, a, c) {
      var b :| Reach(heap, a, b) && b in heap && Points(heap[b], c);
      OwnCellsPoint(heap[b], c);
      var p: seq<Addr> :| Path(heap, p) && p[0] == a && p[|p| - 1] == b;
      PathInTree(heap, rank, p, c);
    }
  }

  // ---- what a visit does -----------------------------------------------------------------------

  /** copied_zvals, the list of pointer cells, and the zvals in the order of their expansion. */
  datatype State = State(copied: set<Addr>, recorded: seq<nat>, expanded: seq<Addr>)

  ghost predicate StateOk(heap: Heap, s: State) {
    s.copied <= heap.Keys && Distinct(s.expanded) && SetOf(s.expanded) == s.copied
  }

  /** t has everything s has, its new zvals are reachable from zv, and their children (and those of
      also) are covered. */
  ghost predicate Grown(heap: Heap, s: State, t: State, zv: Addr, also: set<Addr>) {
    && StateOk(heap, t) && s.copied <= t.copied && s.expanded <= t.expanded
    && (forall a :: a in t.copied && a !in s.copied ==> Reach(heap, zv, a))
    && Saturated(heap, (t.copied - s.copied) + also, t.copied)
  }

  /** The cells recorded from s to t: those of the zvals expanded on the way, each once, and extra. */
  ghost predicate Recorded(heap: Heap, s: State, t: State, extra: multiset<nat>) {
    && |s.expanded| <= |t.expanded|
    && multiset(t.recorded) == multiset(s.recorded) + CellsOf(heap, t.expanded[|s.expanded|..]) + extra
  }

  ghost predicate Visited(heap: Heap, s: State, t: State, zv: Addr) {
    zv in t.copied && Grown(heap, s, t, zv, {}) && Recorded(heap, s, t, multiset{})
  }

  function Entered(s: State, zv: Addr): State {
    s.(copied := s.copied + {zv}, expanded := s.expanded + [zv])
  }

  lemma EnteredOk(heap: Heap, s: State, zv: Addr)
    requires StateOk(heap, s) && zv in heap && zv !in s.copied
    ensures StateOk(heap, Entered(s, zv))
  {
    var t := Entered(s, zv);
    forall i: nat, j: nat | i < j < |t.expanded| ensures t.expanded[i] != t.expanded[j] {
      assert t.expanded[i] in SetOf(s.expanded);
    }
    forall a ensures a in SetOf(t.expanded) <==> a in t.copied {
      assert a in SetOf(s.expanded) <==> a in s.copied;
    }
  }

  /** The cells of [zv] + rest, where rest is what was expanded below zv. */
  lemma CellsBelow(heap: Heap, s: State, t: State, zv: Addr)
    requires zv in heap && Entered(s, zv).expanded <= t.expanded
    ensures CellsOf(heap, t.expanded[|s.expanded|..]) ==
      OwnCells(heap[zv]) + CellsOf(heap, t.expanded[|s.expanded| + 1..])
  {
    assert t.expanded[|s.expanded|..] == [zv] + t.expanded[|s.expanded| + 1..];
    CellsOfAppend(heap, [zv], t.expanded[|s.expanded| + 1..]);
    assert CellsOf(heap, [zv]) == OwnCells(heap[zv]) by { assert [zv][..0] == []; }
  }

  lemma VisitedNew(heap: Heap, s: State, t: State, zv: Addr)
    requires StateOk(heap, s) && zv in heap && zv !in s.copied
    requires Grown(heap, Entered(s, zv), t, zv, {zv}) && Recorded(heap, Entered(s, zv), t, OwnCells(heap[zv]))
    ensures Visited(heap, s, t, zv)
  {
    ReachSelf(heap, zv);
    CellsBelow(heap, s, t, zv);
    assert t.copied - s.copied + {} == t.copied - Entered(s, zv).copied + {zv};
  }

  lemma LeafVisited(heap: Heap, s: State, zv: Addr, cells: seq<nat>)
    requires StateOk(heap, s) && zv in heap && zv !in s.copied && !heap[zv].Array?
      && multiset(cells) == OwnCells(heap[zv])
    ensures Visited(heap, s, Entered(s, zv).(recorded := s.recorded + cells), zv)
  {
    EnteredOk(heap, s, zv);
    var e := Entered(s, zv);
    assert e.expanded[|e.expanded|..] == [];
    VisitedNew(heap, s, e.(recorded := s.recorded + cells), zv);
  }

  /** The first i buckets of zv are done. */
  ghost predicate Partly(heap: Heap, s: State, t: State, zv: Addr, i: nat) {
    && zv in heap && heap[zv].Array? && i <= |heap[zv].buckets|
    && Grown(heap, s, t, zv, {})
    && (forall j: nat :: j < i ==> heap[zv].buckets[j].zv in t.copied)
    && Recorded(heap, s, t, BucketCells(heap[zv].buckets, i))
  }

  lemma PartlyBegun(heap: Heap, s: State, zv: Addr)
    requires StateOk(heap, s) && zv in heap && heap[zv].Array?
    ensures Partly(heap, s, s, zv, 0)
  {
    assert s.expanded[|s.expanded|..] == [];
  }

  lemma GrownThrough(heap: Heap, s: State, t: State, u: State, zv: Addr, b: Addr)
    requires Grown(heap, s, t, zv, {}) && Grown(heap, t, u, b, {}) && Child(heap, zv, b)
    ensures Grown(heap, s, u, zv, {})
  {
    forall a | a in u.copied && a !in s.copied ensures Reach(heap, zv, a) {
      if a !in t.copied { ReachStep(heap, zv, b, a); }
    }
    forall a, c | a in u.copied - s.copied && Child(heap, a, c) ensures c in u.copied {
      assert a in (t.copied - s.copied) + {} || a in (u.copied - t.copied) + {};
    }
  }

  lemma RecordedThrough(heap: Heap, s: State, t: State, u: State, x: multiset<nat>, cells: seq<nat>)
    requires s.expanded <= t.expanded <= u.expanded
    requires Recorded(heap, s, t, x) && Recorded(heap, t, u, multiset{})
    ensures Recorded(heap, s, u.(recorded := u.recorded + cells), x + multiset(cells))
  {
    var a, b := t.expanded[|s.expanded|..], u.expanded[|t.expanded|..];
    assert u.expanded[|s.expanded|..] == a + b;
    CellsOfAppend(heap, a, b);
  }

  lemma PartlyStep(heap: Heap, s: State, t: State, u: State, zv: Addr, i: nat)
    requires Partly(heap, s, t, zv, i) && i < |heap[zv].buckets| && Visited(heap, t, u, heap[zv].buckets[i].zv)
    ensures Partly(heap, s, u.(recorded := u.recorded + heap[zv].buckets[i].cells), zv, i + 1)
  {
    var bs := heap[zv].buckets;
    assert Child(heap, zv, bs[i].zv);
    GrownThrough(heap, s, t, u, zv, bs[i].zv);
    RecordedThrough(heap, s, t, u, BucketCells(bs, i), bs[i].cells);
  }

  lemma PartlyDone(heap: Heap, s: State, t: State, zv: Addr)
    requires zv in heap && heap[zv].Array? && Partly(heap, s, t, zv, |heap[zv].buckets|) && zv in s.copied
    ensures var u := t.(recorded := t.recorded + heap[zv].cells);
      Grown(heap, s, u, zv, {zv}) && Recorded(heap, s, u, OwnCells(heap[zv]))
  {
    forall a, c | a in (t.copied - s.copied) + {zv} && Child(heap, a, c) ensures c in t.copied {
      if a != zv { assert a in (t.copied - s.copied) + {}; }
    }
  }

  /** rest, which shrinks as the recursion descends, has every zval not visited yet. */
  ghost predicate Remaining(heap: Heap, copied: set<Addr>, rest: set<Addr>) {
    forall a :: a in heap ==> a in copied || a in rest
  }

  // ---- the traversal ---------------------------------------------------------------------------

  class Walker {
    const heap: Heap
    var copied: set<Addr>
    var recorded: seq<nat>
    ghost var expanded: seq<Addr>

    ghost function View(): State
      reads this
    {
      State(copied, recorded, expanded)
    }

    ghost predicate Valid()
      reads this
    {
      Closed(heap) && StateOk(heap, View())
    }

    constructor (heap: Heap)
      requires Closed(heap)
      ensures Valid() && this.heap == heap && View() == State({}, [], [])
    {
      this.heap := heap;
      copied, recorded, expanded := {}, [], [];
    }

    /** apc_swizzle_zval, for user entries. */
    method SwizzleZval(zv: Addr, ghost rest: set<Addr>)
      requires Valid() && zv in heap && Remaining(heap, copied, rest)
      modifies this
      ensures Valid() && Visited(heap, old(View()), View(), zv)
      decreases rest, 0
    {
      ghost var s := View();
      if zv in copied {
        return;
      }
      Enter(zv);
      match heap[zv]
      case Scalar =>
        LeafVisited(heap, s, zv, []);
        assert recorded + [] == recorded;
      case Text(cell) =>
        recorded := recorded + [cell];
        LeafVisited(heap, s, zv, [cell]);
      case Array(_, _) =>
        SwizzleHashtable(zv, rest - {zv});
        VisitedNew(heap, s, View(), zv);
    }

    /** zend_hash_index_update on copied_zvals. */
    method Enter(zv: Addr)
      requires Valid() && zv in heap && zv !in copied
      modifies `copied, `expanded
      ensures Valid() && View() == Entered(old(View()), zv)
    {
      EnteredOk(heap, View(), zv);
      copied := copied + {zv};
      expanded := expanded + [zv];
    }

    /** apc_swizzle_hashtable: each bucket's zval, then the bucket; at the end the table itself. */
    method SwizzleHashtable(zv: Addr, ghost rest: set<Addr>)
      requires Valid() && zv in copied && heap[zv].Array? && Remaining(heap, copied, rest)
      modifies this
      ensures Valid() && Grown(heap, old(View()), View(), zv, {zv})
      ensures Recorded(heap, old(View()), View(), OwnCells(heap[zv]))
      decreases rest, 2
    {
      ghost var s := View();
      var bs := heap[zv].buckets;
      PartlyBegun(heap, s, zv);
      for i := 0 to |bs|
        invariant Valid() && Partly(heap, s, View(), zv, i)
        invariant Remaining(heap, copied, rest)
      {
        SwizzleBucket(zv, i, s, rest);
      }
      PartlyDone(heap, s, View(), zv);
      recorded := recorded + heap[zv].cells;
    }

    /** One turn of the loop over the buckets. */
    method SwizzleBucket(zv: Addr, i: nat, ghost s: State, ghost rest: set<Addr>)
      requires Valid() && Partly(heap, s, View(), zv, i) && i < |heap[zv].buckets| && Remaining(heap, copied, rest)
      modifies this
      ensures Valid() && Partly(heap, s, View(), zv, i + 1) && old(copied) <= copied
      decreases rest, 1
    {
      ghost var t := View();
      var b := heap[zv].buckets[i];
      SwizzleZval(b.zv, rest);
      PartlyStep(heap, s, t, View(), zv, i);
      recorded := recorded + b.cells;
    }

    /** apc_swizzle_zval while copied_zvals is not in use, as for file entries: every path is followed. */
    method SwizzleTree(zv: Addr, ghost rank: Addr -> nat)
      requires Ranked(heap, rank) && zv in heap
      modifies `recorded
      ensures recorded == old(recorded) + TreeCells(heap, rank, zv)
      ensures forall a, c :: Reach(heap, zv, a) && a in heap && Points(heap[a], c) ==> c in recorded
      decreases rank(zv), 1, 0
    {
      forall c { TreeCellsAreReached(heap, rank, zv, c); }
      match heap[zv]
      case Scalar =>
      case Text(cell) => recorded := recorded + [cell];
      case Array(_, cells) =>
        SwizzleElements(zv, rank);
        recorded := recorded + cells;
    }

    /** The loop of apc_swizzle_hashtable in that case. */
    method SwizzleElements(zv: Addr, ghost rank: Addr -> nat)
      requires Ranked(heap, rank) && zv in heap && heap[zv].Array?
      modifies `recorded
      ensures recorded == old(recorded) + BucketTrees(heap, rank, zv, |heap[zv].buckets|)
      decreases rank(zv), 0, 1
    {
      ghost var was := recorded;
      for i := 0 to |heap[zv].buckets|
        invariant recorded == was + BucketTrees(heap, rank, zv, i)
      {
        ElementAppended(heap, rank, zv, i, was);
        SwizzleElement(zv, i, rank);
      }
    }

    /** One turn of it. */
    method SwizzleElement(zv: Addr, i: nat, ghost rank: Addr -> nat)
      requires Ranked(heap, rank) && zv in heap && heap[zv].Array? && i < |heap[zv].buckets|
      modifies `recorded
      ensures recorded == old(recorded) + (TreeCells(heap, rank, heap[zv].buckets[i].zv) + heap[zv].buckets[i].cells)
      decreases rank(zv), 0, 0
    {
      var b := heap[zv].buckets[i];
      SwizzleTree(b.zv, rank);
      recorded := recorded + b.cells;
    }

    /** One user entry: the set of visited zvals starts empty. */
    method SwizzleEntry(zv: Addr)
      requires Closed(heap) && zv in heap
      modifies this
      ensures forall a :: a in copied <==> Reach(heap, zv, a)
      ensures Distinct(expanded) && SetOf(expanded) == copied
      ensures multiset(recorded) == old(multiset(recorded)) + CellsOf(heap, expanded)
      ensures forall a, c :: Reach(heap, zv, a) && a in heap && Points(heap[a], c) ==> c in recorded
    {
      copied := {};
      expanded := [];
      ghost var s := View();
      SwizzleZval(zv, heap.Keys);
      VisitedIsReachable(heap, s, View(), zv);
      forall c { CellsOfHave(heap, expanded, c); }
      forall a, c | Reach(heap, zv, a) && a in heap && Points(heap[a], c) ensures c in recorded {
        assert a in SetOf(expanded);
        assert c in multiset(recorded);
      }
    }
  }

  /** A visit that starts with nothing visited covers exactly what can be reached. */
  lemma VisitedIsReachable(heap: Heap, s: State, t: State, zv: Addr)
    requires s.copied == {} && s.expanded == [] && Visited(heap, s, t, zv)
    ensures forall a :: a in t.copied <==> Reach(heap, zv, a)
    ensures multiset(t.recorded) == multiset(s.recorded) + CellsOf(heap, t.expanded)
  {
    assert t.copied - s.copied + {} == t.copied;
    assert t.expanded[|s.expanded|..] == t.expanded;
    forall a | Reach(heap, zv, a) ensures a in t.copied {
      var p: seq<Addr> :| Path(heap, p) && p[0] == zv && p[|p| - 1] == a;
      SaturatedContainsPath(heap, t.copied, p);
    }
  }
}
