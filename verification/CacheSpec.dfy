/** What the locked operations of one XCache cache do to its entries: the hash chains, the
    deferred-delete list and the shared memory that holds the entries. */
module CacheSpec {
  import opened Chains

  const DELETE_GRACE: int := 3600   // seconds a held entry survives on the deferred-delete list

  /** A cached zval: an integer, or anything else together with its integer conversion. */
  datatype Value = Long(n: int) | Other(tag: int, asLong: int)

  datatype Data =
    | Php(device: int, inode: int, mtime: int, sourcesize: nat)
    | Var(value: Value)

  datatype Entry = Entry(name: string, data: Data, hvalue: nat, refcount: nat, hits: nat,
                         ctime: int, atime: int, dtime: int, ttl: int)

  // ---- entry equality ------------------------------------------------------------------

  /** xc_entry_equal_dmz, as asymmetric as the code. */
  predicate Equal(a: Entry, b: Entry) {
    if a.data.Php? != b.data.Php? then false
    else if a.data.Php? && a.data.inode != 0 then
      a.data.inode == b.data.inode && a.data.device == b.data.device
    else SameName(a.name, b.name)
  }

  /** Which kind of key a cache uses throughout. */
  datatype Mode = ByInodes | ByFileNames | ByVarNames

  datatype Ident = Inode(device: int, inode: int) | Name(name: string)

  function IdentOf(e: Entry): Ident {
    if e.data.Php? && e.data.inode != 0 then Inode(e.data.device, e.data.inode) else Name(e.name)
  }

  predicate Uniform(m: Mode, e: Entry) {
    match m
    case ByInodes => e.data.Php? && e.data.inode != 0
    case ByFileNames => e.data.Php? && e.data.inode == 0 && NUL !in e.name
    case ByVarNames => e.data.Var? && NUL !in e.name
  }

  lemma EqualMeansSameIdent(m: Mode, a: Entry, b: Entry)
    requires Uniform(m, a) && Uniform(m, b)
    ensures Equal(a, b) <==> IdentOf(a) == IdentOf(b)
    ensures Equal(a, b) <==> if m.ByInodes? then a.data.device == b.data.device && a.data.inode == b.data.inode
                             else a.name == b.name
  {
    NamesMatchOnlyThemselves(b.name);
  }

  /** A file entry as xc_entry_init_key_php makes it: the inode is zero with `stat` off. */
  predicate FileEntry(e: Entry) { e.data.Php? && NUL !in e.name }

  /** Equality of two file entries is symmetric except exactly between a stat-off and a stat-on entry
      of one name: the first matches the second, which does not match it back. */
  lemma EqualIsSymmetricIff(a: Entry, b: Entry)
    requires FileEntry(a) && FileEntry(b)
    ensures (Equal(a, b) <==> Equal(b, a)) <==> !((a.data.inode == 0) != (b.data.inode == 0) && a.name == b.name)
  {
    NamesMatchOnlyThemselves(a.name);
    NamesMatchOnlyThemselves(b.name);
  }

  // ---- the state -------------------------------------------------------------------------

  /** slot is the chain index the hash of a key folds to. */
  datatype Config = Config(mode: Mode, size: nat, slot: Ident -> nat)

  datatype Cache = Cache(heap: map<Id, Entry>, chains: seq<seq<Id>>, deletes: seq<Id>,
                         entriesCount: int, deletesCount: int, ooms: nat)

  ghost predicate KeyOk(cfg: Config, e: Entry) {
    Uniform(cfg.mode, e) && e.hvalue == cfg.slot(IdentOf(e)) < cfg.size
  }

  /** Position k of chain i holds an allocated entry of that chain. */
  ghost predicate LinkOk(cfg: Config, c: Cache, i: nat, k: nat)
    requires i < |c.chains| && k < |c.chains[i]|
  {
    var id := c.chains[i][k];
    id in c.heap && KeyOk(cfg, c.heap[id]) && c.heap[id].hvalue == i && id !in c.deletes
  }

  ghost predicate DifferentKeys(c: Cache, i: nat, j: nat, k: nat)
    requires i < |c.chains| && j < |c.chains[i]| && k < |c.chains[i]|
  {
    var a, b := c.chains[i][j], c.chains[i][k];
    a in c.heap && b in c.heap && IdentOf(c.heap[a]) != IdentOf(c.heap[b])
  }

  ghost predicate ChainsOk(cfg: Config, c: Cache) {
    && |c.chains| == cfg.size
    && (forall i: nat, k: nat :: i < |c.chains| && k < |c.chains[i]| ==> LinkOk(cfg, c, i, k))
    && (forall i: nat, j: nat, k: nat :: i < |c.chains| && j < k < |c.chains[i]| ==> DifferentKeys(c, i, j, k))
  }

  ghost predicate DeletesOk(c: Cache) {
    NoDuplicates(c.deletes) && forall id :: id in c.deletes ==> id in c.heap
  }

  ghost predicate Linked(c: Cache, id: Id) {
    id in c.heap && c.heap[id].hvalue < |c.chains| && id in c.chains[c.heap[id].hvalue]
  }

  /** Every allocated entry is in exactly one place, keys are unique, and the counters count. */
  ghost predicate Inv(cfg: Config, c: Cache) {
    && ChainsOk(cfg, c)
    && DeletesOk(c)
    && (forall id :: id in c.heap ==> Linked(c, id) || id in c.deletes)
    && c.entriesCount == TotalLength(c.chains, |c.chains|)
    && c.deletesCount == |c.deletes|
  }

  // ---- the operations ----------------------------------------------------------------------

  /** Adding a freshly allocated entry at the head of its chain. */
  ghost function Added(c: Cache, id: Id, e: Entry): Cache
    requires e.hvalue < |c.chains|
  {
    c.(heap := c.heap[id := e], chains := c.chains[e.hvalue := [id] + c.chains[e.hvalue]],
       entriesCount := c.entriesCount + 1)
  }

  ghost function Unlinked(c: Cache, id: Id): Cache
    requires Linked(c, id)
  {
    var h := c.heap[id].hvalue;
    c.(chains := c.chains[h := Without(c.chains[h], id)])
  }

  /** Releasing an unlinked entry: at once if nobody holds it, else through the deferred list. */
  ghost function Freed(c: Cache, id: Id, now: int): Cache
    requires id in c.heap
  {
    if c.heap[id].refcount == 0 then c.(heap := c.heap - {id}, entriesCount := c.entriesCount - 1)
    else c.(heap := c.heap[id := c.heap[id].(dtime := now)], deletes := [id] + c.deletes,
            entriesCount := c.entriesCount - 1, deletesCount := c.deletesCount + 1)
  }

  ghost function Removed(c: Cache, id: Id, now: int): Cache
    requires Linked(c, id)
  {
    Freed(Unlinked(c, id), id, now)
  }

  /** The fields a store sets; `alloc` is what the allocator answers. */
  function Fresh(e: Entry, now: int): Entry { e.(hits := 0, ctime := now, atime := now, refcount := 0) }

  ghost function Stored(c: Cache, e: Entry, now: int, alloc: Option<Id>): Cache
    requires e.hvalue < |c.chains|
  {
    match alloc
    case Some(id) => Added(c, id, Fresh(e, now))
    case None => c.(ooms := c.ooms + 1)
  }

  // ---- each operation keeps the invariant ----------------------------------------------------

  /** No linked entry carries the key of e. */
  ghost predicate KeyAbsent(c: Cache, e: Entry)
    requires e.hvalue < |c.chains|
  {
    forall id :: id in c.chains[e.hvalue] && id in c.heap ==> IdentOf(c.heap[id]) != IdentOf(e)
  }

  lemma AddedChains(cfg: Config, c: Cache, id: Id, e: Entry)
    requires ChainsOk(cfg, c) && DeletesOk(c) && id !in c.heap && KeyOk(cfg, e) && KeyAbsent(c, e)
    ensures ChainsOk(cfg, Added(c, id, e))
  {
    var d := Added(c, id, e);
    forall i: nat, k: nat | i < |d.chains| && k < |d.chains[i]| ensures LinkOk(cfg, d, i, k) {
      if i == e.hvalue { if k > 0 { assert LinkOk(cfg, c, i, k - 1); } } else { assert LinkOk(cfg, c, i, k); }
    }
    forall i: nat, j: nat, k: nat | i < |d.chains| && j < k < |d.chains[i]| ensures DifferentKeys(d, i, j, k) {
      if i == e.hvalue {
        assert LinkOk(cfg, c, i, k - 1);
        if j > 0 { assert DifferentKeys(c, i, j - 1, k - 1); }
      } else {
        assert DifferentKeys(c, i, j, k);
      }
    }
  }

  lemma AddedKeepsInv(cfg: Config, c: Cache, id: Id, e: Entry)
    requires Inv(cfg, c) && id !in c.heap && KeyOk(cfg, e) && KeyAbsent(c, e)
    ensures Inv(cfg, Added(c, id, e)) && Linked(Added(c, id, e), id)
    ensures forall x: Id :: x != id ==> Untouched(c, Added(c, id, e), x)
  {
    var d := Added(c, id, e);
    AddedChains(cfg, c, id, e);
    TotalOfUpdate(c.chains, e.hvalue, d.chains[e.hvalue], |c.chains|);
    forall x | x in d.heap ensures Linked(d, x) || x in d.deletes {
      if x != id { assert Linked(c, x) || x in c.deletes; }
    }
  }

  /** Adding never looks for duplicates: it keeps the invariant exactly when the key is absent. */
  lemma AddedKeepsInvIff(cfg: Config, c: Cache, id: Id, e: Entry)
    requires Inv(cfg, c) && id !in c.heap && KeyOk(cfg, e)
    ensures Inv(cfg, Added(c, id, e)) <==> KeyAbsent(c, e)
  {
    var d := Added(c, id, e);
    if KeyAbsent(c, e) {
      AddedKeepsInv(cfg, c, id, e);
    } else {
      var x :| x in c.chains[e.hvalue] && x in c.heap && IdentOf(c.heap[x]) == IdentOf(e);
      var k: nat :| k < |c.chains[e.hvalue]| && c.chains[e.hvalue][k] == x;
      assert !DifferentKeys(d, e.hvalue, 0, k + 1);
    }
  }

  /** d differs from c in statistics, times, values and reference counts only. */
  ghost predicate SameKeys(cfg: Config, c: Cache, d: Cache) {
    && d.chains == c.chains && d.deletes == c.deletes
    && d.entriesCount == c.entriesCount && d.deletesCount == c.deletesCount
    && (forall x :: x in c.heap <==> x in d.heap)
    && (forall x :: x in c.heap ==>
          && IdentOf(d.heap[x]) == IdentOf(c.heap[x]) && d.heap[x].hvalue == c.heap[x].hvalue
          && (KeyOk(cfg, c.heap[x]) ==> KeyOk(cfg, d.heap[x])))
  }

  lemma SameKeysKeepInv(cfg: Config, c: Cache, d: Cache)
    requires Inv(cfg, c) && SameKeys(cfg, c, d)
    ensures Inv(cfg, d)
    ensures forall x :: Linked(c, x) <==> Linked(d, x)
  {
    forall i: nat, k: nat | i < |d.chains| && k < |d.chains[i]| ensures LinkOk(cfg, d, i, k) {
      assert LinkOk(cfg, c, i, k);
    }
    forall i: nat, j: nat, k: nat | i < |d.chains| && j < k < |d.chains[i]| ensures DifferentKeys(d, i, j, k) {
      assert DifferentKeys(c, i, j, k);
    }
    forall x | x in d.heap ensures Linked(d, x) || x in d.deletes {
      assert Linked(c, x) || x in c.deletes;
    }
  }

  lemma UnlinkedChains(cfg: Config, c: Cache, id: Id)
    requires ChainsOk(cfg, c) && Linked(c, id)
    ensures ChainsOk(cfg, Unlinked(c, id))
    ensures forall i: nat :: i < |c.chains| ==> id !in Unlinked(c, id).chains[i]
  {
    var d, h := Unlinked(c, id), c.heap[id].hvalue;
    var at := WithoutIndex(c.chains[h], id);
    UnlinkedKeys(cfg, c, id, at);
    forall i: nat, k: nat | i < |d.chains| && k < |d.chains[i]| ensures LinkOk(cfg, d, i, k) && d.chains[i][k] != id {
      var k' := if i == h && k >= at then k + 1 else k;
      assert LinkOk(cfg, c, i, k') && d.chains[i][k] == c.chains[i][k'];
      if i == h {
        if k' < at { assert DifferentKeys(c, h, k', at); } else { assert DifferentKeys(c, h, at, k'); }
      }
    }
  }

  lemma UnlinkedKeys(cfg: Config, c: Cache, id: Id, at: nat)
    requires ChainsOk(cfg, c) && Linked(c, id)
    requires var s := c.chains[c.heap[id].hvalue]; at < |s| && Without(s, id) == s[..at] + s[at + 1..]
    ensures var d := Unlinked(c, id);
      forall i: nat, j: nat, k: nat :: i < |d.chains| && j < k < |d.chains[i]| ==> DifferentKeys(d, i, j, k)
  {
    var d, h := Unlinked(c, id), c.heap[id].hvalue;
    forall i: nat, j: nat, k: nat | i < |d.chains| && j < k < |d.chains[i]| ensures DifferentKeys(d, i, j, k) {
      assert DifferentKeys(c, i, if i == h && j >= at then j + 1 else j, if i == h && k >= at then k + 1 else k);
    }
  }

  /** Changing the heap at an unlinked id only, or the list of deletes by such an id. */
  lemma OffChains(cfg: Config, c: Cache, d: Cache, id: Id)
    requires ChainsOk(cfg, c) && d.chains == c.chains
    requires forall i: nat :: i < |c.chains| ==> id !in c.chains[i]
    requires forall x :: x in c.heap && x != id ==> x in d.heap && d.heap[x] == c.heap[x]
    requires forall x :: x in d.deletes && x != id ==> x in c.deletes
    ensures ChainsOk(cfg, d)
  {
    forall i: nat, k: nat | i < |d.chains| && k < |d.chains[i]| ensures LinkOk(cfg, d, i, k) {
      assert LinkOk(cfg, c, i, k) && d.chains[i][k] in d.chains[i];
    }
    forall i: nat, j: nat, k: nat | i < |d.chains| && j < k < |d.chains[i]| ensures DifferentKeys(d, i, j, k) {
      assert DifferentKeys(c, i, j, k) && d.chains[i][j] in d.chains[i] && d.chains[i][k] in d.chains[i];
    }
  }

  /** Removing an entry leaves the others where they were; it survives only if it is held. */
  lemma RemovedKeepsInv(cfg: Config, c: Cache, id: Id, now: int)
    requires Inv(cfg, c) && Linked(c, id)
    ensures var d := Removed(c, id, now);
      && Inv(cfg, d) && !Linked(d, id)
      && (id in d.heap <==> c.heap[id].refcount > 0)
      && (id in d.heap ==> d.heap[id] == c.heap[id].(dtime := now))
      && (forall x :: x != id ==> (x in c.heap <==> x in d.heap) && (x in c.heap ==> d.heap[x] == c.heap[x])
                                  && (Linked(c, x) <==> Linked(d, x)))
  {
    var u, d, h := Unlinked(c, id), Removed(c, id, now), c.heap[id].hvalue;
    var at := WithoutIndex(c.chains[h], id);
    UnlinkedChains(cfg, c, id);
    assert LinkOk(cfg, c, h, at);
    OffChains(cfg, u, d, id);
    TotalOfUpdate(c.chains, h, u.chains[h], |c.chains|);
    RemovedPlaces(cfg, c, id, now);
  }

  lemma RemovedPlaces(cfg: Config, c: Cache, id: Id, now: int)
    requires Inv(cfg, c) && Linked(c, id)
    ensures var d := Removed(c, id, now);
      && !Linked(d, id)
      && (forall x :: x != id ==> (x in c.heap ==> (Linked(c, x) <==> Linked(d, x))))
      && (forall x :: x in d.heap ==> Linked(d, x) || x in d.deletes)
  {
    var u, d, h := Unlinked(c, id), Removed(c, id, now), c.heap[id].hvalue;
    var at := WithoutIndex(c.chains[h], id);
    UnlinkedChains(cfg, c, id);
    forall x | x != id && x in c.heap ensures Linked(c, x) <==> Linked(d, x) {
      assert x in c.chains[h] <==> x in u.chains[h];
    }
    forall x | x in d.heap ensures Linked(d, x) || x in d.deletes {
      assert Linked(c, x) || x in c.deletes;
    }
  }

  // ---- sweeping all chains -----------------------------------------------------------------------

  /** Removing, among the linked ids, those whose entry f selects. */
  ghost function SweptChain(c: Cache, ids: seq<Id>, f: Entry -> bool, now: int): Cache
    decreases |ids|
  {
    if ids == [] then c
    else SweptChain(if Linked(c, ids[0]) && f(c.heap[ids[0]]) then Removed(c, ids[0], now) else c, ids[1..], f, now)
  }

  lemma {:induction false} SweptChainLength(c: Cache, ids: seq<Id>, f: Entry -> bool, now: int)
    ensures |SweptChain(c, ids, f, now).chains| == |c.chains|
    decreases |ids|
  {
    if ids == [] {
    } else {
      SweptChainLength(if Linked(c, ids[0]) && f(c.heap[ids[0]]) then Removed(c, ids[0], now) else c, ids[1..], f, now);
    }
  }

  /** Sweeping the chains from index i on. */
  ghost function SweptFrom(c: Cache, i: nat, f: Entry -> bool, now: int): Cache
    requires i <= |c.chains|
    decreases |c.chains| - i
  {
    if i == |c.chains| then c
    else
      SweptChainLength(c, c.chains[i], f, now);
      SweptFrom(SweptChain(c, c.chains[i], f, now), i + 1, f, now)
  }

  /** x is as it was in c. */
  ghost predicate Untouched(c: Cache, d: Cache, x: Id) {
    && (x in c.heap <==> x in d.heap)
    && (x in c.heap ==> c.heap[x] == d.heap[x])
    && (Linked(c, x) <==> Linked(d, x))
  }

  ghost predicate SweepOutcome(c: Cache, d: Cache, f: Entry -> bool, x: Id, selected: bool) {
    if selected && Linked(c, x) && f(c.heap[x])
    then !Linked(d, x) && (x in d.heap <==> c.heap[x].refcount > 0)
         && (x in d.heap ==> d.heap[x] == c.heap[x].(dtime := d.heap[x].dtime))
    else Untouched(c, d, x)
  }

  lemma {:induction false} SweptChainOutcome(cfg: Config, c: Cache, ids: seq<Id>, f: Entry -> bool, now: int)
    requires Inv(cfg, c) && NoDuplicates(ids) && forall x :: x in ids ==> Linked(c, x)
    ensures Inv(cfg, SweptChain(c, ids, f, now))
    ensures forall x: Id :: SweepOutcome(c, SweptChain(c, ids, f, now), f, x, x in ids)
    decreases |ids|
  {
    if ids == [] {
    } else {
      var y, rest := ids[0], ids[1..];
      assert Linked(c, y);
      var d := if f(c.heap[y]) then Removed(c, y, now) else c;
      if f(c.heap[y]) { RemovedKeepsInv(cfg, c, y, now); }
      assert y !in rest && NoDuplicates(rest);
      SweptChainOutcome(cfg, d, rest, f, now);
      var e := SweptChain(d, rest, f, now);
      forall x: Id ensures SweepOutcome(c, e, f, x, x in ids) {
        assert SweepOutcome(d, e, f, x, x in rest);
        assert x in ids <==> x == y || x in rest;
      }
    }
  }

  lemma ChainIsLinked(cfg: Config, c: Cache, i: nat)
    requires ChainsOk(cfg, c) && i < |c.chains|
    ensures NoDuplicates(c.chains[i])
    ensures forall x: Id :: x in c.chains[i] <==> Linked(c, x) && c.heap[x].hvalue == i
  {
    ChainAllocated(cfg, c, i);
    var s := c.chains[i];
    forall j: nat, k: nat | j < k < |s| ensures s[j] != s[k] {
      assert DifferentKeys(c, i, j, k);
    }
  }

  lemma {:induction false} SweptFromOutcome(cfg: Config, c: Cache, i: nat, f: Entry -> bool, now: int)
    requires Inv(cfg, c) && i <= |c.chains|
    ensures Inv(cfg, SweptFrom(c, i, f, now))
    ensures forall x: Id :: SweepOutcome(c, SweptFrom(c, i, f, now), f, x, x in c.heap && c.heap[x].hvalue >= i)
    decreases |c.chains| - i
  {
    if i == |c.chains| {
    } else {
      ChainIsLinked(cfg, c, i);
      SweptChainLength(c, c.chains[i], f, now);
      SweptChainOutcome(cfg, c, c.chains[i], f, now);
      var d := SweptChain(c, c.chains[i], f, now);
      SweptFromOutcome(cfg, d, i + 1, f, now);
      var e := SweptFrom(c, i, f, now);
      forall x: Id ensures SweepOutcome(c, e, f, x, x in c.heap && c.heap[x].hvalue >= i) {
        assert SweepOutcome(c, d, f, x, x in c.chains[i]);
        assert SweepOutcome(d, e, f, x, x in d.heap && d.heap[x].hvalue >= i + 1);
      }
    }
  }

  ghost function SweptAll(c: Cache, f: Entry -> bool, now: int): Cache { SweptFrom(c, 0, f, now) }

  /** A sweep removes exactly the selected linked entries and touches nothing else. */
  lemma SweptAllOutcome(cfg: Config, c: Cache, f: Entry -> bool, now: int)
    requires Inv(cfg, c)
    ensures Inv(cfg, SweptAll(c, f, now))
    ensures forall x: Id :: SweepOutcome(c, SweptAll(c, f, now), f, x, true)
  {
    SweptFromOutcome(cfg, c, 0, f, now);
    var d := SweptAll(c, f, now);
    forall x: Id ensures SweepOutcome(c, d, f, x, true) {
      assert SweepOutcome(c, d, f, x, x in c.heap && c.heap[x].hvalue >= 0);
    }
  }

  // ---- collecting the deferred deletes -------------------------------------------------------------

  /** Nobody holds it, or it has been waiting longer than the grace time. */
  predicate Doomed(e: Entry, now: int) { e.refcount == 0 || now - e.dtime > DELETE_GRACE }

  /** Taking position k off the deferred list and releasing its memory. */
  ghost function Dropped(c: Cache, k: nat): Cache
    requires k < |c.deletes|
  {
    c.(heap := c.heap - {c.deletes[k]}, deletes := c.deletes[..k] + c.deletes[k + 1..],
       deletesCount := c.deletesCount - 1)
  }

  /** Collecting from position k of the deferred list on. */
  ghost function CollectedFrom(c: Cache, k: nat, now: int): Cache
    requires k <= |c.deletes|
    decreases |c.deletes| - k
  {
    if k == |c.deletes| then c
    else if c.deletes[k] in c.heap && Doomed(c.heap[c.deletes[k]], now) then CollectedFrom(Dropped(c, k), k, now)
    else CollectedFrom(c, k + 1, now)
  }

  /** One turn of the collecting loop. */
  lemma CollectStep(cfg: Config, c: Cache, k: nat, now: int)
    requires Inv(cfg, c) && k < |c.deletes|
    ensures c.deletes[k] in c.heap && Inv(cfg, Dropped(c, k))
    ensures CollectedFrom(c, k, now)
         == if Doomed(c.heap[c.deletes[k]], now) then CollectedFrom(Dropped(c, k), k, now)
            else CollectedFrom(c, k + 1, now)
  {
    DroppedOutcome(cfg, c, k);
  }

  lemma Forgotten(heap: map<Id, Entry>, id: Id, e: Entry)
    ensures heap[id := e] - {id} == heap - {id}
  {
  }

  ghost function Collected(c: Cache, now: int): Cache { CollectedFrom(c, 0, now) }

  ghost predicate CollectOutcome(c: Cache, d: Cache, x: Id, selected: bool, now: int) {
    if selected && x in c.heap && Doomed(c.heap[x], now) then x !in d.heap && x !in d.deletes && !Linked(d, x)
    else Untouched(c, d, x) && (x in c.deletes <==> x in d.deletes)
  }

  lemma DroppedOutcome(cfg: Config, c: Cache, k: nat)
    requires Inv(cfg, c) && k < |c.deletes|
    ensures Inv(cfg, Dropped(c, k))
    ensures c.deletes[k] !in Dropped(c, k).heap && c.deletes[k] !in Dropped(c, k).deletes
    ensures forall x: Id :: x != c.deletes[k] ==>
      Untouched(c, Dropped(c, k), x) && (x in c.deletes <==> x in Dropped(c, k).deletes)
  {
    var d, p := Dropped(c, k), c.deletes[k];
    forall i: nat | i < |c.chains| ensures p !in c.chains[i] {
      forall j: nat | j < |c.chains[i]| ensures c.chains[i][j] != p { assert LinkOk(cfg, c, i, j); }
    }
    OffChains(cfg, c, d, p);
    assert c.deletes == c.deletes[..k] + [p] + c.deletes[k + 1..];
    forall x | x in d.heap ensures Linked(d, x) || x in d.deletes {
      assert Linked(c, x) || x in c.deletes;
    }
  }

  lemma {:induction false} CollectedFromOutcome(cfg: Config, c: Cache, k: nat, now: int)
    requires Inv(cfg, c) && k <= |c.deletes|
    ensures Inv(cfg, CollectedFrom(c, k, now))
    ensures forall x: Id :: CollectOutcome(c, CollectedFrom(c, k, now), x, x in c.deletes[k..], now)
    decreases |c.deletes| - k
  {
    if k == |c.deletes| {
    } else {
      var p := c.deletes[k];
      var e := CollectedFrom(c, k, now);
      assert c.deletes[k..] == [p] + c.deletes[k + 1..];
      if Doomed(c.heap[p], now) {
        var d := Dropped(c, k);
        DroppedOutcome(cfg, c, k);
        CollectedFromOutcome(cfg, d, k, now);
        assert d.deletes[k..] == c.deletes[k + 1..];
        forall x: Id ensures CollectOutcome(c, e, x, x in c.deletes[k..], now) {
          assert CollectOutcome(d, e, x, x in d.deletes[k..], now);
        }
      } else {
        CollectedFromOutcome(cfg, c, k + 1, now);
        forall x: Id ensures CollectOutcome(c, e, x, x in c.deletes[k..], now) {
          assert CollectOutcome(c, e, x, x in c.deletes[k + 1..], now);
        }
      }
    }
  }

  /** Collecting frees exactly the doomed entries on the list; everything else is untouched. */
  lemma CollectedOutcome(cfg: Config, c: Cache, now: int)
    requires Inv(cfg, c)
    ensures Inv(cfg, Collected(c, now))
    ensures forall x: Id :: CollectOutcome(c, Collected(c, now), x, x in c.deletes, now)
  {
    CollectedFromOutcome(cfg, c, 0, now);
    assert c.deletes[0..] == c.deletes;
  }

  /** A collection frees an entry on the list exactly if nobody holds it or it was deleted more than 3600 s
      ago, and no other. */
  lemma CollectedFreesIff(cfg: Config, c: Cache, now: int, x: Id)
    requires Inv(cfg, c) && x in c.heap
    ensures x !in Collected(c, now).heap <==>
      x in c.deletes && (c.heap[x].refcount == 0 || now - c.heap[x].dtime > 3600)
    ensures x in Collected(c, now).heap ==> Untouched(c, Collected(c, now), x)
  {
    CollectedOutcome(cfg, c, now);
    assert CollectOutcome(c, Collected(c, now), x, x in c.deletes, now);
  }

  /** The collector frees an entry somebody holds exactly when a held one has overstayed. */
  lemma CollectorFreesHeldIff(cfg: Config, c: Cache, now: int)
    requires Inv(cfg, c)
    ensures (exists x :: x in c.heap && c.heap[x].refcount > 0 && x !in Collected(c, now).heap)
       <==> (exists x :: x in c.deletes && c.heap[x].refcount > 0 && now - c.heap[x].dtime > DELETE_GRACE)
  {
    CollectedOutcome(cfg, c, now);
  }

  // ---- looking up --------------------------------------------------------------------------------

  /** The first entry of a chain that equals e, as the walk of xc_entry_find_dmz meets it. */
  ghost function FirstEqual(c: Cache, e: Entry, s: seq<Id>): Option<Id>
    requires forall x :: x in s ==> x in c.heap
  {
    if s == [] then None else if Equal(e, c.heap[s[0]]) then Some(s[0]) else FirstEqual(c, e, s[1..])
  }

  /** x is a stat-on entry with the name of e. */
  ghost predicate StatNamesake(c: Cache, e: Entry, x: Id) {
    x in c.heap && c.heap[x].data.Php? && c.heap[x].data.inode != 0 && c.heap[x].name == e.name
  }

  /** In a chain that mixes both kinds of file keys, all of them different, the walk of
      xc_entry_remove_dmz stops at an entry other than its argument, unlinks that and frees the argument,
      exactly if the argument is stat-off and a stat-on entry of its name comes first. */
  lemma {:induction false} RemoveStopsElsewhereIff(c: Cache, s: seq<Id>, k: nat)
    requires k < |s| && forall x :: x in s ==> x in c.heap && FileEntry(c.heap[x])
    requires forall j: nat :: j < k ==> IdentOf(c.heap[s[j]]) != IdentOf(c.heap[s[k]])
    ensures var e := c.heap[s[k]];
      && e.data.Php?
      && (FirstEqual(c, e, s) != Some(s[k]) <==>
            e.data.inode == 0 && exists x :: x in s[..k] && StatNamesake(c, e, x))
  {
    var e, p := c.heap[s[k]], c.heap[s[0]];
    NamesMatchOnlyThemselves(p.name);
    if k == 0 {
      assert Equal(e, e);
    } else {
      assert s[..k] == [s[0]] + s[1..][..k - 1] && s[1..][k - 1] == s[k];
      assert s[0] in s && s[0] in s[..k];
      RemoveStopsElsewhereIff(c, s[1..], k - 1);
      assert Equal(e, p) <==> e.data.inode == 0 && StatNamesake(c, e, s[0]);
    }
  }

  /** What xc_entry_remove_dmz leaves when its walk stops at p: p is unlinked, its argument is freed. */
  ghost function RemovedAt(c: Cache, h: nat, p: Id, id: Id, now: int): Cache
    requires h < |c.chains| && p in c.chains[h] && id in c.heap
  {
    Freed(c.(chains := c.chains[h := Without(c.chains[h], p)]), id, now)
  }

  /** Such a chain: removing entry 2, made with `stat` off, unlinks entry 1, which stays allocated in no
      place, and frees entry 2, which stays linked. */
  lemma RemoveUnlinksNamesake()
    ensures
      var on := Entry("f", Php(1, 7, 0, 0), 0, 0, 0, 0, 0, 0, 0);
      var off := Entry("f", Php(0, 0, 0, 0), 0, 0, 0, 0, 0, 0, 0);
      var c := Cache(map[1 := on, 2 := off], [[1, 2]], [], 2, 0, 0);
      && FirstEqual(c, off, c.chains[0]) == Some(1)
      && RemovedAt(c, 0, 1, 2, 1000) == Cache(map[1 := on], [[2]], [], 1, 0, 0)
  {
    var on := Entry("f", Php(1, 7, 0, 0), 0, 0, 0, 0, 0, 0, 0);
    var off := Entry("f", Php(0, 0, 0, 0), 0, 0, 0, 0, 0, 0, 0);
    var c := Cache(map[1 := on, 2 := off], [[1, 2]], [], 2, 0, 0);
    assert "f" + [NUL] <= "f" + [NUL];
    assert Without([1, 2], 1) == [2];
    assert RemovedAt(c, 0, 1, 2, 1000).heap == map[1 := on];
  }

  lemma ChainAllocated(cfg: Config, c: Cache, h: nat)
    requires ChainsOk(cfg, c) && h < |c.chains|
    ensures forall x :: x in c.chains[h] ==> x in c.heap && c.heap[x].hvalue == h && KeyOk(cfg, c.heap[x])
  {
    forall x | x in c.chains[h] ensures x in c.heap && c.heap[x].hvalue == h && KeyOk(cfg, c.heap[x]) {
      var k: nat :| k < |c.chains[h]| && c.chains[h][k] == x;
      assert LinkOk(cfg, c, h, k);
    }
  }

  ghost function Match(cfg: Config, c: Cache, e: Entry): Option<Id>
    requires ChainsOk(cfg, c) && e.hvalue < cfg.size
  {
    ChainAllocated(cfg, c, e.hvalue);
    FirstEqual(c, e, c.chains[e.hvalue])
  }

  lemma {:induction false} FirstEqualIs(cfg: Config, c: Cache, e: Entry, s: seq<Id>)
    requires KeyOk(cfg, e) && forall x :: x in s ==> x in c.heap && KeyOk(cfg, c.heap[x])
    ensures match FirstEqual(c, e, s)
            case Some(id) => id in s && IdentOf(c.heap[id]) == IdentOf(e)
            case None => forall x :: x in s ==> IdentOf(c.heap[x]) != IdentOf(e)
  {
    if s == [] {
    } else {
      EqualMeansSameIdent(cfg.mode, e, c.heap[s[0]]);
      FirstEqualIs(cfg, c, e, s[1..]);
    }
  }

  /** Two linked entries with the same key are the same entry. */
  lemma LinkedKeysAreUnique(cfg: Config, c: Cache, a: Id, b: Id)
    requires ChainsOk(cfg, c) && Linked(c, a) && Linked(c, b) && IdentOf(c.heap[a]) == IdentOf(c.heap[b])
    ensures a == b
  {
    ChainAllocated(cfg, c, c.heap[a].hvalue);
    ChainAllocated(cfg, c, c.heap[b].hvalue);
    var s := c.chains[c.heap[a].hvalue];
    var j: nat :| j < |s| && s[j] == a;
    var k: nat :| k < |s| && s[k] == b;
    if j != k { KeysDiffer(cfg, c, c.heap[a].hvalue, j, k); }
  }

  lemma KeysDiffer(cfg: Config, c: Cache, h: nat, j: nat, k: nat)
    requires ChainsOk(cfg, c) && h < |c.chains| && j < |c.chains[h]| && k < |c.chains[h]| && j != k
    ensures DifferentKeys(c, h, j, k)
  {
    if j > k { assert DifferentKeys(c, h, k, j); }
  }

  /** A lookup finds the one linked entry with the key, and none exactly when the key is absent. */
  lemma MatchIs(cfg: Config, c: Cache, e: Entry)
    requires ChainsOk(cfg, c) && KeyOk(cfg, e)
    ensures Match(cfg, c, e) == None <==> KeyAbsent(c, e)
    ensures Match(cfg, c, e).Some? ==>
      var id := Match(cfg, c, e).value;
      Linked(c, id) && KeyOk(cfg, c.heap[id]) && c.heap[id].hvalue == e.hvalue && IdentOf(c.heap[id]) == IdentOf(e)
    ensures forall x :: Linked(c, x) && IdentOf(c.heap[x]) == IdentOf(e) ==> Match(cfg, c, e) == Some(x)
  {
    ChainAllocated(cfg, c, e.hvalue);
    FirstEqualIs(cfg, c, e, c.chains[e.hvalue]);
    forall x | Linked(c, x) && IdentOf(c.heap[x]) == IdentOf(e) ensures Match(cfg, c, e) == Some(x) {
      ChainAllocated(cfg, c, c.heap[x].hvalue);
      if Match(cfg, c, e).Some? { LinkedKeysAreUnique(cfg, c, Match(cfg, c, e).value, x); }
    }
  }

  /** A file is of the version that the key names: of that modification time and that size. */
  predicate SameVersion(a: Entry, b: Entry) {
    a.data.Php? == b.data.Php?
    && (a.data.Php? ==> a.data.mtime == b.data.mtime && a.data.sourcesize == b.data.sourcesize)
  }

  predicate Current(found: Entry, e: Entry) {
    found.data.Var? || (e.data.Php? && found.data.mtime == e.data.mtime && found.data.sourcesize == e.data.sourcesize)
  }

  ghost function Hit(c: Cache, id: Id, now: int): Cache
    requires id in c.heap
  {
    c.(heap := c.heap[id := c.heap[id].(hits := c.heap[id].hits + 1, atime := now)])
  }

  /** The cache after a lookup: a hit is counted, a stale file is removed. */
  ghost function LookedUp(cfg: Config, c: Cache, e: Entry, now: int): Cache
    requires ChainsOk(cfg, c) && KeyOk(cfg, e)
  {
    match Match(cfg, c, e)
    case None => c
    case Some(id) =>
      MatchIs(cfg, c, e);
      if Current(c.heap[id], e) then Hit(c, id, now) else Removed(c, id, now)
  }

  ghost function LookupResult(cfg: Config, c: Cache, e: Entry): Option<Id>
    requires ChainsOk(cfg, c) && KeyOk(cfg, e)
  {
    match Match(cfg, c, e)
    case None => None
    case Some(id) =>
      MatchIs(cfg, c, e);
      if Current(c.heap[id], e) then Some(id) else None
  }

  /** After a lookup the key is either present and current, or absent: a store may follow. */
  lemma LookupOutcome(cfg: Config, c: Cache, e: Entry, now: int)
    requires Inv(cfg, c) && KeyOk(cfg, e)
    ensures var d := LookedUp(cfg, c, e, now);
      && Inv(cfg, d)
      && match LookupResult(cfg, c, e)
         case Some(id) => Linked(d, id) && IdentOf(d.heap[id]) == IdentOf(e) && SameVersion(d.heap[id], e)
         case None => KeyAbsent(d, e)
  {
    MatchIs(cfg, c, e);
    var d := LookedUp(cfg, c, e, now);
    match Match(cfg, c, e)
    case None =>
    case Some(id) =>
      if Current(c.heap[id], e) {
        SameKeysKeepInv(cfg, c, d);
      } else {
        RemovedKeepsInv(cfg, c, id, now);
        MatchIs(cfg, d, e);
      }
  }

  /** What a lookup does, by what its walk finds. */
  lemma LookupCases(cfg: Config, c: Cache, e: Entry, now: int)
    requires Inv(cfg, c) && KeyOk(cfg, e)
    ensures var d, found := LookedUp(cfg, c, e, now), LookupResult(cfg, c, e);
      && Inv(cfg, d)
      && (found == None ==> KeyAbsent(d, e))
      && match Match(cfg, c, e)
         case None => found == None && d == c
         case Some(p) =>
           && Linked(c, p)
           && if Current(c.heap[p], e) then found == Some(p) && d == Hit(c, p, now) && Linked(d, p)
              else found == None && d == Removed(c, p, now)
  {
    MatchIs(cfg, c, e);
    LookupOutcome(cfg, c, e, now);
  }

  /** What a lookup does, in terms of the files: the one linked entry of the key is returned exactly if its
      modification time and its size are those of the key; otherwise it is not linked any more. */
  lemma FileLookupIff(cfg: Config, c: Cache, e: Entry, now: int, x: Id)
    requires Inv(cfg, c) && KeyOk(cfg, e) && e.data.Php? && Linked(c, x) && IdentOf(c.heap[x]) == IdentOf(e)
    ensures c.heap[x].data.Php?
    ensures var f, d := c.heap[x].data, LookedUp(cfg, c, e, now);
      && (LookupResult(cfg, c, e) == Some(x) <==> f.mtime == e.data.mtime && f.sourcesize == e.data.sourcesize)
      && (LookupResult(cfg, c, e) == None <==> f.mtime != e.data.mtime || f.sourcesize != e.data.sourcesize)
      && (LookupResult(cfg, c, e) == Some(x) <==> Linked(d, x))
  {
    MatchIs(cfg, c, e);
    LookupCases(cfg, c, e, now);
    ChainAllocated(cfg, c, c.heap[x].hvalue);
    RemovedKeepsInv(cfg, c, x, now);
  }

  /** A variable is returned whenever it is linked; a key without an entry finds none, in either cache. */
  lemma LookupFindsIff(cfg: Config, c: Cache, e: Entry, x: Id)
    requires Inv(cfg, c) && KeyOk(cfg, e)
    ensures LookupResult(cfg, c, e) == Some(x) ==> Linked(c, x) && IdentOf(c.heap[x]) == IdentOf(e)
    ensures e.data.Var? && Linked(c, x) && IdentOf(c.heap[x]) == IdentOf(e) ==> LookupResult(cfg, c, e) == Some(x)
  {
    MatchIs(cfg, c, e);
    if Linked(c, x) { ChainAllocated(cfg, c, c.heap[x].hvalue); }
  }

  /** A lookup touches no entry but that of the key, and counts and dates the hit there. */
  lemma LookupTouchesOnly(cfg: Config, c: Cache, e: Entry, now: int, x: Id)
    requires Inv(cfg, c) && KeyOk(cfg, e)
    ensures var d := LookedUp(cfg, c, e, now);
      && (!Linked(c, x) || IdentOf(c.heap[x]) != IdentOf(e) ==> Untouched(c, d, x))
      && (LookupResult(cfg, c, e) == Some(x) ==>
            x in c.heap && x in d.heap && d.heap[x] == c.heap[x].(hits := c.heap[x].hits + 1, atime := now))
  {
    MatchIs(cfg, c, e);
    LookupCases(cfg, c, e, now);
    match Match(cfg, c, e)
    case None =>
    case Some(id) =>
      if !Current(c.heap[id], e) { RemovedKeepsInv(cfg, c, id, now); }
  }

  // ---- holding -------------------------------------------------------------------------------------

  ghost function Held(c: Cache, id: Id): Cache
    requires id in c.heap
  {
    c.(heap := c.heap[id := c.heap[id].(refcount := c.heap[id].refcount + 1)])
  }

  lemma HeldKeepsInv(cfg: Config, c: Cache, id: Id)
    requires Inv(cfg, c) && id in c.heap
    ensures Inv(cfg, Held(c, id)) && forall x :: Linked(c, x) <==> Linked(Held(c, id), x)
  {
    SameKeysKeepInv(cfg, c, Held(c, id));
  }

  /** Every entry on the stack is allocated and counted at least as often as it is on the stack. */
  ghost predicate Covers(c: Cache, holds: seq<Id>) {
    forall x :: x in holds ==> x in c.heap && multiset(holds)[x] <= c.heap[x].refcount
  }

  ghost function Unheld(c: Cache, holds: seq<Id>): Cache
    requires Covers(c, holds)
  {
    c.(heap := map x | x in c.heap ::
         if x in holds then c.heap[x].(refcount := c.heap[x].refcount - multiset(holds)[x]) else c.heap[x])
  }

  ghost function Dereferenced(c: Cache, id: Id): Cache
    requires id in c.heap && c.heap[id].refcount > 0
  {
    c.(heap := c.heap[id := c.heap[id].(refcount := c.heap[id].refcount - 1)])
  }

  lemma UnheldPop(c: Cache, holds: seq<Id>, id: Id)
    requires Covers(c, holds + [id])
    ensures id in c.heap && c.heap[id].refcount > 0
    ensures Covers(Dereferenced(c, id), holds) && Unheld(Dereferenced(c, id), holds) == Unheld(c, holds + [id])
  {
    var all := holds + [id];
    assert id in all && multiset(all) == multiset(holds) + multiset{id};
    forall x | x in holds ensures x in c.heap && multiset(holds)[x] <= Dereferenced(c, id).heap[x].refcount {
      assert x in all;
    }
    assert Unheld(Dereferenced(c, id), holds).heap == Unheld(c, all).heap;
  }

  /** Popping the top of a covered stack: the count is positive, the rest stays covered. */
  lemma UnheldTop(cfg: Config, c: Cache, holds: seq<Id>)
    requires Inv(cfg, c) && holds != [] && Covers(c, holds)
    ensures var n := |holds| - 1;
      && holds[n] in c.heap && c.heap[holds[n]].refcount > 0
      && var d := Dereferenced(c, holds[n]);
         Inv(cfg, d) && Covers(d, holds[..n]) && Unheld(d, holds[..n]) == Unheld(c, holds)
  {
    var n := |holds| - 1;
    assert holds == holds[..n] + [holds[n]];
    UnheldPop(c, holds[..n], holds[n]);
    DereferencedKeepsInv(cfg, c, holds[n]);
  }

  lemma DereferencedKeepsInv(cfg: Config, c: Cache, id: Id)
    requires Inv(cfg, c) && id in c.heap && c.heap[id].refcount > 0
    ensures Inv(cfg, Dereferenced(c, id))
  {
    SameKeysKeepInv(cfg, c, Dereferenced(c, id));
  }

  // ---- opening a file --------------------------------------------------------------------------------

  /** What the first locked section of xc_compile_file decides. */
  datatype Opened = Clogged | Restored(id: Id) | MustCompile

  ghost function OpenResult(cfg: Config, c: Cache, compiling: int, xce: Entry): Opened
    requires ChainsOk(cfg, c) && KeyOk(cfg, xce)
  {
    if compiling != 0 then Clogged
    else match LookupResult(cfg, c, xce) case Some(id) => Restored(id) case None => MustCompile
  }

  ghost function OpenedCache(cfg: Config, c: Cache, compiling: int, xce: Entry, now: int): Cache
    requires Inv(cfg, c) && KeyOk(cfg, xce)
  {
    LookupOutcome(cfg, c, xce, now);
    if compiling != 0 then c
    else match LookupResult(cfg, c, xce)
         case Some(id) => Held(LookedUp(cfg, c, xce, now), id)
         case None => LookedUp(cfg, c, xce, now)
  }

  /** The cache after a whole call of xc_compile_file; stores: whether compiling gets as far as storing. */
  ghost function CompiledCache(cfg: Config, c: Cache, compiling: int, xce: Entry, now: int,
                               stores: bool, alloc: Option<Id>): Cache
    requires Inv(cfg, c) && KeyOk(cfg, xce)
  {
    LookupOutcome(cfg, c, xce, now);
    var d := OpenedCache(cfg, c, compiling, xce, now);
    if OpenResult(cfg, c, compiling, xce) == MustCompile && stores then Stored(d, xce, now, alloc) else d
  }

  /** What a call compiled and stored is what the next call for the file restores; a failure to store
      leaves the file to be compiled again. */
  lemma CompiledIsFound(cfg: Config, c: Cache, xce: Entry, now: int, alloc: Option<Id>)
    requires Inv(cfg, c) && KeyOk(cfg, xce) && OpenResult(cfg, c, 0, xce) == MustCompile
    requires alloc.Some? ==> alloc.value !in OpenedCache(cfg, c, 0, xce, now).heap
    ensures var d := CompiledCache(cfg, c, 0, xce, now, true, alloc);
      && Inv(cfg, d)
      && OpenResult(cfg, d, 0, xce) == match alloc case Some(id) => Restored(id) case None => MustCompile
  {
    LookupOutcome(cfg, c, xce, now);
    var l, d := LookedUp(cfg, c, xce, now), CompiledCache(cfg, c, 0, xce, now, true, alloc);
    match alloc {
      case Some(id) => AddedKeepsInv(cfg, l, id, Fresh(xce, now));
      case None => SameKeysKeepInv(cfg, l, d);
    }
    MatchIs(cfg, d, xce);
  }

  /** The first entry equal to a linked entry is that entry. */
  lemma FirstIsArgument(cfg: Config, c: Cache, id: Id, p: Id)
    requires ChainsOk(cfg, c) && Linked(c, id) && p in c.chains[c.heap[id].hvalue]
    requires p in c.heap && Equal(c.heap[id], c.heap[p])
    ensures p == id
  {
    ChainAllocated(cfg, c, c.heap[id].hvalue);
    EqualMeansSameIdent(cfg.mode, c.heap[id], c.heap[p]);
    LinkedKeysAreUnique(cfg, c, id, p);
  }
}
