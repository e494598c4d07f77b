/** What the operations of one APC cache do to its slots: chains with eviction on the way, a list
    of slots awaiting destruction, and the entry and memory counters. */
module ApcSpec {
  import opened Machine
  import opened Chains

  datatype Key = File(device: nat, inode: nat, mtime: int) | User(identifier: string) | Path(fullpath: string)

  datatype Slot = Slot(key: Key, refCount: int, memSize: nat, ttl: nat,
                       creation: int, access: int, deletion: int)

  /** ttl and gcTtl are the cache-wide settings; hash is the string hash; readLocks says whether the
      build has read locks, under which a lookup removes nothing. */
  datatype Config = Config(size: nat, hash: string -> nat, ttl: int, gcTtl: int, readLocks: bool)

  /** lost: slots cut off their chain by an insert that could not allocate, which are allocated and counted
      and in no list of the cache any more. */
  datatype Table = Table(heap: map<Id, Slot>, chains: seq<seq<Id>>, deleted: seq<Id>, numEntries: int, memSize: int,
                         lost: seq<Id>)

  // ---- keys ------------------------------------------------------------------------------

  function HashOf(cfg: Config, k: Key): nat {
    match k
    case File(device, inode, _) => (device + inode) % ULONG_MOD
    case User(s) => cfg.hash(s)
    case Path(s) => cfg.hash(s)
  }

  function ChainOf(cfg: Config, k: Key): nat
    requires cfg.size > 0
  {
    HashOf(cfg, k) % cfg.size
  }

  /** The comparison of a new key with the key of a slot. */
  predicate SameKey(cfg: Config, key: Key, stored: Key) {
    match key
    case File(device, inode, _) => stored.File? && stored.device == device && stored.inode == inode
    case User(s) => stored.User? && cfg.hash(stored.identifier) == cfg.hash(s) && SameName(s, stored.identifier)
    case Path(s) => stored.Path? && cfg.hash(stored.fullpath) == cfg.hash(s) && SameName(s, stored.fullpath)
  }

  /** What a key identifies: the modification time is not part of it. */
  datatype Ident = FileId(device: nat, inode: nat) | UserId(s: string) | PathId(s: string)

  function IdentOf(k: Key): Ident {
    match k case File(d, i, _) => FileId(d, i) case User(s) => UserId(s) case Path(s) => PathId(s)
  }

  predicate Plain(k: Key) {
    match k case File(_, _, _) => true case User(s) => NUL !in s case Path(s) => NUL !in s
  }

  lemma SameKeyMeansSameIdent(cfg: Config, a: Key, b: Key)
    requires Plain(b)
    ensures SameKey(cfg, a, b) <==> IdentOf(a) == IdentOf(b)
    ensures SameKey(cfg, a, b) <==>
      if a.File? then b.File? && a.device == b.device && a.inode == b.inode else a == b
  {
    match b
    case File(_, _, _) =>
    case User(s) => NamesMatchOnlyThemselves(s);
    case Path(s) => NamesMatchOnlyThemselves(s);
  }

  // ---- the invariant -----------------------------------------------------------------------

  ghost predicate LinkOk(cfg: Config, t: Table, i: nat, k: nat)
    requires cfg.size > 0 && i < |t.chains| && k < |t.chains[i]|
  {
    var id := t.chains[i][k];
    && id in t.heap && Plain(t.heap[id].key) && ChainOf(cfg, t.heap[id].key) == i
    && id !in t.deleted && id !in t.lost
  }

  ghost predicate DifferentKeys(t: Table, i: nat, j: nat, k: nat)
    requires i < |t.chains| && j < |t.chains[i]| && k < |t.chains[i]|
  {
    var a, b := t.chains[i][j], t.chains[i][k];
    a in t.heap && b in t.heap && IdentOf(t.heap[a].key) != IdentOf(t.heap[b].key)
  }

  ghost predicate ChainsOk(cfg: Config, t: Table)
    requires cfg.size > 0
  {
    && |t.chains| == cfg.size
    && (forall i: nat, k: nat :: i < |t.chains| && k < |t.chains[i]| ==> LinkOk(cfg, t, i, k))
    && (forall i: nat, j: nat, k: nat :: i < |t.chains| && j < k < |t.chains[i]| ==> DifferentKeys(t, i, j, k))
  }

  ghost predicate Linked(cfg: Config, t: Table, id: Id)
    requires cfg.size > 0
  {
    id in t.heap && ChainOf(cfg, t.heap[id].key) < |t.chains| && id in t.chains[ChainOf(cfg, t.heap[id].key)]
  }

  ghost function MemOf(heap: map<Id, Slot>, id: Id): nat { if id in heap then heap[id].memSize else 0 }

  ghost function ChainMem(heap: map<Id, Slot>, s: seq<Id>): nat {
    if s == [] then 0 else MemOf(heap, s[0]) + ChainMem(heap, s[1..])
  }

  ghost function TotalMem(heap: map<Id, Slot>, chains: seq<seq<Id>>, n: nat): nat
    requires n <= |chains|
  {
    if n == 0 then 0 else TotalMem(heap, chains, n - 1) + ChainMem(heap, chains[n - 1])
  }

  ghost predicate LostOk(t: Table) {
    NoDuplicates(t.lost) && forall id :: id in t.lost ==> id in t.heap && id !in t.deleted
  }

  /** Every live slot is in exactly one place, typed keys are unique, and the header counts
      entries and memory, lost ones included. */
  ghost predicate Inv(cfg: Config, t: Table) {
    && cfg.size > 0
    && ChainsOk(cfg, t)
    && NoDuplicates(t.deleted)
    && LostOk(t)
    && (forall id :: id in t.deleted ==> id in t.heap)
    && (forall id :: id in t.heap ==> Linked(cfg, t, id) || id in t.deleted || id in t.lost)
    && t.numEntries == TotalLength(t.chains, |t.chains|) + |t.lost|
    && t.memSize == TotalMem(t.heap, t.chains, |t.chains|) + ChainMem(t.heap, t.lost)
  }

  // ---- memory sums ---------------------------------------------------------------------------

  lemma {:induction false} ChainMemFrame(heap: map<Id, Slot>, other: map<Id, Slot>, s: seq<Id>)
    requires forall x :: x in s ==> MemOf(heap, x) == MemOf(other, x)
    ensures ChainMem(heap, s) == ChainMem(other, s)
  {
    if s == [] {
    } else {
      ChainMemFrame(heap, other, s[1..]);
    }
  }

  lemma {:induction false} ChainMemAppend(heap: map<Id, Slot>, a: seq<Id>, b: seq<Id>)
    ensures ChainMem(heap, a + b) == ChainMem(heap, a) + ChainMem(heap, b)
  {
    if a == [] {
      assert a + b == b;
    } else {
      assert (a + b)[1..] == a[1..] + b;
      ChainMemAppend(heap, a[1..], b);
    }
  }

  lemma {:induction false} ChainMemWithout(heap: map<Id, Slot>, s: seq<Id>, id: Id)
    requires id in s
    ensures ChainMem(heap, Without(s, id)) + MemOf(heap, id) == ChainMem(heap, s)
  {
    if s[0] == id {
      assert Without(s, id) == s[1..];
    } else {
      ChainMemWithout(heap, s[1..], id);
      assert Without(s, id)[1..] == Without(s[1..], id);
    }
  }

  /** Changing chain i, and the heap only where it does not weigh on the other chains. */
  lemma {:induction false} TotalMemUpdate(heap: map<Id, Slot>, other: map<Id, Slot>, chains: seq<seq<Id>>, i: nat,
                                          s: seq<Id>, n: nat)
    requires i < |chains| && n <= |chains|
    requires forall j: nat :: j < n && j != i ==> ChainMem(other, chains[j]) == ChainMem(heap, chains[j])
    ensures TotalMem(other, chains[i := s], n) + (if i < n then ChainMem(heap, chains[i]) else 0)
         == TotalMem(heap, chains, n) + (if i < n then ChainMem(other, s) else 0)
  {
    if n == 0 {
    } else {
      TotalMemUpdate(heap, other, chains, i, s, n - 1);
    }
  }

  // ---- removing a slot -------------------------------------------------------------------------

  ghost function Unlinked(cfg: Config, t: Table, id: Id): Table
    requires cfg.size > 0 && Linked(cfg, t, id)
  {
    var h := ChainOf(cfg, t.heap[id].key);
    t.(chains := t.chains[h := Without(t.chains[h], id)],
       numEntries := t.numEntries - 1, memSize := t.memSize - t.heap[id].memSize)
  }

  /** The fate of a slot taken out of its chain: destroyed at once, or put on the deleted list. */
  ghost function Retired(t: Table, id: Id, now: int): Table
    requires id in t.heap
  {
    if t.heap[id].refCount <= 0 then t.(heap := t.heap - {id})
    else t.(heap := t.heap[id := t.heap[id].(deletion := now)], deleted := [id] + t.deleted)
  }

  ghost function Removed(cfg: Config, t: Table, id: Id, now: int): Table
    requires cfg.size > 0 && Linked(cfg, t, id)
  {
    Retired(Unlinked(cfg, t, id), id, now)
  }

  ghost predicate Untouched(cfg: Config, t: Table, u: Table, x: Id)
    requires cfg.size > 0
  {
    && (x in t.heap <==> x in u.heap)
    && (x in t.heap ==> t.heap[x] == u.heap[x])
    && (Linked(cfg, t, x) <==> Linked(cfg, u, x))
  }

  /** x has left its chain; it survives exactly while somebody refers to it. */
  ghost predicate Dismissed(cfg: Config, t: Table, u: Table, x: Id, now: int)
    requires cfg.size > 0
  {
    && Linked(cfg, t, x) && !Linked(cfg, u, x)
    && (x in u.heap <==> t.heap[x].refCount > 0)
    && (x in u.heap ==> u.heap[x] == t.heap[x].(deletion := now))
  }

  lemma ChainAllocated(cfg: Config, t: Table, h: nat)
    requires cfg.size > 0 && ChainsOk(cfg, t) && h < |t.chains|
    ensures forall x :: x in t.chains[h] ==>
      && x in t.heap && Plain(t.heap[x].key) && ChainOf(cfg, t.heap[x].key) == h
      && x !in t.deleted && x !in t.lost
  {
    forall x | x in t.chains[h]
      ensures x in t.heap && Plain(t.heap[x].key) && ChainOf(cfg, t.heap[x].key) == h
      ensures x !in t.deleted && x !in t.lost
    {
      var k: nat :| k < |t.chains[h]| && t.chains[h][k] == x;
      assert LinkOk(cfg, t, h, k);
    }
  }

  lemma KeysDiffer(cfg: Config, t: Table, h: nat, j: nat, k: nat)
    requires cfg.size > 0 && ChainsOk(cfg, t) && h < |t.chains| && j < |t.chains[h]| && k < |t.chains[h]| && j != k
    ensures DifferentKeys(t, h, j, k)
  {
    if j > k { assert DifferentKeys(t, h, k, j); }
  }

  lemma UnlinkedKeys(cfg: Config, t: Table, id: Id, at: nat)
    requires cfg.size > 0 && ChainsOk(cfg, t) && Linked(cfg, t, id)
    requires var s := t.chains[ChainOf(cfg, t.heap[id].key)];
      at < |s| && Without(s, id) == s[..at] + s[at + 1..]
    ensures var u := Unlinked(cfg, t, id);
      forall i: nat, j: nat, k: nat :: i < |u.chains| && j < k < |u.chains[i]| ==> DifferentKeys(u, i, j, k)
  {
    var u, h := Unlinked(cfg, t, id), ChainOf(cfg, t.heap[id].key);
    forall i: nat, j: nat, k: nat | i < |u.chains| && j < k < |u.chains[i]| ensures DifferentKeys(u, i, j, k) {
      assert DifferentKeys(t, i, if i == h && j >= at then j + 1 else j, if i == h && k >= at then k + 1 else k);
    }
  }

  lemma UnlinkedChains(cfg: Config, t: Table, id: Id)
    requires cfg.size > 0 && ChainsOk(cfg, t) && Linked(cfg, t, id)
    ensures ChainsOk(cfg, Unlinked(cfg, t, id))
    ensures forall i: nat :: i < |t.chains| ==> id !in Unlinked(cfg, t, id).chains[i]
  {
    var u, h := Unlinked(cfg, t, id), ChainOf(cfg, t.heap[id].key);
    var at := WithoutIndex(t.chains[h], id);
    UnlinkedKeys(cfg, t, id, at);
    forall i: nat, k: nat | i < |u.chains| && k < |u.chains[i]| ensures LinkOk(cfg, u, i, k) && u.chains[i][k] != id {
      var k' := if i == h && k >= at then k + 1 else k;
      assert LinkOk(cfg, t, i, k') && u.chains[i][k] == t.chains[i][k'];
      if i == h { KeysDiffer(cfg, t, h, k', at); }
    }
  }

  lemma OffChains(cfg: Config, t: Table, u: Table, id: Id)
    requires cfg.size > 0 && ChainsOk(cfg, t) && LostOk(t) && u.chains == t.chains && u.lost == t.lost
    requires id !in t.lost && forall i: nat :: i < |t.chains| ==> id !in t.chains[i]
    requires forall x :: x in t.heap && x != id ==> x in u.heap && u.heap[x] == t.heap[x]
    requires forall x :: x in u.deleted && x != id ==> x in t.deleted
    ensures ChainsOk(cfg, u) && LostOk(u)
    ensures TotalMem(u.heap, u.chains, |u.chains|) == TotalMem(t.heap, t.chains, |t.chains|)
    ensures ChainMem(u.heap, u.lost) == ChainMem(t.heap, t.lost)
  {
    forall i: nat, k: nat | i < |u.chains| && k < |u.chains[i]| ensures LinkOk(cfg, u, i, k) {
      assert LinkOk(cfg, t, i, k) && u.chains[i][k] in u.chains[i];
    }
    forall i: nat, j: nat, k: nat | i < |u.chains| && j < k < |u.chains[i]| ensures DifferentKeys(u, i, j, k) {
      assert DifferentKeys(t, i, j, k) && u.chains[i][j] in u.chains[i] && u.chains[i][k] in u.chains[i];
    }
    forall i: nat | i < |t.chains| ensures ChainMem(u.heap, t.chains[i]) == ChainMem(t.heap, t.chains[i]) {
      ChainAllocated(cfg, t, i);
      ChainMemFrame(u.heap, t.heap, t.chains[i]);
    }
    TotalMemSame(t.heap, u.heap, t.chains, |t.chains|);
    ChainMemFrame(u.heap, t.heap, t.lost);
  }

  lemma {:induction false} TotalMemSame(heap: map<Id, Slot>, other: map<Id, Slot>, chains: seq<seq<Id>>, n: nat)
    requires n <= |chains| && forall j: nat :: j < n ==> ChainMem(other, chains[j]) == ChainMem(heap, chains[j])
    ensures TotalMem(other, chains, n) == TotalMem(heap, chains, n)
  {
    if n == 0 {
    } else {
      TotalMemSame(heap, other, chains, n - 1);
    }
  }

  lemma RemovedKeepsInv(cfg: Config, t: Table, id: Id, now: int)
    requires Inv(cfg, t) && Linked(cfg, t, id)
    ensures var u := Removed(cfg, t, id, now);
      && Inv(cfg, u) && Dismissed(cfg, t, u, id, now)
      && forall x :: x != id ==> Untouched(cfg, t, u, x)
  {
    var v, u, h := Unlinked(cfg, t, id), Removed(cfg, t, id, now), ChainOf(cfg, t.heap[id].key);
    ChainAllocated(cfg, t, h);
    UnlinkedChains(cfg, t, id);
    OffChains(cfg, v, u, id);
    TotalOfUpdate(t.chains, h, v.chains[h], |t.chains|);
    TotalMemUpdate(t.heap, t.heap, t.chains, h, v.chains[h], |t.chains|);
    ChainMemWithout(t.heap, t.chains[h], id);
    var at := WithoutIndex(t.chains[h], id);
    assert |v.chains[h]| == |t.chains[h]| - 1;
    RemovedPlaces(cfg, t, id, now);
  }

  lemma RemovedPlaces(cfg: Config, t: Table, id: Id, now: int)
    requires Inv(cfg, t) && Linked(cfg, t, id)
    ensures var u := Removed(cfg, t, id, now);
      && !Linked(cfg, u, id)
      && (forall x :: x != id ==> Untouched(cfg, t, u, x))
      && (forall x :: x in u.heap ==> Linked(cfg, u, x) || x in u.deleted || x in u.lost)
  {
    var u, h := Removed(cfg, t, id, now), ChainOf(cfg, t.heap[id].key);
    var at := WithoutIndex(t.chains[h], id);
    UnlinkedChains(cfg, t, id);
    forall x | x != id ensures Untouched(cfg, t, u, x) {
      assert x in t.chains[h] <==> x in u.chains[h];
    }
    forall x | x in u.heap ensures Linked(cfg, u, x) || x in u.deleted || x in u.lost {
      assert x != id ==> Untouched(cfg, t, u, x);
      assert Linked(cfg, t, x) || x in t.deleted || x in t.lost;
    }
  }

  // ---- the walk before an insert -----------------------------------------------------------------

  /** What the inserting walk does with a slot: step over it, remove it and go on, remove it and
      stop there, or give up. */
  datatype Verdict = Pass | Evict | Take | Refuse

  type Judge = Slot -> Verdict

  datatype Walked = Walked(table: Table, at: nat, refused: bool)

  ghost function WalkFrom(cfg: Config, t: Table, h: nat, k: nat, judge: Judge, now: int): Walked
    requires Inv(cfg, t) && h < |t.chains| && k <= |t.chains[h]|
    decreases |t.chains[h]| - k
  {
    if k == |t.chains[h]| then Walked(t, k, false)
    else
      ChainAllocated(cfg, t, h);
      var p := t.chains[h][k];
      RemovedKeepsInv(cfg, t, p, now);
      PositionCut(cfg, t, h, k);
      match judge(t.heap[p])
      case Pass => WalkFrom(cfg, t, h, k + 1, judge, now)
      case Evict => WalkFrom(cfg, Removed(cfg, t, p, now), h, k, judge, now)
      case Take => Walked(Removed(cfg, t, p, now), k, false)
      case Refuse => Walked(t, k, true)
  }

  /** Removing the slot at position k cuts exactly that position out of its chain. */
  lemma PositionCut(cfg: Config, t: Table, h: nat, k: nat)
    requires Inv(cfg, t) && h < |t.chains| && k < |t.chains[h]|
    ensures Linked(cfg, t, t.chains[h][k]) && ChainOf(cfg, t.heap[t.chains[h][k]].key) == h
    ensures Unlinked(cfg, t, t.chains[h][k]).chains == t.chains[h := t.chains[h][..k] + t.chains[h][k + 1..]]
  {
    var s, p := t.chains[h], t.chains[h][k];
    ChainAllocated(cfg, t, h);
    forall j: nat | j < k ensures s[j] != p { KeysDiffer(cfg, t, h, j, k); }
    CutIsWithout(s, k);
  }

  /** What remove_slot writes, given the link at position k. */
  lemma CutOut(cfg: Config, t: Table, h: nat, k: nat, now: int)
    requires Inv(cfg, t) && h < |t.chains| && k < |t.chains[h]|
    ensures var p := t.chains[h][k];
      && Linked(cfg, t, p) && Inv(cfg, Removed(cfg, t, p, now)) && |t.chains| == |Removed(cfg, t, p, now).chains|
      && Removed(cfg, t, p, now) ==
           Retired(t.(chains := t.chains[h := t.chains[h][..k] + t.chains[h][k + 1..]],
                      numEntries := t.numEntries - 1, memSize := t.memSize - t.heap[p].memSize), p, now)
  {
    PositionCut(cfg, t, h, k);
    RemovedKeepsInv(cfg, t, t.chains[h][k], now);
  }

  /** Taking and refusing is for the slots of one key only. */
  ghost predicate JudgesFor(judge: Judge, ident: Ident) {
    forall s: Slot :: Plain(s.key) ==> ((judge(s).Take? || judge(s).Refuse?) <==> IdentOf(s.key) == ident)
  }

  ghost predicate IdentAbsent(cfg: Config, t: Table, ident: Ident)
    requires cfg.size > 0
  {
    forall x: Id :: Linked(cfg, t, x) ==> IdentOf(t.heap[x].key) != ident
  }

  ghost predicate IdentAbsentIn(t: Table, s: seq<Id>, ident: Ident) {
    forall x :: x in s && x in t.heap ==> IdentOf(t.heap[x].key) != ident
  }

  /** Everything the walk does to slot x. */
  ghost predicate WalkOutcome(cfg: Config, t: Table, u: Table, judge: Judge, x: Id, now: int)
    requires cfg.size > 0
  {
    || Untouched(cfg, t, u, x)
    || (x in t.heap && (judge(t.heap[x]).Evict? || judge(t.heap[x]).Take?) && Dismissed(cfg, t, u, x, now))
  }

  lemma EvictThenWalk(cfg: Config, t: Table, v: Table, u: Table, judge: Judge, p: Id, x: Id, now: int)
    requires cfg.size > 0 && p in t.heap && judge(t.heap[p]).Evict?
    requires Dismissed(cfg, t, v, p, now) && (x != p ==> Untouched(cfg, t, v, x))
    requires WalkOutcome(cfg, v, u, judge, x, now)
    ensures WalkOutcome(cfg, t, u, judge, x, now)
  {
  }

  lemma {:induction false} WalkFromOutcome(cfg: Config, t: Table, h: nat, k: nat, judge: Judge, now: int)
    requires Inv(cfg, t) && h < |t.chains| && k <= |t.chains[h]|
    ensures var w := WalkFrom(cfg, t, h, k, judge, now);
      && Inv(cfg, w.table) && w.at <= |w.table.chains[h]| && w.table.lost == t.lost
      && forall x: Id :: WalkOutcome(cfg, t, w.table, judge, x, now)
    decreases |t.chains[h]| - k
  {
    if k == |t.chains[h]| {
    } else {
      ChainAllocated(cfg, t, h);
      var p := t.chains[h][k];
      PositionCut(cfg, t, h, k);
      RemovedKeepsInv(cfg, t, p, now);
      var u, w := Removed(cfg, t, p, now), WalkFrom(cfg, t, h, k, judge, now);
      match judge(t.heap[p])
      case Pass => WalkFromOutcome(cfg, t, h, k + 1, judge, now);
      case Evict =>
        WalkFromOutcome(cfg, u, h, k, judge, now);
        forall x: Id ensures WalkOutcome(cfg, t, w.table, judge, x, now) {
          EvictThenWalk(cfg, t, u, w.table, judge, p, x, now);
        }
      case Take =>
      case Refuse =>
    }
  }

  /** A walk that is not refused leaves no slot of the key in the chain. */
  lemma {:induction false} WalkClears(cfg: Config, t: Table, h: nat, k: nat, judge: Judge, now: int, ident: Ident)
    requires Inv(cfg, t) && h < |t.chains| && k <= |t.chains[h]|
    requires JudgesFor(judge, ident) && IdentAbsentIn(t, t.chains[h][..k], ident)
    ensures var w := WalkFrom(cfg, t, h, k, judge, now);
      h < |w.table.chains| && (!w.refused ==> IdentAbsentIn(w.table, w.table.chains[h], ident))
    decreases |t.chains[h]| - k
  {
    ChainAllocated(cfg, t, h);
    if k == |t.chains[h]| {
      assert t.chains[h][..k] == t.chains[h];
    } else {
      var s, p := t.chains[h], t.chains[h][k];
      PositionCut(cfg, t, h, k);
      match judge(t.heap[p])
      case Pass =>
        assert s[..k + 1] == s[..k] + [p];
        WalkClears(cfg, t, h, k + 1, judge, now, ident);
      case Evict =>
        EvictedBefore(cfg, t, h, k, now, ident);
        WalkClears(cfg, Removed(cfg, t, p, now), h, k, judge, now, ident);
      case Take => TakenWasOnly(cfg, t, h, k, now);
      case Refuse =>
    }
  }

  /** Evicting the slot at position k leaves those before it where they were. */
  lemma EvictedBefore(cfg: Config, t: Table, h: nat, k: nat, now: int, ident: Ident)
    requires Inv(cfg, t) && h < |t.chains| && k < |t.chains[h]| && Linked(cfg, t, t.chains[h][k])
    requires IdentAbsentIn(t, t.chains[h][..k], ident)
    ensures var u := Removed(cfg, t, t.chains[h][k], now);
      && Inv(cfg, u) && h < |u.chains| && k <= |u.chains[h]| && |u.chains[h]| < |t.chains[h]|
      && IdentAbsentIn(u, u.chains[h][..k], ident)
  {
    PositionCut(cfg, t, h, k);
    RemovedKeepsInv(cfg, t, t.chains[h][k], now);
    assert Removed(cfg, t, t.chains[h][k], now).chains[h][..k] == t.chains[h][..k];
  }

  /** The slot taken out was the only one with its key. */
  lemma TakenWasOnly(cfg: Config, t: Table, h: nat, k: nat, now: int)
    requires Inv(cfg, t) && h < |t.chains| && k < |t.chains[h]|
    requires Linked(cfg, t, t.chains[h][k])
    ensures var p := t.chains[h][k];
      IdentAbsentIn(Removed(cfg, t, p, now), Removed(cfg, t, p, now).chains[h], IdentOf(t.heap[p].key))
  {
    var s, p := t.chains[h], t.chains[h][k];
    var u := Removed(cfg, t, p, now);
    PositionCut(cfg, t, h, k);
    assert u.chains[h] == s[..k] + s[k + 1..];
    forall x | x in u.chains[h] && x in u.heap ensures IdentOf(u.heap[x].key) != IdentOf(t.heap[p].key) {
      var j: nat :| j < |s| && j != k && s[j] == x;
      KeysDiffer(cfg, t, h, j, k);
    }
  }

  // ---- inserting ------------------------------------------------------------------------------------

  ghost function Inserted(t: Table, h: nat, at: nat, id: Id, s: Slot): Table
    requires h < |t.chains| && at <= |t.chains[h]|
  {
    t.(heap := t.heap[id := s], chains := t.chains[h := t.chains[h][..at] + [id] + t.chains[h][at..]],
       numEntries := t.numEntries + 1, memSize := t.memSize + s.memSize)
  }

  lemma InsertedChains(cfg: Config, t: Table, h: nat, at: nat, id: Id, s: Slot)
    requires Inv(cfg, t) && h < |t.chains| && at <= |t.chains[h]| && id !in t.heap
    requires Plain(s.key) && ChainOf(cfg, s.key) == h && IdentAbsentIn(t, t.chains[h], IdentOf(s.key))
    ensures ChainsOk(cfg, Inserted(t, h, at, id, s))
  {
    var u := Inserted(t, h, at, id, s);
    ChainAllocated(cfg, t, h);
    forall i: nat, k: nat | i < |u.chains| && k < |u.chains[i]| ensures LinkOk(cfg, u, i, k) {
      if i != h || k != at { assert LinkOk(cfg, t, i, if i == h && k > at then k - 1 else k); }
    }
    forall i: nat, j: nat, k: nat | i < |u.chains| && j < k < |u.chains[i]| ensures DifferentKeys(u, i, j, k) {
      var j', k' := if i == h && j > at then j - 1 else j, if i == h && k > at then k - 1 else k;
      if i == h && (j == at || k == at) {
        assert LinkOk(cfg, t, h, if j == at then k' else j');
      } else {
        assert DifferentKeys(t, i, j', k') && LinkOk(cfg, t, i, j') && LinkOk(cfg, t, i, k');
      }
    }
  }

  lemma InsertedMem(cfg: Config, t: Table, h: nat, at: nat, id: Id, s: Slot)
    requires Inv(cfg, t) && h < |t.chains| && at <= |t.chains[h]| && id !in t.heap
    ensures var u := Inserted(t, h, at, id, s);
      && u.memSize == TotalMem(u.heap, u.chains, |u.chains|) + ChainMem(u.heap, u.lost)
      && u.numEntries == TotalLength(u.chains, |u.chains|) + |u.lost|
  {
    var u, c := Inserted(t, h, at, id, s), t.chains[h];
    forall j: nat | j < |t.chains| ensures ChainMem(u.heap, t.chains[j]) == ChainMem(t.heap, t.chains[j]) {
      ChainAllocated(cfg, t, j);
      ChainMemFrame(u.heap, t.heap, t.chains[j]);
    }
    assert c == c[..at] + c[at..];
    ChainMemAppend(u.heap, c[..at], c[at..]);
    ChainMemAppend(u.heap, c[..at], [id]);
    ChainMemAppend(u.heap, c[..at] + [id], c[at..]);
    assert ChainMem(u.heap, [id]) == s.memSize by { assert [id][1..] == []; }
    TotalMemUpdate(t.heap, u.heap, t.chains, h, u.chains[h], |t.chains|);
    TotalOfUpdate(t.chains, h, u.chains[h], |t.chains|);
    ChainMemFrame(u.heap, t.heap, t.lost);
  }

  lemma InsertedKeepsInv(cfg: Config, t: Table, h: nat, at: nat, id: Id, s: Slot)
    requires Inv(cfg, t) && h < |t.chains| && at <= |t.chains[h]| && id !in t.heap
    requires Plain(s.key) && ChainOf(cfg, s.key) == h && IdentAbsentIn(t, t.chains[h], IdentOf(s.key))
    ensures var u := Inserted(t, h, at, id, s);
      Inv(cfg, u) && Linked(cfg, u, id) && forall x: Id :: x != id ==> Untouched(cfg, t, u, x)
  {
    var u := Inserted(t, h, at, id, s);
    InsertedChains(cfg, t, h, at, id, s);
    InsertedMem(cfg, t, h, at, id, s);
    assert t.chains[h] == t.chains[h][..at] + t.chains[h][at..];
    assert forall x :: x in u.chains[h] <==> x == id || x in t.chains[h];
    forall x: Id | x != id ensures Untouched(cfg, t, u, x) {}
    forall x | x in u.heap ensures Linked(cfg, u, x) || x in u.deleted || x in u.lost {
      if x != id { assert Untouched(cfg, t, u, x) && (Linked(cfg, t, x) || x in t.deleted || x in t.lost); }
    }
  }

  // ---- the two inserting walks ---------------------------------------------------------------------

  predicate SameType(a: Key, b: Key) { (a.File? <==> b.File?) && (a.User? <==> b.User?) }

  /** Not accessed for longer than the cache-wide ttl. */
  predicate Idle(cfg: Config, s: Slot, now: int) { cfg.ttl != 0 && s.access < now - cfg.ttl }

  /** Older than its own ttl. */
  predicate OverAge(s: Slot, now: int) { s.ttl != 0 && s.creation + s.ttl < now }

  /** apc_cache_user_insert: an exclusive insert is refused by a slot that has no ttl or is not over it. */
  function UserJudge(cfg: Config, key: Key, exclusive: bool, now: int): Judge {
    (s: Slot) =>
      if SameKey(cfg, key, s.key) then (if exclusive && !OverAge(s, now) then Refuse else Take)
      else if Idle(cfg, s, now) || OverAge(s, now) then Evict
      else Pass
  }

  /** _apc_cache_insert: an unchanged file is refused, a changed one replaced, idle slots of the
      same key type are evicted. */
  function FileJudge(cfg: Config, key: Key, force: bool, now: int): Judge {
    (s: Slot) =>
      if !SameType(key, s.key) then Pass
      else if SameKey(cfg, key, s.key) then
        (if key.File? && !force && s.key.mtime == key.mtime then Refuse else Take)
      else if Idle(cfg, s, now) then Evict
      else Pass
  }

  lemma JudgesAreFaithful(cfg: Config, key: Key, flag: bool, now: int)
    requires Plain(key)
    ensures JudgesFor(UserJudge(cfg, key, flag, now), IdentOf(key))
    ensures JudgesFor(FileJudge(cfg, key, flag, now), IdentOf(key))
  {
    forall s: Slot | Plain(s.key) ensures SameKey(cfg, key, s.key) <==> IdentOf(s.key) == IdentOf(key) {
      SameKeyMeansSameIdent(cfg, key, s.key);
    }
  }

  // ---- looking up -----------------------------------------------------------------------------------

  /** Position of the first slot of chain h, from k on, whose key matches; the length if none does. */
  ghost function FirstSame(cfg: Config, t: Table, key: Key, h: nat, k: nat): nat
    requires h < |t.chains| && k <= |t.chains[h]|
    decreases |t.chains[h]| - k
  {
    if k == |t.chains[h]| then k
    else if t.chains[h][k] in t.heap && SameKey(cfg, key, t.heap[t.chains[h][k]].key) then k
    else FirstSame(cfg, t, key, h, k + 1)
  }

  ghost function Match(cfg: Config, t: Table, key: Key): Option<Id>
    requires cfg.size > 0 && ChainsOk(cfg, t)
  {
    var h := ChainOf(cfg, key);
    var k := FirstSame(cfg, t, key, h, 0);
    if k < |t.chains[h]| then Some(t.chains[h][k]) else None
  }

  lemma {:induction false} FirstSameIs(cfg: Config, t: Table, key: Key, h: nat, k: nat)
    requires cfg.size > 0 && ChainsOk(cfg, t) && h < |t.chains| && k <= |t.chains[h]|
    ensures var f := FirstSame(cfg, t, key, h, k);
      && k <= f <= |t.chains[h]|
      && (f < |t.chains[h]| ==> t.chains[h][f] in t.heap && IdentOf(t.heap[t.chains[h][f]].key) == IdentOf(key))
      && forall j: nat :: k <= j < f ==> t.chains[h][j] in t.heap && IdentOf(t.heap[t.chains[h][j]].key) != IdentOf(key)
    decreases |t.chains[h]| - k
  {
    if k == |t.chains[h]| {
    } else {
      assert LinkOk(cfg, t, h, k);
      SameKeyMeansSameIdent(cfg, key, t.heap[t.chains[h][k]].key);
      FirstSameIs(cfg, t, key, h, k + 1);
    }
  }

  /** A lookup finds the one linked slot with the typed key, and none exactly when there is none. */
  lemma MatchIs(cfg: Config, t: Table, key: Key)
    requires cfg.size > 0 && ChainsOk(cfg, t) && Plain(key)
    ensures match Match(cfg, t, key)
      case Some(id) => Linked(cfg, t, id) && IdentOf(t.heap[id].key) == IdentOf(key) && Plain(t.heap[id].key)
      case None => IdentAbsent(cfg, t, IdentOf(key))
    ensures forall x: Id :: Linked(cfg, t, x) && IdentOf(t.heap[x].key) == IdentOf(key) ==>
      Match(cfg, t, key) == Some(x)
  {
    var h := ChainOf(cfg, key);
    FirstSameIs(cfg, t, key, h, 0);
    ChainAllocated(cfg, t, h);
    forall x: Id | Linked(cfg, t, x) && IdentOf(t.heap[x].key) == IdentOf(key) ensures Match(cfg, t, key) == Some(x) {
      SameIdentSameChain(cfg, t.heap[x].key, key);
      var j: nat :| j < |t.chains[h]| && t.chains[h][j] == x;
      var f := FirstSame(cfg, t, key, h, 0);
      if j != f && f < |t.chains[h]| { KeysDiffer(cfg, t, h, j, f); }
    }
  }

  lemma SameIdentSameChain(cfg: Config, a: Key, b: Key)
    requires cfg.size > 0 && IdentOf(a) == IdentOf(b)
    ensures ChainOf(cfg, a) == ChainOf(cfg, b)
  {
  }

  /** A hit takes a reference and notes the access. */
  ghost function Referenced(t: Table, id: Id, now: int): Table
    requires id in t.heap
  {
    t.(heap := t.heap[id := t.heap[id].(refCount := t.heap[id].refCount + 1, access := now)])
  }

  /** A changed file or an over-age value is not returned, and removed if the lock allows it. */
  predicate Outdated(s: Slot, key: Key, now: int) {
    if key.File? then s.key.File? && s.key.mtime != key.mtime
    else key.User? && OverAge(s, now)
  }

  ghost function Found(cfg: Config, t: Table, key: Key, now: int): Option<Id>
    requires cfg.size > 0 && ChainsOk(cfg, t)
  {
    match Match(cfg, t, key)
    case None => None
    case Some(id) => if id in t.heap && Outdated(t.heap[id], key, now) then None else Some(id)
  }

  ghost function AfterFind(cfg: Config, t: Table, key: Key, now: int, wall: int): Table
    requires cfg.size > 0 && ChainsOk(cfg, t) && Plain(key)
  {
    match Match(cfg, t, key)
    case None => t
    case Some(id) =>
      MatchIs(cfg, t, key);
      if !Outdated(t.heap[id], key, now) then Referenced(t, id, now)
      else if cfg.readLocks then t
      else Removed(cfg, t, id, wall)
  }

  /** What a lookup does, by what the walk finds. */
  lemma FindCases(cfg: Config, t: Table, key: Key, now: int, wall: int)
    requires Inv(cfg, t) && Plain(key)
    ensures var h := ChainOf(cfg, key);
      var k := FirstSame(cfg, t, key, h, 0);
      && h < |t.chains| && k <= |t.chains[h]|
      && if k == |t.chains[h]| then AfterFind(cfg, t, key, now, wall) == t && Found(cfg, t, key, now) == None
         else
           var id := t.chains[h][k];
           && Linked(cfg, t, id)
           && if !Outdated(t.heap[id], key, now) then
                && AfterFind(cfg, t, key, now, wall) == Referenced(t, id, now) && Found(cfg, t, key, now) == Some(id)
                && Inv(cfg, Referenced(t, id, now))
              else
                && Found(cfg, t, key, now) == None
                && AfterFind(cfg, t, key, now, wall) == if cfg.readLocks then t else Removed(cfg, t, id, wall)
  {
    FirstSameIs(cfg, t, key, ChainOf(cfg, key), 0);
    MatchIs(cfg, t, key);
    match Match(cfg, t, key)
    case None =>
    case Some(id) => ReferencedKeepsInv(cfg, t, id, now);
  }

  lemma ReferencedKeepsInv(cfg: Config, t: Table, id: Id, now: int)
    requires Inv(cfg, t) && id in t.heap
    ensures Inv(cfg, Referenced(t, id, now))
  {
    TouchedKeepsInv(cfg, t, id, t.heap[id].(refCount := t.heap[id].refCount + 1, access := now));
  }

  lemma TouchedChains(cfg: Config, t: Table, id: Id, s: Slot)
    requires cfg.size > 0 && ChainsOk(cfg, t) && id in t.heap && s.key == t.heap[id].key
    ensures ChainsOk(cfg, t.(heap := t.heap[id := s]))
  {
    var u := t.(heap := t.heap[id := s]);
    forall i: nat, k: nat | i < |u.chains| && k < |u.chains[i]| ensures LinkOk(cfg, u, i, k) {
      assert LinkOk(cfg, t, i, k);
    }
    forall i: nat, j: nat, k: nat | i < |u.chains| && j < k < |u.chains[i]| ensures DifferentKeys(u, i, j, k) {
      assert DifferentKeys(t, i, j, k);
    }
  }

  /** Only fields that are neither key nor weight change. */
  lemma TouchedKeepsInv(cfg: Config, t: Table, id: Id, s: Slot)
    requires Inv(cfg, t) && id in t.heap && s.key == t.heap[id].key && s.memSize == t.heap[id].memSize
    ensures Inv(cfg, t.(heap := t.heap[id := s]))
    ensures forall x: Id :: Linked(cfg, t.(heap := t.heap[id := s]), x) <==> Linked(cfg, t, x)
  {
    var u := t.(heap := t.heap[id := s]);
    TouchedChains(cfg, t, id, s);
    forall i: nat | i < |t.chains| ensures ChainMem(u.heap, t.chains[i]) == ChainMem(t.heap, t.chains[i]) {
      ChainMemFrame(u.heap, t.heap, t.chains[i]);
    }
    TotalMemSame(t.heap, u.heap, t.chains, |t.chains|);
    ChainMemFrame(u.heap, t.heap, t.lost);
    forall x | x in u.heap ensures Linked(cfg, u, x) || x in u.deleted || x in u.lost {
      assert Linked(cfg, t, x) || x in t.deleted || x in t.lost;
    }
  }

  // ---- sweeping ---------------------------------------------------------------------------------------

  ghost predicate Sweeps(judge: Judge) { forall s: Slot :: judge(s).Pass? || judge(s).Evict? }

  ghost predicate SweepOutcome(cfg: Config, t: Table, u: Table, judge: Judge, x: Id, selected: bool, now: int)
    requires cfg.size > 0
  {
    if selected && Linked(cfg, t, x) && judge(t.heap[x]).Evict? then Dismissed(cfg, t, u, x, now)
    else Untouched(cfg, t, u, x)
  }

  lemma EvictedRest(cfg: Config, t: Table, h: nat, k: nat, now: int)
    requires Inv(cfg, t) && h < |t.chains| && k < |t.chains[h]| && Linked(cfg, t, t.chains[h][k])
    ensures var v := Removed(cfg, t, t.chains[h][k], now);
      |v.chains| == |t.chains| && k <= |v.chains[h]| && v.chains[h][k..] == t.chains[h][k + 1..]
    ensures t.chains[h][k] !in t.chains[h][k + 1..]
  {
    PositionCut(cfg, t, h, k);
    forall j: nat | k < j < |t.chains[h]| ensures t.chains[h][j] != t.chains[h][k] { KeysDiffer(cfg, t, h, k, j); }
  }

  lemma EvictThenSweep(cfg: Config, t: Table, v: Table, u: Table, judge: Judge, p: Id, rest: seq<Id>, x: Id, now: int)
    requires cfg.size > 0 && p in t.heap && judge(t.heap[p]).Evict? && p !in rest
    requires Dismissed(cfg, t, v, p, now) && (x != p ==> Untouched(cfg, t, v, x))
    requires SweepOutcome(cfg, v, u, judge, x, x in rest, now)
    ensures SweepOutcome(cfg, t, u, judge, x, x in [p] + rest, now)
  {
  }

  lemma PassThenSweep(cfg: Config, t: Table, u: Table, judge: Judge, p: Id, rest: seq<Id>, x: Id, now: int)
    requires cfg.size > 0 && p in t.heap && judge(t.heap[p]).Pass?
    requires SweepOutcome(cfg, t, u, judge, x, x in rest, now)
    ensures SweepOutcome(cfg, t, u, judge, x, x in [p] + rest, now)
  {
  }

  lemma {:induction false} WalkSweeps(cfg: Config, t: Table, h: nat, k: nat, judge: Judge, now: int)
    requires Inv(cfg, t) && h < |t.chains| && k <= |t.chains[h]| && Sweeps(judge)
    ensures var u := WalkFrom(cfg, t, h, k, judge, now).table;
      && Inv(cfg, u) && u.lost == t.lost
      && forall x: Id :: SweepOutcome(cfg, t, u, judge, x, x in t.chains[h][k..], now)
    decreases |t.chains[h]| - k
  {
    if k == |t.chains[h]| {
    } else {
      ChainAllocated(cfg, t, h);
      var s, p := t.chains[h], t.chains[h][k];
      var u := WalkFrom(cfg, t, h, k, judge, now).table;
      PositionCut(cfg, t, h, k);
      assert s[k..] == [p] + s[k + 1..];
      if judge(t.heap[p]).Evict? {
        var v := Removed(cfg, t, p, now);
        RemovedKeepsInv(cfg, t, p, now);
        WalkSweeps(cfg, v, h, k, judge, now);
        EvictedRest(cfg, t, h, k, now);
        forall x: Id ensures SweepOutcome(cfg, t, u, judge, x, x in s[k..], now) {
          EvictThenSweep(cfg, t, v, u, judge, p, s[k + 1..], x, now);
        }
      } else {
        assert judge(t.heap[p]).Pass?;
        WalkSweeps(cfg, t, h, k + 1, judge, now);
        forall x: Id ensures SweepOutcome(cfg, t, u, judge, x, x in s[k..], now) {
          PassThenSweep(cfg, t, u, judge, p, s[k + 1..], x, now);
        }
      }
    }
  }

  /** Walking every chain from index h on. */
  ghost function SweptFrom(cfg: Config, t: Table, h: nat, judge: Judge, now: int): Table
    requires Inv(cfg, t) && h <= |t.chains|
    decreases |t.chains| - h
  {
    if h == |t.chains| then t
    else
      WalkFromOutcome(cfg, t, h, 0, judge, now);
      SweptFrom(cfg, WalkFrom(cfg, t, h, 0, judge, now).table, h + 1, judge, now)
  }

  ghost predicate FromChain(cfg: Config, t: Table, h: nat, x: Id)
    requires cfg.size > 0
  {
    x in t.heap && ChainOf(cfg, t.heap[x].key) >= h
  }

  /** First chain h is swept, then the chains after it. */
  lemma SweepThrough(cfg: Config, t: Table, v: Table, u: Table, h: nat, judge: Judge, x: Id, now: int)
    requires Inv(cfg, t) && h < |t.chains|
    requires SweepOutcome(cfg, t, v, judge, x, x in t.chains[h], now)
    requires SweepOutcome(cfg, v, u, judge, x, FromChain(cfg, v, h + 1, x), now)
    ensures SweepOutcome(cfg, t, u, judge, x, FromChain(cfg, t, h, x), now)
  {
    ChainAllocated(cfg, t, h);
  }

  lemma SweepsThrough(cfg: Config, t: Table, v: Table, u: Table, h: nat, next: nat, judge: Judge, now: int)
    requires Inv(cfg, t) && h < |t.chains| && next == h + 1
    requires forall x: Id :: SweepOutcome(cfg, t, v, judge, x, x in t.chains[h][0..], now)
    requires forall x: Id :: SweepOutcome(cfg, v, u, judge, x, FromChain(cfg, v, next, x), now)
    ensures forall x: Id :: SweepOutcome(cfg, t, u, judge, x, FromChain(cfg, t, h, x), now)
  {
    assert t.chains[h][0..] == t.chains[h];
    forall x: Id ensures SweepOutcome(cfg, t, u, judge, x, FromChain(cfg, t, h, x), now) {
      assert SweepOutcome(cfg, t, v, judge, x, x in t.chains[h][0..], now);
      SweepThrough(cfg, t, v, u, h, judge, x, now);
    }
  }

  lemma {:induction false} SweptFromOutcome(cfg: Config, t: Table, h: nat, judge: Judge, now: int)
    requires Inv(cfg, t) && h <= |t.chains| && Sweeps(judge)
    ensures var u := SweptFrom(cfg, t, h, judge, now);
      && Inv(cfg, u) && u.lost == t.lost
      && forall x: Id :: SweepOutcome(cfg, t, u, judge, x, FromChain(cfg, t, h, x), now)
    decreases |t.chains| - h
  {
    if h == |t.chains| {
    } else {
      WalkSweeps(cfg, t, h, 0, judge, now);
      var v, u := WalkFrom(cfg, t, h, 0, judge, now).table, SweptFrom(cfg, t, h, judge, now);
      SweptFromOutcome(cfg, v, h + 1, judge, now);
      SweepsThrough(cfg, t, v, u, h, h + 1, judge, now);
    }
  }

  ghost function Swept(cfg: Config, t: Table, judge: Judge, now: int): Table
    requires Inv(cfg, t)
  {
    SweptFrom(cfg, t, 0, judge, now)
  }

  /** A sweep dismisses exactly the linked slots it evicts and touches nothing else. */
  lemma SweptOutcome(cfg: Config, t: Table, judge: Judge, now: int)
    requires Inv(cfg, t) && Sweeps(judge)
    ensures var u := Swept(cfg, t, judge, now);
      && Inv(cfg, u) && u.lost == t.lost
      && forall x: Id :: SweepOutcome(cfg, t, u, judge, x, true, now)
  {
    SweptFromOutcome(cfg, t, 0, judge, now);
    var u := Swept(cfg, t, judge, now);
    forall x: Id ensures SweepOutcome(cfg, t, u, judge, x, true, now) {
      assert SweepOutcome(cfg, t, u, judge, x, FromChain(cfg, t, 0, x), now);
    }
  }

  /** What apc_cache_expunge drops when a cache-wide ttl is set. */
  function ExpungeJudge(cfg: Config, now: int): Judge {
    (s: Slot) =>
      if s.key.User? then
        (if s.ttl != 0 then (if s.creation + s.ttl < now then Evict else Pass)
         else if cfg.ttl != 0 && s.creation + cfg.ttl < now then Evict else Pass)
      else if s.access < now - cfg.ttl then Evict
      else Pass
  }

  function EvictAll(): Judge { (s: Slot) => Evict }

  // ---- pending removals ---------------------------------------------------------------------------------

  /** Unreferenced, or on the list for longer than gcTtl (never, if gcTtl is 0). */
  predicate Eligible(cfg: Config, s: Slot, now: int) {
    s.refCount <= 0 || (cfg.gcTtl != 0 && now - s.deletion > cfg.gcTtl)
  }

  ghost function Dropped(t: Table, k: nat): Table
    requires k < |t.deleted|
  {
    t.(heap := t.heap - {t.deleted[k]}, deleted := t.deleted[..k] + t.deleted[k + 1..])
  }

  ghost function PendingFrom(cfg: Config, t: Table, k: nat, now: int): Table
    requires k <= |t.deleted|
    decreases |t.deleted| - k
  {
    if k == |t.deleted| then t
    else if t.deleted[k] in t.heap && Eligible(cfg, t.heap[t.deleted[k]], now) then
      PendingFrom(cfg, Dropped(t, k), k, now)
    else PendingFrom(cfg, t, k + 1, now)
  }

  ghost function Pending(cfg: Config, t: Table, now: int): Table { PendingFrom(cfg, t, 0, now) }

  /** The slots of s that are not eligible, in their order. */
  ghost function Waiting(cfg: Config, t: Table, s: seq<Id>, now: int): seq<Id> {
    if s == [] then []
    else (if s[0] in t.heap && Eligible(cfg, t.heap[s[0]], now) then [] else [s[0]]) + Waiting(cfg, t, s[1..], now)
  }

  ghost predicate PendingOutcome(cfg: Config, t: Table, u: Table, x: Id, selected: bool, now: int)
    requires cfg.size > 0
  {
    if selected && x in t.heap && Eligible(cfg, t.heap[x], now) then x !in u.heap else Untouched(cfg, t, u, x)
  }

  lemma DroppedOutcome(cfg: Config, t: Table, k: nat)
    requires Inv(cfg, t) && k < |t.deleted|
    ensures var u := Dropped(t, k);
      Inv(cfg, u) && t.deleted[k] !in u.heap && forall x: Id :: x != t.deleted[k] ==> Untouched(cfg, t, u, x)
  {
    var u, p := Dropped(t, k), t.deleted[k];
    forall i: nat | i < |t.chains| ensures p !in t.chains[i] { ChainAllocated(cfg, t, i); }
    assert forall x :: x in u.deleted ==> x in t.deleted;
    OffChains(cfg, t, u, p);
    DroppedPlaces(cfg, t, k);
  }

  lemma DroppedPlaces(cfg: Config, t: Table, k: nat)
    requires Inv(cfg, t) && k < |t.deleted|
    ensures var u, p := Dropped(t, k), t.deleted[k];
      && NoDuplicates(u.deleted) && p !in u.deleted && (forall x :: x in u.deleted ==> x in u.heap)
      && (forall x :: x in u.heap ==> Linked(cfg, u, x) || x in u.deleted || x in u.lost)
      && (forall x: Id :: x != p ==> Untouched(cfg, t, u, x))
  {
    var u, p := Dropped(t, k), t.deleted[k];
    DroppedOrder(t, k);
    assert t.deleted == t.deleted[..k] + [p] + t.deleted[k + 1..];
    forall x: Id | x != p ensures Untouched(cfg, t, u, x) {}
    forall x | x in u.heap ensures Linked(cfg, u, x) || x in u.deleted || x in u.lost {
      assert Linked(cfg, t, x) || x in t.deleted || x in t.lost;
    }
  }

  lemma {:induction false} WaitingFrame(cfg: Config, t: Table, u: Table, s: seq<Id>, now: int)
    requires forall x :: x in s ==> (x in t.heap <==> x in u.heap) && (x in t.heap ==> t.heap[x] == u.heap[x])
    ensures Waiting(cfg, t, s, now) == Waiting(cfg, u, s, now)
  {
    if s == [] {
    } else {
      WaitingFrame(cfg, t, u, s[1..], now);
    }
  }

  lemma {:induction false} PendingFromOutcome(cfg: Config, t: Table, k: nat, now: int)
    requires Inv(cfg, t) && k <= |t.deleted|
    ensures var u := PendingFrom(cfg, t, k, now);
      && Inv(cfg, u) && u.chains == t.chains && u.lost == t.lost
      && forall x: Id :: PendingOutcome(cfg, t, u, x, x in t.deleted[k..], now)
    decreases |t.deleted| - k
  {
    if k == |t.deleted| {
    } else {
      var p, rest, u := t.deleted[k], t.deleted[k + 1..], PendingFrom(cfg, t, k, now);
      assert t.deleted[k..] == [p] + rest;
      if Eligible(cfg, t.heap[p], now) {
        var v := Dropped(t, k);
        DroppedOutcome(cfg, t, k);
        PendingFromOutcome(cfg, v, k, now);
        assert v.deleted[k..] == rest;
        forall x: Id ensures PendingOutcome(cfg, t, u, x, x in t.deleted[k..], now) {
          assert PendingOutcome(cfg, v, u, x, x in v.deleted[k..], now);
        }
      } else {
        PendingFromOutcome(cfg, t, k + 1, now);
        forall x: Id ensures PendingOutcome(cfg, t, u, x, x in t.deleted[k..], now) {
          assert PendingOutcome(cfg, t, u, x, x in rest, now);
        }
      }
    }
  }

  lemma DroppedOrder(t: Table, k: nat)
    requires k < |t.deleted| && NoDuplicates(t.deleted)
    ensures var v := Dropped(t, k);
      NoDuplicates(v.deleted) && v.deleted[k..] == t.deleted[k + 1..] && v.deleted[..k] == t.deleted[..k]
    ensures t.deleted[k] !in t.deleted[k + 1..]
  {
  }

  lemma WaitingStep(cfg: Config, t: Table, k: nat, now: int)
    requires k < |t.deleted|
    ensures var p, rest := t.deleted[k], Waiting(cfg, t, t.deleted[k + 1..], now);
      Waiting(cfg, t, t.deleted[k..], now) == if p in t.heap && Eligible(cfg, t.heap[p], now) then rest else [p] + rest
  {
    assert t.deleted[k..][1..] == t.deleted[k + 1..];
  }

  lemma WaitingAfterDrop(cfg: Config, t: Table, k: nat, now: int)
    requires k < |t.deleted| && NoDuplicates(t.deleted)
    ensures var v := Dropped(t, k);
      Waiting(cfg, v, v.deleted[k..], now) == Waiting(cfg, t, t.deleted[k + 1..], now)
  {
    DroppedOrder(t, k);
    WaitingFrame(cfg, t, Dropped(t, k), t.deleted[k + 1..], now);
  }

  lemma {:induction false} PendingFromOrder(cfg: Config, t: Table, k: nat, now: int)
    requires k <= |t.deleted| && NoDuplicates(t.deleted)
    ensures PendingFrom(cfg, t, k, now).deleted == t.deleted[..k] + Waiting(cfg, t, t.deleted[k..], now)
    decreases |t.deleted| - k
  {
    if k == |t.deleted| {
      assert t.deleted[..k] + [] == t.deleted;
    } else {
      WaitingStep(cfg, t, k, now);
      if t.deleted[k] in t.heap && Eligible(cfg, t.heap[t.deleted[k]], now) {
        DroppedOrder(t, k);
        WaitingAfterDrop(cfg, t, k, now);
        PendingFromOrder(cfg, Dropped(t, k), k, now);
      } else {
        assert t.deleted[..k + 1] == t.deleted[..k] + [t.deleted[k]];
        PendingFromOrder(cfg, t, k + 1, now);
      }
    }
  }

  /** A pending-removal pass destroys exactly the eligible slots on the list, keeps the order of
      the others, and touches nothing else. */
  lemma PendingIs(cfg: Config, t: Table, now: int)
    requires Inv(cfg, t)
    ensures Inv(cfg, Pending(cfg, t, now))
    ensures Pending(cfg, t, now).chains == t.chains && Pending(cfg, t, now).lost == t.lost
    ensures forall x: Id :: PendingOutcome(cfg, t, Pending(cfg, t, now), x, x in t.deleted, now)
    ensures Pending(cfg, t, now).deleted == Waiting(cfg, t, t.deleted, now)
  {
    PendingFromOutcome(cfg, t, 0, now);
    PendingFromOrder(cfg, t, 0, now);
    assert t.deleted[0..] == t.deleted && t.deleted[..0] == [];
  }

  /** A pass destroys a slot on the list exactly if nobody refers to it or it has waited for longer than
      gcTtl, and no other slot. */
  lemma PendingDestroysIff(cfg: Config, t: Table, now: int, x: Id)
    requires Inv(cfg, t) && x in t.heap
    ensures var u := Pending(cfg, t, now);
      && (x !in u.heap <==>
            x in t.deleted && (t.heap[x].refCount <= 0 || (cfg.gcTtl != 0 && now - t.heap[x].deletion > cfg.gcTtl)))
      && (x in u.heap ==> Untouched(cfg, t, u, x))
  {
    PendingIs(cfg, t, now);
    assert PendingOutcome(cfg, t, Pending(cfg, t, now), x, x in t.deleted, now);
  }

  // ---- whole calls ------------------------------------------------------------------------------------------

  function FreshSlot(key: Key, memSize: nat, ttl: nat, now: int): Slot { Slot(key, 0, memSize, ttl, now, now, 0) }

  ghost function InsertWalk(cfg: Config, t: Table, key: Key, judge: Judge, wall: int): Walked
    requires Inv(cfg, t)
  {
    PendingIs(cfg, t, wall);
    WalkFrom(cfg, Pending(cfg, t, wall), ChainOf(cfg, key), 0, judge, wall)
  }

  /** A pending pass, the walk, and the new slot where the walk stopped. */
  ghost function AfterInsert(cfg: Config, t: Table, judge: Judge, s: Slot, id: Id, wall: int): Table
    requires Inv(cfg, t)
  {
    PendingIs(cfg, t, wall);
    var h := ChainOf(cfg, s.key);
    WalkFromOutcome(cfg, Pending(cfg, t, wall), h, 0, judge, wall);
    var w := InsertWalk(cfg, t, s.key, judge, wall);
    if w.refused then w.table else Inserted(w.table, h, w.at, id, s)
  }

  /** An insert keeps the invariant; unless refused, lookups of its key now find it. */
  lemma InsertIs(cfg: Config, t: Table, judge: Judge, s: Slot, id: Id, wall: int)
    requires Inv(cfg, t) && Plain(s.key) && JudgesFor(judge, IdentOf(s.key)) && id !in t.heap
    ensures var u, w := AfterInsert(cfg, t, judge, s, id, wall), InsertWalk(cfg, t, s.key, judge, wall);
      Inv(cfg, u) && (!w.refused ==> id !in w.table.heap && Match(cfg, u, s.key) == Some(id))
  {
    var h, p := ChainOf(cfg, s.key), Pending(cfg, t, wall);
    PendingIs(cfg, t, wall);
    WalkFromOutcome(cfg, p, h, 0, judge, wall);
    assert IdentAbsentIn(p, p.chains[h][..0], IdentOf(s.key));
    WalkClears(cfg, p, h, 0, judge, wall, IdentOf(s.key));
    var w := InsertWalk(cfg, t, s.key, judge, wall);
    assert PendingOutcome(cfg, t, p, id, id in t.deleted, wall);
    assert WalkOutcome(cfg, p, w.table, judge, id, wall);
    if !w.refused {
      InsertedKeepsInv(cfg, w.table, h, w.at, id, s);
      MatchIs(cfg, Inserted(w.table, h, w.at, id, s), s.key);
    }
  }

  /** What an insert does to the other linked slots: nothing, unless the judge evicts or replaces them. */
  lemma InsertDismissesOnly(cfg: Config, t: Table, judge: Judge, s: Slot, id: Id, wall: int, x: Id)
    requires Inv(cfg, t) && Plain(s.key) && JudgesFor(judge, IdentOf(s.key)) && id !in t.heap && Linked(cfg, t, x)
    ensures var u := AfterInsert(cfg, t, judge, s, id, wall);
      || Untouched(cfg, t, u, x)
      || ((judge(t.heap[x]).Evict? || judge(t.heap[x]).Take?) && Dismissed(cfg, t, u, x, wall))
  {
    var p, w := Pending(cfg, t, wall), InsertWalk(cfg, t, s.key, judge, wall);
    PendingIs(cfg, t, wall);
    PendingLeavesLinked(cfg, t, wall, x);
    WalkFromOutcome(cfg, p, ChainOf(cfg, s.key), 0, judge, wall);
    assert WalkOutcome(cfg, p, w.table, judge, x, wall);
    InsertIs(cfg, t, judge, s, id, wall);
    if !w.refused { InsertedLeaves(cfg, t, judge, s, id, wall, x); }
  }

  lemma InsertedLeaves(cfg: Config, t: Table, judge: Judge, s: Slot, id: Id, wall: int, x: Id)
    requires Inv(cfg, t) && Plain(s.key) && JudgesFor(judge, IdentOf(s.key)) && id !in t.heap && x != id
    requires !InsertWalk(cfg, t, s.key, judge, wall).refused
    ensures Untouched(cfg, InsertWalk(cfg, t, s.key, judge, wall).table, AfterInsert(cfg, t, judge, s, id, wall), x)
  {
    var p, w, h := Pending(cfg, t, wall), InsertWalk(cfg, t, s.key, judge, wall), ChainOf(cfg, s.key);
    PendingIs(cfg, t, wall);
    WalkFromOutcome(cfg, p, h, 0, judge, wall);
    assert PendingOutcome(cfg, t, p, id, id in t.deleted, wall) && WalkOutcome(cfg, p, w.table, judge, id, wall);
    assert IdentAbsentIn(p, p.chains[h][..0], IdentOf(s.key));
    WalkClears(cfg, p, h, 0, judge, wall, IdentOf(s.key));
    InsertedKeepsInv(cfg, w.table, h, w.at, id, s);
  }

  /** Some slot of s makes the walk give up. */
  ghost predicate RefusedIn(t: Table, s: seq<Id>, judge: Judge) {
    exists x :: x in s && x in t.heap && judge(t.heap[x]).Refuse?
  }

  lemma {:induction false} WalkRefusedIff(cfg: Config, t: Table, h: nat, k: nat, judge: Judge, now: int, ident: Ident)
    requires Inv(cfg, t) && h < |t.chains| && k <= |t.chains[h]| && JudgesFor(judge, ident)
    ensures WalkFrom(cfg, t, h, k, judge, now).refused <==> RefusedIn(t, t.chains[h][k..], judge)
    decreases |t.chains[h]| - k
  {
    if k == |t.chains[h]| {
    } else {
      ChainAllocated(cfg, t, h);
      var p, rest := t.chains[h][k], t.chains[h][k + 1..];
      assert t.chains[h][k..] == [p] + rest;
      PositionCut(cfg, t, h, k);
      RemovedKeepsInv(cfg, t, p, now);
      EvictedRest(cfg, t, h, k, now);
      match judge(t.heap[p])
      case Pass => WalkRefusedIff(cfg, t, h, k + 1, judge, now, ident);
      case Evict =>
        var v := Removed(cfg, t, p, now);
        WalkRefusedIff(cfg, v, h, k, judge, now, ident);
        RefusedInFrame(t, v, rest, judge);
      case Take => NoneRefusedBeside(cfg, t, h, k, judge, ident);
      case Refuse => assert p in t.chains[h][k..];
    }
  }

  lemma RefusedInFrame(t: Table, v: Table, s: seq<Id>, judge: Judge)
    requires forall x :: x in s ==> (x in t.heap <==> x in v.heap) && (x in t.heap ==> t.heap[x] == v.heap[x])
    ensures RefusedIn(t, s, judge) <==> RefusedIn(v, s, judge)
  {
  }

  /** Beside a slot of the key no other can be refused: keys are unique. */
  lemma NoneRefusedBeside(cfg: Config, t: Table, h: nat, k: nat, judge: Judge, ident: Ident)
    requires Inv(cfg, t) && h < |t.chains| && k < |t.chains[h]| && JudgesFor(judge, ident)
    requires t.chains[h][k] in t.heap && judge(t.heap[t.chains[h][k]]).Take?
    ensures !RefusedIn(t, t.chains[h][k..], judge)
  {
    ChainAllocated(cfg, t, h);
    forall x | x in t.chains[h][k..] && x in t.heap ensures !judge(t.heap[x]).Refuse? {
      var j: nat :| k <= j < |t.chains[h]| && t.chains[h][j] == x;
      assert t.chains[h][k] in t.chains[h] && x in t.chains[h];
      if j > k { KeysDiffer(cfg, t, h, k, j); }
    }
  }

  /** Some linked slot makes the judge refuse. */
  ghost predicate Refuses(cfg: Config, t: Table, judge: Judge)
    requires cfg.size > 0
  {
    exists x: Id :: Linked(cfg, t, x) && judge(t.heap[x]).Refuse?
  }

  /** An insert is refused exactly if a linked slot of its key makes the judge refuse. */
  lemma InsertRefusedIff(cfg: Config, t: Table, key: Key, judge: Judge, wall: int)
    requires Inv(cfg, t) && Plain(key) && JudgesFor(judge, IdentOf(key))
    ensures InsertWalk(cfg, t, key, judge, wall).refused <==> Refuses(cfg, t, judge)
  {
    var p, h := Pending(cfg, t, wall), ChainOf(cfg, key);
    PendingIs(cfg, t, wall);
    WalkRefusedIff(cfg, p, h, 0, judge, wall, IdentOf(key));
    assert p.chains[h][0..] == p.chains[h];
    ChainAllocated(cfg, p, h);
    forall x: Id ensures Linked(cfg, t, x) && judge(t.heap[x]).Refuse? <==>
      x in p.chains[h] && x in p.heap && judge(p.heap[x]).Refuse? {
      PendingLeavesLinked(cfg, t, wall, x);
      if Linked(cfg, t, x) && judge(t.heap[x]).Refuse? {
        ChainAllocated(cfg, t, ChainOf(cfg, t.heap[x].key));
        SameIdentSameChain(cfg, t.heap[x].key, key);
      }
    }
  }

  lemma PendingLeavesLinked(cfg: Config, t: Table, wall: int, x: Id)
    requires Inv(cfg, t)
    ensures Linked(cfg, t, x) <==> Linked(cfg, Pending(cfg, t, wall), x)
    ensures Linked(cfg, t, x) ==> x in Pending(cfg, t, wall).heap && Pending(cfg, t, wall).heap[x] == t.heap[x]
  {
    var p := Pending(cfg, t, wall);
    PendingIs(cfg, t, wall);
    assert PendingOutcome(cfg, t, p, x, x in t.deleted, wall);
    if Linked(cfg, t, x) { ChainAllocated(cfg, t, ChainOf(cfg, t.heap[x].key)); }
  }

  /** An exclusive user insert is refused exactly while the key is stored and not over its age; any
      other goes ahead. */
  lemma UserInsertRefusedIff(cfg: Config, t: Table, key: Key, exclusive: bool, now: int, wall: int)
    requires Inv(cfg, t) && Plain(key)
    ensures InsertWalk(cfg, t, key, UserJudge(cfg, key, exclusive, now), wall).refused <==>
      exclusive && exists x: Id ::
        && Linked(cfg, t, x) && IdentOf(t.heap[x].key) == IdentOf(key)
        && (t.heap[x].ttl == 0 || now <= t.heap[x].creation + t.heap[x].ttl)
  {
    var judge := UserJudge(cfg, key, exclusive, now);
    JudgesAreFaithful(cfg, key, exclusive, now);
    InsertRefusedIff(cfg, t, key, judge, wall);
    forall x: Id | Linked(cfg, t, x)
      ensures judge(t.heap[x]).Refuse? <==>
        exclusive && IdentOf(t.heap[x].key) == IdentOf(key)
        && (t.heap[x].ttl == 0 || now <= t.heap[x].creation + t.heap[x].ttl)
    {
      ChainAllocated(cfg, t, ChainOf(cfg, t.heap[x].key));
      SameKeyMeansSameIdent(cfg, key, t.heap[x].key);
    }
  }

  /** A file insert is refused exactly if the same version of the file is stored and no update is forced. */
  lemma FileInsertRefusedIff(cfg: Config, t: Table, key: Key, force: bool, now: int, wall: int)
    requires Inv(cfg, t) && Plain(key)
    ensures InsertWalk(cfg, t, key, FileJudge(cfg, key, force, now), wall).refused <==>
      key.File? && !force && exists x: Id :: Linked(cfg, t, x) && t.heap[x].key == key
  {
    var judge := FileJudge(cfg, key, force, now);
    JudgesAreFaithful(cfg, key, force, now);
    InsertRefusedIff(cfg, t, key, judge, wall);
    forall x: Id | Linked(cfg, t, x) ensures judge(t.heap[x]).Refuse? <==> key.File? && !force && t.heap[x].key == key {
      ChainAllocated(cfg, t, ChainOf(cfg, t.heap[x].key));
      SameKeyMeansSameIdent(cfg, key, t.heap[x].key);
    }
  }

  // ---- when the new slot cannot be allocated ------------------------------------------------------

  /** The code stores NULL where the new slot would have gone, which cuts the chain there: the slots behind
      are lost. */
  ghost function CutOff(t: Table, h: nat, at: nat): Table
    requires h < |t.chains| && at <= |t.chains[h]|
  {
    t.(chains := t.chains[h := t.chains[h][..at]], lost := t.lost + t.chains[h][at..])
  }

  lemma CutChains(cfg: Config, t: Table, h: nat, at: nat)
    requires Inv(cfg, t) && h < |t.chains| && at <= |t.chains[h]|
    ensures ChainsOk(cfg, CutOff(t, h, at))
  {
    var u := CutOff(t, h, at);
    forall i: nat, k: nat | i < |u.chains| && k < |u.chains[i]| ensures LinkOk(cfg, u, i, k) {
      assert LinkOk(cfg, t, i, k);
      if u.chains[i][k] in t.chains[h][at..] { CutIsElsewhere(cfg, t, h, at, i, k); }
    }
    forall i: nat, j: nat, k: nat | i < |u.chains| && j < k < |u.chains[i]| ensures DifferentKeys(u, i, j, k) {
      assert DifferentKeys(t, i, j, k);
    }
  }

  lemma CutIsElsewhere(cfg: Config, t: Table, h: nat, at: nat, i: nat, k: nat)
    requires Inv(cfg, t) && h < |t.chains| && at <= |t.chains[h]|
    requires i < |t.chains| && k < |t.chains[i]| && (i == h ==> k < at)
    ensures t.chains[i][k] !in t.chains[h][at..]
  {
    forall j: nat | at <= j < |t.chains[h]| ensures t.chains[h][j] != t.chains[i][k] {
      assert LinkOk(cfg, t, i, k) && LinkOk(cfg, t, h, j);
      if i == h { KeysDiffer(cfg, t, h, k, j); }
    }
  }

  lemma CutIsLost(cfg: Config, t: Table, h: nat, at: nat)
    requires Inv(cfg, t) && h < |t.chains| && at <= |t.chains[h]|
    ensures LostOk(CutOff(t, h, at))
  {
    var s := t.chains[h][at..];
    ChainAllocated(cfg, t, h);
    assert forall x :: x in s ==> x in t.chains[h];
    forall j: nat, k: nat | j < k < |s| ensures s[j] != s[k] { KeysDiffer(cfg, t, h, at + j, at + k); }
    NoDuplicatesInConcat(t.lost, s);
  }

  /** Losing slots keeps the invariant: they stay counted, and cannot be found. */
  lemma CutOffKeepsInv(cfg: Config, t: Table, h: nat, at: nat)
    requires Inv(cfg, t) && h < |t.chains| && at <= |t.chains[h]|
    ensures Inv(cfg, CutOff(t, h, at))
  {
    var u, s := CutOff(t, h, at), t.chains[h];
    CutChains(cfg, t, h, at);
    CutIsLost(cfg, t, h, at);
    TotalOfUpdate(t.chains, h, s[..at], |t.chains|);
    assert s == s[..at] + s[at..];
    ChainMemAppend(t.heap, s[..at], s[at..]);
    ChainMemAppend(t.heap, t.lost, s[at..]);
    TotalMemUpdate(t.heap, t.heap, t.chains, h, s[..at], |t.chains|);
    forall x | x in u.heap ensures Linked(cfg, u, x) || x in u.deleted || x in u.lost {
      assert Linked(cfg, t, x) || x in t.deleted || x in t.lost;
      assert x in s ==> x in s[..at] || x in s[at..];
    }
  }

  /** A pending pass, the walk, and the cut where the walk stopped. */
  ghost function AfterFailedInsert(cfg: Config, t: Table, judge: Judge, key: Key, wall: int): Table
    requires Inv(cfg, t)
  {
    PendingIs(cfg, t, wall);
    WalkFromOutcome(cfg, Pending(cfg, t, wall), ChainOf(cfg, key), 0, judge, wall);
    var w := InsertWalk(cfg, t, key, judge, wall);
    if w.refused then w.table else CutOff(w.table, ChainOf(cfg, key), w.at)
  }

  ghost predicate HasIdent(t: Table, x: Id, ident: Ident) { x in t.heap && IdentOf(t.heap[x].key) == ident }

  /** What comes after the first slot of s that carries the key. */
  ghost function Behind(t: Table, s: seq<Id>, ident: Ident): seq<Id> {
    if s == [] then [] else if HasIdent(t, s[0], ident) then s[1..] else Behind(t, s[1..], ident)
  }

  /** Behind the slot that a lookup of the key stops at; nothing, if it stops nowhere. */
  lemma {:induction false} BehindIs(cfg: Config, t: Table, key: Key, h: nat, k: nat)
    requires cfg.size > 0 && ChainsOk(cfg, t) && h < |t.chains| && k <= |t.chains[h]|
    ensures var f := FirstSame(cfg, t, key, h, k);
      && f <= |t.chains[h]|
      && Behind(t, t.chains[h][k..], IdentOf(key)) == if f < |t.chains[h]| then t.chains[h][f + 1..] else []
    decreases |t.chains[h]| - k
  {
    if k == |t.chains[h]| {
      assert t.chains[h][k..] == [];
    } else {
      assert LinkOk(cfg, t, h, k);
      SameKeyMeansSameIdent(cfg, key, t.heap[t.chains[h][k]].key);
      assert t.chains[h][k..][1..] == t.chains[h][k + 1..];
      BehindIs(cfg, t, key, h, k + 1);
    }
  }

  lemma {:induction false} BehindFrame(t: Table, v: Table, s: seq<Id>, ident: Ident)
    requires forall x :: x in s ==> (HasIdent(t, x, ident) <==> HasIdent(v, x, ident))
    ensures Behind(t, s, ident) == Behind(v, s, ident)
  {
    if s == [] {
    } else {
      assert s[0] in s;
      BehindFrame(t, v, s[1..], ident);
    }
  }

  /** A walk that is not refused stops where nothing follows, unless it replaces the slot of the key: then what
      was behind that slot follows. */
  lemma {:induction false} WalkLeaves(cfg: Config, t: Table, h: nat, k: nat, judge: Judge, now: int, ident: Ident)
    requires Inv(cfg, t) && h < |t.chains| && k <= |t.chains[h]| && JudgesFor(judge, ident)
    requires !WalkFrom(cfg, t, h, k, judge, now).refused
    ensures var w := WalkFrom(cfg, t, h, k, judge, now);
      && h < |w.table.chains| && w.at <= |w.table.chains[h]|
      && w.table.chains[h][w.at..] == Behind(t, t.chains[h][k..], ident)
    decreases |t.chains[h]| - k
  {
    if k == |t.chains[h]| {
      assert t.chains[h][k..] == [];
    } else {
      ChainAllocated(cfg, t, h);
      var p, rest := t.chains[h][k], t.chains[h][k + 1..];
      assert t.chains[h][k..][0] == p && t.chains[h][k..][1..] == rest;
      PositionCut(cfg, t, h, k);
      EvictedRest(cfg, t, h, k, now);
      match judge(t.heap[p])
      case Pass => WalkLeaves(cfg, t, h, k + 1, judge, now, ident);
      case Evict => EvictThenLeaves(cfg, t, h, k, judge, now, ident);
      case Take =>
    }
  }

  lemma EvictThenLeaves(cfg: Config, t: Table, h: nat, k: nat, judge: Judge, now: int, ident: Ident)
    requires Inv(cfg, t) && h < |t.chains| && k < |t.chains[h]| && JudgesFor(judge, ident)
    requires Linked(cfg, t, t.chains[h][k]) && judge(t.heap[t.chains[h][k]]).Evict?
    requires !WalkFrom(cfg, t, h, k, judge, now).refused
    ensures var w := WalkFrom(cfg, t, h, k, judge, now);
      && h < |w.table.chains| && w.at <= |w.table.chains[h]|
      && w.table.chains[h][w.at..] == Behind(t, t.chains[h][k + 1..], ident)
    decreases |t.chains[h]| - k, 0
  {
    var p, rest := t.chains[h][k], t.chains[h][k + 1..];
    var v := Removed(cfg, t, p, now);
    PositionCut(cfg, t, h, k);
    RemovedKeepsInv(cfg, t, p, now);
    EvictedRest(cfg, t, h, k, now);
    WalkLeaves(cfg, v, h, k, judge, now, ident);
    forall x | x in rest ensures HasIdent(t, x, ident) <==> HasIdent(v, x, ident) {
      assert x != p && Untouched(cfg, t, v, x);
    }
    BehindFrame(t, v, rest, ident);
  }

  /** An insert that cannot allocate its slot loses exactly the slots that were, before the call, behind the
      slot of the key in its chain; none if it is refused. It keeps the invariant all the same. */
  lemma FailedInsertLoses(cfg: Config, t: Table, judge: Judge, key: Key, wall: int)
    requires Inv(cfg, t) && Plain(key) && JudgesFor(judge, IdentOf(key))
    ensures var u := AfterFailedInsert(cfg, t, judge, key, wall);
      && Inv(cfg, u)
      && u.lost == if Refuses(cfg, t, judge) then t.lost
                   else t.lost + Behind(t, t.chains[ChainOf(cfg, key)], IdentOf(key))
  {
    var p, h, ident := Pending(cfg, t, wall), ChainOf(cfg, key), IdentOf(key);
    var w := InsertWalk(cfg, t, key, judge, wall);
    PendingIs(cfg, t, wall);
    InsertRefusedIff(cfg, t, key, judge, wall);
    WalkFromOutcome(cfg, p, h, 0, judge, wall);
    if !w.refused {
      WalkLeaves(cfg, p, h, 0, judge, wall, ident);
      assert p.chains[h][0..] == t.chains[h];
      BehindAfterPass(cfg, t, wall, h, ident);
      CutOffKeepsInv(cfg, w.table, h, w.at);
    }
  }

  lemma BehindAfterPass(cfg: Config, t: Table, wall: int, h: nat, ident: Ident)
    requires Inv(cfg, t) && h < |t.chains|
    ensures Behind(Pending(cfg, t, wall), t.chains[h], ident) == Behind(t, t.chains[h], ident)
  {
    var p := Pending(cfg, t, wall);
    PendingIs(cfg, t, wall);
    ChainAllocated(cfg, t, h);
    forall x | x in t.chains[h] ensures HasIdent(t, x, ident) <==> HasIdent(p, x, ident) {
      assert PendingOutcome(cfg, t, p, x, x in t.deleted, wall);
    }
    BehindFrame(t, p, t.chains[h], ident);
  }

  /** What an insert does, by how its walk ends. */
  lemma InsertCases(cfg: Config, t: Table, judge: Judge, s: Slot, id: Id, wall: int)
    requires Inv(cfg, t) && Plain(s.key) && JudgesFor(judge, IdentOf(s.key)) && id !in t.heap
    ensures var w, h := InsertWalk(cfg, t, s.key, judge, wall), ChainOf(cfg, s.key);
      var made, failed := AfterInsert(cfg, t, judge, s, id, wall), AfterFailedInsert(cfg, t, judge, s.key, wall);
      && (w.refused <==> Refuses(cfg, t, judge))
      && Inv(cfg, made) && Inv(cfg, failed) && made.lost == t.lost
      && if w.refused then made == w.table && failed == w.table
         else
           && h < |w.table.chains| && w.at <= |w.table.chains[h]|
           && made == Inserted(w.table, h, w.at, id, s) && Match(cfg, made, s.key) == Some(id)
           && failed == CutOff(w.table, h, w.at) && failed.lost == t.lost + Behind(t, t.chains[h], IdentOf(s.key))
  {
    InsertIs(cfg, t, judge, s, id, wall);
    InsertRefusedIff(cfg, t, s.key, judge, wall);
    FailedInsertLoses(cfg, t, judge, s.key, wall);
    PendingIs(cfg, t, wall);
    WalkFromOutcome(cfg, Pending(cfg, t, wall), ChainOf(cfg, s.key), 0, judge, wall);
  }

  /** A walk that is not refused drops the slot of the key, and of the slots it passes before that one exactly
      those the judge evicts. */
  ghost predicate WalkDrops(t: Table, s: seq<Id>, judge: Judge, ident: Ident, x: Id) {
    && x in s && x in t.heap
    && (HasIdent(t, x, ident) || (judge(t.heap[x]).Evict? && x !in Behind(t, s, ident)))
  }

  ghost predicate DropOutcome(cfg: Config, t: Table, u: Table, x: Id, drops: bool, now: int)
    requires cfg.size > 0
  {
    if drops then Dismissed(cfg, t, u, x, now) else Untouched(cfg, t, u, x)
  }

  lemma {:induction false} BehindIsIn(t: Table, s: seq<Id>, ident: Ident, x: Id)
    ensures x in Behind(t, s, ident) ==> x in s
  {
    if s == [] {
    } else {
      BehindIsIn(t, s[1..], ident, x);
    }
  }

  lemma {:induction false} WalkDropsIff(cfg: Config, t: Table, h: nat, k: nat, judge: Judge, now: int, ident: Ident,
                                        x: Id)
    requires Inv(cfg, t) && h < |t.chains| && k <= |t.chains[h]| && JudgesFor(judge, ident)
    requires !WalkFrom(cfg, t, h, k, judge, now).refused
    ensures DropOutcome(cfg, t, WalkFrom(cfg, t, h, k, judge, now).table, x,
                        WalkDrops(t, t.chains[h][k..], judge, ident, x), now)
    decreases |t.chains[h]| - k
  {
    if k == |t.chains[h]| {
      assert t.chains[h][k..] == [];
    } else {
      ChainAllocated(cfg, t, h);
      var p, rest := t.chains[h][k], t.chains[h][k + 1..];
      assert t.chains[h][k..] == [p] + rest;
      PositionCut(cfg, t, h, k);
      EvictedRest(cfg, t, h, k, now);
      BehindIsIn(t, rest, ident, p);
      match judge(t.heap[p])
      case Pass => PassThenDrops(cfg, t, h, k, judge, now, ident, x);
      case Evict => EvictThenDrops(cfg, t, h, k, judge, now, ident, x);
      case Take => TakenThenDrops(cfg, t, h, k, now, ident, x);
    }
  }

  lemma PassThenDrops(cfg: Config, t: Table, h: nat, k: nat, judge: Judge, now: int, ident: Ident, x: Id)
    requires Inv(cfg, t) && h < |t.chains| && k < |t.chains[h]| && JudgesFor(judge, ident)
    requires t.chains[h][k] in t.heap && Plain(t.heap[t.chains[h][k]].key) && judge(t.heap[t.chains[h][k]]).Pass?
    requires t.chains[h][k] !in t.chains[h][k + 1..] && !WalkFrom(cfg, t, h, k, judge, now).refused
    ensures DropOutcome(cfg, t, WalkFrom(cfg, t, h, k, judge, now).table, x,
                        WalkDrops(t, t.chains[h][k..], judge, ident, x), now)
    decreases |t.chains[h]| - k, 0
  {
    var p, rest := t.chains[h][k], t.chains[h][k + 1..];
    assert t.chains[h][k..] == [p] + rest && ([p] + rest)[1..] == rest;
    WalkDropsIff(cfg, t, h, k + 1, judge, now, ident, x);
  }

  lemma EvictThenDrops(cfg: Config, t: Table, h: nat, k: nat, judge: Judge, now: int, ident: Ident, x: Id)
    requires Inv(cfg, t) && h < |t.chains| && k < |t.chains[h]| && JudgesFor(judge, ident)
    requires Linked(cfg, t, t.chains[h][k]) && judge(t.heap[t.chains[h][k]]).Evict?
    requires Plain(t.heap[t.chains[h][k]].key) && !WalkFrom(cfg, t, h, k, judge, now).refused
    ensures DropOutcome(cfg, t, WalkFrom(cfg, t, h, k, judge, now).table, x,
                        WalkDrops(t, t.chains[h][k..], judge, ident, x), now)
    decreases |t.chains[h]| - k, 0
  {
    var p, rest := t.chains[h][k], t.chains[h][k + 1..];
    var v, u := Removed(cfg, t, p, now), WalkFrom(cfg, t, h, k, judge, now).table;
    assert t.chains[h][k..] == [p] + rest && ([p] + rest)[1..] == rest;
    PositionCut(cfg, t, h, k);
    RemovedKeepsInv(cfg, t, p, now);
    EvictedRest(cfg, t, h, k, now);
    WalkDropsIff(cfg, v, h, k, judge, now, ident, x);
    forall y | y in rest ensures HasIdent(t, y, ident) <==> HasIdent(v, y, ident) {
      assert y != p && Untouched(cfg, t, v, y);
    }
    BehindFrame(t, v, rest, ident);
    BehindIsIn(t, rest, ident, p);
    DropsAfterEviction(cfg, t, v, u, judge, ident, p, rest, x, now);
  }

  lemma DropsAfterEviction(cfg: Config, t: Table, v: Table, u: Table, judge: Judge, ident: Ident, p: Id, rest: seq<Id>,
                           x: Id, now: int)
    requires cfg.size > 0 && p in t.heap && judge(t.heap[p]).Evict? && !HasIdent(t, p, ident) && p !in rest
    requires Dismissed(cfg, t, v, p, now) && (x != p ==> Untouched(cfg, t, v, x))
    requires Behind(t, [p] + rest, ident) == Behind(v, rest, ident) && p !in Behind(v, rest, ident)
    requires DropOutcome(cfg, v, u, x, WalkDrops(v, rest, judge, ident, x), now)
    ensures DropOutcome(cfg, t, u, x, WalkDrops(t, [p] + rest, judge, ident, x), now)
  {
  }

  lemma TakenThenDrops(cfg: Config, t: Table, h: nat, k: nat, now: int, ident: Ident, x: Id)
    requires Inv(cfg, t) && h < |t.chains| && k < |t.chains[h]| && Linked(cfg, t, t.chains[h][k])
    requires HasIdent(t, t.chains[h][k], ident)
    ensures forall judge: Judge :: DropOutcome(cfg, t, Removed(cfg, t, t.chains[h][k], now), x,
                                               WalkDrops(t, t.chains[h][k..], judge, ident, x), now)
  {
    var p, rest := t.chains[h][k], t.chains[h][k + 1..];
    assert t.chains[h][k..] == [p] + rest && ([p] + rest)[1..] == rest;
    RemovedKeepsInv(cfg, t, p, now);
    if x in rest {
      var j: nat :| k < j < |t.chains[h]| && t.chains[h][j] == x;
      KeysDiffer(cfg, t, h, k, j);
    }
  }

  /** What an insert that is not refused does to a linked slot. */
  lemma InsertDropsIff(cfg: Config, t: Table, judge: Judge, s: Slot, id: Id, wall: int, x: Id)
    requires Inv(cfg, t) && Plain(s.key) && JudgesFor(judge, IdentOf(s.key)) && id !in t.heap && Linked(cfg, t, x)
    requires !Refuses(cfg, t, judge)
    ensures DropOutcome(cfg, t, AfterInsert(cfg, t, judge, s, id, wall), x,
                        WalkDrops(t, t.chains[ChainOf(cfg, s.key)], judge, IdentOf(s.key), x), wall)
  {
    var p, h, ident := Pending(cfg, t, wall), ChainOf(cfg, s.key), IdentOf(s.key);
    InsertRefusedIff(cfg, t, s.key, judge, wall);
    PendingIs(cfg, t, wall);
    PendingLeavesLinked(cfg, t, wall, x);
    WalkDropsIff(cfg, p, h, 0, judge, wall, ident, x);
    assert p.chains[h][0..] == t.chains[h];
    BehindAfterPass(cfg, t, wall, h, ident);
    InsertedLeaves(cfg, t, judge, s, id, wall, x);
  }

  /** A user insert drops the slot of its key; of the slots before that one in the chain it drops those not
      accessed for longer than the cache's ttl and those over their own; and no other. */
  lemma UserInsertDropsIff(cfg: Config, t: Table, key: Key, exclusive: bool, weight: nat, ttl: nat, now: int, id: Id,
                           wall: int, x: Id)
    requires Inv(cfg, t) && Plain(key) && id !in t.heap && Linked(cfg, t, x)
    requires !Refuses(cfg, t, UserJudge(cfg, key, exclusive, now))
    ensures var chain, s := t.chains[ChainOf(cfg, key)], t.heap[x];
      var drops := x in chain && (IdentOf(s.key) == IdentOf(key)
        || (x !in Behind(t, chain, IdentOf(key))
            && ((cfg.ttl != 0 && now - s.access > cfg.ttl) || (s.ttl != 0 && now - s.creation > s.ttl))));
      DropOutcome(cfg, t, AfterInsert(cfg, t, UserJudge(cfg, key, exclusive, now), FreshSlot(key, weight, ttl, now), id,
                                      wall), x, drops, wall)
  {
    JudgesAreFaithful(cfg, key, exclusive, now);
    InsertDropsIff(cfg, t, UserJudge(cfg, key, exclusive, now), FreshSlot(key, weight, ttl, now), id, wall, x);
    ChainAllocated(cfg, t, ChainOf(cfg, t.heap[x].key));
    SameKeyMeansSameIdent(cfg, key, t.heap[x].key);
  }

  /** A file insert drops the slot of its key; of the slots before that one it drops those of the same type of
      key that were not accessed for longer than the cache's ttl; and no other. */
  lemma FileInsertDropsIff(cfg: Config, t: Table, key: Key, force: bool, weight: nat, ttl: nat, now: int, id: Id,
                           wall: int, x: Id)
    requires Inv(cfg, t) && Plain(key) && id !in t.heap && Linked(cfg, t, x)
    requires !Refuses(cfg, t, FileJudge(cfg, key, force, now))
    ensures var chain, s := t.chains[ChainOf(cfg, key)], t.heap[x];
      var drops := x in chain && (IdentOf(s.key) == IdentOf(key)
        || (x !in Behind(t, chain, IdentOf(key))
            && (s.key.File? == key.File? && s.key.User? == key.User?) && cfg.ttl != 0 && now - s.access > cfg.ttl));
      DropOutcome(cfg, t, AfterInsert(cfg, t, FileJudge(cfg, key, force, now), FreshSlot(key, weight, ttl, now), id,
                                      wall), x, drops, wall)
  {
    JudgesAreFaithful(cfg, key, force, now);
    InsertDropsIff(cfg, t, FileJudge(cfg, key, force, now), FreshSlot(key, weight, ttl, now), id, wall, x);
    ChainAllocated(cfg, t, ChainOf(cfg, t.heap[x].key));
    SameKeyMeansSameIdent(cfg, key, t.heap[x].key);
  }

  ghost function AfterDelete(cfg: Config, t: Table, key: Key, wall: int): Table
    requires Inv(cfg, t) && Plain(key)
  {
    match Match(cfg, t, key)
    case None => t
    case Some(id) => MatchIs(cfg, t, key); Removed(cfg, t, id, wall)
  }

  /** After a delete no slot has the key, and every other slot is where it was. */
  lemma DeleteClears(cfg: Config, t: Table, key: Key, wall: int)
    requires Inv(cfg, t) && Plain(key)
    ensures var u := AfterDelete(cfg, t, key, wall);
      && Inv(cfg, u) && IdentAbsent(cfg, u, IdentOf(key))
      && (forall x: Id :: !Linked(cfg, t, x) || IdentOf(t.heap[x].key) != IdentOf(key) ==> Untouched(cfg, t, u, x))
      && (forall x: Id :: Linked(cfg, t, x) && IdentOf(t.heap[x].key) == IdentOf(key) ==> Dismissed(cfg, t, u, x, wall))
  {
    MatchIs(cfg, t, key);
    match Match(cfg, t, key)
    case None =>
    case Some(id) =>
      RemovedKeepsInv(cfg, t, id, wall);
      var u := Removed(cfg, t, id, wall);
      forall x: Id | Linked(cfg, u, x) ensures IdentOf(u.heap[x].key) != IdentOf(key) {
        assert x != id && Untouched(cfg, t, u, x);
      }
  }

  ghost function Released(t: Table, id: Id): Table
    requires id in t.heap
  {
    t.(heap := t.heap[id := t.heap[id].(refCount := t.heap[id].refCount - 1)])
  }

  lemma HasMember(s: seq<Id>)
    ensures s != [] ==> exists x :: x in s
  {
    if s != [] { assert s[0] in s; }
  }

  /** Clearing leaves every chain empty, and the counters at what is lost. */
  lemma SweptEmpties(cfg: Config, t: Table, wall: int)
    requires Inv(cfg, t)
    ensures var u := Swept(cfg, t, EvictAll(), wall);
      && Inv(cfg, u) && u.lost == t.lost && u.numEntries == |t.lost| && u.memSize == ChainMem(u.heap, t.lost)
      && forall h: nat :: h < |u.chains| ==> u.chains[h] == []
  {
    SweptOutcome(cfg, t, EvictAll(), wall);
    var u := Swept(cfg, t, EvictAll(), wall);
    forall x: Id ensures !Linked(cfg, u, x) {
      assert SweepOutcome(cfg, t, u, EvictAll(), x, true, wall);
    }
    forall h: nat | h < |u.chains| ensures u.chains[h] == [] {
      ChainAllocated(cfg, u, h);
      HasMember(u.chains[h]);
    }
    EmptyTotal(u.chains, |u.chains|);
    EmptyMem(u.heap, u.chains, |u.chains|);
  }

  lemma {:induction false} EmptyMem(heap: map<Id, Slot>, chains: seq<seq<Id>>, n: nat)
    requires n <= |chains| && forall i: nat :: i < n ==> chains[i] == []
    ensures TotalMem(heap, chains, n) == 0
  {
    if n == 0 {
    } else {
      EmptyMem(heap, chains, n - 1);
    }
  }

  /** roomBefore and roomAfter: what the allocator says after the pending pass and after the sweep. */
  ghost function AfterExpunge(cfg: Config, t: Table, now: int, wall: int, roomBefore: bool, roomAfter: bool): Table
    requires Inv(cfg, t)
  {
    PendingIs(cfg, t, wall);
    var p := Pending(cfg, t, wall);
    if roomBefore then p
    else if cfg.ttl == 0 then Swept(cfg, p, EvictAll(), wall)
    else
      SweptOutcome(cfg, p, ExpungeJudge(cfg, now), wall);
      var s := Swept(cfg, p, ExpungeJudge(cfg, now), wall);
      if roomAfter then s else Swept(cfg, s, EvictAll(), wall)
  }

  /** x is linked under the typed key and, for a file, of the same modification time, for a user value, not over
      its ttl. */
  ghost predicate Fetchable(cfg: Config, t: Table, key: Key, now: int, x: Id)
    requires cfg.size > 0
  {
    && Linked(cfg, t, x) && t.heap[x].key == key
    && (key.User? ==> t.heap[x].ttl == 0 || now <= t.heap[x].creation + t.heap[x].ttl)
  }

  /** That is exactly what a lookup hands out. */
  lemma FoundIff(cfg: Config, t: Table, key: Key, now: int, x: Id)
    requires Inv(cfg, t) && Plain(key)
    ensures Found(cfg, t, key, now) == Some(x) <==> Fetchable(cfg, t, key, now, x)
  {
    MatchIs(cfg, t, key);
  }

  /** r is the one slot that can be fetched, or none can. */
  ghost predicate IsFetched(cfg: Config, t: Table, key: Key, now: int, r: Option<Id>)
    requires cfg.size > 0
  {
    forall x: Id :: r == Some(x) <==> Fetchable(cfg, t, key, now, x)
  }

  lemma FoundIsFetched(cfg: Config, t: Table, key: Key, now: int)
    requires Inv(cfg, t) && Plain(key)
    ensures IsFetched(cfg, t, key, now, Found(cfg, t, key, now))
  {
    forall x: Id ensures Found(cfg, t, key, now) == Some(x) <==> Fetchable(cfg, t, key, now, x) {
      FoundIff(cfg, t, key, now, x);
    }
  }

  /** A hit takes one reference and notes the time, and nothing else. */
  lemma HitTakesReference(cfg: Config, t: Table, key: Key, now: int, wall: int, x: Id)
    requires Inv(cfg, t) && Plain(key) && Found(cfg, t, key, now) == Some(x)
    ensures x in t.heap
    ensures AfterFind(cfg, t, key, now, wall) ==
      t.(heap := t.heap[x := t.heap[x].(refCount := t.heap[x].refCount + 1, access := now)])
  {
    MatchIs(cfg, t, key);
  }

  /** A miss touches no slot but the outdated one of the key, and dismisses that exactly if lookups hold the
      write lock. */
  lemma MissDismissesIff(cfg: Config, t: Table, key: Key, now: int, wall: int, x: Id)
    requires Inv(cfg, t) && Plain(key) && Found(cfg, t, key, now) == None
    ensures var u := AfterFind(cfg, t, key, now, wall);
      var same := Linked(cfg, t, x) && IdentOf(t.heap[x].key) == IdentOf(key);
      if same && !cfg.readLocks then Dismissed(cfg, t, u, x, wall) else Untouched(cfg, t, u, x)
  {
    MatchIs(cfg, t, key);
    match Match(cfg, t, key)
    case None =>
    case Some(id) => RemovedKeepsInv(cfg, t, id, wall);
  }

  /** A value inserted with a ttl is found exactly until the ttl is over; without one, always. */
  lemma InsertThenFind(cfg: Config, t: Table, judge: Judge, name: string, weight: nat, ttl: nat, now: int, id: Id,
                       wall: int, u: int)
    requires Inv(cfg, t) && NUL !in name && JudgesFor(judge, UserId(name)) && id !in t.heap
    requires !Refuses(cfg, t, judge)
    ensures var d := AfterInsert(cfg, t, judge, FreshSlot(User(name), weight, ttl, now), id, wall);
      Inv(cfg, d) && Found(cfg, d, User(name), u) == if ttl == 0 || u <= now + ttl then Some(id) else None
  {
    var s := FreshSlot(User(name), weight, ttl, now);
    InsertCases(cfg, t, judge, s, id, wall);
    var d := AfterInsert(cfg, t, judge, s, id, wall);
    MatchIs(cfg, d, User(name));
  }

  /** After an expunge a slot is linked exactly if it was, and there was room already, or dropping stale slots
      made enough and this one was not stale: a user value not over its own ttl or, without one, the cache's
      since its creation; a file accessed within that time. */
  lemma ExpungeIs(cfg: Config, t: Table, now: int, wall: int, roomBefore: bool, roomAfter: bool, x: Id)
    requires Inv(cfg, t)
    ensures Linked(cfg, AfterExpunge(cfg, t, now, wall, roomBefore, roomAfter), x) <==>
      && Linked(cfg, t, x)
      && (roomBefore || (cfg.ttl != 0 && roomAfter && var s := t.heap[x];
           if !s.key.User? then now - cfg.ttl <= s.access
           else now <= s.creation + (if s.ttl != 0 then s.ttl else cfg.ttl)))
  {
    PendingIs(cfg, t, wall);
    PendingLeavesLinked(cfg, t, wall, x);
    var p, judge := Pending(cfg, t, wall), if cfg.ttl == 0 then EvictAll() else ExpungeJudge(cfg, now);
    if !roomBefore {
      var s := Swept(cfg, p, judge, wall);
      SweptOutcome(cfg, p, judge, wall);
      assert SweepOutcome(cfg, p, s, judge, x, true, wall);
      if cfg.ttl != 0 && !roomAfter {
        SweptOutcome(cfg, s, EvictAll(), wall);
        assert SweepOutcome(cfg, s, Swept(cfg, s, EvictAll(), wall), EvictAll(), x, true, wall);
      }
    }
  }
}
