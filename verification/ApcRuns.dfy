/** Any interleaving of the locked operations of one APC cache, with the references its users hold. */
module ApcRuns {
  import opened Chains
  import opened ApcSpec

  /** borrowed: every slot found and not yet released, as often as it was found. */
  datatype Sys = Sys(table: Table, borrowed: multiset<Id>)

  /** made: whether make_slot succeeds. */
  datatype Event =
    | Insert(judge: Judge, slot: Slot, id: Id, made: bool)
    | Find(key: Key, now: int)
    | Release(id: Id)
    | Delete(key: Key)
    | Clear
    | Expunge(now: int, roomBefore: bool, roomAfter: bool)

  /** wall: the time of day at which the step is taken. */
  datatype Step = Step(event: Event, wall: int)

  ghost predicate Next(cfg: Config, s: Sys, p: Step, u: Sys)
    requires Inv(cfg, s.table)
  {
    var t := s.table;
    match p.event
    case Insert(judge, slot, id, made) =>
      && Plain(slot.key) && JudgesFor(judge, IdentOf(slot.key)) && id !in t.heap && slot.refCount == 0
      && u == s.(table := if made then AfterInsert(cfg, t, judge, slot, id, p.wall)
                          else AfterFailedInsert(cfg, t, judge, slot.key, p.wall))
    case Find(key, now) =>
      && Plain(key)
      && u.table == AfterFind(cfg, t, key, now, p.wall)
      && u.borrowed == s.borrowed + (match Found(cfg, t, key, now)
                                      case None => multiset{}
                                      case Some(id) => multiset{id})
    case Release(id) =>
      id in s.borrowed && id in t.heap && u == Sys(Released(t, id), s.borrowed - multiset{id})
    case Delete(key) =>
      Plain(key) && u == s.(table := AfterDelete(cfg, t, key, p.wall))
    case Clear =>
      u == s.(table := Swept(cfg, t, EvictAll(), p.wall))
    case Expunge(now, roomBefore, roomAfter) =>
      u == s.(table := AfterExpunge(cfg, t, now, p.wall, roomBefore, roomAfter))
  }

  // ---- what one step does to a slot --------------------------------------------------------------

  ghost function RefOf(t: Table, x: Id): int { if x in t.heap then t.heap[x].refCount else 0 }

  predicate SameSlot(a: Slot, b: Slot) {
    a.key == b.key && a.memSize == b.memSize && a.ttl == b.ttl && a.creation == b.creation
  }

  /** x is not destroyed while somebody refers to it, is not created, and its count stays. */
  ghost predicate Spared(t: Table, u: Table, x: Id) {
    && (x in u.heap ==> x in t.heap && SameSlot(t.heap[x], u.heap[x]) && u.heap[x].refCount == t.heap[x].refCount)
    && (x in t.heap && t.heap[x].refCount > 0 ==> x in u.heap)
  }

  /** Referred to, and on the deleted list for longer than gcTtl. */
  ghost predicate Overdue(cfg: Config, t: Table, x: Id, wall: int) {
    && x in t.deleted && x in t.heap && t.heap[x].refCount > 0
    && cfg.gcTtl != 0 && wall - t.heap[x].deletion > cfg.gcTtl
  }

  ghost predicate PassSpares(cfg: Config, t: Table, u: Table, x: Id, wall: int) {
    if Overdue(cfg, t, x, wall) then x !in u.heap else Spared(t, u, x)
  }

  lemma PendingSpares(cfg: Config, t: Table, wall: int)
    requires Inv(cfg, t)
    ensures forall x: Id :: PassSpares(cfg, t, Pending(cfg, t, wall), x, wall)
  {
    PendingIs(cfg, t, wall);
    forall x: Id ensures PassSpares(cfg, t, Pending(cfg, t, wall), x, wall) {
      assert PendingOutcome(cfg, t, Pending(cfg, t, wall), x, x in t.deleted, wall);
    }
  }

  lemma SweepSpares(cfg: Config, t: Table, judge: Judge, wall: int)
    requires Inv(cfg, t) && Sweeps(judge)
    ensures forall x: Id :: Spared(t, Swept(cfg, t, judge, wall), x)
  {
    SweptOutcome(cfg, t, judge, wall);
    forall x: Id ensures Spared(t, Swept(cfg, t, judge, wall), x) {
      assert SweepOutcome(cfg, t, Swept(cfg, t, judge, wall), judge, x, true, wall);
    }
  }

  lemma WalkSpares(cfg: Config, t: Table, h: nat, judge: Judge, wall: int)
    requires Inv(cfg, t) && h < |t.chains|
    ensures forall x: Id :: Spared(t, WalkFrom(cfg, t, h, 0, judge, wall).table, x)
  {
    WalkFromOutcome(cfg, t, h, 0, judge, wall);
    forall x: Id ensures Spared(t, WalkFrom(cfg, t, h, 0, judge, wall).table, x) {
      assert WalkOutcome(cfg, t, WalkFrom(cfg, t, h, 0, judge, wall).table, judge, x, wall);
    }
  }

  lemma PassThenSpare(cfg: Config, t: Table, p: Table, u: Table, wall: int)
    requires forall x: Id :: PassSpares(cfg, t, p, x, wall)
    requires forall x: Id :: Spared(p, u, x)
    ensures forall x: Id :: PassSpares(cfg, t, u, x, wall)
  {
    forall x: Id ensures PassSpares(cfg, t, u, x, wall) {
      assert PassSpares(cfg, t, p, x, wall) && Spared(p, u, x);
    }
  }

  /** Everything an expunge destroys was unreferenced or overdue. */
  lemma ExpungeSpares(cfg: Config, t: Table, now: int, wall: int, roomBefore: bool, roomAfter: bool)
    requires Inv(cfg, t)
    ensures var u := AfterExpunge(cfg, t, now, wall, roomBefore, roomAfter);
      Inv(cfg, u) && u.lost == t.lost && forall x: Id :: PassSpares(cfg, t, u, x, wall)
  {
    PendingIs(cfg, t, wall);
    PendingSpares(cfg, t, wall);
    var p := Pending(cfg, t, wall);
    if !roomBefore {
      var judge := if cfg.ttl == 0 then EvictAll() else ExpungeJudge(cfg, now);
      SweptOutcome(cfg, p, judge, wall);
      SweepSpares(cfg, p, judge, wall);
      PassThenSpare(cfg, t, p, Swept(cfg, p, judge, wall), wall);
      if cfg.ttl != 0 && !roomAfter {
        var s := Swept(cfg, p, judge, wall);
        SweptOutcome(cfg, s, EvictAll(), wall);
        SweepSpares(cfg, s, EvictAll(), wall);
        PassThenSpare(cfg, t, s, Swept(cfg, s, EvictAll(), wall), wall);
      }
    }
  }

  /** Everything an insert destroys was unreferenced or overdue; the new slot starts unreferenced. */
  lemma InsertSpares(cfg: Config, t: Table, judge: Judge, slot: Slot, id: Id, wall: int)
    requires Inv(cfg, t) && Plain(slot.key) && JudgesFor(judge, IdentOf(slot.key)) && id !in t.heap
      && slot.refCount == 0
    ensures var u := AfterInsert(cfg, t, judge, slot, id, wall);
      && Inv(cfg, u) && RefOf(u, id) == 0
      && forall x: Id :: x != id ==> PassSpares(cfg, t, u, x, wall)
  {
    var p, w := Pending(cfg, t, wall), InsertWalk(cfg, t, slot.key, judge, wall).table;
    var u := AfterInsert(cfg, t, judge, slot, id, wall);
    InsertIs(cfg, t, judge, slot, id, wall);
    PendingIs(cfg, t, wall);
    PendingSpares(cfg, t, wall);
    WalkSpares(cfg, p, ChainOf(cfg, slot.key), judge, wall);
    PassThenSpare(cfg, t, p, w, wall);
    assert PassSpares(cfg, t, w, id, wall);
    forall x: Id | x != id ensures PassSpares(cfg, t, u, x, wall) {
      assert PassSpares(cfg, t, w, x, wall);
    }
  }

  /** An insert that fails destroys no more than one that succeeds, even where it cuts a chain. */
  lemma FailedInsertSpares(cfg: Config, t: Table, judge: Judge, slot: Slot, id: Id, wall: int)
    requires Inv(cfg, t) && id !in t.heap
    ensures var u := AfterFailedInsert(cfg, t, judge, slot.key, wall);
      RefOf(u, id) == 0 && forall x: Id :: PassSpares(cfg, t, u, x, wall)
  {
    var p, w := Pending(cfg, t, wall), InsertWalk(cfg, t, slot.key, judge, wall).table;
    var u := AfterFailedInsert(cfg, t, judge, slot.key, wall);
    PendingIs(cfg, t, wall);
    PendingSpares(cfg, t, wall);
    WalkSpares(cfg, p, ChainOf(cfg, slot.key), judge, wall);
    PassThenSpare(cfg, t, p, w, wall);
    forall x: Id ensures PassSpares(cfg, t, u, x, wall) {
      assert PassSpares(cfg, t, w, x, wall) && u.heap == w.heap;
    }
    assert PassSpares(cfg, t, u, id, wall);
  }

  lemma RemoveSpares(cfg: Config, t: Table, id: Id, wall: int)
    requires Inv(cfg, t) && Linked(cfg, t, id)
    ensures forall x: Id :: Spared(t, Removed(cfg, t, id, wall), x)
  {
    RemovedKeepsInv(cfg, t, id, wall);
    forall x: Id ensures Spared(t, Removed(cfg, t, id, wall), x) {
      assert x != id ==> Untouched(cfg, t, Removed(cfg, t, id, wall), x);
    }
  }

  lemma DeleteSpares(cfg: Config, t: Table, key: Key, wall: int, x: Id)
    requires Inv(cfg, t) && Plain(key)
    ensures Spared(t, AfterDelete(cfg, t, key, wall), x)
  {
    MatchIs(cfg, t, key);
    if Match(cfg, t, key).Some? {
      RemoveSpares(cfg, t, Match(cfg, t, key).value, wall);
      assert Spared(t, AfterDelete(cfg, t, key, wall), x);
    }
  }

  lemma FindSpares(cfg: Config, t: Table, key: Key, now: int, wall: int)
    requires Inv(cfg, t) && Plain(key)
    ensures var u := AfterFind(cfg, t, key, now, wall);
      && Inv(cfg, u) && u.lost == t.lost
      && match Found(cfg, t, key, now)
         case None => forall x: Id :: Spared(t, u, x)
         case Some(id) => Linked(cfg, t, id) && u == Referenced(t, id, now)
  {
    MatchIs(cfg, t, key);
    match Match(cfg, t, key)
    case None =>
    case Some(id) =>
      if Outdated(t.heap[id], key, now) {
        if cfg.readLocks { return; }
        RemoveSpares(cfg, t, id, wall);
        RemovedKeepsInv(cfg, t, id, wall);
      } else {
        ReferencedKeepsInv(cfg, t, id, now);
      }
  }

  // ---- references over steps and runs ------------------------------------------------------------

  /** The slots that a step loses: those behind the slot of the key, if an insert fails that is not refused. */
  ghost function LostBy(cfg: Config, s: Sys, p: Step): seq<Id>
    requires Inv(cfg, s.table)
  {
    if p.event.Insert? && !p.event.made && !Refuses(cfg, s.table, p.event.judge) then
      Behind(s.table, s.table.chains[ChainOf(cfg, p.event.slot.key)], IdentOf(p.event.slot.key))
    else []
  }

  lemma ReleasedKeepsInv(cfg: Config, t: Table, id: Id)
    requires Inv(cfg, t) && id in t.heap
    ensures Inv(cfg, Released(t, id))
  {
    TouchedKeepsInv(cfg, t, id, t.heap[id].(refCount := t.heap[id].refCount - 1));
  }

  /** Every step keeps placement, unique keys and the counters, and loses slots exactly if it is an insert
      that fails in make_slot while its key is linked, not refused, with other slots behind it. */
  lemma NextKeepsInv(cfg: Config, s: Sys, p: Step, u: Sys)
    requires Inv(cfg, s.table) && Next(cfg, s, p, u)
    ensures Inv(cfg, u.table) && u.table.lost == s.table.lost + LostBy(cfg, s, p)
  {
    var t := s.table;
    match p.event
    case Insert(judge, slot, id, made) =>
      InsertCases(cfg, t, judge, slot, id, p.wall);
    case Find(key, now) => FindSpares(cfg, t, key, now, p.wall);
    case Release(id) => ReleasedKeepsInv(cfg, t, id);
    case Delete(key) => DeleteClears(cfg, t, key, p.wall);
    case Clear => SweptOutcome(cfg, t, EvictAll(), p.wall);
    case Expunge(now, roomBefore, roomAfter) => ExpungeSpares(cfg, t, now, p.wall, roomBefore, roomAfter);
  }

  /** A slot's reference count is the number of times it is borrowed. */
  ghost predicate HoldInv(s: Sys) { forall x: Id :: RefOf(s.table, x) == s.borrowed[x] }

  /** Users gave back what has waited too long, before the next pending-removal pass. */
  ghost predicate Timely(cfg: Config, s: Sys, p: Step) {
    p.event.Insert? || p.event.Expunge? ==> forall x: Id :: x in s.borrowed ==> !Overdue(cfg, s.table, x, p.wall)
  }

  lemma PassKeepsHoldInvIff(cfg: Config, s: Sys, p: Step, u: Sys)
    requires Inv(cfg, s.table) && HoldInv(s) && Next(cfg, s, p, u) && (p.event.Insert? || p.event.Expunge?)
    ensures HoldInv(u) <==> Timely(cfg, s, p)
  {
    match p.event {
      case Insert(judge, slot, id, made) =>
        if made { InsertSpares(cfg, s.table, judge, slot, id, p.wall); }
        else { FailedInsertSpares(cfg, s.table, judge, slot, id, p.wall); }
      case Expunge(now, roomBefore, roomAfter) => ExpungeSpares(cfg, s.table, now, p.wall, roomBefore, roomAfter);
    }
    forall x: Id ensures RefOf(u.table, x) == (if Overdue(cfg, s.table, x, p.wall) then 0 else s.borrowed[x]) {
      assert RefOf(s.table, x) == s.borrowed[x];
      assert (p.event.Insert? && x == p.event.id) || PassSpares(cfg, s.table, u.table, x, p.wall);
    }
  }

  /** The counts stay exact in every step, except that a pending-removal pass breaks them exactly
      when it meets a borrowed slot that has been on the deleted list for longer than gcTtl. */
  lemma NextKeepsHoldInvIff(cfg: Config, s: Sys, p: Step, u: Sys)
    requires Inv(cfg, s.table) && HoldInv(s) && Next(cfg, s, p, u)
    ensures HoldInv(u) <==> Timely(cfg, s, p)
  {
    if p.event.Insert? || p.event.Expunge? {
      PassKeepsHoldInvIff(cfg, s, p, u);
    } else {
      forall x: Id ensures RefOf(u.table, x) == u.borrowed[x] {
        assert RefOf(s.table, x) == s.borrowed[x];
        OtherSteps(cfg, s, p, u, x);
      }
    }
  }

  lemma FindCounts(cfg: Config, s: Sys, p: Step, u: Sys, x: Id)
    requires Inv(cfg, s.table) && Next(cfg, s, p, u) && p.event.Find? && RefOf(s.table, x) == s.borrowed[x]
    ensures RefOf(u.table, x) == u.borrowed[x]
    ensures x in s.borrowed ==> x in s.table.heap && x in u.table.heap && SameSlot(s.table.heap[x], u.table.heap[x])
  {
    FindSpares(cfg, s.table, p.event.key, p.event.now, p.wall);
    match Found(cfg, s.table, p.event.key, p.event.now)
    case None => assert Spared(s.table, u.table, x);
    case Some(id) => assert u.table == Referenced(s.table, id, p.event.now);
  }

  lemma OtherSteps(cfg: Config, s: Sys, p: Step, u: Sys, x: Id)
    requires Inv(cfg, s.table) && Next(cfg, s, p, u) && !p.event.Insert? && !p.event.Expunge?
    requires RefOf(s.table, x) == s.borrowed[x]
    ensures RefOf(u.table, x) == u.borrowed[x]
    ensures x in s.borrowed ==> x in s.table.heap && x in u.table.heap && SameSlot(s.table.heap[x], u.table.heap[x])
  {
    match p.event
    case Find(key, now) => FindCounts(cfg, s, p, u, x);
    case Release(id) =>
    case Delete(key) => DeleteSpares(cfg, s.table, key, p.wall, x);
    case Clear =>
      SweepSpares(cfg, s.table, EvictAll(), p.wall);
      assert Spared(s.table, u.table, x);
  }

  /** A step destroys a borrowed slot exactly if it is a pending-removal pass finding it overdue;
      otherwise the slot stays the one it was. */
  lemma BorrowedIsDestroyedIff(cfg: Config, s: Sys, p: Step, u: Sys, x: Id)
    requires Inv(cfg, s.table) && HoldInv(s) && Next(cfg, s, p, u) && x in s.borrowed
    ensures x !in u.table.heap <==> (p.event.Insert? || p.event.Expunge?) && Overdue(cfg, s.table, x, p.wall)
    ensures x in s.table.heap && (x in u.table.heap ==> SameSlot(s.table.heap[x], u.table.heap[x]))
  {
    assert RefOf(s.table, x) == s.borrowed[x] > 0;
    match p.event
    case Insert(judge, slot, id, made) =>
      if made { InsertSpares(cfg, s.table, judge, slot, id, p.wall); }
      else { FailedInsertSpares(cfg, s.table, judge, slot, id, p.wall); }
      assert PassSpares(cfg, s.table, u.table, x, p.wall);
    case Expunge(now, roomBefore, roomAfter) =>
      ExpungeSpares(cfg, s.table, now, p.wall, roomBefore, roomAfter);
      assert PassSpares(cfg, s.table, u.table, x, p.wall);
    case _ => OtherSteps(cfg, s, p, u, x);
  }

  ghost predicate Initial(cfg: Config, s: Sys) {
    && cfg.size > 0
    && s == Sys(Table(map[], seq(cfg.size, _ => []), [], 0, 0, []), multiset{})
  }

  /** The guard on Next only makes the step well-formed: the invariant is proved, not assumed. */
  ghost predicate Run(cfg: Config, states: seq<Sys>, steps: seq<Step>) {
    && |states| == |steps| + 1
    && Initial(cfg, states[0])
    && forall k: nat :: k < |steps| && Inv(cfg, states[k].table) ==> Next(cfg, states[k], steps[k], states[k + 1])
  }

  lemma InitialInv(cfg: Config, s: Sys)
    requires Initial(cfg, s)
    ensures Inv(cfg, s.table) && HoldInv(s)
  {
    EmptyTotal(s.table.chains, |s.table.chains|);
    EmptyMem(s.table.heap, s.table.chains, |s.table.chains|);
  }

  /** Placement, unique keys and both counters hold in every run, whatever fails in make_slot. */
  lemma {:induction false} RunKeepsInv(cfg: Config, states: seq<Sys>, steps: seq<Step>, k: nat)
    requires Run(cfg, states, steps) && k <= |steps|
    ensures Inv(cfg, states[k].table)
  {
    if k == 0 {
      InitialInv(cfg, states[0]);
    } else {
      RunKeepsInv(cfg, states, steps, k - 1);
      NextKeepsInv(cfg, states[k - 1], steps[k - 1], states[k]);
    }
  }

  ghost predicate LosesNothing(cfg: Config, s: Sys, p: Step) { Inv(cfg, s.table) ==> LostBy(cfg, s, p) == [] }

  /** A run has lost nothing exactly as long as none of its steps has. */
  lemma {:induction false} NothingLostIff(cfg: Config, states: seq<Sys>, steps: seq<Step>, k: nat)
    requires Run(cfg, states, steps) && k <= |steps|
    ensures states[k].table.lost == [] <==> forall j: nat :: j < k ==> LosesNothing(cfg, states[j], steps[j])
  {
    if k == 0 {
    } else {
      NothingLostIff(cfg, states, steps, k - 1);
      LostStep(cfg, states, steps, k - 1);
    }
  }

  lemma LostStep(cfg: Config, states: seq<Sys>, steps: seq<Step>, j: nat)
    requires Run(cfg, states, steps) && j < |steps|
    ensures states[j].table.lost <= states[j + 1].table.lost
    ensures states[j + 1].table.lost == states[j].table.lost <==> LosesNothing(cfg, states[j], steps[j])
  {
    RunKeepsInv(cfg, states, steps, j);
    NextKeepsInv(cfg, states[j], steps[j], states[j + 1]);
  }

  lemma {:induction false} LostGrows(cfg: Config, states: seq<Sys>, steps: seq<Step>, i: nat, k: nat)
    requires Run(cfg, states, steps) && i <= k <= |steps|
    ensures states[i].table.lost <= states[k].table.lost
  {
    if i == k {
    } else {
      LostGrows(cfg, states, steps, i, k - 1);
      LostStep(cfg, states, steps, k - 1);
    }
  }

  /** A slot that is lost stays so: ever after it is allocated, counted, awaits nothing, and no lookup
      finds it. */
  lemma LostForever(cfg: Config, states: seq<Sys>, steps: seq<Step>, i: nat, k: nat, x: Id, key: Key, now: int)
    requires Run(cfg, states, steps) && i <= k <= |steps| && x in states[i].table.lost && Plain(key)
    ensures var t := states[k].table;
      && Inv(cfg, t) && x in t.lost && x in t.heap && !Linked(cfg, t, x) && x !in t.deleted
      && Found(cfg, t, key, now) != Some(x)
  {
    RunKeepsInv(cfg, states, steps, k);
    LostGrows(cfg, states, steps, i, k);
    var t := states[k].table;
    if Linked(cfg, t, x) { ChainAllocated(cfg, t, ChainOf(cfg, t.heap[x].key)); }
    MatchIs(cfg, t, key);
  }

  /** Slots are never collected while borrowed, or no borrowed slot was overdue before step k. */
  ghost predicate TimelyUpTo(cfg: Config, states: seq<Sys>, steps: seq<Step>, k: nat)
    requires |states| == |steps| + 1 && k <= |steps|
  {
    cfg.gcTtl == 0 || forall j: nat :: j < k ==> Timely(cfg, states[j], steps[j])
  }

  /** In every run: as long as no pass has met an overdue borrowed slot, each count is exactly the
      number of references held. */
  lemma {:induction false} CountsAreExact(cfg: Config, states: seq<Sys>, steps: seq<Step>, k: nat)
    requires Run(cfg, states, steps) && k <= |steps| && TimelyUpTo(cfg, states, steps, k)
    ensures HoldInv(states[k])
  {
    if k == 0 {
      InitialInv(cfg, states[0]);
    } else {
      RunKeepsInv(cfg, states, steps, k - 1);
      CountsAreExact(cfg, states, steps, k - 1);
      NextKeepsHoldInvIff(cfg, states[k - 1], steps[k - 1], states[k]);
    }
  }

  lemma BorrowedIsThere(s: Sys, x: Id)
    requires HoldInv(s) && x in s.borrowed
    ensures x in s.table.heap
  {
    assert RefOf(s.table, x) == s.borrowed[x];
  }

  /** A slot borrowed at every moment from i to k is the same, undestroyed slot at both. */
  lemma {:induction false} BorrowedSurvives(cfg: Config, states: seq<Sys>, steps: seq<Step>, i: nat, k: nat, x: Id)
    requires Run(cfg, states, steps) && i <= k <= |steps| && TimelyUpTo(cfg, states, steps, k)
    requires forall j: nat :: i <= j <= k ==> x in states[j].borrowed
    ensures x in states[i].table.heap && x in states[k].table.heap
    ensures SameSlot(states[i].table.heap[x], states[k].table.heap[x])
  {
    CountsAreExact(cfg, states, steps, k);
    BorrowedIsThere(states[k], x);
    if i == k {
      // the same moment
    } else {
      BorrowedSurvives(cfg, states, steps, i, k - 1, x);
      RunKeepsInv(cfg, states, steps, k - 1);
      CountsAreExact(cfg, states, steps, k - 1);
      assert Timely(cfg, states[k - 1], steps[k - 1]);
      BorrowedIsDestroyedIff(cfg, states[k - 1], steps[k - 1], states[k], x);
    }
  }

  // ---- two runs that go wrong ------------------------------------------------------------------------

  /** One chain, no ttl, and an hour for borrowers to give back. */
  function OneChain(): Config { Config(1, _ => 0, 0, 3600, false) }

  function Named(k: string): Slot { FreshSlot(User(k), 8, 0, 0) }

  function Storing(k: string): Judge { UserJudge(OneChain(), User(k), false, 0) }

  ghost function NoSlots(): Table { Table(map[], [[]], [], 0, 0, []) }

  ghost function Stored(k: string): Table { Table(map[0 := Named(k)], [[0]], [], 1, 8, []) }

  lemma StoresFirst(k: string, wall: int)
    requires Inv(OneChain(), NoSlots()) && NUL !in k
    ensures Next(OneChain(), Sys(NoSlots(), multiset{}), Step(Insert(Storing(k), Named(k), 0, true), wall),
                 Sys(Stored(k), multiset{}))
  {
    JudgesAreFaithful(OneChain(), User(k), false, 0);
    var w := InsertWalk(OneChain(), NoSlots(), User(k), Storing(k), wall);
    assert Pending(OneChain(), NoSlots(), wall) == NoSlots();
    assert w == Walked(NoSlots(), 0, false);
    assert [][..0] + [0] + [][0..] == [0];
    assert Inserted(NoSlots(), 0, 0, 0, Named(k)).chains == Stored(k).chains;
  }

  ghost function Borrowed(k: string): Table { Referenced(Stored(k), 0, 0) }

  ghost function Deleted(k: string): Table { Table(map[0 := Borrowed(k).heap[0]], [[]], [0], 0, 0, []) }

  lemma Borrows(k: string)
    requires Inv(OneChain(), Stored(k)) && NUL !in k
    ensures Next(OneChain(), Sys(Stored(k), multiset{}), Step(Find(User(k), 0), 0), Sys(Borrowed(k), multiset{0}))
  {
    assert SameKey(OneChain(), User(k), Stored(k).heap[0].key);
    assert FirstSame(OneChain(), Stored(k), User(k), 0, 0) == 0;
    assert Match(OneChain(), Stored(k), User(k)) == Some(0);
  }

  lemma Deletes(k: string)
    requires Inv(OneChain(), Borrowed(k)) && NUL !in k
    ensures Next(OneChain(), Sys(Borrowed(k), multiset{0}), Step(Delete(User(k)), 0), Sys(Deleted(k), multiset{0}))
  {
    var t := Borrowed(k);
    assert SameKey(OneChain(), User(k), t.heap[0].key);
    assert FirstSame(OneChain(), t, User(k), 0, 0) == 0;
    assert Match(OneChain(), t, User(k)) == Some(0) && t.chains[0] == [0] && Without([0], 0) == [];
    MatchIs(OneChain(), t, User(k));
    assert Removed(OneChain(), t, 0, 0) == Deleted(k);
  }

  lemma Destroys(k: string)
    requires Inv(OneChain(), Deleted(k))
    ensures Next(OneChain(), Sys(Deleted(k), multiset{0}), Step(Expunge(0, true, true), 5000),
                 Sys(NoSlots(), multiset{0}))
  {
    var t := Deleted(k);
    assert Dropped(t, 0) == NoSlots();
    assert PendingFrom(OneChain(), NoSlots(), 0, 5000) == NoSlots();
  }

  /** A slot that was found, then deleted, and is still borrowed 5000 s later is destroyed by the next
      pending-removal pass. */
  lemma BorrowedSlotCanBeDestroyed(k: string) returns (states: seq<Sys>, steps: seq<Step>)
    requires NUL !in k
    ensures Run(OneChain(), states, steps)
    ensures var u := states[|steps|];
      u == Sys(NoSlots(), multiset{0}) && 0 in u.borrowed && 0 !in u.table.heap && !HoldInv(u)
  {
    var none: multiset<Id> := multiset{};
    steps := [Step(Insert(Storing(k), Named(k), 0, true), 0), Step(Find(User(k), 0), 0), Step(Delete(User(k)), 0),
              Step(Expunge(0, true, true), 5000)];
    states := [Sys(NoSlots(), none), Sys(Stored(k), none), Sys(Borrowed(k), multiset{0}),
               Sys(Deleted(k), multiset{0}), Sys(NoSlots(), multiset{0})];
    forall j: nat | j < 4 && Inv(OneChain(), states[j].table)
      ensures Next(OneChain(), states[j], steps[j], states[j + 1])
    {
      if j == 0 { StoresFirst(k, 0); }
      else if j == 1 { Borrows(k); }
      else if j == 2 { Deletes(k); }
      else { Destroys(k); }
    }
    StartsEmpty();
    assert RefOf(NoSlots(), 0) == 0 && multiset{0}[0] == 1;
  }

  lemma StartsEmpty()
    ensures Initial(OneChain(), Sys(NoSlots(), multiset{}))
  {
    var none: seq<seq<Id>> := seq(1, _ => []);
    assert none == [[]];
  }

  ghost function BothStored(a: string, b: string): Table {
    Table(map[0 := Named(a), 1 := Named(b)], [[0, 1]], [], 2, 16, [])
  }

  /** What is left after the cut: slot 1 is allocated and counted, and lost. */
  ghost function AfterCut(b: string): Table { Table(map[1 := Named(b)], [[]], [], 1, 8, [1]) }

  lemma DifferentNames(a: string, b: string)
    requires NUL !in a && NUL !in b && a != b
    ensures !SameKey(OneChain(), User(b), User(a)) && SameKey(OneChain(), User(a), User(a))
  {
    NamesMatchOnlyThemselves(a);
  }

  lemma StoresSecond(a: string, b: string)
    requires Inv(OneChain(), Stored(a)) && NUL !in a && NUL !in b && a != b
    ensures Next(OneChain(), Sys(Stored(a), multiset{}), Step(Insert(Storing(b), Named(b), 1, true), 0),
                 Sys(BothStored(a, b), multiset{}))
  {
    var t := Stored(a);
    DifferentNames(a, b);
    JudgesAreFaithful(OneChain(), User(b), false, 0);
    assert Pending(OneChain(), t, 0) == t && Storing(b)(t.heap[0]) == Pass;
    assert WalkFrom(OneChain(), t, 0, 1, Storing(b), 0) == Walked(t, 1, false);
    assert InsertWalk(OneChain(), t, User(b), Storing(b), 0) == Walked(t, 1, false);
    assert [0][..1] + [1] + [0][1..] == [0, 1];
    assert Inserted(t, 0, 1, 1, Named(b)).chains == BothStored(a, b).chains;
    assert Inserted(t, 0, 1, 1, Named(b)).heap == BothStored(a, b).heap;
  }

  lemma CutsFirst(a: string, b: string)
    requires Inv(OneChain(), BothStored(a, b)) && NUL !in a && NUL !in b && a != b
    ensures Next(OneChain(), Sys(BothStored(a, b), multiset{}), Step(Insert(Storing(a), Named(a), 2, false), 0),
                 Sys(AfterCut(b), multiset{}))
  {
    var t := BothStored(a, b);
    var v := Table(map[1 := Named(b)], [[1]], [], 1, 8, []);
    DifferentNames(a, b);
    JudgesAreFaithful(OneChain(), User(a), false, 0);
    assert Pending(OneChain(), t, 0) == t && t.chains[0] == [0, 1] && Storing(a)(t.heap[0]) == Take;
    assert Without([0, 1], 0) == [1];
    assert Removed(OneChain(), t, 0, 0).heap == v.heap && Removed(OneChain(), t, 0, 0).chains == v.chains;
    assert InsertWalk(OneChain(), t, User(a), Storing(a), 0) == Walked(v, 0, false);
    assert CutOff(v, 0, 0).chains == AfterCut(b).chains && CutOff(v, 0, 0).lost == [1];
  }

  /** Replacing the first of two values in a chain while memory is out loses the second (see LostForever). */
  lemma SecondSlotCanBeLost(a: string, b: string) returns (states: seq<Sys>, steps: seq<Step>)
    requires NUL !in a && NUL !in b && a != b
    ensures Run(OneChain(), states, steps)
    ensures var t := states[|steps|].table;
      t == AfterCut(b) && 1 in t.heap && !Linked(OneChain(), t, 1) && 1 !in t.deleted && t.lost == [1]
  {
    var none: multiset<Id> := multiset{};
    steps := [Step(Insert(Storing(a), Named(a), 0, true), 0), Step(Insert(Storing(b), Named(b), 1, true), 0),
              Step(Insert(Storing(a), Named(a), 2, false), 0)];
    states := [Sys(NoSlots(), none), Sys(Stored(a), none), Sys(BothStored(a, b), none), Sys(AfterCut(b), none)];
    forall j: nat | j < 3 && Inv(OneChain(), states[j].table)
      ensures Next(OneChain(), states[j], steps[j], states[j + 1])
    {
      if j == 0 { StoresFirst(a, 0); }
      else if j == 1 { StoresSecond(a, b); }
      else { CutsFirst(a, b); }
    }
    StartsEmpty();
  }
}
