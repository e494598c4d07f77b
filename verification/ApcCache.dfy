/** One APC cache: `slot_t **` walks over the chains, updating the table in place. */
module ApcCache {
  import opened Chains
  import opened ApcSpec

  class SlotTable {
    const cfg: Config
    var heap: map<Id, Slot>
    var slots: seq<seq<Id>>
    var deletedList: seq<Id>
    var numEntries: int
    var memSize: int
    ghost var lost: seq<Id>         // slots that a failed insert cut off

    ghost function View(): Table
      reads this
    {
      Table(heap, slots, deletedList, numEntries, memSize, lost)
    }

    ghost predicate Valid()
      reads this
    {
      Inv(cfg, View())
    }

    /** apc_cache_create. */
    constructor (cfg: Config)
      requires cfg.size > 0
      ensures Valid() && this.cfg == cfg && View() == Table(map[], seq(cfg.size, _ => []), [], 0, 0, [])
    {
      this.cfg := cfg;
      heap, slots, deletedList := map[], seq(cfg.size, _ => []), [];
      numEntries, memSize, lost := 0, 0, [];
      new;
      EmptyTotal(slots, |slots|);
      EmptyMem(heap, slots, |slots|);
    }

    /** remove_slot on the link at position k of chain h. */
    method RemoveSlot(h: nat, k: nat, wall: int)
      requires Valid() && h < |slots| && k < |slots[h]|
      modifies this
      ensures Linked(cfg, old(View()), old(slots[h][k]))
      ensures Valid() && View() == Removed(cfg, old(View()), old(slots[h][k]), wall)
      ensures |slots| == |old(slots)| && slots[h] == old(slots[h])[..k] + old(slots[h])[k + 1..]
    {
      CutOut(cfg, View(), h, k, wall);
      var dead := slots[h][k];
      CutLink(h, k);
      Retire(dead, wall);
    }

    /** The start of remove_slot: the link and the counters. */
    method CutLink(h: nat, k: nat)
      requires h < |slots| && k < |slots[h]| && slots[h][k] in heap
      modifies `slots, `numEntries, `memSize
      ensures View() == old(View()).(chains := old(slots)[h := old(slots[h])[..k] + old(slots[h])[k + 1..]],
                                     numEntries := old(numEntries) - 1,
                                     memSize := old(memSize) - heap[old(slots[h][k])].memSize)
    {
      memSize := memSize - heap[slots[h][k]].memSize;
      numEntries := numEntries - 1;
      slots := slots[h := slots[h][..k] + slots[h][k + 1..]];
    }

    /** The end of remove_slot: an unreferenced slot is destroyed, another waits on the list. */
    method Retire(dead: Id, wall: int)
      requires dead in heap
      modifies `heap, `deletedList
      ensures View() == Retired(old(View()), dead, wall)
    {
      if heap[dead].refCount <= 0 {
        heap := heap - {dead};
      } else {
        deletedList := [dead] + deletedList;
        heap := heap[dead := heap[dead].(deletion := wall)];
      }
    }

    /** process_pending_removals. */
    method ProcessPending(wall: int)
      requires Valid()
      modifies `heap, `deletedList
      ensures Valid() && View() == Pending(cfg, old(View()), wall)
    {
      ghost var goal := Pending(cfg, View(), wall);
      var k: nat := 0;
      while k < |deletedList|
        invariant k <= |deletedList| && Valid() && goal == PendingFrom(cfg, View(), k, wall)
        decreases |deletedList| - k
      {
        k := PendingOne(k, wall);
      }
    }

    /** One turn of the loop above: returns where to go on. */
    method PendingOne(k: nat, wall: int) returns (next: nat)
      requires Valid() && k < |deletedList|
      modifies `heap, `deletedList
      ensures Valid() && next <= |deletedList| && |deletedList| - next < |old(deletedList)| - k
      ensures PendingFrom(cfg, View(), next, wall) == PendingFrom(cfg, old(View()), k, wall)
    {
      var dead := deletedList[k];
      var gcSec := if cfg.gcTtl != 0 then wall - heap[dead].deletion else 0;
      DroppedOutcome(cfg, View(), k);
      if heap[dead].refCount <= 0 || (cfg.gcTtl != 0 && gcSec > cfg.gcTtl) {
        deletedList := deletedList[..k] + deletedList[k + 1..];
        heap := heap - {dead};
        next := k;
      } else {
        next := k + 1;
      }
    }

    /** The walk of both inserts: `slot` is position k. */
    method Walk(h: nat, judge: Judge, wall: int) returns (at: nat, refused: bool)
      requires Valid() && h < |slots|
      modifies this
      ensures Valid() && Walked(View(), at, refused) == WalkFrom(cfg, old(View()), h, 0, judge, wall)
      ensures |slots| == |old(slots)| && at <= |slots[h]|
    {
      ghost var goal := WalkFrom(cfg, View(), h, 0, judge, wall);
      at, refused := 0, false;
      while at < |slots[h]|
        invariant Valid() && h < |slots| == |old(slots)| && at <= |slots[h]|
        invariant goal == WalkFrom(cfg, View(), h, at, judge, wall)
        decreases |slots[h]| - at
      {
        ChainAllocated(cfg, View(), h);
        match judge(heap[slots[h][at]])
        case Pass => at := at + 1;
        case Evict => RemoveSlot(h, at, wall);
        case Take => RemoveSlot(h, at, wall); return;
        case Refuse => return at, true;
      }
    }

    /** _apc_cache_insert and apc_cache_user_insert; the judge is FileJudge or UserJudge. made: whether
        make_slot succeeds. If it does not, NULL goes where the slot would have gone. */
    method Insert(judge: Judge, key: Key, weight: nat, ttl: nat, now: int, wall: int, id: Id, made: bool)
        returns (inserted: bool)
      requires Valid() && Plain(key) && JudgesFor(judge, IdentOf(key)) && id !in heap
      modifies this
      ensures Valid() && inserted == (made && !Refuses(cfg, old(View()), judge))
      ensures made ==> View() == AfterInsert(cfg, old(View()), judge, FreshSlot(key, weight, ttl, now), id, wall)
      ensures inserted ==> Match(cfg, View(), key) == Some(id)
      ensures !made ==> View() == AfterFailedInsert(cfg, old(View()), judge, key, wall)
      ensures lost == old(lost) + if made || Refuses(cfg, old(View()), judge) then []
                                  else Behind(old(View()), old(slots[ChainOf(cfg, key)]), IdentOf(key))
    {
      ghost var was := View();
      var slot := FreshSlot(key, weight, ttl, now);
      InsertCases(cfg, was, judge, slot, id, wall);
      ProcessPending(wall);
      var h := ChainOf(cfg, key);
      var at, refused := Walk(h, judge, wall);
      assert InsertWalk(cfg, was, key, judge, wall) == Walked(View(), at, refused);
      if refused { return false; }
      if !made {
        Cut(h, at);
        return false;
      }
      Link(h, at, id, slot);
      return true;
    }

    /** The new slot goes where the walk stopped. */
    method Link(h: nat, at: nat, id: Id, slot: Slot)
      requires h < |slots| && at <= |slots[h]|
      modifies `heap, `slots, `memSize, `numEntries
      ensures View() == Inserted(old(View()), h, at, id, slot)
    {
      slots := slots[h := slots[h][..at] + [id] + slots[h][at..]];
      heap := heap[id := slot];
      memSize := memSize + slot.memSize;
      numEntries := numEntries + 1;
    }

    /** NULL goes where the walk stopped. */
    method Cut(h: nat, at: nat)
      requires h < |slots| && at <= |slots[h]|
      modifies `slots, `lost
      ensures View() == CutOff(old(View()), h, at)
    {
      lost := lost + slots[h][at..];
      slots := slots[h := slots[h][..at]];
    }

    /** The walk of the lookups and of apc_cache_user_delete. */
    method First(key: Key) returns (h: nat, k: nat)
      requires Valid()
      ensures h == ChainOf(cfg, key) && h < |slots| && k == FirstSame(cfg, View(), key, h, 0) && k <= |slots[h]|
    {
      h, k := ChainOf(cfg, key), 0;
      while k < |slots[h]|
        invariant k <= |slots[h]| && FirstSame(cfg, View(), key, h, 0) == FirstSame(cfg, View(), key, h, k)
      {
        assert LinkOk(cfg, View(), h, k);
        if SameKey(cfg, key, heap[slots[h][k]].key) { return; }
        k := k + 1;
      }
    }

    /** apc_cache_find_slot and apc_cache_user_find. */
    method Find(key: Key, now: int, wall: int) returns (r: Option<Id>)
      requires Valid() && Plain(key)
      modifies this
      ensures Valid() && View() == AfterFind(cfg, old(View()), key, now, wall) && r == Found(cfg, old(View()), key, now)
      ensures IsFetched(cfg, old(View()), key, now, r)
    {
      FindCases(cfg, View(), key, now, wall);
      FoundIsFetched(cfg, View(), key, now);
      var h, k := First(key);
      if k == |slots[h]| { return None; }
      var id := slots[h][k];
      if Outdated(heap[id], key, now) {
        if !cfg.readLocks { RemoveSlot(h, k, wall); }
        return None;
      }
      heap := heap[id := heap[id].(refCount := heap[id].refCount + 1, access := now)];
      return Some(id);
    }

    /** apc_cache_user_delete and apc_cache_delete. */
    method Delete(key: Key, wall: int) returns (found: bool)
      requires Valid() && Plain(key)
      modifies this
      ensures Valid() && View() == AfterDelete(cfg, old(View()), key, wall)
      ensures found <==> !IdentAbsent(cfg, old(View()), IdentOf(key))
      ensures IdentAbsent(cfg, View(), IdentOf(key))
    {
      DeleteClears(cfg, View(), key, wall);
      MatchIs(cfg, View(), key);
      var h, k := First(key);
      if k == |slots[h]| { return false; }
      RemoveSlot(h, k, wall);
      return true;
    }

    /** apc_cache_release. */
    method Release(id: Id)
      requires Valid() && id in heap
      modifies `heap
      ensures Valid() && View() == Released(old(View()), id)
    {
      TouchedKeepsInv(cfg, View(), id, heap[id].(refCount := heap[id].refCount - 1));
      heap := heap[id := heap[id].(refCount := heap[id].refCount - 1)];
    }

    /** The loops of apc_cache_clear and apc_cache_expunge: walk every chain, removing what the judge evicts. */
    method Sweep(judge: Judge, wall: int)
      requires Valid() && Sweeps(judge)
      modifies this
      ensures Valid() && View() == Swept(cfg, old(View()), judge, wall)
    {
      ghost var goal := Swept(cfg, View(), judge, wall);
      for h := 0 to |slots|
        invariant Valid() && |slots| == |old(slots)| && goal == SweptFrom(cfg, View(), h, judge, wall)
      {
        WalkSweeps(cfg, View(), h, 0, judge, wall);
        var _, _ := Walk(h, judge, wall);
      }
    }

    /** apc_cache_clear: no chain keeps anything; what was lost stays counted. */
    method Clear(wall: int)
      requires Valid()
      modifies this
      ensures Valid() && View() == Swept(cfg, old(View()), EvictAll(), wall)
      ensures numEntries == |lost| && memSize == ChainMem(heap, lost) && lost == old(lost)
      ensures forall h: nat :: h < |slots| ==> slots[h] == []
    {
      Sweep(EvictAll(), wall);
      SweptEmpties(cfg, old(View()), wall);
    }

    /** apc_cache_expunge: room says whether the allocator has enough, before the sweep and after it. */
    method Expunge(now: int, wall: int, roomBefore: bool, roomAfter: bool)
      requires Valid()
      modifies this
      ensures Valid() && View() == AfterExpunge(cfg, old(View()), now, wall, roomBefore, roomAfter)
    {
      PendingIs(cfg, View(), wall);
      ProcessPending(wall);
      if roomBefore { return; }
      if cfg.ttl == 0 {
        Sweep(EvictAll(), wall);
      } else {
        SweptOutcome(cfg, View(), ExpungeJudge(cfg, now), wall);
        Sweep(ExpungeJudge(cfg, now), wall);
        if !roomAfter { Sweep(EvictAll(), wall); }
      }
    }
  }
}
