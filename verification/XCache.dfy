/** One XCache cache as its locked (`_dmz`) operations see it. Chains and the deferred-delete
    list are sequences of entry addresses; the entries themselves live in shared memory. */
module XCache {
  import opened Machine
  import opened Chains
  import opened CacheSpec

  const DELETES_GC_INTERVAL: int := 120

  /** A signed difference converted to unsigned long for a comparison. */
  function AsULong(d: int): int { d % ULONG_MOD }

  /** When an expiry collection is due: after the interval, and also, in practice, when the clock went back. */
  lemma DueIff(now: int, last: int, interval: nat)
    requires now - last < ULONG_MOD && last - now < ULONG_MOD
    ensures AsULong(now - last) >= interval <==>
      if last <= now then now - last >= interval else interval <= ULONG_MOD - (last - now)
  {
  }

  /** xc_gc_expires_php_entry_dmz; the comparison is unsigned. */
  function IdleFile(ttl: nat, now: int): Entry -> bool { (e: Entry) => AsULong(now) > AsULong(e.atime + ttl) }

  /** A sweep of idle files removes a linked file exactly if it was last found more than ttl seconds ago. */
  lemma IdleFilesSweptIff(cfg: Config, c: Cache, ttl: nat, now: int, x: Id)
    requires Inv(cfg, c) && Linked(c, x) && 0 <= now < ULONG_MOD && 0 <= c.heap[x].atime + ttl < ULONG_MOD
    ensures Linked(SweptAll(c, IdleFile(ttl, now), now), x) <==> now <= c.heap[x].atime + ttl
  {
    SweptAllOutcome(cfg, c, IdleFile(ttl, now), now);
    assert SweepOutcome(c, SweptAll(c, IdleFile(ttl, now), now), IdleFile(ttl, now), x, true);
  }

  lemma FoundVersions(cfg: Config, c: Cache, e: Entry, now: int)
    requires Inv(cfg, c) && KeyOk(cfg, e)
    ensures e.data.Php? ==> forall x: Id :: Linked(c, x) && IdentOf(c.heap[x]) == IdentOf(e) ==>
      (LookupResult(cfg, c, e) == Some(x) <==> SameVersion(c.heap[x], e))
      && (LookupResult(cfg, c, e) == Some(x) <==> Linked(LookedUp(cfg, c, e, now), x))
  {
    if e.data.Php? {
      forall x: Id | Linked(c, x) && IdentOf(c.heap[x]) == IdentOf(e)
        ensures LookupResult(cfg, c, e) == Some(x) <==> SameVersion(c.heap[x], e)
        ensures LookupResult(cfg, c, e) == Some(x) <==> Linked(LookedUp(cfg, c, e, now), x)
      {
        FileLookupIff(cfg, c, e, now, x);
      }
    }
  }

  class SharedCache {
    const cfg: Config
    var heap: map<Id, Entry>
    var entries: seq<seq<Id>>
    var entriesCount: int
    var deletes: seq<Id>
    var deletesCount: int
    var ooms: nat
    var compiling: int              // 0, or the request time of the request that compiles
    var lastGcDeletes: int
    var lastGcExpires: int

    ghost function View(): Cache
      reads this
    {
      Cache(heap, entries, deletes, entriesCount, deletesCount, ooms)
    }

    ghost predicate Valid()
      reads this
    {
      Inv(cfg, View())
    }

    /** xc_cache_init: an empty table. */
    constructor (cfg: Config, now: int)
      ensures Valid() && this.cfg == cfg && compiling == 0
      ensures View() == Cache(map[], seq(cfg.size, _ => []), [], 0, 0, 0)
    {
      this.cfg := cfg;
      heap, entries, deletes := map[], seq(cfg.size, _ => []), [];
      entriesCount, deletesCount, ooms := 0, 0, 0;
      compiling, lastGcDeletes, lastGcExpires := 0, now, now;
      new;
      EmptyTotal(entries, |entries|);
    }

    /** xc_entry_add_dmz: the invariant survives exactly if the key was not linked. */
    method Add(id: Id, e: Entry)
      requires Valid() && KeyOk(cfg, e) && id !in heap
      modifies `heap, `entries, `entriesCount
      ensures View() == Added(old(View()), id, e)
      ensures Valid() <==> KeyAbsent(old(View()), e)
    {
      AddedKeepsInvIff(cfg, View(), id, e);
      heap := heap[id := e];
      entries := entries[e.hvalue := [id] + entries[e.hvalue]];
      entriesCount := entriesCount + 1;
    }

    /** xc_entry_store_dmz; `alloc` is the allocator's answer. It never looks for the key, and keeps the
        invariant exactly if nothing is stored or the key was not linked. */
    method Store(e: Entry, now: int, alloc: Option<Id>) returns (stored: Option<Id>)
      requires Valid() && KeyOk(cfg, e)
      requires alloc.Some? ==> alloc.value !in heap
      modifies `heap, `entries, `entriesCount, `ooms
      ensures View() == Stored(old(View()), e, now, alloc) && stored == alloc
      ensures match alloc
        case Some(id) => id in heap && heap[id] == e.(refcount := 0, hits := 0, ctime := now, atime := now)
        case None => heap == old(heap) && ooms == old(ooms) + 1
      ensures Valid() <==> alloc.None? || KeyAbsent(old(View()), e)
    {
      match alloc
      case Some(id) =>
        assert KeyAbsent(View(), Fresh(e, now)) <==> KeyAbsent(View(), e);
        Add(id, Fresh(e, now));
        stored := Some(id);
      case None =>
        SameKeysKeepInv(cfg, View(), View().(ooms := ooms + 1));
        ooms := ooms + 1;
        stored := None;
    }

    /** xc_entry_free_dmz. */
    method Free(id: Id, now: int)
      requires id in heap
      modifies `heap, `entries, `entriesCount, `deletes, `deletesCount
      ensures View() == Freed(old(View()), id, now)
    {
      entriesCount := entriesCount - 1;
      if heap[id].refcount == 0 {
        heap := heap - {id};
      } else {
        deletes := [id] + deletes;
        heap := heap[id := heap[id].(dtime := now)];
        deletesCount := deletesCount + 1;
      }
    }

    /** xc_entry_remove_dmz: unlinks the first entry equal to its argument and frees the
        argument, which are one and the same; the loop cannot run off the chain. */
    method Remove(id: Id, now: int)
      requires Valid() && Linked(View(), id)
      modifies `heap, `entries, `entriesCount, `deletes, `deletesCount
      ensures Valid() && View() == Removed(old(View()), id, now)
    {
      ghost var c := View();
      var h := heap[id].hvalue;
      var chain := entries[h];
      var k := 0;
      ChainAllocated(cfg, c, h);
      while k < |chain| && !Equal(heap[id], heap[chain[k]])
        invariant k <= |chain| && id !in chain[..k]
      {
        assert Equal(heap[id], heap[id]);
        k := k + 1;
      }
      assert k < |chain| by { assert chain[..|chain|] == chain; }
      RemovedKeepsInv(cfg, c, id, now);
      FirstIsArgument(cfg, c, id, chain[k]);
      CutIsWithout(chain, k);
      entries := entries[h := chain[..k] + chain[k + 1..]];
      Free(id, now);
    }

    /** The walk of xc_entry_find_dmz. */
    method First(e: Entry) returns (k: nat)
      requires Valid() && KeyOk(cfg, e)
      ensures var chain := entries[e.hvalue];
        k <= |chain| && Match(cfg, View(), e) == if k < |chain| then Some(chain[k]) else None
    {
      var chain := entries[e.hvalue];
      k := 0;
      ChainAllocated(cfg, View(), e.hvalue);
      assert chain[0..] == chain;
      while k < |chain| && !Equal(e, heap[chain[k]])
        invariant k <= |chain|
        invariant FirstEqual(View(), e, chain[k..]) == Match(cfg, View(), e)
      {
        assert chain[k..][1..] == chain[k + 1..];
        k := k + 1;
      }
    }

    /** xc_entry_find_dmz. */
    method Find(e: Entry, now: int) returns (found: Option<Id>)
      requires Valid() && KeyOk(cfg, e)
      modifies `heap, `entries, `entriesCount, `deletes, `deletesCount
      ensures Valid() && View() == LookedUp(cfg, old(View()), e, now)
      ensures found == LookupResult(cfg, old(View()), e)
      ensures found == None ==> KeyAbsent(View(), e)
      ensures found.Some? ==> Linked(View(), found.value)
      ensures found.Some? ==> SameVersion(heap[found.value], e)
      ensures e.data.Php? ==> forall x: Id :: Linked(old(View()), x) && IdentOf(old(heap)[x]) == IdentOf(e) ==>
        (found == Some(x) <==> SameVersion(old(heap)[x], e)) && (found == Some(x) <==> Linked(View(), x))
    {
      ghost var c := View();
      LookupCases(cfg, c, e, now);
      LookupOutcome(cfg, c, e, now);
      FoundVersions(cfg, c, e, now);
      var k := First(e);
      if k == |entries[e.hvalue]| {
        return None;
      }
      var p := entries[e.hvalue][k];
      if Current(heap[p], e) {
        heap := heap[p := heap[p].(hits := heap[p].hits + 1, atime := now)];
        found := Some(p);
      } else {
        Remove(p, now);
        found := None;
      }
    }

    /** One chain of xc_entry_apply_dmz: `pp` is position k. */
    method ApplyChain(i: nat, f: Entry -> bool, now: int)
      requires Valid() && i < |entries|
      modifies `heap, `entries, `entriesCount, `deletes, `deletesCount
      ensures Valid() && View() == SweptChain(old(View()), old(entries[i]), f, now)
    {
      ghost var goal := SweptChain(View(), entries[i], f, now);
      var k := 0;
      assert entries[i][0..] == entries[i];
      while k < |entries[i]|
        invariant i < |entries| && k <= |entries[i]| && Valid()
        invariant goal == SweptChain(View(), entries[i][k..], f, now)
        decreases |entries[i]| - k
      {
        var chain := entries[i];
        var p := chain[k];
        ghost var c := View();
        ChainIsLinked(cfg, c, i);
        assert chain[k..][1..] == chain[k + 1..];
        if f(heap[p]) {
          RemovedKeepsInv(cfg, c, p, now);
          CutIsWithout(chain, k);
          entries := entries[i := chain[..k] + chain[k + 1..]];
          Free(p, now);
          assert entries[i][k..] == chain[k + 1..];
        } else {
          k := k + 1;
        }
      }
    }

    /** xc_entry_apply_dmz: removes every entry that f selects. */
    method Apply(f: Entry -> bool, now: int)
      requires Valid()
      modifies `heap, `entries, `entriesCount, `deletes, `deletesCount
      ensures Valid() && View() == SweptAll(old(View()), f, now)
    {
      ghost var goal := SweptAll(View(), f, now);
      var i := 0;
      while i < |entries|
        invariant i <= |entries| && Valid() && goal == SweptFrom(View(), i, f, now)
      {
        SweptChainLength(View(), entries[i], f, now);
        ApplyChain(i, f, now);
        i := i + 1;
      }
    }

    /** The clearing loop of xcache_clear_cache: always removes the current head. */
    method Clear(now: int)
      requires Valid()
      modifies `heap, `entries, `entriesCount, `deletes, `deletesCount
      ensures Valid() && View() == SweptAll(old(View()), _ => true, now)
    {
      ghost var all: Entry -> bool := _ => true;
      ghost var goal := SweptAll(View(), all, now);
      var i := 0;
      while i < |entries|
        invariant i <= |entries| && Valid() && goal == SweptFrom(View(), i, all, now)
      {
        SweptChainLength(View(), entries[i], all, now);
        while entries[i] != []
          invariant i < |entries| && Valid()
          invariant |SweptChain(View(), entries[i], all, now).chains| == |entries|
          invariant goal == SweptFrom(SweptChain(View(), entries[i], all, now), i + 1, all, now)
          decreases |entries[i]|
        {
          ChainIsLinked(cfg, View(), i);
          CutIsWithout(entries[i], 0);
          Remove(entries[i][0], now);
        }
        assert entries[i := []] == entries;
        entries := entries[i := []];
        i := i + 1;
      }
    }

    /** xc_gc_expires_one with the entry test of either cache. */
    method GcExpires(f: Entry -> bool, interval: nat, now: int)
      requires Valid()
      modifies `heap, `entries, `entriesCount, `deletes, `deletesCount, `lastGcExpires
      ensures Valid()
      ensures var due := AsULong(now - old(lastGcExpires)) >= interval;
        && View() == (if due then SweptAll(old(View()), f, now) else old(View()))
        && lastGcExpires == (if due then now else old(lastGcExpires))
    {
      if AsULong(now - lastGcExpires) >= interval {
        lastGcExpires := now;
        Apply(f, now);
      }
    }

    /** xc_gc_expires_php on this cache. */
    method GcExpiresFiles(ttl: nat, interval: nat, now: int)
      requires Valid()
      modifies `heap, `entries, `entriesCount, `deletes, `deletesCount, `lastGcExpires
      ensures Valid()
      ensures var due := ttl != 0 && interval != 0 && AsULong(now - old(lastGcExpires)) >= interval;
        && View() == (if due then SweptAll(old(View()), IdleFile(ttl, now), now) else old(View()))
        && lastGcExpires == (if due then now else old(lastGcExpires))
    {
      if ttl == 0 || interval == 0 { return; }
      GcExpires(IdleFile(ttl, now), interval, now);
    }

    /** xc_gc_delete_dmz. */
    method CollectDeletes(now: int)
      requires Valid()
      modifies `heap, `deletes, `deletesCount
      ensures Valid() && View() == Collected(old(View()), now)
    {
      ghost var goal := Collected(View(), now);
      var k: nat := 0;
      while k < |deletes|
        invariant k <= |deletes| && Valid() && goal == CollectedFrom(View(), k, now)
        decreases |deletes| - k
      {
        k := CollectOne(k, now);
      }
    }

    /** One turn of the loop above: returns where to go on. */
    method CollectOne(k: nat, now: int) returns (next: nat)
      requires Valid() && k < |deletes|
      modifies `heap, `deletes, `deletesCount
      ensures Valid() && next <= |deletes| && |deletes| - next < |old(deletes)| - k
      ensures CollectedFrom(View(), next, now) == CollectedFrom(old(View()), k, now)
    {
      var p := deletes[k];
      ghost var c := View();
      CollectStep(cfg, c, k, now);
      if now - heap[p].dtime > DELETE_GRACE {
        heap := heap[p := heap[p].(refcount := 0)];
      }
      if heap[p].refcount == 0 {
        deletes := deletes[..k] + deletes[k + 1..];
        deletesCount := deletesCount - 1;
        heap := heap - {p};
        Forgotten(c.heap, p, c.heap[p].(refcount := 0));
        assert View() == Dropped(c, k);
        next := k;
      } else {
        next := k + 1;
      }
    }

    /** xc_gc_deletes_one. */
    method GcDeletes(now: int)
      requires Valid()
      modifies `heap, `deletes, `deletesCount, `lastGcDeletes
      ensures Valid()
      ensures var due := old(deletes) != [] && now - old(lastGcDeletes) > 120;
        && View() == (if due then Collected(old(View()), now) else old(View()))
        && lastGcDeletes == (if due then now else old(lastGcDeletes))
    {
      if deletes != [] && now - lastGcDeletes > DELETES_GC_INTERVAL {
        lastGcDeletes := now;
        CollectDeletes(now);
      }
    }

    /** xc_entry_hold_php_dmz. */
    method Hold(id: Id, r: Request)
      requires Valid() && id in heap
      modifies `heap, r
      ensures Valid() && View() == Held(old(View()), id) && r.holds == old(r.holds) + [id]
    {
      HeldKeepsInv(cfg, View(), id);
      heap := heap[id := heap[id].(refcount := heap[id].refcount + 1)];
      r.holds := r.holds + [id];
    }

    /** One turn of the loop below: pop an entry and drop the reference. */
    method UnholdTop(r: Request)
      requires Valid() && r.holds != [] && Covers(View(), r.holds)
      modifies `heap, r
      ensures var n := |old(r.holds)| - 1;
        && r.holds == old(r.holds)[..n] && Covers(View(), r.holds)
        && Unheld(View(), r.holds) == Unheld(old(View()), old(r.holds))
      ensures Valid()
    {
      var n := |r.holds| - 1;
      var id := r.holds[n];
      ghost var c := View();
      UnheldTop(cfg, c, r.holds);
      r.holds := r.holds[..n];
      heap := heap[id := heap[id].(refcount := heap[id].refcount - 1)];
      assert View() == Dereferenced(c, id);
    }

    /** xc_entry_unholds_real for this cache: no decrement goes below zero. */
    method Unholds(r: Request)
      requires Valid() && Covers(View(), r.holds)
      modifies `heap, r
      ensures Valid() && View() == Unheld(old(View()), old(r.holds)) && r.holds == []
    {
      ghost var goal := Unheld(View(), r.holds);
      while r.holds != []
        invariant Valid() && Covers(View(), r.holds) && goal == Unheld(View(), r.holds)
        decreases |r.holds|
      {
        UnholdTop(r);
      }
      assert Unheld(View(), []).heap == heap;
    }

    /** The first locked section of xc_compile_file. */
    method OpenFile(xce: Entry, now: int, r: Request) returns (o: Opened)
      requires Valid() && KeyOk(cfg, xce) && now != 0
      modifies `heap, `entries, `entriesCount, `deletes, `deletesCount, `compiling, r
      ensures Valid()
      ensures o == OpenResult(cfg, old(View()), old(compiling), xce)
      ensures View() == OpenedCache(cfg, old(View()), old(compiling), xce, now)
      ensures compiling == (if o == MustCompile then now else old(compiling))
      ensures o == Clogged <==> old(compiling) != 0
      ensures o.Restored? ==> Linked(View(), o.id) && SameVersion(heap[o.id], xce)
      ensures xce.data.Php? && old(compiling) == 0 ==>
        forall x: Id :: Linked(old(View()), x) && IdentOf(old(heap)[x]) == IdentOf(xce) ==>
          (o == Restored(x) <==> SameVersion(old(heap)[x], xce)) && (o == Restored(x) <==> Linked(View(), x))
      ensures r.holds == old(r.holds) + (if o.Restored? then [o.id] else [])
    {
      if compiling != 0 {
        return Clogged;
      }
      var stored := Find(xce, now);
      if stored.Some? {
        Hold(stored.value, r);
        return Restored(stored.value);
      }
      compiling := now;
      return MustCompile;
    }

    /** The section that stores the compiled file; it does not look for the key again. */
    method StoreFile(xce: Entry, now: int, alloc: Option<Id>)
      requires Valid() && KeyOk(cfg, xce)
      requires alloc.Some? ==> alloc.value !in heap
      modifies `heap, `entries, `entriesCount, `ooms
      ensures View() == Stored(old(View()), xce, now, alloc)
      ensures Valid() <==> alloc.None? || KeyAbsent(old(View()), xce)
    {
      var stored := Store(xce, now, alloc);
    }

    /** The section that ends a compilation, successful, failed or not cachable. */
    method FinishFile()
      modifies `compiling
      ensures compiling == 0
    {
      compiling := 0;
    }

    /** The three locked sections of one xc_compile_file, with nobody in between (CompileProtocol
        interleaves them): a file that was compiled and stored is restored by the next call. */
    method CompileFile(xce: Entry, now: int, r: Request, stores: bool, alloc: Option<Id>) returns (o: Opened)
      requires Valid() && KeyOk(cfg, xce) && now != 0
      requires alloc.Some? ==> alloc.value !in OpenedCache(cfg, View(), compiling, xce, now).heap
      modifies `heap, `entries, `entriesCount, `deletes, `deletesCount, `compiling, `ooms, r
      ensures Valid()
      ensures o == OpenResult(cfg, old(View()), old(compiling), xce)
      ensures View() == CompiledCache(cfg, old(View()), old(compiling), xce, now, stores, alloc)
      ensures compiling == old(compiling)
      ensures r.holds == old(r.holds) + (if o.Restored? then [o.id] else [])
      ensures o == MustCompile && stores && alloc.Some? ==>
        OpenResult(cfg, View(), compiling, xce) == Restored(alloc.value)
    {
      ghost var c := View();
      o := OpenFile(xce, now, r);
      if o != MustCompile { return; }
      LookupOutcome(cfg, c, xce, now);
      if stores {
        CompiledIsFound(cfg, c, xce, now, alloc);
        StoreFile(xce, now, alloc);
      }
      FinishFile();
    }
  }

  /** A request's hold stack for this cache. */
  class Request {
    var holds: seq<Id>
  }
}
