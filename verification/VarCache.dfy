/** xcache_get, xcache_set, xcache_isset, xcache_unset, xcache_inc, xcache_dec and the expiry
    collection on one variable cache, each one locked section over the shared chains. */
module VarCache {
  import opened Chains
  import opened CacheSpec
  import opened XCache
  import opened VarSpec

  ghost predicate ConfigOk(cfg: Config) {
    cfg.mode == ByVarNames && forall i: Ident :: cfg.slot(i) < cfg.size
  }

  /** The lookup key xc_entry_init_key_var builds. */
  function KeyFor(cfg: Config, name: string, value: Value, ttl: int): Entry {
    Entry(name, Var(value), cfg.slot(Name(name)), 0, 0, 0, 0, 0, ttl)
  }

  ghost function CellOf(e: Entry): Cell
    requires e.data.Var?
  {
    Cell(e.data.value, e.ctime, e.ttl)
  }

  ghost predicate EntryShows(c: Cache, m: Contents, id: Id) {
    Linked(c, id) ==>
      c.heap[id].data.Var? && c.heap[id].name in m && m[c.heap[id].name] == CellOf(c.heap[id])
  }

  ghost predicate Stores(c: Cache, k: string) { exists id: Id :: Linked(c, id) && c.heap[id].name == k }

  /** The linked entries are exactly the contents m. */
  ghost predicate Shows(c: Cache, m: Contents) {
    (forall id: Id :: EntryShows(c, m, id)) && (forall k :: k in m ==> Stores(c, k))
  }

  /** A lookup finds the entry of m's cell, and none exactly when m has no cell. */
  lemma LookupShows(cfg: Config, c: Cache, m: Contents, e: Entry)
    requires ConfigOk(cfg) && Inv(cfg, c) && Shows(c, m) && KeyOk(cfg, e)
    ensures match Match(cfg, c, e)
            case None => e.name !in m
            case Some(id) => Linked(c, id) && c.heap[id].name == e.name && c.heap[id].data.Var?
                             && e.name in m && m[e.name] == CellOf(c.heap[id])
  {
    if e.name in m {
      assert Stores(c, e.name);
      var id: Id :| Linked(c, id) && c.heap[id].name == e.name;
      assert EntryShows(c, m, id);
      MatchIs(cfg, c, e);
    } else {
      MatchShows(cfg, c, m, e);
    }
  }

  lemma MatchShows(cfg: Config, c: Cache, m: Contents, e: Entry)
    requires ConfigOk(cfg) && Inv(cfg, c) && Shows(c, m) && KeyOk(cfg, e)
    ensures Match(cfg, c, e).Some? ==> e.name in m
  {
    MatchIs(cfg, c, e);
    if Match(cfg, c, e).Some? {
      assert EntryShows(c, m, Match(cfg, c, e).value);
    }
  }

  lemma RemovedShows(cfg: Config, c: Cache, m: Contents, id: Id, now: int)
    requires Inv(cfg, c) && Shows(c, m) && Linked(c, id) && cfg.mode == ByVarNames
    ensures Shows(Removed(c, id, now), m - {c.heap[id].name})
    ensures Inv(cfg, Removed(c, id, now))
  {
    var d, n, k := Removed(c, id, now), m - {c.heap[id].name}, c.heap[id].name;
    RemovedKeepsInv(cfg, c, id, now);
    forall x: Id ensures EntryShows(d, n, x) {
      assert EntryShows(c, m, x);
      if Linked(d, x) { LinkedNames(cfg, c, id, x); }
    }
    forall j | j in n ensures Stores(d, j) {
      assert Stores(c, j);
      var x: Id :| Linked(c, x) && c.heap[x].name == j;
      assert Linked(d, x);
    }
  }

  lemma LinkedNames(cfg: Config, c: Cache, a: Id, b: Id)
    requires Inv(cfg, c) && Linked(c, a) && Linked(c, b) && cfg.mode == ByVarNames
    ensures c.heap[a].name == c.heap[b].name ==> a == b
  {
    ChainAllocated(cfg, c, c.heap[a].hvalue);
    ChainAllocated(cfg, c, c.heap[b].hvalue);
    if c.heap[a].name == c.heap[b].name { LinkedKeysAreUnique(cfg, c, a, b); }
  }

  lemma AddedShows(cfg: Config, c: Cache, m: Contents, id: Id, e: Entry)
    requires Inv(cfg, c) && Shows(c, m) && KeyOk(cfg, e) && cfg.mode == ByVarNames
    requires id !in c.heap && KeyAbsent(c, e) && e.name !in m
    ensures Shows(Added(c, id, e), m[e.name := CellOf(e)])
  {
    var d, n := Added(c, id, e), m[e.name := CellOf(e)];
    AddedKeepsInv(cfg, c, id, e);
    forall x: Id ensures EntryShows(d, n, x) {
      assert EntryShows(c, m, x);
      if x != id && Linked(d, x) { assert Linked(c, x); }
    }
    forall j | j in n ensures Stores(d, j) {
      if j == e.name {
        assert Linked(d, id) && d.heap[id].name == j;
      } else {
        assert Stores(c, j);
        var x: Id :| Linked(c, x) && c.heap[x].name == j;
        assert Linked(d, x) && d.heap[x].name == j;
      }
    }
  }

  /** A change of one linked entry that keeps its key. */
  lemma TouchedShows(cfg: Config, c: Cache, m: Contents, id: Id, e: Entry)
    requires Inv(cfg, c) && Shows(c, m) && Linked(c, id) && cfg.mode == ByVarNames
    requires KeyOk(cfg, e) && e.name == c.heap[id].name && e.hvalue == c.heap[id].hvalue
    ensures var d := c.(heap := c.heap[id := e]);
            Inv(cfg, d) && Shows(d, m[e.name := CellOf(e)])
  {
    var d, n := c.(heap := c.heap[id := e]), m[e.name := CellOf(e)];
    ChainAllocated(cfg, c, c.heap[id].hvalue);
    SameKeysKeepInv(cfg, c, d);
    forall x: Id ensures EntryShows(d, n, x) {
      assert EntryShows(c, m, x);
      if Linked(d, x) { LinkedNames(cfg, c, id, x); }
    }
    forall j | j in n ensures Stores(d, j) {
      if j == e.name {
        assert Linked(d, id) && d.heap[id].name == j;
      } else {
        assert Stores(c, j);
        var x: Id :| Linked(c, x) && c.heap[x].name == j;
        assert Linked(d, x) && d.heap[x].name == j;
      }
    }
  }

  lemma SweptShows(cfg: Config, c: Cache, m: Contents, f: Entry -> bool, now: int)
    requires Inv(cfg, c) && Shows(c, m) && forall e: Entry :: f(e) <==> TtlOver(e.ctime, e.ttl, now)
    ensures Shows(SweptAll(c, f, now), After(m, Gc, now, true))
  {
    var d, n := SweptAll(c, f, now), After(m, Gc, now, true);
    SweptAllOutcome(cfg, c, f, now);
    forall x: Id ensures EntryShows(d, n, x) {
      assert EntryShows(c, m, x) && SweepOutcome(c, d, f, x, true);
    }
    forall j | j in n ensures Stores(d, j) {
      assert Stores(c, j);
      var x: Id :| Linked(c, x) && c.heap[x].name == j;
      assert EntryShows(c, m, x) && SweepOutcome(c, d, f, x, true);
      assert Linked(d, x) && d.heap[x].name == j;
    }
  }

  /** A variable cache together with the map it stands for. */
  class VariableCache {
    const shared: SharedCache
    const maxTtl: nat
    ghost var contents: Contents

    ghost predicate Valid()
      reads this, shared
    {
      ConfigOk(shared.cfg) && shared.Valid() && Shows(shared.View(), contents)
    }

    constructor (shared: SharedCache, maxTtl: nat)
      requires ConfigOk(shared.cfg) && shared.Valid() && shared.heap == map[]
      ensures Valid() && contents == map[] && this.shared == shared && this.maxTtl == maxTtl
    {
      this.shared, this.maxTtl, contents := shared, maxTtl, map[];
    }

    /** xc_entry_find_dmz on a variable: the entry of the name, its statistics updated. */
    method Lookup(e: Entry, now: int, ghost alloc: Option<Id>) returns (found: Option<Id>)
      requires Valid() && KeyOk(shared.cfg, e) && Offers(shared.View(), alloc, e.name)
      modifies shared
      ensures Valid() && Offers(shared.View(), alloc, e.name)
      ensures found == None <==> e.name !in contents
      ensures found.Some? ==> Holds(found.value, e.name)
    {
      ghost var c := shared.View();
      LookupOfVar(shared.cfg, c, contents, e, now);
      found := shared.Find(e, now);
    }

    /** id is the linked entry of the name, and the map has its cell. */
    ghost predicate Holds(id: Id, name: string)
      reads this, shared
    {
      && Linked(shared.View(), id) && KeyOk(shared.cfg, shared.heap[id])
      && shared.heap[id].name == name && shared.heap[id].data.Var?
      && name in contents && contents[name] == CellOf(shared.heap[id])
    }

    /** xc_entry_remove_dmz on a variable. */
    method Drop(id: Id, e: Entry, now: int)
      requires Valid() && KeyOk(shared.cfg, e) && Holds(id, e.name)
      modifies this, shared
      ensures Valid() && contents == old(contents) - {e.name}
      ensures shared.View() == Removed(old(shared.View()), id, now)
    {
      ghost var c := shared.View();
      RemovedShows(shared.cfg, c, contents, id, now);
      contents := contents - {e.name};
      shared.Remove(id, now);
    }

    /** xc_entry_store_dmz on a variable whose name is absent. */
    method StoreVar(e: Entry, now: int, alloc: Option<Id>) returns (ok: bool)
      requires Valid() && KeyOk(shared.cfg, e) && e.data.Var? && e.name !in contents
      requires alloc.Some? ==> alloc.value !in shared.heap
      modifies this, shared
      ensures Valid() && ok == alloc.Some?
      ensures contents == if ok then old(contents)[e.name := Cell(e.data.value, now, e.ttl)] else old(contents)
    {
      ghost var c := shared.View();
      LookupShows(shared.cfg, c, contents, e);
      MatchIs(shared.cfg, c, e);
      ok := alloc.Some?;
      if ok {
        AddedShows(shared.cfg, c, contents, alloc.value, Fresh(e, now));
        contents := contents[e.name := Cell(e.data.value, now, e.ttl)];
      } else {
        OomShows(c, contents);
      }
      var stored := shared.Store(e, now, alloc);
    }

    /** Removes the entry a lookup found, if any: then the offered address is free. */
    method Vacate(found: Option<Id>, e: Entry, now: int, ghost alloc: Option<Id>)
      requires Valid() && KeyOk(shared.cfg, e) && Offers(shared.View(), alloc, e.name)
      requires found.Some? ==> Holds(found.value, e.name)
      requires found == None ==> e.name !in contents
      modifies this, shared
      ensures Valid() && contents == old(contents) - {e.name}
      ensures alloc.Some? ==> alloc.value !in shared.heap
    {
      ghost var c := shared.View();
      if alloc.Some? { OfferIsFound(shared.cfg, c, contents, e.name, alloc.value, found); }
      if found.Some? {
        RemovedKeepsInv(shared.cfg, c, found.value, now);
        Drop(found.value, e, now);
      }
    }

    /** The opening of get, isset and inc: find the name and remove it if it has expired. */
    method FindLive(e: Entry, now: int, ghost alloc: Option<Id>) returns (found: Option<Id>)
      requires Valid() && KeyOk(shared.cfg, e) && Offers(shared.View(), alloc, e.name)
      modifies this, shared
      ensures Valid() && Offers(shared.View(), alloc, e.name)
      ensures contents == if Live(old(contents), e.name, now) then old(contents) else old(contents) - {e.name}
      ensures found.Some? <==> Live(old(contents), e.name, now)
      ensures found.Some? ==> Holds(found.value, e.name)
    {
      found := Lookup(e, now, alloc);
      if found.Some? && TtlOver(shared.heap[found.value].ctime, shared.heap[found.value].ttl, now) {
        Vacate(found, e, now, alloc);
        found := None;
      }
    }

    method Get(name: string, now: int) returns (r: Answer)
      requires Valid() && NUL !in name
      modifies this, shared
      ensures Valid() && contents == After(old(contents), Op.Get(name), now, true)
      ensures r == Answered(old(contents), Op.Get(name), now, true)
    {
      var found := FindLive(KeyFor(shared.cfg, name, Long(0), 0), now, None);
      r := if found.Some? then Val(shared.heap[found.value].data.value) else Nothing;
    }

    method Isset(name: string, now: int) returns (r: Answer)
      requires Valid() && NUL !in name
      modifies this, shared
      ensures Valid() && contents == After(old(contents), Op.Isset(name), now, true)
      ensures r == Answered(old(contents), Op.Isset(name), now, true)
    {
      var found := FindLive(KeyFor(shared.cfg, name, Long(0), 0), now, None);
      r := Bool(found.Some?);
    }

    /** Removes what a lookup found, if anything, and stores. */
    method Recreate(found: Option<Id>, e: Entry, now: int, alloc: Option<Id>) returns (ok: bool)
      requires Valid() && KeyOk(shared.cfg, e) && e.data.Var? && Offers(shared.View(), alloc, e.name)
      requires found.Some? ==> Holds(found.value, e.name)
      requires found == None ==> e.name !in contents
      modifies this, shared
      ensures Valid() && ok == alloc.Some?
      ensures contents == if ok then old(contents)[e.name := Cell(e.data.value, now, e.ttl)]
        else old(contents) - {e.name}
    {
      Vacate(found, e, now, alloc);
      ok := StoreVar(e, now, alloc);
    }

    method Set(name: string, value: Value, ttl: int, now: int, alloc: Option<Id>) returns (r: Answer)
      requires Valid() && NUL !in name && Offers(shared.View(), alloc, name)
      modifies this, shared
      ensures Valid() && contents == After(old(contents), Op.Set(name, value, ClampTtl(ttl, maxTtl)), now, alloc.Some?)
      ensures r == Answered(old(contents), Op.Set(name, value, ClampTtl(ttl, maxTtl)), now, alloc.Some?)
    {
      var e := KeyFor(shared.cfg, name, value, ClampTtl(ttl, maxTtl));
      var found := Lookup(e, now, alloc);
      var ok := Recreate(found, e, now, alloc);
      r := Bool(ok);
    }

    method Unset(name: string, now: int) returns (r: Answer)
      requires Valid() && NUL !in name
      modifies this, shared
      ensures Valid() && contents == After(old(contents), Op.Unset(name), now, true)
      ensures r == Answered(old(contents), Op.Unset(name), now, true)
    {
      var e := KeyFor(shared.cfg, name, Long(0), 0);
      var found := Lookup(e, now, None);
      if found.Some? {
        Drop(found.value, e, now);
      }
      r := Bool(found.Some?);
    }

    /** The in-place update of an integer: new value, new creation time, new ttl. */
    method Rewrite(id: Id, e: Entry, now: int)
      requires Valid() && KeyOk(shared.cfg, e) && Holds(id, e.name)
      requires e.data.Var? && shared.heap[id].data.value.Long?
      modifies this, shared
      ensures Valid() && contents == old(contents)[e.name := Cell(e.data.value, now, e.ttl)]
    {
      var x := shared.heap[id].(data := e.data, ctime := now, ttl := e.ttl);
      TouchedShows(shared.cfg, shared.View(), contents, id, x);
      contents := contents[e.name := CellOf(x)];
      shared.heap := shared.heap[id := x];
    }

    /** Stores a counter's new value: in place over a live integer, else through a new entry. */
    method Recount(found: Option<Id>, e: Entry, now: int, alloc: Option<Id>)
      requires Valid() && KeyOk(shared.cfg, e) && e.data.Var? && Offers(shared.View(), alloc, e.name)
      requires found.Some? ==> Holds(found.value, e.name)
      requires found == None ==> e.name !in contents
      modifies this, shared
      ensures Valid()
      ensures contents ==
        if alloc.Some? || (found.Some? && old(contents)[e.name].value.Long?)
        then old(contents)[e.name := Cell(e.data.value, now, e.ttl)] else old(contents) - {e.name}
    {
      if found.Some? && shared.heap[found.value].data.value.Long? {
        Rewrite(found.value, e, now);
      } else {
        var ok := Recreate(found, e, now, alloc);
      }
    }

    /** xc_var_inc_dec: a live integer is changed in place, so this cannot run out of memory;
        anything else is replaced by a new entry, which can. */
    method IncDec(inc: bool, name: string, count: int, ttl: int, now: int, alloc: Option<Id>) returns (r: Answer)
      requires Valid() && NUL !in name && Offers(shared.View(), alloc, name)
      modifies this, shared
      ensures Valid()
      ensures contents ==
        After(old(contents), Op.Inc(name, if inc then count else -count, ClampTtl(ttl, maxTtl)), now, alloc.Some?)
      ensures r ==
        Answered(old(contents), Op.Inc(name, if inc then count else -count, ClampTtl(ttl, maxTtl)), now, alloc.Some?)
    {
      var value := Count(name, if inc then count else -count, ClampTtl(ttl, maxTtl), now, alloc);
      r := Val(Long(value));
    }

    method Count(name: string, delta: int, ttl: int, now: int, alloc: Option<Id>) returns (value: int)
      requires Valid() && NUL !in name && Offers(shared.View(), alloc, name)
      modifies this, shared
      ensures Valid() && contents == After(old(contents), Op.Inc(name, delta, ttl), now, alloc.Some?)
      ensures value == Wrap(Base(old(contents), name, now) + delta)
    {
      IncIsAfter(contents, name, delta, ttl, now, alloc.Some?);
      var e := KeyFor(shared.cfg, name, Long(0), ttl);
      var found, base := CurrentCount(e, now, alloc);
      value := Wrap(base + delta);
      Recount(found, KeyFor(shared.cfg, name, Long(value), ttl), now, alloc);
    }

    /** The live entry of a name and the number to count from. */
    method CurrentCount(e: Entry, now: int, ghost alloc: Option<Id>) returns (found: Option<Id>, base: int)
      requires Valid() && KeyOk(shared.cfg, e) && Offers(shared.View(), alloc, e.name)
      modifies this, shared
      ensures Valid() && Offers(shared.View(), alloc, e.name)
      ensures contents == if Live(old(contents), e.name, now) then old(contents) else old(contents) - {e.name}
      ensures found.Some? <==> Live(old(contents), e.name, now)
      ensures found.Some? ==> Holds(found.value, e.name)
      ensures base == Base(old(contents), e.name, now)
    {
      found := FindLive(e, now, alloc);
      base := 0;
      if found.Some? {
        match shared.heap[found.value].data.value
        case Long(n) => base := n;
        case Other(_, n) => base := n;
      }
    }

    /** xc_gc_expires_var on this cache. */
    method GcExpires(interval: nat, now: int)
      requires Valid()
      modifies this, shared
      ensures Valid()
      ensures contents == if AsULong(now - old(shared.lastGcExpires)) >= interval
                          then After(old(contents), Op.Gc, now, true) else old(contents)
    {
      var f: Entry -> bool := (e: Entry) => TtlOver(e.ctime, e.ttl, now);
      if AsULong(now - shared.lastGcExpires) >= interval {
        SweptShows(shared.cfg, shared.View(), contents, f, now);
        contents := After(contents, Op.Gc, now, true);
      }
      shared.GcExpires(f, interval, now);
    }
  }

  ghost predicate SameEntries(c: Cache, d: Cache) {
    && (forall x: Id :: x in c.heap <==> x in d.heap)
    && (forall x: Id :: Linked(c, x) <==> Linked(d, x))
    && (forall x: Id :: x in c.heap ==> d.heap[x].name == c.heap[x].name && d.heap[x].refcount == c.heap[x].refcount)
  }

  /** The address the allocator offers is free once the entry of that name is gone. */
  ghost predicate Offers(c: Cache, alloc: Option<Id>, name: string) {
    alloc.Some? && alloc.value in c.heap ==>
      var e := c.heap[alloc.value];
      Linked(c, alloc.value) && e.name == name && e.refcount == 0
  }

  /** Removing an expired counter first and then storing is what an increment does to the map. */
  lemma IncIsAfter(m: Contents, k: string, d: int, ttl: int, now: int, ok: bool)
    ensures var live, c := Live(m, k, now), Cell(Long(Wrap(Base(m, k, now) + d)), now, ttl);
            var n := if live then m else m - {k};
            After(m, Op.Inc(k, d, ttl), now, ok) ==
            if ok || (live && n[k].value.Long?) then n[k := c] else n - {k}
  {
    var n := if Live(m, k, now) then m else m - {k};
    var c := Cell(Long(Wrap(Base(m, k, now) + d)), now, ttl);
    assert n[k := c] == m[k := c];
    assert n - {k} == m - {k};
  }

  lemma HitOfVar(cfg: Config, c: Cache, m: Contents, id: Id, now: int)
    requires cfg.mode == ByVarNames && Inv(cfg, c) && Shows(c, m) && Linked(c, id)
    ensures var d := Hit(c, id, now); Inv(cfg, d) && Shows(d, m)
    ensures KeyOk(cfg, Hit(c, id, now).heap[id])
  {
    ChainAllocated(cfg, c, c.heap[id].hvalue);
    var e := c.heap[id].(hits := c.heap[id].hits + 1, atime := now);
    assert EntryShows(c, m, id);
    TouchedShows(cfg, c, m, id, e);
    assert m[e.name := m[e.name]] == m;
  }

  lemma LookupOfVar(cfg: Config, c: Cache, m: Contents, e: Entry, now: int)
    requires ConfigOk(cfg) && Inv(cfg, c) && Shows(c, m) && KeyOk(cfg, e)
    ensures var d := LookedUp(cfg, c, e, now); Inv(cfg, d) && Shows(d, m) && SameEntries(c, d)
    ensures var d := LookedUp(cfg, c, e, now);
      match LookupResult(cfg, c, e)
      case None => e.name !in m
      case Some(id) =>
        && Linked(d, id) && KeyOk(cfg, d.heap[id]) && d.heap[id].name == e.name && d.heap[id].data.Var?
        && d.heap[id].hvalue == e.hvalue && e.name in m && m[e.name] == CellOf(d.heap[id])
  {
    LookupShows(cfg, c, m, e);
    MatchIs(cfg, c, e);
    match Match(cfg, c, e)
    case None =>
    case Some(id) =>
      HitOfVar(cfg, c, m, id, now);
      HitSameEntries(c, id, now);
  }

  lemma HitSameEntries(c: Cache, id: Id, now: int)
    requires id in c.heap
    ensures SameEntries(c, Hit(c, id, now))
  {
  }

  /** An offered address in use can only be that of the entry about to go. */
  lemma OfferIsFound(cfg: Config, c: Cache, m: Contents, name: string, id: Id, found: Option<Id>)
    requires Inv(cfg, c) && Shows(c, m) && cfg.mode == ByVarNames
    requires id in c.heap ==> Linked(c, id) && c.heap[id].name == name && c.heap[id].refcount == 0
    requires found.Some? ==> Linked(c, found.value) && c.heap[found.value].name == name
    requires found == None ==> name !in m
    ensures id in c.heap ==> found == Some(id)
  {
    if id in c.heap {
      assert EntryShows(c, m, id);
      if found.Some? { LinkedNames(cfg, c, id, found.value); }
    }
  }

  lemma OomShows(c: Cache, m: Contents)
    requires Shows(c, m)
    ensures Shows(c.(ooms := c.ooms + 1), m)
  {
    var d := c.(ooms := c.ooms + 1);
    forall x: Id ensures EntryShows(d, m, x) { assert EntryShows(c, m, x); }
    forall j | j in m ensures Stores(d, j) {
      assert Stores(c, j);
      var x: Id :| Linked(c, x) && c.heap[x].name == j;
      assert Linked(d, x) && d.heap[x].name == j;
    }
  }
}
