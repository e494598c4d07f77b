/** Any number of requests running xc_compile_file, shutting down, collecting and clearing on one
    cache of compiled files, interleaved at lock granularity. */
module CompileProtocol {
  import opened Chains
  import opened CacheSpec

  datatype Pc = Idle | Compiling(xce: Entry) | Finishing

  datatype Request = Request(now: int, holds: seq<Id>, pc: Pc)

  datatype Sys = Sys(cache: Cache, compiling: int, requests: seq<Request>)

  datatype Event =
    | Begin(r: nat, now: int)                     // request start
    | Open(r: nat, xce: Entry)                    // first locked section of xc_compile_file
    | Store(r: nat, alloc: Option<Id>)            // compiled: the store section
    | Finish(r: nat)                              // flag cleared: stored, failed or not cachable
    | Unhold(r: nat)                              // request shutdown
    | Sweep(r: nat, f: Entry -> bool)             // expiry collection, or clearing by an administrator
    | Collect(r: nat)                             // collection of deferred deletes

  ghost predicate Next(cfg: Config, s: Sys, e: Event, t: Sys)
    requires Inv(cfg, s.cache)
  {
    && e.r < |s.requests|
    && var q := s.requests[e.r];
       match e
       case Begin(r, now) =>
         && q.pc == Idle && q.holds == [] && now != 0
         && t == s.(requests := s.requests[r := q.(now := now)])
       case Open(r, xce) =>
         && KeyOk(cfg, xce)
         && var c := OpenedCache(cfg, s.cache, s.compiling, xce, q.now);
            (match OpenResult(cfg, s.cache, s.compiling, xce)
             case Clogged => t == s
             case Restored(id) => q.pc == Idle && t == Sys(c, s.compiling, s.requests[r := q.(holds := q.holds + [id])])
             case MustCompile => q.pc == Idle && t == Sys(c, q.now, s.requests[r := q.(pc := Compiling(xce))]))
       case Store(r, alloc) =>
         && q.pc.Compiling? && q.pc.xce.hvalue < |s.cache.chains|
         && (alloc.Some? ==> alloc.value !in s.cache.heap)
         && t == s.(cache := Stored(s.cache, q.pc.xce, q.now, alloc), requests := s.requests[r := q.(pc := Finishing)])
       case Finish(r) =>
         && q.pc != Idle
         && t == s.(compiling := 0, requests := s.requests[r := q.(pc := Idle)])
       case Unhold(r) =>
         && q.pc == Idle && Covers(s.cache, q.holds)
         && t == s.(cache := Unheld(s.cache, q.holds), requests := s.requests[r := q.(holds := [])])
       case Sweep(r, f) =>
         t == s.(cache := SweptAll(s.cache, f, q.now))
       case Collect(r) =>
         t == s.(cache := Collected(s.cache, q.now))
  }

  // ---- one compiler at a time ---------------------------------------------------------------

  ghost predicate Busy(s: Sys, r: nat) { r < |s.requests| && s.requests[r].pc != Idle }

  /** A request that compiles does so for a key nobody has linked. */
  ghost predicate Pending(cfg: Config, s: Sys, r: nat)
    requires r < |s.requests| && |s.cache.chains| == cfg.size
  {
    s.requests[r].pc.Compiling? ==> KeyOk(cfg, s.requests[r].pc.xce) && KeyAbsent(s.cache, s.requests[r].pc.xce)
  }

  ghost predicate CompileInv(cfg: Config, s: Sys) {
    && Inv(cfg, s.cache)
    && (forall r: nat :: r < |s.requests| ==> s.requests[r].now != 0)
    && (s.compiling != 0 <==> exists r: nat :: Busy(s, r))
    && (forall r: nat, q: nat :: Busy(s, r) && Busy(s, q) ==> r == q)
    && (forall r: nat :: r < |s.requests| ==> Pending(cfg, s, r))
  }

  /** d links nothing that c did not link under the same key. */
  ghost predicate Shrinks(c: Cache, d: Cache) {
    forall x :: Linked(d, x) ==>
      Linked(c, x) && IdentOf(d.heap[x]) == IdentOf(c.heap[x]) && d.heap[x].hvalue == c.heap[x].hvalue
  }

  ghost function RefOf(c: Cache, x: Id): nat { if x in c.heap then c.heap[x].refcount else 0 }

  ghost predicate SameRefs(c: Cache, d: Cache) { forall x: Id :: RefOf(d, x) == RefOf(c, x) }

  lemma ShrinkKeepsAbsent(cfg: Config, c: Cache, d: Cache, e: Entry)
    requires ChainsOk(cfg, c) && ChainsOk(cfg, d) && Shrinks(c, d) && KeyOk(cfg, e) && KeyAbsent(c, e)
    ensures KeyAbsent(d, e)
  {
    ChainAllocated(cfg, d, e.hvalue);
  }

  lemma SweptShrinks(cfg: Config, c: Cache, f: Entry -> bool, now: int)
    requires Inv(cfg, c)
    ensures Inv(cfg, SweptAll(c, f, now)) && Shrinks(c, SweptAll(c, f, now)) && SameRefs(c, SweptAll(c, f, now))
  {
    SweptAllOutcome(cfg, c, f, now);
    var d := SweptAll(c, f, now);
    forall x: Id ensures (Linked(d, x) ==> Linked(c, x) && d.heap[x] == c.heap[x]) && RefOf(d, x) == RefOf(c, x) {
      assert SweepOutcome(c, d, f, x, true);
    }
  }

  lemma CollectedShrinks(cfg: Config, c: Cache, now: int)
    requires Inv(cfg, c)
    ensures Inv(cfg, Collected(c, now)) && Shrinks(c, Collected(c, now))
    ensures (forall x :: x in c.deletes && c.heap[x].refcount > 0 ==> now - c.heap[x].dtime <= DELETE_GRACE)
        ==> SameRefs(c, Collected(c, now))
  {
    CollectedOutcome(cfg, c, now);
    var d := Collected(c, now);
    forall x: Id ensures Linked(d, x) ==> Linked(c, x) && d.heap[x] == c.heap[x] {
      assert CollectOutcome(c, d, x, x in c.deletes, now);
    }
    if forall x :: x in c.deletes && c.heap[x].refcount > 0 ==> now - c.heap[x].dtime <= DELETE_GRACE {
      forall x: Id ensures RefOf(d, x) == RefOf(c, x) {
        assert CollectOutcome(c, d, x, x in c.deletes, now);
      }
    }
  }

  lemma LookupShrinks(cfg: Config, c: Cache, e: Entry, now: int)
    requires Inv(cfg, c) && KeyOk(cfg, e)
    ensures Shrinks(c, LookedUp(cfg, c, e, now)) && SameRefs(c, LookedUp(cfg, c, e, now))
  {
    MatchIs(cfg, c, e);
    match Match(cfg, c, e)
    case None =>
    case Some(id) =>
      if !Current(c.heap[id], e) { RemovedKeepsInv(cfg, c, id, now); }
  }

  /** Opening keeps the invariant; if it decides to compile, the key is absent from then on. */
  lemma OpenOutcome(cfg: Config, c: Cache, compiling: int, xce: Entry, now: int)
    requires Inv(cfg, c) && KeyOk(cfg, xce)
    ensures var d, o := OpenedCache(cfg, c, compiling, xce, now), OpenResult(cfg, c, compiling, xce);
      && Inv(cfg, d) && Shrinks(c, d)
      && (o == MustCompile ==> compiling == 0 && KeyAbsent(d, xce))
      && (o.Restored? ==> Linked(d, o.id) && IdentOf(d.heap[o.id]) == IdentOf(xce) && SameVersion(d.heap[o.id], xce))
      && forall x: Id :: RefOf(d, x) == RefOf(c, x) + (if o == Restored(x) then 1 else 0)
  {
    if compiling == 0 {
      LookupOutcome(cfg, c, xce, now);
      LookupShrinks(cfg, c, xce, now);
      var l := LookedUp(cfg, c, xce, now);
      match LookupResult(cfg, c, xce)
      case None =>
      case Some(id) => HeldKeepsInv(cfg, l, id);
    }
  }

  /** A step that changes only the cache, by shrinking it, and not who compiles. */
  lemma ShrinkStep(cfg: Config, s: Sys, t: Sys, r: nat, q: Request)
    requires CompileInv(cfg, s) && r < |s.requests| && Inv(cfg, t.cache) && Shrinks(s.cache, t.cache)
    requires q.pc == s.requests[r].pc && q.now != 0
    requires t.requests == s.requests[r := q] && t.compiling == s.compiling
    ensures CompileInv(cfg, t)
  {
    assert forall p: nat :: Busy(t, p) <==> Busy(s, p);
    forall p: nat | p < |t.requests| ensures Pending(cfg, t, p) {
      assert Pending(cfg, s, p);
      if s.requests[p].pc.Compiling? { ShrinkKeepsAbsent(cfg, s.cache, t.cache, s.requests[p].pc.xce); }
    }
  }

  lemma OnlyBusy(cfg: Config, s: Sys, r: nat)
    requires CompileInv(cfg, s) && Busy(s, r)
    ensures forall p: nat :: p < |s.requests| && p != r ==> s.requests[p].pc == Idle
  {
    forall p: nat | p < |s.requests| && p != r ensures s.requests[p].pc == Idle {
      assert !Busy(s, p);
    }
  }

  lemma OpenKeepsInv(cfg: Config, s: Sys, e: Event, t: Sys)
    requires CompileInv(cfg, s) && e.Open? && Next(cfg, s, e, t)
    ensures CompileInv(cfg, t)
  {
    var q := s.requests[e.r];
    OpenOutcome(cfg, s.cache, s.compiling, e.xce, q.now);
    match OpenResult(cfg, s.cache, s.compiling, e.xce)
    case Clogged =>
    case Restored(id) => ShrinkStep(cfg, s, t, e.r, q.(holds := q.holds + [id]));
    case MustCompile =>
      forall p: nat | p < |s.requests| ensures s.requests[p].pc == Idle { assert !Busy(s, p); }
      assert Busy(t, e.r);
      assert forall p: nat :: p < |t.requests| && p != e.r ==> t.requests[p].pc == Idle;
      forall p: nat | p < |t.requests| ensures Pending(cfg, t, p) {}
  }

  lemma StoreKeepsInv(cfg: Config, s: Sys, e: Event, t: Sys)
    requires CompileInv(cfg, s) && e.Store? && Next(cfg, s, e, t)
    ensures CompileInv(cfg, t)
    ensures SameRefs(s.cache, t.cache)
  {
    var q := s.requests[e.r];
    assert Pending(cfg, s, e.r) && Busy(s, e.r);
    OnlyBusy(cfg, s, e.r);
    match e.alloc {
      case Some(id) => AddedKeepsInv(cfg, s.cache, id, Fresh(q.pc.xce, q.now));
      case None => SameKeysKeepInv(cfg, s.cache, t.cache);
    }
    assert Busy(t, e.r);
    assert forall p: nat :: p < |t.requests| && p != e.r ==> t.requests[p].pc == Idle;
    forall p: nat | p < |t.requests| ensures Pending(cfg, t, p) {}
  }

  lemma FinishKeepsInv(cfg: Config, s: Sys, e: Event, t: Sys)
    requires CompileInv(cfg, s) && e.Finish? && Next(cfg, s, e, t)
    ensures CompileInv(cfg, t)
  {
    assert Busy(s, e.r);
    OnlyBusy(cfg, s, e.r);
    assert forall p: nat :: p < |t.requests| ==> t.requests[p].pc == Idle;
    forall p: nat | p < |t.requests| ensures Pending(cfg, t, p) {}
  }

  lemma UnheldShrinks(cfg: Config, c: Cache, holds: seq<Id>)
    requires Inv(cfg, c) && Covers(c, holds)
    ensures Inv(cfg, Unheld(c, holds)) && Shrinks(c, Unheld(c, holds))
    ensures forall x: Id :: RefOf(Unheld(c, holds), x) == RefOf(c, x) - multiset(holds)[x]
  {
    SameKeysKeepInv(cfg, c, Unheld(c, holds));
    forall x: Id ensures RefOf(Unheld(c, holds), x) == RefOf(c, x) - multiset(holds)[x] {
      assert x in holds <==> multiset(holds)[x] > 0;
    }
  }

  /** Whatever a request does, at most one request compiles, the flag is set exactly while one
      does, and no two linked files share a key. */
  lemma NextKeepsCompileInv(cfg: Config, s: Sys, e: Event, t: Sys)
    requires CompileInv(cfg, s) && Next(cfg, s, e, t)
    ensures CompileInv(cfg, t)
  {
    var q := s.requests[e.r];
    match e
    case Begin(r, now) => ShrinkStep(cfg, s, t, r, q.(now := now));
    case Open(r, xce) => OpenKeepsInv(cfg, s, e, t);
    case Store(r, alloc) => StoreKeepsInv(cfg, s, e, t);
    case Finish(r) => FinishKeepsInv(cfg, s, e, t);
    case Unhold(r) =>
      UnheldShrinks(cfg, s.cache, q.holds);
      ShrinkStep(cfg, s, t, r, q.(holds := []));
    case Sweep(r, f) =>
      SweptShrinks(cfg, s.cache, f, q.now);
      ShrinkStep(cfg, s, t, r, q);
    case Collect(r) =>
      CollectedShrinks(cfg, s.cache, q.now);
      ShrinkStep(cfg, s, t, r, q);
  }

  // ---- reference counts -------------------------------------------------------------------------

  /** How often x lies on the hold stacks of the first n requests. */
  ghost function HeldTimes(rs: seq<Request>, n: nat, x: Id): nat
    requires n <= |rs|
  {
    if n == 0 then 0 else HeldTimes(rs, n - 1, x) + multiset(rs[n - 1].holds)[x]
  }

  lemma {:induction false} HeldTimesUpdate(rs: seq<Request>, r: nat, q: Request, n: nat, x: Id)
    requires r < |rs| && n <= |rs|
    ensures HeldTimes(rs[r := q], n, x) + (if r < n then multiset(rs[r].holds)[x] else 0)
         == HeldTimes(rs, n, x) + (if r < n then multiset(q.holds)[x] else 0)
  {
    if n == 0 {
    } else {
      HeldTimesUpdate(rs, r, q, n - 1, x);
    }
  }

  lemma {:induction false} HeldTimesCovers(rs: seq<Request>, r: nat, n: nat, x: Id)
    requires r < n <= |rs|
    ensures multiset(rs[r].holds)[x] <= HeldTimes(rs, n, x)
  {
    if n == r + 1 {
      // the last request summed
    } else {
      HeldTimesCovers(rs, r, n - 1, x);
    }
  }

  /** Reference counts are exactly the occurrences on all hold stacks. */
  ghost predicate HoldInv(s: Sys) {
    forall x: Id :: HeldTimes(s.requests, |s.requests|, x) == RefOf(s.cache, x)
  }

  /** No held entry has overstayed its deletion when e collects. */
  ghost predicate HoldersAreTimely(s: Sys, e: Event) {
    e.Collect? && e.r < |s.requests| ==>
      forall x :: x in s.cache.deletes && x in s.cache.heap && s.cache.heap[x].refcount > 0 ==>
        s.requests[e.r].now - s.cache.heap[x].dtime <= DELETE_GRACE
  }

  /** Everything a request holds is still allocated, and its count covers the whole stack: no
      decrement of xc_entry_unholds_real can go below zero. */
  lemma HoldsAreCovered(s: Sys, r: nat)
    requires HoldInv(s) && r < |s.requests|
    ensures Covers(s.cache, s.requests[r].holds)
  {
    var holds := s.requests[r].holds;
    forall x | x in holds ensures x in s.cache.heap && multiset(holds)[x] <= s.cache.heap[x].refcount {
      HeldTimesCovers(s.requests, r, |s.requests|, x);
      assert multiset(holds)[x] > 0;
    }
  }

  /** A step that moves x's stack occurrences and x's count alike. */
  lemma CountsMoveTogether(s: Sys, t: Sys, r: nat, q: Request)
    requires HoldInv(s) && r < |s.requests| && t.requests == s.requests[r := q]
    requires forall x: Id :: RefOf(t.cache, x) + multiset(s.requests[r].holds)[x]
                          == RefOf(s.cache, x) + multiset(q.holds)[x]
    ensures HoldInv(t)
  {
    forall x: Id ensures HeldTimes(t.requests, |t.requests|, x) == RefOf(t.cache, x) {
      HeldTimesUpdate(s.requests, r, q, |s.requests|, x);
    }
  }

  lemma OpenKeepsHoldInv(cfg: Config, s: Sys, e: Event, t: Sys)
    requires Inv(cfg, s.cache) && HoldInv(s) && e.Open? && Next(cfg, s, e, t)
    ensures HoldInv(t)
  {
    var q := s.requests[e.r];
    OpenOutcome(cfg, s.cache, s.compiling, e.xce, q.now);
    match OpenResult(cfg, s.cache, s.compiling, e.xce)
    case Clogged =>
    case Restored(id) =>
      var p := q.(holds := q.holds + [id]);
      assert forall x: Id :: multiset(p.holds)[x] == multiset(q.holds)[x] + (if x == id then 1 else 0);
      CountsMoveTogether(s, t, e.r, p);
    case MustCompile => CountsMoveTogether(s, t, e.r, q.(pc := Compiling(e.xce)));
  }

  /** A collection keeps the counts right exactly when no held entry has overstayed. */
  lemma CollectKeepsHoldInvIff(cfg: Config, s: Sys, e: Event, t: Sys)
    requires CompileInv(cfg, s) && HoldInv(s) && e.Collect? && Next(cfg, s, e, t)
    ensures HoldInv(t) <==> HoldersAreTimely(s, e)
  {
    var q := s.requests[e.r];
    if HoldersAreTimely(s, e) {
      CollectedShrinks(cfg, s.cache, q.now);
      CountsMoveTogether(s, t, e.r, q);
    } else {
      var x :| x in s.cache.deletes && s.cache.heap[x].refcount > 0 && q.now - s.cache.heap[x].dtime > DELETE_GRACE;
      CollectedOutcome(cfg, s.cache, q.now);
      assert CollectOutcome(s.cache, t.cache, x, x in s.cache.deletes, q.now);
      assert HeldTimes(t.requests, |t.requests|, x) != RefOf(t.cache, x);
    }
  }

  lemma NextKeepsHoldInv(cfg: Config, s: Sys, e: Event, t: Sys)
    requires CompileInv(cfg, s) && HoldInv(s) && Next(cfg, s, e, t) && HoldersAreTimely(s, e)
    ensures HoldInv(t)
  {
    var q := s.requests[e.r];
    match e
    case Begin(r, now) => CountsMoveTogether(s, t, r, q.(now := now));
    case Open(r, xce) => OpenKeepsHoldInv(cfg, s, e, t);
    case Store(r, alloc) =>
      StoreKeepsInv(cfg, s, e, t);
      CountsMoveTogether(s, t, r, q.(pc := Finishing));
    case Finish(r) => CountsMoveTogether(s, t, r, q.(pc := Idle));
    case Unhold(r) =>
      UnheldShrinks(cfg, s.cache, q.holds);
      CountsMoveTogether(s, t, r, q.(holds := []));
    case Sweep(r, f) =>
      SweptShrinks(cfg, s.cache, f, q.now);
      CountsMoveTogether(s, t, r, q);
    case Collect(r) => CollectKeepsHoldInvIff(cfg, s, e, t);
  }

  // ---- whole runs ---------------------------------------------------------------------------------

  ghost predicate Initial(cfg: Config, s: Sys) {
    && s.cache.heap == map[] && s.cache.chains == seq(cfg.size, _ => []) && s.cache.deletes == []
    && s.cache.entriesCount == 0 && s.cache.deletesCount == 0 && s.compiling == 0
    && forall r: nat :: r < |s.requests| ==>
         s.requests[r].pc == Idle && s.requests[r].holds == [] && s.requests[r].now != 0
  }

  /** The guard on Next only makes the step well-formed: the invariant is proved, not assumed. */
  ghost predicate Run(cfg: Config, states: seq<Sys>, events: seq<Event>) {
    && |states| == |events| + 1
    && Initial(cfg, states[0])
    && forall k: nat :: k < |events| && Inv(cfg, states[k].cache) ==> Next(cfg, states[k], events[k], states[k + 1])
  }

  lemma {:induction false} NothingHeld(rs: seq<Request>, n: nat, x: Id)
    requires n <= |rs| && forall r: nat :: r < n ==> rs[r].holds == []
    ensures HeldTimes(rs, n, x) == 0
  {
    if n == 0 {
    } else {
      NothingHeld(rs, n - 1, x);
    }
  }

  lemma InitialInv(cfg: Config, s: Sys)
    requires Initial(cfg, s)
    ensures CompileInv(cfg, s) && HoldInv(s)
  {
    EmptyTotal(s.cache.chains, |s.cache.chains|);
    forall x: Id ensures HeldTimes(s.requests, |s.requests|, x) == 0 {
      NothingHeld(s.requests, |s.requests|, x);
    }
  }

  ghost predicate NoEqualsLinked(c: Cache) {
    forall a, b :: Linked(c, a) && Linked(c, b) && Equal(c.heap[a], c.heap[b]) ==> a == b
  }

  /** In every interleaving at most one request is between setting and clearing the flag, and no
      two linked files have the same key, although the store section never looks for one. */
  lemma {:induction false} CompilersExcludeEachOther(cfg: Config, states: seq<Sys>, events: seq<Event>, k: nat)
    requires Run(cfg, states, events) && k <= |events|
    ensures CompileInv(cfg, states[k])
    ensures forall r: nat, q: nat :: Busy(states[k], r) && Busy(states[k], q) ==> r == q
    ensures NoEqualsLinked(states[k].cache)
  {
    if k == 0 {
      InitialInv(cfg, states[0]);
    } else {
      CompilersExcludeEachOther(cfg, states, events, k - 1);
      NextKeepsCompileInv(cfg, states[k - 1], events[k - 1], states[k]);
    }
    var c := states[k].cache;
    forall a, b | Linked(c, a) && Linked(c, b) && Equal(c.heap[a], c.heap[b]) ensures a == b {
      ChainAllocated(cfg, c, c.heap[a].hvalue);
      ChainAllocated(cfg, c, c.heap[b].hvalue);
      EqualMeansSameIdent(cfg.mode, c.heap[a], c.heap[b]);
      LinkedKeysAreUnique(cfg, c, a, b);
    }
  }

  /** If holders are timely at every collection so far, each count is the number of
      occurrences on all stacks, everything held is still allocated, and no unhold underflows. */
  lemma {:induction false} HeldEntriesSurvive(cfg: Config, states: seq<Sys>, events: seq<Event>, k: nat)
    requires Run(cfg, states, events) && k <= |events|
    requires forall j: nat :: j < k ==> HoldersAreTimely(states[j], events[j])
    ensures HoldInv(states[k])
    ensures forall r: nat :: r < |states[k].requests| ==> Covers(states[k].cache, states[k].requests[r].holds)
  {
    if k == 0 {
      InitialInv(cfg, states[0]);
    } else {
      CompilersExcludeEachOther(cfg, states, events, k - 1);
      HeldEntriesSurvive(cfg, states, events, k - 1);
      NextKeepsHoldInv(cfg, states[k - 1], events[k - 1], states[k]);
    }
    forall r: nat | r < |states[k].requests| ensures Covers(states[k].cache, states[k].requests[r].holds) {
      HoldsAreCovered(states[k], r);
    }
  }

  // ---- what is held stays the same file -----------------------------------------------------------

  /** The same compiled file, stored at the same time: only counts, statistics and times of use may differ. */
  predicate SameFile(a: Entry, b: Entry) {
    a.name == b.name && a.data == b.data && a.hvalue == b.hvalue && a.ctime == b.ctime
  }

  ghost predicate SameFileAt(c: Cache, d: Cache, x: Id) {
    x in c.heap && x in d.heap ==> SameFile(c.heap[x], d.heap[x])
  }

  lemma OpenKeepsFiles(cfg: Config, c: Cache, compiling: int, xce: Entry, now: int, x: Id)
    requires Inv(cfg, c) && KeyOk(cfg, xce)
    ensures SameFileAt(c, OpenedCache(cfg, c, compiling, xce, now), x)
  {
    MatchIs(cfg, c, xce);
    match Match(cfg, c, xce)
    case None =>
    case Some(id) =>
      if !Current(c.heap[id], xce) { RemovedKeepsInv(cfg, c, id, now); }
  }

  /** No step puts another file under an address that stays allocated. */
  lemma NextKeepsFiles(cfg: Config, s: Sys, e: Event, t: Sys, x: Id)
    requires Inv(cfg, s.cache) && Next(cfg, s, e, t)
    ensures SameFileAt(s.cache, t.cache, x)
  {
    var q := s.requests[e.r];
    match e
    case Open(r, xce) => OpenKeepsFiles(cfg, s.cache, s.compiling, xce, q.now, x);
    case Sweep(r, f) =>
      SweptAllOutcome(cfg, s.cache, f, q.now);
      assert SweepOutcome(s.cache, t.cache, f, x, true);
    case Collect(r) =>
      CollectedOutcome(cfg, s.cache, q.now);
      assert CollectOutcome(s.cache, t.cache, x, x in s.cache.deletes, q.now);
    case _ =>
  }

  ghost predicate IsHeld(s: Sys, x: Id) { exists r: nat :: r < |s.requests| && x in s.requests[r].holds }

  /** What somebody holds, not always the same request, at every moment from i to k is allocated throughout
      and is the same file at both, if holders have been timely. */
  lemma {:induction false} HeldStaysItself(cfg: Config, states: seq<Sys>, events: seq<Event>, i: nat, k: nat, x: Id)
    requires Run(cfg, states, events) && i <= k <= |events|
    requires forall j: nat :: j < k ==> HoldersAreTimely(states[j], events[j])
    requires forall j: nat :: i <= j <= k ==> IsHeld(states[j], x)
    ensures x in states[i].cache.heap && x in states[k].cache.heap
    ensures SameFile(states[i].cache.heap[x], states[k].cache.heap[x])
  {
    HeldEntriesSurvive(cfg, states, events, k);
    assert IsHeld(states[k], x);
    if i == k {
      // the same moment
    } else {
      HeldStaysItself(cfg, states, events, i, k - 1, x);
      CompilersExcludeEachOther(cfg, states, events, k - 1);
      NextKeepsFiles(cfg, states[k - 1], events[k - 1], states[k], x);
    }
  }

  // ---- a run in which a holder is too late -----------------------------------------------------------

  function OneFile(): Entry { Entry("f", Php(1, 1, 0, 0), 0, 0, 0, 0, 0, 0, 0) }

  function OneSlot(): Config { Config(ByInodes, 1, _ => 0) }

  ghost function Empty(): Cache { Cache(map[], [[]], [], 0, 0, 0) }

  ghost function OneStored(): Cache { Added(Empty(), 0, Fresh(OneFile(), 1)) }

  ghost function OneHeld(): Cache { Held(Hit(OneStored(), 0, 1), 0) }

  ghost function OneDeleted(): Cache {
    OneHeld().(heap := map[0 := OneHeld().heap[0].(dtime := 1)], chains := [[]], deletes := [0],
               entriesCount := 0, deletesCount := 1)
  }

  /** Two requests, which began at times 1 and 5000. */
  ghost function Two(c: Cache, compiling: int, holds: seq<Id>, pc: Pc): Sys {
    Sys(c, compiling, [Request(1, holds, pc), Request(5000, [], Idle)])
  }

  lemma OpensEmpty()
    requires Inv(OneSlot(), Empty())
    ensures Next(OneSlot(), Two(Empty(), 0, [], Idle), Open(0, OneFile()), Two(Empty(), 1, [], Compiling(OneFile())))
  {
  }

  lemma OpensStored()
    requires Inv(OneSlot(), OneStored())
    ensures Next(OneSlot(), Two(OneStored(), 0, [], Idle), Open(0, OneFile()), Two(OneHeld(), 0, [0], Idle))
  {
    var c := OneStored();
    assert c.chains[0] == [0] && Equal(OneFile(), c.heap[0]);
    assert Match(OneSlot(), c, OneFile()) == Some(0);
    assert [] + [0] == [0];
  }

  lemma StoresFile()
    requires Inv(OneSlot(), Empty())
    ensures Next(OneSlot(), Two(Empty(), 1, [], Compiling(OneFile())), Event.Store(0, Some(0)),
                 Two(OneStored(), 1, [], Finishing))
  {
  }

  lemma Finishes()
    requires Inv(OneSlot(), OneStored())
    ensures Next(OneSlot(), Two(OneStored(), 1, [], Finishing), Finish(0), Two(OneStored(), 0, [], Idle))
  {
  }

  lemma SweepsHeld(f: Entry -> bool)
    requires Inv(OneSlot(), OneHeld()) && f(OneHeld().heap[0])
    ensures Next(OneSlot(), Two(OneHeld(), 0, [0], Idle), Sweep(0, f), Two(OneDeleted(), 0, [0], Idle))
  {
    var c := OneHeld();
    assert c.chains[0] == [0] && Linked(c, 0) && Without([0], 0) == [];
    assert SweptChain(c, [0], f, 1) == SweptChain(Removed(c, 0, 1), [0][1..], f, 1);
    assert Removed(c, 0, 1) == OneDeleted();
  }

  lemma CollectsHeld()
    requires Inv(OneSlot(), OneDeleted())
    ensures Next(OneSlot(), Two(OneDeleted(), 0, [0], Idle), Collect(1), Two(Empty(), 0, [0], Idle))
  {
    var c := OneDeleted();
    assert Dropped(c, 0).heap == map[] && Dropped(c, 0).deletes == [];
    assert Collected(c, 5000) == CollectedFrom(Dropped(c, 0), 0, 5000) == Empty();
  }

  /** An entry that was found, then deleted, and is still held more than 3600 s later is freed under its
      holder: the run opens and stores a file, opens it again, clears the cache, and collects. */
  lemma HeldFileCanBeFreed(f: Entry -> bool) returns (states: seq<Sys>, events: seq<Event>)
    requires forall e: Entry :: f(e)
    ensures Run(OneSlot(), states, events)
    ensures var t := states[|events|];
      t == Two(Empty(), 0, [0], Idle) && 0 in t.requests[0].holds && 0 !in t.cache.heap && !HoldInv(t)
  {
    var e := OneFile();
    events := [Open(0, e), Event.Store(0, Some(0)), Finish(0), Open(0, e), Sweep(0, f), Collect(1)];
    states := [Two(Empty(), 0, [], Idle), Two(Empty(), 1, [], Compiling(e)), Two(OneStored(), 1, [], Finishing),
               Two(OneStored(), 0, [], Idle), Two(OneHeld(), 0, [0], Idle), Two(OneDeleted(), 0, [0], Idle),
               Two(Empty(), 0, [0], Idle)];
    forall k: nat | k < 6 && Inv(OneSlot(), states[k].cache)
      ensures Next(OneSlot(), states[k], events[k], states[k + 1])
    {
      if k == 0 { OpensEmpty(); }
      else if k == 1 { StoresFile(); }
      else if k == 2 { Finishes(); }
      else if k == 3 { OpensStored(); }
      else if k == 4 { SweepsHeld(f); }
      else { CollectsHeld(); }
    }
    HolderCounts();
  }

  lemma HolderCounts()
    ensures Initial(OneSlot(), Two(Empty(), 0, [], Idle)) && !HoldInv(Two(Empty(), 0, [0], Idle))
  {
    var t := Two(Empty(), 0, [0], Idle);
    var none: seq<seq<Id>> := seq(1, _ => []);
    assert none == [[]];
    assert HeldTimes(t.requests, 0, 0) == 0 && t.requests[1].holds == [];
    assert HeldTimes(t.requests, 1, 0) == 1 && HeldTimes(t.requests, 2, 0) == 1;
    assert RefOf(t.cache, 0) == 0;
  }
}
