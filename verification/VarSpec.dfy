/** The variable cache as its users see it: a map from names to values that expire. */
module VarSpec {
  import opened Machine
  import opened Chains
  import opened CacheSpec

  const LONG_MAX: int := 0x7fff_ffff_ffff_ffff

  /** Two's complement 64-bit result of an integer operation. */
  function Wrap(n: int): int {
    var u := n % ULONG_MOD;
    if u > LONG_MAX then u - ULONG_MOD else u
  }

  predicate IsLong(n: int) { -0x8000_0000_0000_0000 <= n <= 0x7fff_ffff_ffff_ffff }

  /** The result is a 64-bit long, congruent to the exact one, and so equal to it if that is a long too. */
  lemma WrapIs(n: int)
    ensures IsLong(Wrap(n)) && Wrap(n) % ULONG_MOD == n % ULONG_MOD
    ensures IsLong(n) ==> Wrap(n) == n
  {
    var q := (n - Wrap(n)) / ULONG_MOD;
    ModShift(Wrap(n), q);
  }

  datatype Cell = Cell(value: Value, ctime: int, ttl: int)

  type Contents = map<string, Cell>

  /** VAR_ENTRY_EXPIRED. */
  predicate TtlOver(ctime: int, ttl: int, now: int) { ttl != 0 && now > ctime + ttl }

  predicate Expired(c: Cell, now: int) { TtlOver(c.ctime, c.ttl, now) }

  predicate Live(m: Contents, k: string, now: int) { k in m && !Expired(m[k], now) }

  /** The ttl an entry gets under a maximum; the comparison is unsigned. */
  function ClampTtl(ttl: int, maxTtl: nat): int {
    if maxTtl != 0 && (ttl == 0 || ttl % ULONG_MOD > maxTtl) then maxTtl else ttl
  }

  datatype Op =
    | Get(name: string)
    | Isset(name: string)
    | Set(name: string, value: Value, ttl: int)
    | Unset(name: string)
    | Inc(name: string, delta: int, ttl: int)
    | Gc

  datatype Answer = Nothing | Bool(b: bool) | Val(v: Value)

  /** The number an increment starts from. */
  function Base(m: Contents, k: string, now: int): int {
    if !Live(m, k, now) then 0
    else match m[k].value case Long(n) => n case Other(_, n) => n
  }

  /** With a maximum nothing is kept longer, and nothing forever. */
  lemma ClampTtlIs(ttl: int, maxTtl: nat)
    requires IsLong(ttl) && IsLong(maxTtl)
    ensures var r := ClampTtl(ttl, maxTtl);
      && (maxTtl == 0 || 0 < ttl <= maxTtl ==> r == ttl)
      && (maxTtl > 0 && !(0 < ttl <= maxTtl) ==> r == maxTtl)
  {
    if ttl < 0 { Remainder(ttl, -1, ttl + ULONG_MOD, ULONG_MOD); }
  }

  /** One call at time `now`; `ok` says whether the allocator can serve a store. */
  function After(m: Contents, op: Op, now: int, ok: bool): Contents {
    match op
    case Get(k) => if Live(m, k, now) then m else m - {k}
    case Isset(k) => if Live(m, k, now) then m else m - {k}
    case Set(k, v, ttl) => if ok then m[k := Cell(v, now, ttl)] else m - {k}
    case Unset(k) => m - {k}
    case Inc(k, d, ttl) =>
      if ok || (Live(m, k, now) && m[k].value.Long?) then m[k := Cell(Long(Wrap(Base(m, k, now) + d)), now, ttl)]
      else m - {k}
    case Gc => map k | k in m && !Expired(m[k], now) :: m[k]
  }

  function Answered(m: Contents, op: Op, now: int, ok: bool): Answer {
    match op
    case Get(k) => if Live(m, k, now) then Val(m[k].value) else Nothing
    case Isset(k) => Bool(Live(m, k, now))
    case Set(k, v, ttl) => Bool(ok)
    case Unset(k) => Bool(k in m)
    case Inc(k, d, ttl) => Val(Long(Wrap(Base(m, k, now) + d)))
    case Gc => Nothing
  }

  // ---- single calls ---------------------------------------------------------------------------

  /** A value is there exactly until its ttl is over; a ttl of zero is never over. */
  ghost predicate There(m: Contents, k: string, now: int) {
    k in m && (m[k].ttl == 0 || now <= m[k].ctime + m[k].ttl)
  }

  /** What a lookup answers, and which of the stored values lookups and collections leave. */
  lemma LookupAnswers(m: Contents, k: string, now: int, ok: bool)
    ensures Answered(m, Get(k), now, ok) == if There(m, k, now) then Val(m[k].value) else Nothing
    ensures Answered(m, Isset(k), now, ok) == Bool(There(m, k, now))
    ensures Answered(m, Unset(k), now, ok) == Bool(k in m)
    ensures forall op :: op == Get(k) || op == Isset(k) || op == Gc ==>
      var d := After(m, op, now, ok); (k in d <==> There(m, k, now)) && (k in d ==> d[k] == m[k])
    ensures k !in After(m, Unset(k), now, ok)
  {
  }

  /** A stored value is found exactly until its ttl is over; a failed store leaves nothing. */
  lemma SetThenGet(m: Contents, k: string, v: Value, ttl: int, t: int, u: int, ok: bool)
    ensures var d := After(m, Set(k, v, ttl), t, ok);
      Answered(d, Get(k), u, true) == if ok && (ttl == 0 || u <= t + ttl) then Val(v) else Nothing
    ensures Answered(m, Set(k, v, ttl), t, ok) == Bool(ok)
  {
  }

  /** An increment counts from the value if that is there, converted if it is no number, and from zero
      otherwise. The answer is the 64-bit sum, which is what is stored, under a new ttl. */
  lemma IncIs(m: Contents, k: string, d: int, ttl: int, now: int, ok: bool)
    ensures var from := if !There(m, k, now) then 0 else if m[k].value.Long? then m[k].value.n else m[k].value.asLong;
      match Answered(m, Inc(k, d, ttl), now, ok)
      case Val(Long(v)) =>
        && IsLong(v) && v % ULONG_MOD == (from + d) % ULONG_MOD && (IsLong(from + d) ==> v == from + d)
        && var n := After(m, Inc(k, d, ttl), now, ok);
           if ok || (There(m, k, now) && m[k].value.Long?) then k in n && n[k] == Cell(Long(v), now, ttl) else k !in n
      case _ => false
  {
    WrapIs(Base(m, k, now) + d);
  }

  /** The largest counter wraps around. */
  lemma LargestWraps()
    ensures var m := map["k" := Cell(Long(0x7fff_ffff_ffff_ffff), 1000, 0)];
      Answered(m, Inc("k", 1, 0), 1001, true) == Val(Long(-0x8000_0000_0000_0000))
  {
  }

  /** No call but a collection touches the value of another name. */
  lemma OthersStay(m: Contents, op: Op, now: int, ok: bool, k: string)
    requires op != Gc && op.name != k
    ensures var d := After(m, op, now, ok); (k in m <==> k in d) && (k in m ==> d[k] == m[k])
  {
  }

  // ---- no increment is lost -------------------------------------------------------------------

  datatype Call = Call(op: Op, now: int, ok: bool)

  function Outcome(m: Contents, calls: seq<Call>, n: nat): Contents
    requires n <= |calls|
  {
    if n == 0 then m else var c := calls[n - 1]; After(Outcome(m, calls, n - 1), c.op, c.now, c.ok)
  }

  /** Call c increments k, or cannot remove or overwrite it. */
  predicate Keeps(c: Call, k: string) {
    match c.op
    case Set(name, _, _) => name != k
    case Unset(name) => name != k
    case _ => true
  }

  function Increment(c: Call, k: string): int {
    match c.op case Inc(name, d, _) => (if name == k then d else 0) case _ => 0
  }

  function Increments(calls: seq<Call>, k: string, n: nat): int
    requires n <= |calls|
  {
    if n == 0 then 0 else Increments(calls, k, n - 1) + Increment(calls[n - 1], k)
  }

  /** Wrapping at every step is wrapping once, and never more than wrapping. */
  lemma WrapSum(a: int, b: int)
    ensures Wrap(Wrap(a) + b) == Wrap(a + b)
    ensures IsLong(Wrap(a + b)) && Wrap(a + b) % ULONG_MOD == (a + b) % ULONG_MOD
    ensures IsLong(a + b) ==> Wrap(Wrap(a) + b) == a + b
  {
    WrapIs(a + b);
    var q := (a - Wrap(a)) / ULONG_MOD;
    assert a == Wrap(a) + ULONG_MOD * q;
    assert (a + b) % ULONG_MOD == (Wrap(a) + b) % ULONG_MOD by { ModShift(Wrap(a) + b, q); }
  }

  lemma ModShift(x: int, q: int)
    ensures (x + ULONG_MOD * q) % ULONG_MOD == x % ULONG_MOD
  {
    var d := x / ULONG_MOD;
    assert x + ULONG_MOD * q == ULONG_MOD * (d + q) + x % ULONG_MOD;
  }

  /** The counter that starts at w, after the first n calls. */
  function Counted(calls: seq<Call>, k: string, w: int, n: nat): int
    requires n <= |calls|
  {
    if n == 0 then w
    else
      var c, v := calls[n - 1], Counted(calls, k, w, n - 1);
      if c.op.Inc? && c.op.name == k then Wrap(v + c.op.delta) else v
  }

  /** The counter is the sum so far, or at least a long congruent to it. */
  predicate IsSum(v: int, sum: int) { v == sum || (IsLong(v) && v % ULONG_MOD == sum % ULONG_MOD) }

  lemma SumGoesOn(v: int, sum: int, d: int)
    requires IsSum(v, sum)
    ensures IsSum(Wrap(v + d), sum + d)
  {
    WrapIs(v + d);
    Congruent(v, sum, d);
  }

  lemma Congruent(a: int, b: int, d: int)
    requires a % ULONG_MOD == b % ULONG_MOD
    ensures (a + d) % ULONG_MOD == (b + d) % ULONG_MOD
  {
    ModShift(b + d, a / ULONG_MOD - b / ULONG_MOD);
  }

  lemma {:induction false} CountedIsSum(calls: seq<Call>, k: string, start: int, n: nat)
    requires n <= |calls|
    ensures IsSum(Counted(calls, k, start, n), start + Increments(calls, k, n))
  {
    if n == 0 {
    } else {
      CountedIsSum(calls, k, start, n - 1);
      SumGoesOn(Counted(calls, k, start, n - 1), start + Increments(calls, k, n - 1), Increment(calls[n - 1], k));
    }
  }

  lemma SameLong(v: int, w: int)
    requires IsLong(v) && IsLong(w) && v % ULONG_MOD == w % ULONG_MOD
    ensures v == w
  {
  }

  /** The call looks at the expiry of k: it names k, or is a collection. */
  predicate Concerns(c: Call, k: string) {
    match c.op
    case Get(name) => name == k
    case Isset(name) => name == k
    case Set(name, _, _) => name == k
    case Unset(name) => name == k
    case Inc(name, _, _) => name == k
    case Gc => true
  }

  /** Call j does not remove k, nor overwrite it but by incrementing, and if it concerns k then k is live. */
  ghost predicate Undisturbed(m: Contents, calls: seq<Call>, k: string, j: nat)
    requires j < |calls|
  {
    && Keeps(calls[j], k)
    && (Concerns(calls[j], k) && k in Outcome(m, calls, j) ==> Live(Outcome(m, calls, j), k, calls[j].now))
  }

  lemma {:induction false} CounterFollows(m: Contents, calls: seq<Call>, k: string, w: int, n: nat)
    requires n <= |calls| && k in m && m[k].value == Long(w)
    requires forall j: nat :: j < n ==> Undisturbed(m, calls, k, j)
    ensures k in Outcome(m, calls, n) && Outcome(m, calls, n)[k].value == Long(Counted(calls, k, w, n))
  {
    if n == 0 {
    } else {
      CounterFollows(m, calls, k, w, n - 1);
      assert Undisturbed(m, calls, k, n - 1);
    }
  }

  /** However other clients' calls interleave and whether or not memory runs out, a counter that
      stays live and is neither set nor unset ends at its start plus every increment: exactly so whenever
      that sum is a 64-bit long, and else modulo 2^64. */
  lemma NoIncrementIsLost(m: Contents, calls: seq<Call>, k: string, start: int, n: nat)
    requires n <= |calls| && k in m && m[k].value == Long(start)
    requires forall j: nat :: j < n ==> Undisturbed(m, calls, k, j)
    ensures var sum := start + Increments(calls, k, n);
      && k in Outcome(m, calls, n) && Outcome(m, calls, n)[k].value.Long?
      && var v := Outcome(m, calls, n)[k].value.n;
         v % ULONG_MOD == sum % ULONG_MOD && (IsLong(sum) ==> v == sum)
  {
    CounterFollows(m, calls, k, start, n);
    CountedIsSum(calls, k, start, n);
    var v, sum := Counted(calls, k, start, n), start + Increments(calls, k, n);
    if v != sum && IsLong(sum) { SameLong(v, sum); }
  }

  // ---- expiry collection is invisible -------------------------------------------------------------

  /** The two maps agree on what is live at time t or later. */
  ghost predicate Agree(a: Contents, b: Contents, t: int) {
    forall k :: Live(a, k, t) || Live(b, k, t) ==> k in a && k in b && a[k] == b[k]
  }

  lemma GcAgrees(m: Contents, t: int)
    ensures Agree(m, After(m, Gc, t, true), t)
  {
  }

  /** Collecting at time t changes no lookup at time u exactly when nothing that expired by t is
      still live at u; at any later time nothing is. */
  lemma GcInvisibleIff(m: Contents, t: int, u: int)
    ensures (forall k :: Answered(m, Get(k), u, true) == Answered(After(m, Gc, t, true), Get(k), u, true))
       <==> (forall k :: k in m && Expired(m[k], t) ==> Expired(m[k], u))
    ensures t <= u ==> forall k :: Answered(m, Get(k), u, true) == Answered(After(m, Gc, t, true), Get(k), u, true)
  {
    var d := After(m, Gc, t, true);
    if k :| k in m && Expired(m[k], t) && !Expired(m[k], u) {
      assert Answered(m, Get(k), u, true) != Answered(d, Get(k), u, true);
    }
    if t <= u {
      assert forall k :: k in m && Expired(m[k], t) ==> Expired(m[k], u);
    }
  }

  /** A request that started before the collector did can tell: the value it would have read is gone. */
  lemma EarlierRequestSeesGc()
    ensures var m := Outcome(map[], [Call(Set("k", Long(1), 10), 1000, true)], 1);
      && Answered(m, Get("k"), 1005, true) == Val(Long(1))
      && Answered(After(m, Gc, 1011, true), Get("k"), 1005, true) == Nothing
  {
    var calls := [Call(Set("k", Long(1), 10), 1000, true)];
    var m := Outcome(map[], calls, 1);
    assert Outcome(map[], calls, 0) == map[];
    assert calls[0].op == Set("k", Long(1), 10);
    assert m == map["k" := Cell(Long(1), 1000, 10)];
    assert "k" !in After(m, Gc, 1011, true);
  }

  /** Unsetting an expired value that is still stored answers true, and false after a collection. */
  lemma UnsetBeforeAndAfterGc()
    ensures var m := map["k" := Cell(Long(1), 1000, 10)];
      && Answered(m, Unset("k"), 1011, true) == Bool(true)
      && Answered(After(m, Gc, 1011, true), Unset("k"), 1011, true) == Bool(false)
  {
    var m := map["k" := Cell(Long(1), 1000, 10)];
    UnsetSeesGc(m, 1011, "k");
    assert "k" !in After(m, Gc, 1011, true);
  }

  /** Agreeing contents answer every later call alike, `unset` excepted, and go on agreeing. */
  lemma AgreementLasts(a: Contents, b: Contents, t: int, op: Op, now: int, ok: bool)
    requires Agree(a, b, t) && t <= now
    ensures !op.Unset? ==> Answered(a, op, now, ok) == Answered(b, op, now, ok)
    ensures Agree(After(a, op, now, ok), After(b, op, now, ok), now)
  {
    assert forall k :: Live(a, k, now) ==> Live(a, k, t);
    assert forall k :: Live(b, k, now) ==> Live(b, k, t);
  }

  ghost predicate Chronological(calls: seq<Call>, t: int) {
    (forall j: nat :: j < |calls| ==> t <= calls[j].now) &&
    forall i: nat, j: nat :: i < j < |calls| ==> calls[i].now <= calls[j].now
  }

  /** A collection at time t changes no later answer, `unset` excepted, in any run. */
  lemma {:induction false} GcIsTransparent(m: Contents, t: int, calls: seq<Call>, n: nat)
    requires Chronological(calls, t) && n <= |calls|
    ensures var d := After(m, Gc, t, true);
            Agree(Outcome(m, calls, n), Outcome(d, calls, n), if n == 0 then t else calls[n - 1].now)
    ensures n < |calls| && !calls[n].op.Unset? ==>
              var d, c := After(m, Gc, t, true), calls[n];
              Answered(Outcome(m, calls, n), c.op, c.now, c.ok) == Answered(Outcome(d, calls, n), c.op, c.now, c.ok)
  {
    var d := After(m, Gc, t, true);
    if n == 0 {
      GcAgrees(m, t);
    } else {
      GcIsTransparent(m, t, calls, n - 1);
      var c := calls[n - 1];
      var last := if n == 1 then t else calls[n - 2].now;
      AgreementLasts(Outcome(m, calls, n - 1), Outcome(d, calls, n - 1), last, c.op, c.now, c.ok);
    }
    if n == |calls| {
    } else {
      var c := calls[n];
      var last := if n == 0 then t else calls[n - 1].now;
      AgreementLasts(Outcome(m, calls, n), Outcome(d, calls, n), last, c.op, c.now, c.ok);
    }
  }

  /** `unset` does tell: it answers whether the entry is stored, expired or not. */
  lemma UnsetSeesGc(m: Contents, t: int, k: string)
    ensures Answered(m, Unset(k), t, true) == Answered(After(m, Gc, t, true), Unset(k), t, true)
       <==> !(k in m && Expired(m[k], t))
  {
  }
}
