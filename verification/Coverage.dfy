/** Line coverage: hits collected per request, merged into a file and decoded from it. -1 marks a line
    that is known and has no hits yet. */
module Coverage {
  import opened Chains

  const MAGIC: int := 0x564f4350

  datatype Event = Event(line: int, hits: int)

  /** A hash with integer keys remembers the order in which they came. */
  datatype Hash = Hash(order: seq<int>, hits: map<int, int>)

  ghost predicate HashOk(h: Hash) {
    && (forall i: nat, j: nat :: i < j < |h.order| ==> h.order[i] != h.order[j])
    && (forall x :: x in h.order <==> x in h.hits)
  }

  function Empty(): Hash { Hash([], map[]) }

  function Updated(h: Hash, line: int, v: int): Hash {
    Hash(if line in h.hits then h.order else h.order + [line], h.hits[line := v])
  }

  // ---- what the program computes --------------------------------------------------------------

  /** Common to xc_coverager_add_hits and to the merge of one stored line. */
  function Combined(h: Hash, e: Event): Hash {
    if e.line in h.hits && e.hits == -1 then h
    else if e.line in h.hits && h.hits[e.line] != -1 then Updated(h, e.line, e.hits + h.hits[e.line])
    else Updated(h, e.line, e.hits)
  }

  function Added(h: Hash, e: Event): Hash { if e.line == 0 then h else Combined(h, e) }

  function AddedAll(h: Hash, events: seq<Event>, k: nat): Hash
    requires k <= |events|
    decreases |events| - k
  {
    if k == |events| then h else AddedAll(Added(h, events[k]), events, k + 1)
  }

  /** The stored lines of a file, from word k on: two words each, an odd one left over. */
  function MergedFrom(h: Hash, file: seq<int>, k: nat): Hash
    decreases |file| - k
  {
    if k + 2 <= |file| then MergedFrom(Combined(h, Event(file[k], file[k + 1])), file, k + 2) else h
  }

  predicate Readable(file: seq<int>) { |file| >= 3 && file[0] == MAGIC }

  function Merged(h: Hash, file: seq<int>): Hash { if Readable(file) then MergedFrom(h, file, 3) else h }

  function CountHit(h: Hash, n: nat): nat
    requires n <= |h.order|
  {
    if n == 0 then 0
    else CountHit(h, n - 1) + (if h.order[n - 1] in h.hits && h.hits[h.order[n - 1]] > 0 then 1 else 0)
  }

  function Words(h: Hash, n: nat): (w: seq<int>)
    requires n <= |h.order|
    ensures |w| == 2 * n
  {
    if n == 0 then []
    else Words(h, n - 1) + [h.order[n - 1], if h.order[n - 1] in h.hits then h.hits[h.order[n - 1]] else 0]
  }

  function Serialised(h: Hash): seq<int> { [MAGIC, 0, CountHit(h, |h.order|)] + Words(h, |h.order|) }

  function Positive(v: int): int { if v < 0 then 0 else v }

  function DecodedFrom(m: map<int, int>, file: seq<int>, k: nat): map<int, int>
    decreases |file| - k
  {
    if k + 2 <= |file| then DecodedFrom(m[file[k] := Positive(file[k + 1])], file, k + 2) else m
  }

  function Decoded(file: seq<int>): map<int, int> {
    if |file| >= 1 && file[0] == MAGIC then DecodedFrom(map[], file, 1) else map[]
  }

  class Coverager {
    var order: seq<int>
    var hits: map<int, int>

    ghost function View(): Hash
      reads this
    {
      Hash(order, hits)
    }

    ghost predicate Valid()
      reads this
    {
      HashOk(View())
    }

    constructor ()
      ensures Valid() && View() == Empty()
    {
      order, hits := [], map[];
    }

    /** zend_hash_index_update. */
    method Update(line: int, v: int)
      requires Valid()
      modifies this
      ensures Valid() && View() == Updated(old(View()), line, v)
    {
      UpdatedOk(View(), line, v);
      if line !in hits { order := order + [line]; }
      hits := hits[line := v];
    }

    /** xc_coverager_add_hits. */
    method AddHits(line: int, n: int)
      requires Valid()
      modifies this
      ensures Valid() && View() == Added(old(View()), Event(line, n))
    {
      if line == 0 { return; }
      var v := n;
      if line in hits {
        if n == -1 { return; }
        if hits[line] != -1 { v := n + hits[line]; }
      }
      Update(line, v);
    }

    /** The loop that takes in what the file already has. */
    method Merge(file: seq<int>)
      requires Valid() && Readable(file)
      modifies this
      ensures Valid() && View() == Merged(old(View()), file)
    {
      ghost var goal := Merged(View(), file);
      var k := 3;
      while k + 2 <= |file|
        invariant Valid() && goal == MergedFrom(View(), file, k)
        decreases |file| - k
      {
        MergeOne(file[k], file[k + 1]);
        k := k + 2;
      }
    }

    method MergeOne(line: int, stored: int)
      requires Valid()
      modifies this
      ensures Valid() && View() == Combined(old(View()), Event(line, stored))
    {
      var v := stored;
      if line in hits {
        if v == -1 { return; }
        if hits[line] != -1 { v := v + hits[line]; }
      }
      Update(line, v);
    }

    /** xc_coverager_save_cov: file is what is stored, newfile whether it is to be ignored. */
    method SaveCov(file: seq<int>, newfile: bool) returns (out: seq<int>)
      requires Valid()
      modifies this
      ensures Valid() && View() == (if newfile then old(View()) else Merged(old(View()), file))
      ensures out == Serialised(View())
    {
      if !newfile && file != [] && Readable(file) { Merge(file); }
      var covlines, k := 0, 0;
      out := [];
      while k < |order|
        invariant k <= |order| && out == Words(View(), k) && covlines == CountHit(View(), k)
      {
        assert order[k] in order;
        out := out + [order[k], hits[order[k]]];
        if hits[order[k]] > 0 { covlines := covlines + 1; }
        k := k + 1;
      }
      out := [MAGIC, 0, covlines] + out;
    }
  }

  /** xcache_coverager_decode: the header's two words are read as the hits of line 0. */
  method Decode(file: seq<int>) returns (m: map<int, int>)
    ensures m == Decoded(file)
  {
    m := map[];
    if |file| < 1 || file[0] != MAGIC { return; }
    var k := 1;
    while k + 2 <= |file|
      invariant Decoded(file) == DecodedFrom(m, file, k)
      decreases |file| - k
    {
      m := m[file[k] := if file[k + 1] < 0 then 0 else file[k + 1]];
      k := k + 2;
    }
  }

  lemma UpdatedOk(h: Hash, line: int, v: int)
    requires HashOk(h)
    ensures HashOk(Updated(h, line, v))
  {
    var o := Updated(h, line, v).order;
    forall i: nat, j: nat | i < j < |o| ensures o[i] != o[j] {
      if j == |h.order| { assert h.order[i] in h.order; }
    }
  }

  // ---- what it means ----------------------------------------------------------------------------

  /** None: not a known line. */
  type Tally = Option<int>

  predicate TallyOk(t: Tally) { t.Some? ==> t.value >= -1 }

  function Join(a: Tally, b: Tally): Tally {
    if a.None? || (b.Some? && a.value == -1) then b
    else if b.None? || b.value == -1 then a
    else Some(a.value + b.value)
  }

  lemma JoinLaws(a: Tally, b: Tally, c: Tally)
    requires TallyOk(a) && TallyOk(b) && TallyOk(c)
    ensures TallyOk(Join(a, b)) && Join(a, b) == Join(b, a) && Join(Join(a, b), c) == Join(a, Join(b, c))
    ensures Join(a, None) == a && (a.Some? ==> Join(a, Some(-1)) == a)
  {
  }

  /** What one event says about a line. */
  function One(e: Event, line: int): Tally { if line != 0 && e.line == line then Some(e.hits) else None }

  /** What the events from k on say about a line. */
  function TallyFrom(events: seq<Event>, k: nat, line: int): Tally
    requires k <= |events|
    decreases |events| - k
  {
    if k == |events| then None else Join(One(events[k], line), TallyFrom(events, k + 1, line))
  }

  /** Some event from k on names the line, with a count other than -1 if counted says so. */
  ghost predicate Named(events: seq<Event>, k: nat, line: int, counted: bool) {
    exists i: nat :: k <= i < |events| && events[i].line == line && (counted ==> events[i].hits != -1)
  }

  /** The hits of a line, -1 counting for nothing. */
  function HitsFrom(events: seq<Event>, k: nat, line: int): int
    requires k <= |events|
    decreases |events| - k
  {
    if k == |events| then 0
    else (if events[k].line == line && events[k].hits != -1 then events[k].hits else 0) + HitsFrom(events, k + 1, line)
  }

  lemma NamedStep(events: seq<Event>, k: nat, line: int, counted: bool)
    requires k < |events|
    ensures Named(events, k, line, counted) <==>
      (events[k].line == line && (counted ==> events[k].hits != -1)) || Named(events, k + 1, line, counted)
  {
  }

  /** Line 0 and lines that no event names are unknown; a line named with -1 only has -1; any other has the sum
      of its hits. */
  lemma {:induction false} TallyIsSum(events: seq<Event>, k: nat, line: int)
    requires k <= |events| && EventsOk(events)
    ensures TallyFrom(events, k, line) ==
      if line == 0 || !Named(events, k, line, false) then None
      else if !Named(events, k, line, true) then Some(-1)
      else Some(HitsFrom(events, k, line))
    ensures HitsFrom(events, k, line) >= 0
    decreases |events| - k
  {
    if k == |events| {
      // no event is left
    } else {
      TallyIsSum(events, k + 1, line);
      NamedStep(events, k, line, false);
      NamedStep(events, k, line, true);
      NothingHit(events, k + 1, line);
    }
  }

  lemma {:induction false} NothingHit(events: seq<Event>, k: nat, line: int)
    requires k <= |events|
    ensures !Named(events, k, line, true) ==> HitsFrom(events, k, line) == 0
    ensures Named(events, k, line, true) ==> Named(events, k, line, false)
    decreases |events| - k
  {
    if k == |events| {
      // no event is left
    } else {
      NothingHit(events, k + 1, line);
      NamedStep(events, k, line, true);
      NamedStep(events, k, line, false);
    }
  }

  function Look(h: Hash, line: int): Tally { if line in h.hits then Some(h.hits[line]) else None }

  ghost predicate EventsOk(events: seq<Event>) { forall k: nat :: k < |events| ==> TallyOk(Some(events[k].hits)) }

  lemma {:induction false} TallyFromOk(events: seq<Event>, k: nat, line: int)
    requires k <= |events| && EventsOk(events)
    ensures TallyOk(TallyFrom(events, k, line))
    decreases |events| - k
  {
    if k == |events| {
    } else {
      TallyFromOk(events, k + 1, line);
      JoinLaws(One(events[k], line), TallyFrom(events, k + 1, line), None);
    }
  }

  /** A request's counts are what its events say. */
  lemma {:induction false} AddedAllTallies(h: Hash, events: seq<Event>, k: nat, line: int)
    requires k <= |events| && EventsOk(events) && TallyOk(Look(h, line))
    ensures Look(AddedAll(h, events, k), line) == Join(Look(h, line), TallyFrom(events, k, line))
    decreases |events| - k
  {
    if k == |events| {
    } else {
      TallyFromOk(events, k + 1, line);
      JoinLaws(Look(h, line), One(events[k], line), TallyFrom(events, k + 1, line));
      assert Look(Added(h, events[k]), line) == Join(Look(h, line), One(events[k], line));
      AddedAllTallies(Added(h, events[k]), events, k + 1, line);
    }
  }

  /** What the stored lines from word k on say about a line. */
  function StoredFrom(file: seq<int>, k: nat, line: int): Tally
    decreases |file| - k
  {
    if k + 2 <= |file| then
      Join(if file[k] == line then Some(file[k + 1]) else None, StoredFrom(file, k + 2, line))
    else None
  }

  function Stored(file: seq<int>, line: int): Tally { if Readable(file) then StoredFrom(file, 3, line) else None }

  ghost predicate FileOk(file: seq<int>) { forall k: nat :: 3 <= k < |file| && k % 2 == 0 ==> file[k] >= -1 }

  lemma {:induction false} MergedFromTallies(h: Hash, file: seq<int>, k: nat, line: int)
    requires FileOk(file) && 3 <= k && k % 2 == 1 && TallyOk(Look(h, line))
    ensures TallyOk(StoredFrom(file, k, line))
    ensures Look(MergedFrom(h, file, k), line) == Join(Look(h, line), StoredFrom(file, k, line))
    decreases |file| - k
  {
    if |file| < k + 2 {
      // no line is left
    } else {
      var e := Event(file[k], file[k + 1]);
      var one := if file[k] == line then Some(file[k + 1]) else None;
      assert Look(Combined(h, e), line) == Join(Look(h, line), one);
      JoinLaws(Look(h, line), one, None);
      MergedFromTallies(Combined(h, e), file, k + 2, line);
      JoinLaws(Look(h, line), one, StoredFrom(file, k + 2, line));
    }
  }

  lemma {:induction false} WordsAt(h: Hash, n: nat, i: nat)
    requires HashOk(h) && i < n <= |h.order|
    ensures Words(h, n)[2 * i] == h.order[i] && h.order[i] in h.hits && Words(h, n)[2 * i + 1] == h.hits[h.order[i]]
  {
    assert h.order[i] in h.order;
    if i == n - 1 {
      // the words just added
    } else {
      WordsAt(h, n - 1, i);
    }
  }

  lemma SerialisedAt(h: Hash, i: nat)
    requires HashOk(h) && i < |h.order|
    ensures var w := Serialised(h);
      |w| == 3 + 2 * |h.order| && w[3 + 2 * i] == h.order[i] && h.order[i] in h.hits
        && w[4 + 2 * i] == h.hits[h.order[i]]
  {
    WordsAt(h, |h.order|, i);
  }

  /** Reading back what was written gives every line its count. */
  lemma {:induction false} StoredFromIs(h: Hash, i: nat, line: int)
    requires HashOk(h) && i <= |h.order|
    ensures StoredFrom(Serialised(h), 3 + 2 * i, line) == if line in h.order[i..] then Look(h, line) else None
    decreases |h.order| - i
  {
    if i == |h.order| {
    } else {
      SerialisedAt(h, i);
      StoredFromIs(h, i + 1, line);
      assert h.order[i..] == [h.order[i]] + h.order[i + 1..];
    }
  }

  lemma RoundTrip(h: Hash, line: int)
    requires HashOk(h)
    ensures Stored(Serialised(h), line) == Look(h, line)
  {
    StoredFromIs(h, 0, line);
    assert h.order[0..] == h.order;
  }

  lemma SerialisedOk(h: Hash)
    requires HashOk(h) && forall x :: x in h.hits ==> h.hits[x] >= -1
    ensures FileOk(Serialised(h))
  {
    var w := Serialised(h);
    forall k: nat | 3 <= k < |w| && k % 2 == 0 ensures w[k] >= -1 {
      SerialisedAt(h, k / 2 - 2);
    }
  }

  // ---- several requests -----------------------------------------------------------------------------

  /** The file after n requests, each of which adds its events and dumps; there is none at first. */
  function FileAfter(requests: seq<seq<Event>>, n: nat): seq<int>
    requires n <= |requests|
    decreases n, 1
  {
    if n == 0 then [] else Serialised(CountsOf(requests, n))
  }

  /** The counts with which the n-th request ends. */
  function CountsOf(requests: seq<seq<Event>>, n: nat): Hash
    requires 0 < n <= |requests|
    decreases n, 0
  {
    Merged(AddedAll(Empty(), requests[n - 1], 0), FileAfter(requests, n - 1))
  }

  function Flat(requests: seq<seq<Event>>, n: nat): seq<Event>
    requires n <= |requests|
  {
    if n == 0 then [] else Flat(requests, n - 1) + requests[n - 1]
  }

  ghost predicate RequestsOk(requests: seq<seq<Event>>) { forall r: nat :: r < |requests| ==> EventsOk(requests[r]) }

  lemma {:induction false} AddedAllOk(h: Hash, events: seq<Event>, k: nat)
    requires HashOk(h) && k <= |events|
    ensures HashOk(AddedAll(h, events, k))
    decreases |events| - k
  {
    if k == |events| {
    } else {
      CombinedOk(h, events[k]);
      AddedAllOk(Added(h, events[k]), events, k + 1);
    }
  }

  lemma CombinedOk(h: Hash, e: Event)
    requires HashOk(h)
    ensures HashOk(Combined(h, e))
  {
    UpdatedOk(h, e.line, e.hits);
    if e.line in h.hits { UpdatedOk(h, e.line, e.hits + h.hits[e.line]); }
  }

  lemma {:induction false} MergedFromOk(h: Hash, file: seq<int>, k: nat)
    requires HashOk(h)
    ensures HashOk(MergedFrom(h, file, k))
    decreases |file| - k
  {
    if |file| < k + 2 {
      // no line is left
    } else {
      CombinedOk(h, Event(file[k], file[k + 1]));
      MergedFromOk(Combined(h, Event(file[k], file[k + 1])), file, k + 2);
    }
  }

  lemma TallyConcat(a: seq<Event>, b: seq<Event>, line: int)
    requires EventsOk(a) && EventsOk(b)
    ensures EventsOk(a + b) && TallyFrom(a + b, 0, line) == Join(TallyFrom(a, 0, line), TallyFrom(b, 0, line))
  {
    TallyConcatFrom(a, b, 0, line);
  }

  lemma {:induction false} TallyConcatFrom(a: seq<Event>, b: seq<Event>, k: nat, line: int)
    requires EventsOk(a) && EventsOk(b) && k <= |a|
    ensures EventsOk(a + b) && TallyFrom(a + b, k, line) == Join(TallyFrom(a, k, line), TallyFrom(b, 0, line))
    decreases |a| - k
  {
    if k == |a| {
      TallyShift(a, b, 0, line);
    } else {
      TallyConcatFrom(a, b, k + 1, line);
      TallyFromOk(a, k + 1, line);
      TallyFromOk(b, 0, line);
      JoinLaws(One(a[k], line), TallyFrom(a, k + 1, line), TallyFrom(b, 0, line));
    }
  }

  lemma {:induction false} TallyShift(a: seq<Event>, b: seq<Event>, k: nat, line: int)
    requires k <= |b|
    ensures TallyFrom(a + b, |a| + k, line) == TallyFrom(b, k, line)
    decreases |b| - k
  {
    if k == |b| {
    } else {
      TallyShift(a, b, k + 1, line);
    }
  }

  /** After any number of requests, each line of the file has what all events so far say about it. */
  lemma FileTallies(requests: seq<seq<Event>>, n: nat, line: int)
    requires n <= |requests| && RequestsOk(requests)
    ensures EventsOk(Flat(requests, n)) && FileOk(FileAfter(requests, n))
    ensures Stored(FileAfter(requests, n), line) == TallyFrom(Flat(requests, n), 0, line)
    ensures n > 0 ==>
      HashOk(CountsOf(requests, n)) && Look(CountsOf(requests, n), line) == TallyFrom(Flat(requests, n), 0, line)
  {
    LinesTallied(requests, n);
    assert Tallied(requests, n, line);
    if n > 0 {
      LinesTallied(requests, n - 1);
      NextTallied(requests, n - 1, line);
    }
  }

  ghost predicate Tallied(requests: seq<seq<Event>>, n: nat, line: int)
    requires n <= |requests|
  {
    && EventsOk(Flat(requests, n)) && FileOk(FileAfter(requests, n))
    && Stored(FileAfter(requests, n), line) == TallyFrom(Flat(requests, n), 0, line)
  }

  lemma {:induction false} LinesTallied(requests: seq<seq<Event>>, n: nat)
    requires n <= |requests| && RequestsOk(requests)
    ensures forall line :: Tallied(requests, n, line)
  {
    if n == 0 {
      forall line ensures Tallied(requests, n, line) {}
    } else {
      var m: nat := n - 1;
      LinesTallied(requests, m);
      forall line ensures Tallied(requests, n, line) { NextTallied(requests, m, line); }
    }
  }

  lemma NextTallied(requests: seq<seq<Event>>, m: nat, line: int)
    requires m < |requests| && RequestsOk(requests) && forall x :: Tallied(requests, m, x)
    ensures var n := m + 1;
      && Tallied(requests, n, line) && HashOk(CountsOf(requests, n))
      && Look(CountsOf(requests, n), line) == TallyFrom(Flat(requests, n), 0, line)
  {
    var n := m + 1;
    assert Tallied(requests, m, line);
    CountsTally(requests, n, line);
    forall x ensures Look(CountsOf(requests, n), x) == TallyFrom(Flat(requests, n), 0, x) {
      assert Tallied(requests, m, x);
      CountsTally(requests, n, x);
    }
    CountsArePlausible(requests, n);
    RoundTrip(CountsOf(requests, n), line);
  }

  lemma CountsTally(requests: seq<seq<Event>>, n: nat, line: int)
    requires 0 < n <= |requests| && RequestsOk(requests) && EventsOk(Flat(requests, n - 1))
    requires FileOk(FileAfter(requests, n - 1))
    requires Stored(FileAfter(requests, n - 1), line) == TallyFrom(Flat(requests, n - 1), 0, line)
    ensures EventsOk(Flat(requests, n)) && HashOk(CountsOf(requests, n))
    ensures Look(CountsOf(requests, n), line) == TallyFrom(Flat(requests, n), 0, line)
  {
    var events, file := requests[n - 1], FileAfter(requests, n - 1);
    var h := AddedAll(Empty(), events, 0);
    AddedAllOk(Empty(), events, 0);
    AddedAllTallies(Empty(), events, 0, line);
    TallyFromOk(events, 0, line);
    TallyFromOk(Flat(requests, n - 1), 0, line);
    if Readable(file) {
      MergedFromOk(h, file, 3);
      MergedFromTallies(h, file, 3, line);
    }
    TallyConcat(Flat(requests, n - 1), events, line);
    JoinLaws(TallyFrom(Flat(requests, n - 1), 0, line), TallyFrom(events, 0, line), None);
  }

  lemma CountsArePlausible(requests: seq<seq<Event>>, n: nat)
    requires 0 < n <= |requests| && EventsOk(Flat(requests, n)) && HashOk(CountsOf(requests, n))
    requires forall x :: Look(CountsOf(requests, n), x) == TallyFrom(Flat(requests, n), 0, x)
    ensures FileOk(FileAfter(requests, n))
  {
    var h := CountsOf(requests, n);
    forall x | x in h.hits ensures h.hits[x] >= -1 {
      assert Look(h, x) == TallyFrom(Flat(requests, n), 0, x);
      TallyFromOk(Flat(requests, n), 0, x);
    }
    SerialisedOk(h);
  }

  // ---- the order of events does not matter ---------------------------------------------------------

  lemma {:induction false} TallyPulls(events: seq<Event>, i: nat, line: int)
    requires i < |events| && EventsOk(events)
    ensures EventsOk(events[..i] + events[i + 1..])
    ensures TallyFrom(events, 0, line) == Join(One(events[i], line), TallyFrom(events[..i] + events[i + 1..], 0, line))
  {
    var a, b := events[..i], events[i + 1..];
    assert EventsOk([events[i]]) && EventsOk(b) && EventsOk(a);
    assert events == a + ([events[i]] + b);
    assert TallyFrom([events[i]], 0, line) == Join(One(events[i], line), TallyFrom([events[i]], 1, line));
    TallyConcat([events[i]], b, line);
    TallyConcat(a, [events[i]] + b, line);
    TallyConcat(a, b, line);
    TallyFromOk(a, 0, line);
    TallyFromOk(b, 0, line);
    JoinLaws(TallyFrom(a, 0, line), One(events[i], line), TallyFrom(b, 0, line));
    JoinLaws(One(events[i], line), TallyFrom(a, 0, line), TallyFrom(b, 0, line));
  }

  lemma CutMultiset(a: seq<Event>, i: nat)
    requires i < |a|
    ensures multiset(a[..i] + a[i + 1..]) == multiset(a) - multiset{a[i]}
  {
    assert a == a[..i] + [a[i]] + a[i + 1..];
  }

  lemma SameMultisetFinds(a: seq<Event>, b: seq<Event>) returns (i: nat)
    requires multiset(a) == multiset(b) && a != []
    ensures i < |b| && b[i] == a[0]
  {
    assert a[0] in multiset(b);
    i :| i < |b| && b[i] == a[0];
  }

  lemma {:induction false} TallyPermutes(a: seq<Event>, b: seq<Event>, line: int)
    requires multiset(a) == multiset(b) && EventsOk(a) && EventsOk(b)
    ensures TallyFrom(a, 0, line) == TallyFrom(b, 0, line)
    decreases |a|
  {
    if a == [] {
      assert |multiset(b)| == |b|;
    } else {
      var i := SameMultisetFinds(a, b);
      TallyPulls(a, 0, line);
      TallyPulls(b, i, line);
      CutMultiset(a, 0);
      CutMultiset(b, i);
      TallyPermutes(a[..0] + a[0 + 1..], b[..i] + b[i + 1..], line);
    }
  }

  // ---- decoding ------------------------------------------------------------------------------------

  /** The lines with hits. */
  ghost function LinesHit(h: Hash): set<int> { set x | x in h.hits && h.hits[x] > 0 }

  ghost function LinesHitUpTo(h: Hash, n: nat): set<int>
    requires n <= |h.order|
  {
    if n == 0 then {}
    else LinesHitUpTo(h, n - 1) + (if h.order[n - 1] in LinesHit(h) then {h.order[n - 1]} else {})
  }

  lemma {:induction false} LinesHitMembers(h: Hash, n: nat)
    requires n <= |h.order|
    ensures forall x :: x in LinesHitUpTo(h, n) <==> x in h.order[..n] && x in LinesHit(h)
  {
    if n == 0 {
    } else {
      LinesHitMembers(h, n - 1);
      assert h.order[..n] == h.order[..n - 1] + [h.order[n - 1]];
    }
  }

  /** The n-th line in order is known and not among those before it. */
  lemma NextLineIsNew(h: Hash, n: nat)
    requires HashOk(h) && 0 < n <= |h.order|
    ensures h.order[n - 1] in h.hits && h.order[n - 1] !in LinesHitUpTo(h, n - 1)
  {
    LinesHitMembers(h, n - 1);
    assert h.order[n - 1] in h.order;
  }

  lemma OneMore(s: set<int>, x: int)
    requires x !in s
    ensures |s + {x}| == |s| + 1
  {
  }

  lemma {:induction false} CountHitIsSize(h: Hash, n: nat)
    requires HashOk(h) && n <= |h.order|
    ensures CountHit(h, n) == |LinesHitUpTo(h, n)|
  {
    if n == 0 {
    } else {
      CountHitIsSize(h, n - 1);
      NextLineIsNew(h, n);
      OneMore(LinesHitUpTo(h, n - 1), h.order[n - 1]);
    }
  }

  /** What decoding the lines from the i-th on makes of m, at line x: d is the result. */
  ghost predicate DecodedAt(m: map<int, int>, d: map<int, int>, h: Hash, i: nat, x: int)
    requires i <= |h.order|
  {
    && (x in d <==> x in m || x in h.order[i..])
    && (x in d ==>
          d[x] == if x in h.order[i..] && x in h.hits then Positive(h.hits[x]) else if x in m then m[x] else 0)
  }

  lemma DecodedStep(m: map<int, int>, d: map<int, int>, h: Hash, i: nat, x: int)
    requires HashOk(h) && i < |h.order| && h.order[i] in h.hits
    requires DecodedAt(m[h.order[i] := Positive(h.hits[h.order[i]])], d, h, i + 1, x)
    ensures DecodedAt(m, d, h, i, x)
  {
    assert h.order[i..] == [h.order[i]] + h.order[i + 1..];
  }

  lemma {:induction false} DecodedFromIs(m: map<int, int>, h: Hash, i: nat, x: int)
    requires HashOk(h) && i <= |h.order|
    ensures DecodedAt(m, DecodedFrom(m, Serialised(h), 3 + 2 * i), h, i, x)
    decreases |h.order| - i
  {
    SerialisedLength(h);
    if i == |h.order| {
    } else {
      SerialisedAt(h, i);
      DecodedFromIs(m[h.order[i] := Positive(h.hits[h.order[i]])], h, i + 1, x);
      DecodedStep(m, DecodedFrom(m, Serialised(h), 3 + 2 * i), h, i, x);
    }
  }

  lemma SerialisedLength(h: Hash)
    ensures |Serialised(h)| == 3 + 2 * |h.order|
  {
  }

  lemma CoverageSize(h: Hash)
    requires HashOk(h)
    ensures CountHit(h, |h.order|) == |LinesHit(h)|
  {
    CountHitIsSize(h, |h.order|);
    LinesHitMembers(h, |h.order|);
    var all := LinesHitUpTo(h, |h.order|);
    assert h.order[..|h.order|] == h.order;
    forall x ensures x in all <==> x in LinesHit(h) {
      if x in LinesHit(h) { assert x in h.order[..|h.order|]; }
    }
    assert all == LinesHit(h);
  }

  /** Decoding a dump gives every known line max(hits, 0), and index 0 the number of lines hit. */
  lemma DecodedIs(h: Hash)
    requires HashOk(h) && 0 !in h.hits
    ensures Decoded(Serialised(h)) ==
      (map x | x in h.hits :: if h.hits[x] > 0 then h.hits[x] else 0)[0 := |LinesHit(h)|]
  {
    var w, n := Serialised(h), CountHit(h, |h.order|);
    var m: map<int, int> := map[0 := n];
    CoverageSize(h);
    assert Decoded(w) == DecodedFrom(m, w, 3) by {
      assert w[1] == 0 && w[2] == n && map[][0 := n] == m;
    }
    assert h.order[0..] == h.order;
    var d, e := Decoded(w), (map x | x in h.hits :: if h.hits[x] > 0 then h.hits[x] else 0)[0 := |LinesHit(h)|];
    forall x ensures (x in d <==> x in e) && (x in d ==> d[x] == e[x]) {
      DecodedFromIs(m, h, 0, x);
      assert x in h.order[0..] <==> x in h.hits;
    }
  }

  // ---- the main result ---------------------------------------------------------------------------------

  lemma SameLooksSameHits(h: Hash, g: Hash)
    requires forall x :: Look(h, x) == Look(g, x)
    ensures h.hits == g.hits
  {
    forall x ensures x in h.hits <==> x in g.hits {
      assert Look(h, x) == Look(g, x);
    }
    forall x | x in h.hits ensures h.hits[x] == g.hits[x] {
      assert Look(h, x) == Look(g, x);
    }
  }

  /** However the same events are spread over requests, and in whatever order, the merged files have
      the same counts and decode to the same result. */
  lemma SplitDoesNotMatter(p: seq<seq<Event>>, q: seq<seq<Event>>)
    requires p != [] && q != [] && RequestsOk(p) && RequestsOk(q)
    requires multiset(Flat(p, |p|)) == multiset(Flat(q, |q|))
    ensures CountsOf(p, |p|).hits == CountsOf(q, |q|).hits
    ensures Decoded(FileAfter(p, |p|)) == Decoded(FileAfter(q, |q|))
  {
    var h, g := CountsOf(p, |p|), CountsOf(q, |q|);
    forall x ensures HashOk(h) && HashOk(g) && Look(h, x) == Look(g, x) {
      FileTallies(p, |p|, x);
      FileTallies(q, |q|, x);
      TallyPermutes(Flat(p, |p|), Flat(q, |q|), x);
    }
    SameLooksSameHits(h, g);
    FileTallies(p, |p|, 0);
    LineZero(Flat(p, |p|), 0);
    assert Look(h, 0) == None && Look(g, 0) == None;
    DecodedIs(h);
    DecodedIs(g);
  }

  lemma {:induction false} LineZero(events: seq<Event>, k: nat)
    requires k <= |events|
    ensures TallyFrom(events, k, 0) == None
    decreases |events| - k
  {
    if k == |events| {
    } else {
      LineZero(events, k + 1);
    }
  }
}
