/** The ring of hit counters: one slot per time unit of a sliding window. */
module Counters {
  import opened Machine

  // ---- positions in the ring -----------------------------------------------------------------

  /** The latest time, up to now, that belongs to slot s. */
  function Last(now: int, s: nat, count: nat): int
    requires s < count
  {
    now - (now - s) % count
  }

  /** How many slots after the one that follows the current one, going round, slot s comes. */
  function Dist(now: int, s: nat, count: nat): (d: nat)
    requires s < count
    ensures d < count
  {
    count - 1 - (now - s) % count
  }

  lemma LastIsInSlot(now: int, s: nat, count: nat)
    requires s < count
    ensures Last(now, s, count) % count == s && now - count < Last(now, s, count) <= now
    ensures forall t: int :: Last(now, s, count) < t <= now ==> t % count != s
  {
    Remainder(Last(now, s, count), (now - s) / count, s, count);
    forall t: int | now - count < t <= now && t % count == s ensures t == Last(now, s, count) {
      Remainder(now - s, t / count, now - t, count);
    }
  }

  lemma DistOfStep(now: int, k: nat, count: nat)
    requires k < count
    ensures Dist(now, (now + 1 + k) % count, count) == k
  {
    var s := (now + 1 + k) % count;
    Remainder(now - s, (now + 1 + k) / count - 1, count - 1 - k, count);
  }

  lemma StepOfDist(now: int, s: nat, count: nat)
    requires s < count
    ensures (now + 1 + Dist(now, s, count)) % count == s
  {
    Remainder(now + 1 + Dist(now, s, count), (now - s) / count + 1, s, count);
  }

  /** As time goes on, a slot keeps its time until the slots passed over reach it. */
  lemma LastMoves(cur: int, now: int, s: nat, count: nat)
    requires s < count && cur <= now
    ensures if Dist(cur, s, count) < now - cur then Last(now, s, count) > cur
            else Last(now, s, count) == Last(cur, s, count)
  {
    var d := Dist(cur, s, count);
    StepOfDist(cur, s, count);
    LastIsInSlot(now, s, count);
    LastIsInSlot(cur, s, count);
    if d >= now - cur {
      Remainder(now - s, (cur - s) / count, now - cur + (cur - s) % count, count);
    }
  }

  // ---- one hit ---------------------------------------------------------------------------------

  /** What the code clears when the time goes from cur to now. */
  predicate Cleared(cur: int, now: int, period: int, s: nat, count: nat)
    requires s < count
  {
    now != cur && (now - cur > period || Dist(cur, s, count) <= (now - cur - 1) % count)
  }

  /** What a window of the last count time units would clear. */
  predicate Expired(cur: int, now: int, s: nat, count: nat)
    requires s < count
  {
    Dist(cur, s, count) < now - cur
  }

  /** When the clock goes back, what stays are exactly the counters of the times it has yet to pass again, modulo
      the ring; those of the time it goes back to and of all before are cleared. */
  lemma ClockBackIff(cur: int, now: int, period: nat, s: nat, count: nat)
    requires s < count && now < cur
    ensures !Cleared(cur, now, period, s, count) <==>
      exists t: int :: now < t <= now + (cur - now) % count && t % count == s
  {
    var k, r := (cur - now) % count, (cur - s) % count;
    Remainder(now - cur - 1, -1 - (cur - now) / count, count - 1 - k, count);
    if r < k {
      var t := now + k - r;
      Remainder(t, (cur - s) / count - (cur - now) / count, s, count);
    }
    if t: int :| now < t <= now + k && t % count == s {
      Remainder(cur - s, (cur - now) / count + t / count, now + k - t, count);
    }
  }

  function Advanced(c: seq<nat>, cur: int, now: int, period: int): (d: seq<nat>)
    ensures |d| == |c|
  {
    seq(|c|, s requires 0 <= s < |c| => if Cleared(cur, now, period, s, |c|) then 0 else c[s])
  }

  function Ideal(c: seq<nat>, cur: int, now: int): (d: seq<nat>)
    ensures |d| == |c|
  {
    seq(|c|, s requires 0 <= s < |c| => if Expired(cur, now, s, |c|) then 0 else c[s])
  }

  function Counted(c: seq<nat>, now: int): (d: seq<nat>)
    requires c != []
    ensures |d| == |c|
  {
    c[now % |c| := c[now % |c|] + 1]
  }

  /** Nothing old stays: a window is passed over in full, or the ring is wiped, or the loop comes
      round a whole number of times. */
  predicate NothingStale(gap: int, period: int, count: nat)
    requires count > 0
  {
    gap <= count || gap > period || gap % count == 0
  }

  /** Nothing recent goes: the ring is wiped only after a whole window. */
  predicate NothingLost(gap: int, period: int, count: nat) {
    gap <= period || gap >= count || gap == 0
  }

  lemma ExpiredIsCleared(cur: int, now: int, period: int, s: nat, count: nat)
    requires s < count && cur <= now && NothingStale(now - cur, period, count) && Expired(cur, now, s, count)
    ensures Cleared(cur, now, period, s, count)
  {
    var g := now - cur;
    if g <= count {
      Remainder(g - 1, 0, g - 1, count);
    } else if g % count == 0 {
      Remainder(g - 1, g / count - 1, count - 1, count);
    }
  }

  lemma ClearedIsExpired(cur: int, now: int, period: int, s: nat, count: nat)
    requires s < count && cur <= now && NothingLost(now - cur, period, count) && Cleared(cur, now, period, s, count)
    ensures Expired(cur, now, s, count)
  {
    if now - cur <= count { Remainder(now - cur - 1, 0, now - cur - 1, count); }
  }

  predicate AtMost(c: seq<nat>, d: seq<nat>) { |c| == |d| && forall s: nat :: s < |c| ==> c[s] <= d[s] }

  /** The slot just left tells the code and the window apart whenever they differ. */
  lemma SlotLeft(cur: int, now: int, period: int, count: nat)
    requires cur < now && count > 0
    ensures var s := cur % count;
      && Dist(cur, s, count) == count - 1
      && (!NothingStale(now - cur, period, count) ==>
        Expired(cur, now, s, count) && !Cleared(cur, now, period, s, count))
      && (!NothingLost(now - cur, period, count) ==>
        !Expired(cur, now, s, count) && Cleared(cur, now, period, s, count))
  {
    var s, g := cur % count, now - cur;
    Remainder(cur - s, cur / count, 0, count);
    if !NothingStale(g, period, count) { Remainder(g - 1, g / count, g % count - 1, count); }
  }

  lemma AdvancedIsAtMostIdeal(c: seq<nat>, cur: int, now: int, period: int)
    requires cur <= now && c != [] && NothingStale(now - cur, period, |c|)
    ensures AtMost(Advanced(c, cur, now, period), Ideal(c, cur, now))
  {
    forall s: nat | s < |c| ensures Advanced(c, cur, now, period)[s] <= Ideal(c, cur, now)[s] {
      if Expired(cur, now, s, |c|) { ExpiredIsCleared(cur, now, period, s, |c|); }
    }
  }

  lemma IdealIsAtMostAdvanced(c: seq<nat>, cur: int, now: int, period: int)
    requires cur <= now && c != [] && NothingLost(now - cur, period, |c|)
    ensures AtMost(Ideal(c, cur, now), Advanced(c, cur, now, period))
  {
    forall s: nat | s < |c| ensures Ideal(c, cur, now)[s] <= Advanced(c, cur, now, period)[s] {
      if Cleared(cur, now, period, s, |c|) { ClearedIsExpired(cur, now, period, s, |c|); }
    }
  }

  /** In one slot the two rings differ. */
  lemma LeftSlotDiffers(c: seq<nat>, cur: int, now: int, period: int)
    requires cur < now && c != [] && c[cur % |c|] > 0
    ensures !NothingStale(now - cur, period, |c|) ==> !AtMost(Advanced(c, cur, now, period), Ideal(c, cur, now))
    ensures !NothingLost(now - cur, period, |c|) ==> !AtMost(Ideal(c, cur, now), Advanced(c, cur, now, period))
  {
    var s: nat := cur % |c|;
    SlotLeft(cur, now, period, |c|);
    var d, e := Advanced(c, cur, now, period), Ideal(c, cur, now);
    assert d[s] == (if Cleared(cur, now, period, s, |c|) then 0 else c[s]);
    assert e[s] == (if Expired(cur, now, s, |c|) then 0 else c[s]);
  }

  predicate StaleFree(c: seq<nat>, cur: int, now: int, period: int, count: nat) {
    |c| == count ==> AtMost(Advanced(c, cur, now, period), Ideal(c, cur, now))
  }

  predicate LossFree(c: seq<nat>, cur: int, now: int, period: int, count: nat) {
    |c| == count ==> AtMost(Ideal(c, cur, now), Advanced(c, cur, now, period))
  }

  ghost predicate KeepsNothingStale(cur: int, now: int, period: int, count: nat) {
    forall c: seq<nat> :: StaleFree(c, cur, now, period, count)
  }

  ghost predicate LosesNothing(cur: int, now: int, period: int, count: nat) {
    forall c: seq<nat> :: LossFree(c, cur, now, period, count)
  }

  /** Whatever the ring holds, no counter keeps more than the window's hits exactly if the gap is at
      most the ring, beyond the period, or a multiple of the ring. */
  lemma KeepsNothingStaleIff(cur: int, now: int, period: int, count: nat)
    requires cur <= now && count > 0
    ensures KeepsNothingStale(cur, now, period, count) <==> NothingStale(now - cur, period, count)
  {
    if NothingStale(now - cur, period, count) {
      forall c: seq<nat> ensures StaleFree(c, cur, now, period, count) {
        if |c| == count { AdvancedIsAtMostIdeal(c, cur, now, period); }
      }
    } else {
      var ones: seq<nat> := seq(count, _ => 1);
      LeftSlotDiffers(ones, cur, now, period);
      assert !StaleFree(ones, cur, now, period, count);
    }
  }

  /** Whatever the ring holds, no counter loses hits of the window exactly if the gap is zero, at most
      the period, or at least the ring. */
  lemma LosesNothingIff(cur: int, now: int, period: int, count: nat)
    requires cur <= now && count > 0
    ensures LosesNothing(cur, now, period, count) <==> NothingLost(now - cur, period, count)
  {
    if NothingLost(now - cur, period, count) {
      forall c: seq<nat> ensures LossFree(c, cur, now, period, count) {
        if |c| == count { IdealIsAtMostAdvanced(c, cur, now, period); }
      }
    } else {
      var ones: seq<nat> := seq(count, _ => 1);
      LeftSlotDiffers(ones, cur, now, period);
      assert !LossFree(ones, cur, now, period, count);
    }
  }

  // ---- runs ----------------------------------------------------------------------------------------

  datatype Ring = Ring(curtime: int, counters: seq<nat>)

  function Hit(r: Ring, now: int, period: int): (t: Ring)
    requires r.counters != []
    ensures t.counters != []
  {
    Ring(now, Counted(Advanced(r.counters, r.curtime, now, period), now))
  }

  /** times: the time unit of each hit, the latest first. */
  function Run(times: seq<int>, period: int, count: nat): (r: Ring)
    requires count > 0
    ensures |r.counters| == count && r.curtime == Latest(times)
  {
    if times == [] then Ring(0, seq(count, _ => 0)) else Hit(Run(times[1..], period, count), times[0], period)
  }

  ghost predicate Monotone(times: seq<int>) {
    times != [] ==> times[0] >= Latest(times[1..]) && Monotone(times[1..])
  }

  function Latest(times: seq<int>): int { if times == [] then 0 else times[0] }

  /** Every gap satisfies p. */
  ghost predicate Gaps(times: seq<int>, p: int -> bool) {
    times != [] ==> p(times[0] - Latest(times[1..])) && Gaps(times[1..], p)
  }

  lemma {:induction false} NothingLater(times: seq<int>, t: int)
    requires Monotone(times) && t > Latest(times)
    ensures multiset(times)[t] == 0
  {
    if times == [] {
    } else {
      assert times == [times[0]] + times[1..];
      NothingLater(times[1..], t);
    }
  }

  /** The hits a slot should show once the clock is at now. */
  ghost function Due(times: seq<int>, now: int, s: nat, count: nat): nat
    requires s < count
  {
    multiset(times)[Last(now, s, count)]
  }

  lemma DueMoves(times: seq<int>, now: int, s: nat, count: nat)
    requires s < count && Monotone(times) && now >= Latest(times)
    ensures Due(times, now, s, count)
         == if Expired(Latest(times), now, s, count) then 0 else Due(times, Latest(times), s, count)
  {
    LastMoves(Latest(times), now, s, count);
    if Expired(Latest(times), now, s, count) { NothingLater(times, Last(now, s, count)); }
  }

  lemma DueCounts(times: seq<int>, now: int, s: nat, count: nat)
    requires s < count
    ensures Due([now] + times, now, s, count) == Due(times, now, s, count) + if s == now % count then 1 else 0
  {
    LastIsInSlot(now, s, count);
    assert s == now % count ==> Last(now, s, count) == now by { Remainder(now - now % count, now / count, 0, count); }
  }

  /** If no gap leaves anything stale, every counter is at most the hits of its time in the window. */
  lemma {:induction false} CountersNeverStale(times: seq<int>, period: int, count: nat)
    requires count > 0 && Monotone(times) && Gaps(times, gap => NothingStale(gap, period, count))
    ensures forall s: nat :: s < count ==> Run(times, period, count).counters[s] <= Due(times, Latest(times), s, count)
  {
    if times == [] {
    } else {
      var now, rest := times[0], times[1..];
      var r := Run(rest, period, count);
      CountersNeverStale(rest, period, count);
      AdvancedIsAtMostIdeal(r.counters, r.curtime, now, period);
      forall s: nat | s < count ensures Run(times, period, count).counters[s] <= Due(times, now, s, count) {
        assert times == [now] + rest;
        DueCounts(rest, now, s, count);
        DueMoves(rest, now, s, count);
        assert Advanced(r.counters, r.curtime, now, period)[s] <= Ideal(r.counters, r.curtime, now)[s];
      }
    }
  }

  /** If no gap leaves anything stale or loses anything, the counters are exact. */
  lemma {:induction false} CountersAreExact(times: seq<int>, period: int, count: nat)
    requires count > 0 && Monotone(times)
    requires Gaps(times, gap => NothingStale(gap, period, count) && NothingLost(gap, period, count))
    ensures forall s: nat :: s < count ==> Run(times, period, count).counters[s] == Due(times, Latest(times), s, count)
  {
    if times == [] {
    } else {
      var now, rest := times[0], times[1..];
      var r := Run(rest, period, count);
      CountersAreExact(rest, period, count);
      AdvancedIsAtMostIdeal(r.counters, r.curtime, now, period);
      IdealIsAtMostAdvanced(r.counters, r.curtime, now, period);
      forall s: nat | s < count ensures Run(times, period, count).counters[s] == Due(times, now, s, count) {
        assert times == [now] + rest;
        DueCounts(rest, now, s, count);
        DueMoves(rest, now, s, count);
        assert Advanced(r.counters, r.curtime, now, period)[s] == Ideal(r.counters, r.curtime, now)[s];
      }
    }
  }

  /** The program's ring of 24 hours in periods of 3600 s: of two hits 25 hours apart, the first still
      shows, in slot 0, as a hit of the hour before the second. */
  lemma HourRing()
    ensures var times := [480025, 480000];
      Run(times, 3600, 24).counters[0] == 1 && Due(times, 480025, 0, 24) == 0 && Last(480025, 0, 24) == 480024
  {
    var r := Run([480000], 3600, 24);
    assert [480000][1..] == [] && [480025, 480000][1..] == [480000];
    assert r.counters[0] == 1;
    assert !Cleared(480000, 480025, 3600, 0, 24);
  }

  /** Its ring of 5 seconds in periods of 1 s: of two hits 2 s apart, the first is gone, although its slot
      still stands for its second. */
  lemma SecondRing()
    ensures var times := [1000000007, 1000000005];
      Run(times, 1, 5).counters[0] == 0 && Due(times, 1000000007, 0, 5) == 1 && Last(1000000007, 0, 5) == 1000000005
  {
    var times := [1000000007, 1000000005];
    assert times[1..] == [1000000005];
    assert Cleared(1000000005, 1000000007, 1, 0, 5);
    assert multiset(times)[1000000005] == 1;
  }

  /** Five hours back on the ring of 24 hours: a hit of ten hours before that is gone. */
  lemma ClockBackLoses()
    ensures var times := [480000, 480005, 479990];
      Run(times, 3600, 24).counters[14] == 0 && Due(times, 480000, 14, 24) == 1 && Last(480000, 14, 24) == 479990
  {
    var times := [480000, 480005, 479990];
    assert times[1..] == [480005, 479990] && times[1..][1..] == [479990];
    assert Cleared(480005, 480000, 3600, 14, 24);
    assert multiset(times)[479990] == 1;
  }

  lemma SlotAt(cur: int, k: nat, count: nat)
    requires k < count
    ensures forall s: nat :: s < count ==> (Dist(cur, s, count) == k <==> s == (cur + 1 + k) % count)
  {
    DistOfStep(cur, k, count);
    forall s: nat | s < count && Dist(cur, s, count) == k ensures s == (cur + 1 + k) % count {
      StepOfDist(cur, s, count);
    }
  }

  lemma NextSlot(cur: int, k: int, count: nat)
    requires count > 0
    ensures ((cur + 1 + k) % count + 1) % count == (cur + 1 + k + 1) % count
  {
    var a, r := cur + 1 + k, (cur + 1 + k) % count;
    if r + 1 < count {
      Remainder(a + 1, a / count, r + 1, count);
      Remainder(r + 1, 0, r + 1, count);
    } else {
      Remainder(a + 1, a / count + 1, 0, count);
      Remainder(r + 1, 1, 0, count);
    }
  }

  lemma StopsAt(cur: int, now: int, count: nat)
    requires count > 0
    ensures (cur + 1 + (now - cur - 1) % count) % count == now % count
  {
    Remainder(cur + 1 + (now - cur - 1) % count, now / count - (now - cur - 1) / count, now % count, count);
  }

  // ---- the program -----------------------------------------------------------------------------------

  class HitCounters {
    const period: nat
    var curtime: nat
    var curslot: nat
    var counters: array<nat>

    ghost predicate Valid()
      reads this, counters
    {
      period > 0 && counters.Length > 0 && curslot == curtime % counters.Length
    }

    ghost function View(): Ring
      reads this, counters
    {
      Ring(curtime, counters[..])
    }

    constructor (period: nat, count: nat)
      requires period > 0 && count > 0
      ensures Valid() && this.period == period && fresh(counters) && View() == Run([], period, count)
    {
      this.period, curtime, curslot := period, 0, 0;
      counters := new nat[count](_ => 0);
    }

    /** advance_wrapped, written out. */
    static function AdvanceWrapped(val: nat, count: nat): (r: nat)
      requires count > 0 && val < count
      ensures r == (val + 1) % count
    {
      if val + 1 >= count then 0 else val + 1
    }

    /** xc_counters_inc: the clock may go either way. */
    method Inc(requestTime: nat)
      requires Valid()
      modifies this`curtime, this`curslot, counters
      ensures Valid() && View() == Hit(old(View()), requestTime / period, period)
    {
      var n := requestTime / period;
      Advance(n);
      curtime, curslot := n, n % counters.Length;
      counters[curslot] := counters[curslot] + 1;
    }

    /** Clears what the code takes for expired when the clock goes to n. */
    method Advance(n: nat)
      requires Valid()
      modifies counters
      ensures counters[..] == Advanced(old(counters[..]), curtime, n, period)
    {
      ghost var c := counters[..];
      if n == curtime {
        assert counters[..] == Advanced(c, curtime, n, period);
      } else if n - curtime > period {
        forall s | 0 <= s < counters.Length { counters[s] := 0; }
        assert counters[..] == Advanced(c, curtime, n, period);
      } else {
        ClearPassed(n, n % counters.Length);
      }
    }

    /** Clears the slots after the current one, going round, up to and including target. */
    method ClearPassed(n: nat, target: nat)
      requires Valid() && n != curtime && n - curtime <= period && target == n % counters.Length
      modifies counters
      ensures counters[..] == Advanced(old(counters[..]), curtime, n, period)
    {
      var count := counters.Length;
      ghost var k, stop: nat := 0, (n - curtime - 1) % count;
      var slot := AdvanceWrapped(curslot, count);
      NextSlot(curtime, -1, count);
      SlotAt(curtime, stop, count);
      StopsAt(curtime, n, count);
      while slot != target
        invariant slot == (curtime + 1 + k) % count && k <= stop
        invariant forall s: nat :: s < count ==>
          counters[s] == if Dist(curtime, s, count) < k then 0 else old(counters[s])
        decreases stop - k
      {
        SlotAt(curtime, k, count);
        NextSlot(curtime, k, count);
        counters[slot] := 0;
        slot := AdvanceWrapped(slot, count);
        k := k + 1;
      }
      SlotAt(curtime, k, count);
      counters[target] := 0;
    }
  }
}
