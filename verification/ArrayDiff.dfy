/** The line diff of the test runner: a bounded look-ahead that is sound for any matching relation. */
module ArrayDiff {
  type Rel = (string, string) -> bool

  // ---- counting ------------------------------------------------------------------------------

  /** Lines matched from (i, j) on before the first that does not match. */
  function Prefix(rel: Rel, a: seq<string>, b: seq<string>, i: nat, j: nat): (p: nat)
    ensures p == 0 || (i + p <= |a| && j + p <= |b|)
    decreases |a| - i
  {
    if i < |a| && j < |b| && rel(a[i], b[j]) then 1 + Prefix(rel, a, b, i + 1, j + 1) else 0
  }

  function Left(a: seq<string>, b: seq<string>, i: nat, j: nat): int { |a| - i + |b| - j }

  /** count_array_diff: the matched prefix, and then the best found by skipping lines on one side
      while the budget lasts. */
  function CountFrom(rel: Rel, a: seq<string>, b: seq<string>, i: nat, j: nat, steps: real): nat
    requires i <= |a| && j <= |b|
    decreases Left(a, b, i, j), 0
  {
    var p := Prefix(rel, a, b, i, j);
    var s := steps - p as real - 1.0;
    if s > 0.0 then
      p + Max(SkipLeft(rel, a, b, i + p + 1, j + p, s / 2.0, 0), SkipRight(rel, a, b, i + p, j + p + 1, s, 0))
    else p
  }

  function Max(x: nat, y: nat): nat { if x > y then x else y }

  function SkipLeft(rel: Rel, a: seq<string>, b: seq<string>, i: nat, j: nat, st: real, best: nat): nat
    requires j <= |b|
    decreases Left(a, b, i, j), 1
  {
    if i < |a| && st > 0.0 then
      SkipLeft(rel, a, b, i + 1, j, st - 1.0, Max(CountFrom(rel, a, b, i, j, st - 1.0), best))
    else best
  }

  function SkipRight(rel: Rel, a: seq<string>, b: seq<string>, i: nat, j: nat, st: real, best: nat): nat
    requires i <= |a|
    decreases Left(a, b, i, j), 1
  {
    if j < |b| && st > 0.0 then
      SkipRight(rel, a, b, i, j + 1, st - 1.0, Max(CountFrom(rel, a, b, i, j, st - 1.0), best))
    else best
  }

  method CountArrayDiff(rel: Rel, a: seq<string>, b: seq<string>, i: nat, j: nat, steps: real) returns (equal: nat)
    requires i <= |a| && j <= |b|
    ensures equal == CountFrom(rel, a, b, i, j, steps)
    decreases Left(a, b, i, j)
  {
    var idx1, idx2, left := i, j, steps;
    equal := 0;
    while idx1 < |a| && idx2 < |b| && rel(a[idx1], b[idx2])
      invariant idx1 == i + equal <= |a| && idx2 == j + equal <= |b| && left == steps - equal as real
      invariant Prefix(rel, a, b, i, j) == equal + Prefix(rel, a, b, idx1, idx2)
      decreases |a| - idx1
    {
      idx1, idx2, equal, left := idx1 + 1, idx2 + 1, equal + 1, left - 1.0;
    }
    left := left - 1.0;
    if left > 0.0 {
      var eq1 := BestLeft(rel, a, b, idx1, idx2, left / 2.0);
      var eq2 := BestRight(rel, a, b, idx1, idx2, left);
      if eq1 > eq2 {
        equal := equal + eq1;
      } else if eq2 > 0 {
        equal := equal + eq2;
      }
    }
  }

  /** The loop over ofs1. */
  method BestLeft(rel: Rel, a: seq<string>, b: seq<string>, idx1: nat, idx2: nat, budget: real) returns (eq1: nat)
    requires idx1 <= |a| && idx2 <= |b|
    ensures eq1 == SkipLeft(rel, a, b, idx1 + 1, idx2, budget, 0)
    decreases Left(a, b, idx1, idx2), 0
  {
    var ofs1, st := idx1 + 1, budget;
    eq1 := 0;
    while ofs1 < |a| && st > 0.0
      invariant idx1 < ofs1
      invariant SkipLeft(rel, a, b, idx1 + 1, idx2, budget, 0) == SkipLeft(rel, a, b, ofs1, idx2, st, eq1)
      decreases |a| - ofs1
    {
      st := st - 1.0;
      var eq := CountArrayDiff(rel, a, b, ofs1, idx2, st);
      if eq > eq1 { eq1 := eq; }
      ofs1 := ofs1 + 1;
    }
  }

  /** The loop over ofs2. */
  method BestRight(rel: Rel, a: seq<string>, b: seq<string>, idx1: nat, idx2: nat, budget: real) returns (eq2: nat)
    requires idx1 <= |a| && idx2 <= |b|
    ensures eq2 == SkipRight(rel, a, b, idx1, idx2 + 1, budget, 0)
    decreases Left(a, b, idx1, idx2), 0
  {
    var ofs2, st := idx2 + 1, budget;
    eq2 := 0;
    while ofs2 < |b| && st > 0.0
      invariant idx2 < ofs2
      invariant SkipRight(rel, a, b, idx1, idx2 + 1, budget, 0) == SkipRight(rel, a, b, idx1, ofs2, st, eq2)
      decreases |b| - ofs2
    {
      st := st - 1.0;
      var eq := CountArrayDiff(rel, a, b, idx1, ofs2, st);
      if eq > eq2 { eq2 := eq; }
      ofs2 := ofs2 + 1;
    }
  }

  // ---- matchings -------------------------------------------------------------------------------

  datatype Pair = Pair(x: nat, y: nat)

  ghost predicate PairOk(rel: Rel, a: seq<string>, b: seq<string>, i: nat, j: nat, p: Pair) {
    i <= p.x < |a| && j <= p.y < |b| && rel(a[p.x], b[p.y])
  }

  ghost predicate Follows(m: seq<Pair>, k: nat)
    requires 0 < k < |m|
  {
    m[k - 1].x < m[k].x && m[k - 1].y < m[k].y
  }

  /** Strictly increasing pairs of matching lines, from (i, j) on. */
  ghost predicate Matching(rel: Rel, a: seq<string>, b: seq<string>, i: nat, j: nat, m: seq<Pair>) {
    && (forall k: nat :: k < |m| ==> PairOk(rel, a, b, i, j, m[k]))
    && (forall k: nat :: 0 < k < |m| ==> Follows(m, k))
  }

  /** The length of a longest common subsequence under the relation. */
  function Lcs(rel: Rel, a: seq<string>, b: seq<string>, i: nat, j: nat): nat
    requires i <= |a| && j <= |b|
    decreases |a| - i + |b| - j
  {
    if i == |a| || j == |b| then 0
    else Max(Max(Lcs(rel, a, b, i + 1, j), Lcs(rel, a, b, i, j + 1)),
             if rel(a[i], b[j]) then 1 + Lcs(rel, a, b, i + 1, j + 1) else 0)
  }

  lemma Prepend(rel: Rel, a: seq<string>, b: seq<string>, i: nat, j: nat, m: seq<Pair>)
    requires i < |a| && j < |b| && rel(a[i], b[j]) && Matching(rel, a, b, i + 1, j + 1, m)
    ensures Matching(rel, a, b, i, j, [Pair(i, j)] + m)
  {
    var n := [Pair(i, j)] + m;
    forall k: nat | k < |n| ensures PairOk(rel, a, b, i, j, n[k]) {
      if k > 0 { assert PairOk(rel, a, b, i + 1, j + 1, m[k - 1]); }
    }
    forall k: nat | 0 < k < |n| ensures Follows(n, k) {
      if k > 1 { assert Follows(m, k - 1); } else { assert PairOk(rel, a, b, i + 1, j + 1, m[0]); }
    }
  }

  lemma Later(rel: Rel, a: seq<string>, b: seq<string>, i: nat, j: nat, i': nat, j': nat, m: seq<Pair>)
    requires i <= i' && j <= j' && Matching(rel, a, b, i', j', m)
    ensures Matching(rel, a, b, i, j, m)
  {
    forall k: nat | k < |m| ensures PairOk(rel, a, b, i, j, m[k]) {
      assert PairOk(rel, a, b, i', j', m[k]);
    }
  }

  lemma {:induction false} LcsIsAttained(rel: Rel, a: seq<string>, b: seq<string>, i: nat, j: nat)
      returns (m: seq<Pair>)
    requires i <= |a| && j <= |b|
    ensures Matching(rel, a, b, i, j, m) && |m| == Lcs(rel, a, b, i, j)
    decreases |a| - i + |b| - j
  {
    if i == |a| || j == |b| {
      m := [];
    } else {
      var l := LcsIsAttained(rel, a, b, i + 1, j);
      var r := LcsIsAttained(rel, a, b, i, j + 1);
      Later(rel, a, b, i, j, i + 1, j, l);
      Later(rel, a, b, i, j, i, j + 1, r);
      m := if |l| > |r| then l else r;
      if rel(a[i], b[j]) {
        var d := LcsIsAttained(rel, a, b, i + 1, j + 1);
        Prepend(rel, a, b, i, j, d);
        if 1 + |d| >= |m| { m := [Pair(i, j)] + d; }
      }
    }
  }

  lemma {:induction false} Increasing(rel: Rel, a: seq<string>, b: seq<string>, i: nat, j: nat, m: seq<Pair>, k: nat)
    requires Matching(rel, a, b, i, j, m) && k < |m|
    ensures k == 0 || (m[0].x < m[k].x && m[0].y < m[k].y)
  {
    if k == 0 {
    } else {
      Increasing(rel, a, b, i, j, m, k - 1);
      assert Follows(m, k);
    }
  }

  lemma MatchingTail(rel: Rel, a: seq<string>, b: seq<string>, i: nat, j: nat, m: seq<Pair>)
    requires Matching(rel, a, b, i, j, m) && m != []
    ensures Matching(rel, a, b, m[0].x + 1, m[0].y + 1, m[1..])
  {
    var t := m[1..];
    forall k: nat | k < |t| ensures PairOk(rel, a, b, m[0].x + 1, m[0].y + 1, t[k]) {
      assert PairOk(rel, a, b, i, j, m[k + 1]);
      Increasing(rel, a, b, i, j, m, k + 1);
    }
    forall k: nat | 0 < k < |t| ensures Follows(t, k) { assert Follows(m, k + 1); }
  }

  lemma {:induction false} NoMatchingIsLonger(rel: Rel, a: seq<string>, b: seq<string>, i: nat, j: nat, m: seq<Pair>)
    requires i <= |a| && j <= |b| && Matching(rel, a, b, i, j, m)
    ensures |m| <= Lcs(rel, a, b, i, j)
    decreases |a| - i + |b| - j
  {
    if m == [] {
    } else {
      var p := m[0];
      assert PairOk(rel, a, b, i, j, p);
      MatchingTail(rel, a, b, i, j, m);
      var whole := [p] + m[1..];
      assert whole == m;
      Prepend(rel, a, b, p.x, p.y, m[1..]);
      if i < p.x {
        Later(rel, a, b, i + 1, j, p.x, p.y, m);
        NoMatchingIsLonger(rel, a, b, i + 1, j, m);
      } else if j < p.y {
        Later(rel, a, b, i, j + 1, p.x, p.y, m);
        NoMatchingIsLonger(rel, a, b, i, j + 1, m);
      } else {
        NoMatchingIsLonger(rel, a, b, i + 1, j + 1, m[1..]);
      }
    }
  }

  lemma {:induction false} Prefixed(rel: Rel, a: seq<string>, b: seq<string>, i: nat, j: nat, m: seq<Pair>)
      returns (n: seq<Pair>)
    requires var p := Prefix(rel, a, b, i, j); Matching(rel, a, b, i + p, j + p, m)
    ensures Matching(rel, a, b, i, j, n) && |n| == Prefix(rel, a, b, i, j) + |m|
    decreases |a| - i
  {
    if i >= |a| || j >= |b| || !rel(a[i], b[j]) {
      n := m;
    } else {
      n := Prefixed(rel, a, b, i + 1, j + 1, m);
      Prepend(rel, a, b, i, j, n);
      n := [Pair(i, j)] + n;
    }
  }

  /** The count is the size of some matching, whatever the budget. */
  lemma {:induction false} CountIsAttained(rel: Rel, a: seq<string>, b: seq<string>, i: nat, j: nat, steps: real)
      returns (m: seq<Pair>)
    requires i <= |a| && j <= |b|
    ensures Matching(rel, a, b, i, j, m) && |m| == CountFrom(rel, a, b, i, j, steps)
    decreases Left(a, b, i, j), 1
  {
    var p := Prefix(rel, a, b, i, j);
    var s := steps - p as real - 1.0;
    m := [];
    if s > 0.0 { m := BestIsAttained(rel, a, b, i + p, j + p, s); }
    m := Prefixed(rel, a, b, i, j, m);
  }

  lemma {:induction false} BestIsAttained(rel: Rel, a: seq<string>, b: seq<string>, i: nat, j: nat, s: real)
      returns (m: seq<Pair>)
    requires i <= |a| && j <= |b|
    ensures Matching(rel, a, b, i, j, m)
    ensures |m| == Max(SkipLeft(rel, a, b, i + 1, j, s / 2.0, 0), SkipRight(rel, a, b, i, j + 1, s, 0))
    decreases Left(a, b, i, j), 0
  {
    var l := SkipLeftIsAttained(rel, a, b, i + 1, j, s / 2.0, []);
    var r := SkipRightIsAttained(rel, a, b, i, j + 1, s, []);
    Later(rel, a, b, i, j, i + 1, j, l);
    Later(rel, a, b, i, j, i, j + 1, r);
    m := if |l| > |r| then l else r;
  }

  lemma {:induction false} SkipLeftIsAttained(rel: Rel, a: seq<string>, b: seq<string>, i: nat, j: nat,
                                               st: real, best: seq<Pair>)
      returns (m: seq<Pair>)
    requires j <= |b| && Matching(rel, a, b, 0, j, best)
    ensures |m| == SkipLeft(rel, a, b, i, j, st, |best|)
    ensures m == best || Matching(rel, a, b, i, j, m)
    decreases Left(a, b, i, j), 2
  {
    if i >= |a| || st <= 0.0 {
      m := best;
    } else {
      var c := CountIsAttained(rel, a, b, i, j, st - 1.0);
      Later(rel, a, b, 0, j, i, j, c);
      var next := if |c| > |best| then c else best;
      m := SkipLeftIsAttained(rel, a, b, i + 1, j, st - 1.0, next);
      if m != next { Later(rel, a, b, i, j, i + 1, j, m); }
    }
  }

  lemma {:induction false} SkipRightIsAttained(rel: Rel, a: seq<string>, b: seq<string>, i: nat, j: nat,
                                               st: real, best: seq<Pair>)
      returns (m: seq<Pair>)
    requires i <= |a| && Matching(rel, a, b, i, 0, best)
    ensures |m| == SkipRight(rel, a, b, i, j, st, |best|)
    ensures m == best || Matching(rel, a, b, i, j, m)
    decreases Left(a, b, i, j), 2
  {
    if j >= |b| || st <= 0.0 {
      m := best;
    } else {
      var c := CountIsAttained(rel, a, b, i, j, st - 1.0);
      Later(rel, a, b, i, 0, i, j, c);
      var next := if |c| > |best| then c else best;
      m := SkipRightIsAttained(rel, a, b, i, j + 1, st - 1.0, next);
      if m != next { Later(rel, a, b, i, j, i, j + 1, m); }
    }
  }

  /** So it never exceeds the longest common subsequence of what is left. */
  lemma CountIsAtMostLcs(rel: Rel, a: seq<string>, b: seq<string>, i: nat, j: nat, steps: real)
    requires i <= |a| && j <= |b|
    ensures CountFrom(rel, a, b, i, j, steps) <= Lcs(rel, a, b, i, j)
  {
    var m := CountIsAttained(rel, a, b, i, j, steps);
    NoMatchingIsLonger(rel, a, b, i, j, m);
  }

  // ---- how far it looks ----------------------------------------------------------------------------

  /** b has one line left, and of the lines of a from i on line x alone matches it. */
  ghost predicate OnlyLeft(rel: Rel, a: seq<string>, b: seq<string>, i: nat, j: nat, x: nat) {
    |b| == j + 1 && i <= x < |a| && rel(a[x], b[j]) && forall t: nat :: i <= t < |a| && t != x ==> !rel(a[t], b[j])
  }

  ghost predicate NothingMatches(rel: Rel, a: seq<string>, b: seq<string>, i: nat, j: nat) {
    i <= |a| && j <= |b| && forall t: nat, u: nat :: i <= t < |a| && j <= u < |b| ==> !rel(a[t], b[u])
  }

  lemma {:induction false} NothingCounted(rel: Rel, a: seq<string>, b: seq<string>, i: nat, j: nat)
    requires NothingMatches(rel, a, b, i, j)
    ensures Lcs(rel, a, b, i, j) == 0
    decreases |a| - i + |b| - j
  {
    if i == |a| || j == |b| {
      // nothing is left on one side
    } else {
      NothingCounted(rel, a, b, i + 1, j);
      NothingCounted(rel, a, b, i, j + 1);
    }
  }

  lemma NoCount(rel: Rel, a: seq<string>, b: seq<string>, i: nat, j: nat, steps: real)
    requires NothingMatches(rel, a, b, i, j)
    ensures CountFrom(rel, a, b, i, j, steps) == 0
  {
    CountIsAtMostLcs(rel, a, b, i, j, steps);
    NothingCounted(rel, a, b, i, j);
  }

  lemma {:induction false} SkipsLeftInVain(rel: Rel, a: seq<string>, b: seq<string>, i: nat, j: nat, st: real,
                                           best: nat)
    requires NothingMatches(rel, a, b, if i <= |a| then i else |a|, j)
    ensures SkipLeft(rel, a, b, i, j, st, best) == best
    decreases |a| - i
  {
    if i >= |a| {
      // no line is left
    } else {
      NoCount(rel, a, b, i, j, st - 1.0);
      SkipsLeftInVain(rel, a, b, i + 1, j, st - 1.0, best);
    }
  }

  lemma {:induction false} SkipsRightInVain(rel: Rel, a: seq<string>, b: seq<string>, i: nat, j: nat, st: real,
                                            best: nat)
    requires NothingMatches(rel, a, b, i, if j <= |b| then j else |b|)
    ensures SkipRight(rel, a, b, i, j, st, best) == best
    decreases |b| - j
  {
    if j >= |b| {
      // no line is left
    } else {
      NoCount(rel, a, b, i, j, st - 1.0);
      SkipsRightInVain(rel, a, b, i, j + 1, st - 1.0, best);
    }
  }

  /** Looking for a line of b among those of a, the count reaches fewer than half as many lines ahead as it has
      steps, plus a half. */
  lemma {:induction false} LeftReach(rel: Rel, a: seq<string>, b: seq<string>, i: nat, j: nat, x: nat, steps: real)
    requires OnlyLeft(rel, a, b, i, j, x)
    ensures CountFrom(rel, a, b, i, j, steps) == if x == i || 2.0 * (x - i) as real < steps + 1.0 then 1 else 0
    decreases |a| - i, 1
  {
    assert Prefix(rel, a, b, i, j) == if x == i then 1 else 0;
    if x == i {
      SkipsLeftInVain(rel, a, b, i + 2, j + 1, (steps - 2.0) / 2.0, 0);
      SkipsRightInVain(rel, a, b, i + 1, j + 2, steps - 2.0, 0);
    } else {
      SkipLeftReach(rel, a, b, i + 1, j, x, (steps - 1.0) / 2.0, 0);
    }
  }

  lemma {:induction false} SkipLeftReach(rel: Rel, a: seq<string>, b: seq<string>, i: nat, j: nat, x: nat, st: real,
                                         best: nat)
    requires OnlyLeft(rel, a, b, i, j, x) && best <= 1
    ensures SkipLeft(rel, a, b, i, j, st, best) == if best == 1 || (x - i) as real < st then 1 else 0
    decreases |a| - i, 2
  {
    if st <= 0.0 {
      // no step is left
    } else {
      LeftReach(rel, a, b, i, j, x, st - 1.0);
      if i == x {
        SkipsLeftInVain(rel, a, b, i + 1, j, st - 1.0, 1);
      } else {
        var next := Max(CountFrom(rel, a, b, i, j, st - 1.0), best);
        SkipLeftReach(rel, a, b, i + 1, j, x, st - 1.0, next);
      }
    }
  }

  /** a has one line left, and of the lines of b from j on line y alone matches it. */
  ghost predicate OnlyRight(rel: Rel, a: seq<string>, b: seq<string>, i: nat, j: nat, y: nat) {
    |a| == i + 1 && j <= y < |b| && rel(a[i], b[y]) && forall t: nat :: j <= t < |b| && t != y ==> !rel(a[i], b[t])
  }

  /** Looking for a line of a among those of b, it reaches fewer lines ahead than it has steps. */
  lemma {:induction false} RightReach(rel: Rel, a: seq<string>, b: seq<string>, i: nat, j: nat, y: nat, steps: real)
    requires OnlyRight(rel, a, b, i, j, y)
    ensures CountFrom(rel, a, b, i, j, steps) == if y == j || (y - j) as real < steps then 1 else 0
    decreases |b| - j, 1
  {
    assert Prefix(rel, a, b, i, j) == if y == j then 1 else 0;
    if y == j {
      SkipsLeftInVain(rel, a, b, i + 2, j + 1, (steps - 2.0) / 2.0, 0);
      SkipsRightInVain(rel, a, b, i + 1, j + 2, steps - 2.0, 0);
    } else {
      SkipRightReach(rel, a, b, i, j + 1, y, steps - 1.0, 0);
    }
  }

  lemma {:induction false} SkipRightReach(rel: Rel, a: seq<string>, b: seq<string>, i: nat, j: nat, y: nat, st: real,
                                          best: nat)
    requires OnlyRight(rel, a, b, i, j, y) && best <= 1
    ensures SkipRight(rel, a, b, i, j, st, best) == if best == 1 || (y - j) as real < st then 1 else 0
    decreases |b| - j, 2
  {
    if st <= 0.0 {
      // no step is left
    } else {
      RightReach(rel, a, b, i, j, y, st - 1.0);
      if j == y {
        SkipsRightInVain(rel, a, b, i, j + 1, st - 1.0, 1);
      } else {
        var next := Max(CountFrom(rel, a, b, i, j, st - 1.0), best);
        SkipRightReach(rel, a, b, i, j + 1, y, st - 1.0, next);
      }
    }
  }

  /** With the budget of the diff, the last line of one text is found at most five lines ahead on the left and
      nine on the right. */
  lemma LookAheadReach(rel: Rel, a: seq<string>, b: seq<string>, i: nat, j: nat, n: nat)
    ensures OnlyLeft(rel, a, b, i, j, i + n) ==> (CountFrom(rel, a, b, i, j, 10.0) == 1 <==> n <= 5)
    ensures OnlyRight(rel, a, b, i, j, j + n) ==> (CountFrom(rel, a, b, i, j, 10.0) == 1 <==> n <= 9)
    ensures LOOK_AHEAD == 10.0
  {
    if OnlyLeft(rel, a, b, i, j, i + n) { LeftReach(rel, a, b, i, j, i + n, 10.0); }
    if OnlyRight(rel, a, b, i, j, j + n) { RightReach(rel, a, b, i, j, j + n, 10.0); }
  }

  // ---- marking -----------------------------------------------------------------------------------

  /** Line numbers start at 1: old1 and old2 hold the numbers marked so far, pairs the lines matched,
      and (i, j) is where one side ran out. */
  datatype Marks = Marks(old1: seq<nat>, old2: seq<nat>, i: nat, j: nat, pairs: seq<Pair>)

  const LOOK_AHEAD: real := 10.0

  /** One turn of the marking loop. */
  function MarkStep(rel: Rel, a: seq<string>, b: seq<string>, m: Marks): Marks
    requires m.i < |a| && m.j < |b|
  {
    var Marks(old1, old2, i, j, pairs) := m;
    if rel(a[i], b[j]) then Marks(old1, old2, i + 1, j + 1, pairs + [Pair(i, j)])
    else
      var c1, c2 := CountFrom(rel, a, b, i + 1, j, LOOK_AHEAD), CountFrom(rel, a, b, i, j + 1, LOOK_AHEAD);
      if c1 > c2 then Marks(old1 + [i + 1], old2, i + 1, j, pairs)
      else if c2 > 0 then Marks(old1, old2 + [j + 1], i, j + 1, pairs)
      else Marks(old1 + [i + 1], old2 + [j + 1], i + 1, j + 1, pairs)
  }

  function MarkFrom(rel: Rel, a: seq<string>, b: seq<string>, m: Marks): Marks
    requires m.i <= |a| && m.j <= |b|
    decreases Left(a, b, m.i, m.j)
  {
    if m.i == |a| || m.j == |b| then m else MarkFrom(rel, a, b, MarkStep(rel, a, b, m))
  }

  function Start(): Marks { Marks([], [], 0, 0, []) }

  /** The numbers lo + 1 to hi. */
  function Rest(lo: nat, hi: nat): (s: seq<nat>)
    ensures |s| == (if lo < hi then hi - lo else 0) && forall k: nat :: k < |s| ==> s[k] == lo + 1 + k
    decreases hi - lo
  {
    if lo < hi then [lo + 1] + Rest(lo + 1, hi) else []
  }

  /** Every line marked on the left, and on the right. */
  function Removed(rel: Rel, a: seq<string>, b: seq<string>): seq<nat> {
    var m := MarkFrom(rel, a, b, Start());
    m.old1 + Rest(m.i, |a|)
  }

  function Added(rel: Rel, a: seq<string>, b: seq<string>): seq<nat> {
    var m := MarkFrom(rel, a, b, Start());
    m.old2 + Rest(m.j, |b|)
  }

  ghost predicate Sorted(s: seq<nat>) { forall k: nat, l: nat :: k < l < |s| ==> s[k] < s[l] }

  /** The first n lines are split into those in marked (by number) and those in kept (by index). */
  ghost predicate Split(n: nat, marked: seq<nat>, kept: seq<nat>) {
    && Sorted(marked) && Sorted(kept)
    && (forall k: nat :: k < |marked| ==> 1 <= marked[k] <= n)
    && (forall k: nat :: k < |kept| ==> kept[k] < n)
    && (forall x: nat :: x < n ==> (x + 1 in marked <==> x !in kept))
  }

  function Lefts(pairs: seq<Pair>): (s: seq<nat>)
    ensures |s| == |pairs|
  {
    seq(|pairs|, k requires 0 <= k < |pairs| => pairs[k].x)
  }

  function Rights(pairs: seq<Pair>): (s: seq<nat>)
    ensures |s| == |pairs|
  {
    seq(|pairs|, k requires 0 <= k < |pairs| => pairs[k].y)
  }

  ghost predicate Matched(rel: Rel, a: seq<string>, b: seq<string>, pairs: seq<Pair>) {
    forall k: nat :: k < |pairs| ==> PairOk(rel, a, b, 0, 0, pairs[k])
  }

  ghost predicate MarksOk(rel: Rel, a: seq<string>, b: seq<string>, m: Marks) {
    && m.i <= |a| && m.j <= |b| && Matched(rel, a, b, m.pairs)
    && Split(m.i, m.old1, Lefts(m.pairs)) && Split(m.j, m.old2, Rights(m.pairs))
  }

  lemma {:induction false} SplitRest(n: nat, marked: seq<nat>, kept: seq<nat>, hi: nat)
    requires Split(n, marked, kept) && n <= hi
    ensures Split(hi, marked + Rest(n, hi), kept)
    decreases hi - n
  {
    if n == hi {
      assert marked + Rest(n, hi) == marked;
    } else {
      SplitRest(n + 1, marked + [n + 1], kept, hi);
      assert marked + [n + 1] + Rest(n + 1, hi) == marked + Rest(n, hi);
    }
  }

  lemma PairKept(rel: Rel, a: seq<string>, b: seq<string>, m: Marks)
    requires MarksOk(rel, a, b, m) && m.i < |a| && m.j < |b| && rel(a[m.i], b[m.j])
    ensures MarksOk(rel, a, b, m.(i := m.i + 1, j := m.j + 1, pairs := m.pairs + [Pair(m.i, m.j)]))
  {
    var n := m.pairs + [Pair(m.i, m.j)];
    assert Lefts(n) == Lefts(m.pairs) + [m.i] && Rights(n) == Rights(m.pairs) + [m.j];
    forall k: nat | k < |n| ensures PairOk(rel, a, b, 0, 0, n[k]) {
      if k < |m.pairs| { assert PairOk(rel, a, b, 0, 0, m.pairs[k]); }
    }
  }

  lemma MarkStepIsSound(rel: Rel, a: seq<string>, b: seq<string>, m: Marks)
    requires MarksOk(rel, a, b, m) && m.i < |a| && m.j < |b|
    ensures MarksOk(rel, a, b, MarkStep(rel, a, b, m))
  {
    if rel(a[m.i], b[m.j]) { PairKept(rel, a, b, m); }
  }

  lemma {:induction false} MarkFromIsSound(rel: Rel, a: seq<string>, b: seq<string>, m: Marks)
    requires MarksOk(rel, a, b, m)
    ensures MarksOk(rel, a, b, MarkFrom(rel, a, b, m))
    ensures var r := MarkFrom(rel, a, b, m); r.i == |a| || r.j == |b|
    decreases Left(a, b, m.i, m.j)
  {
    if m.i == |a| || m.j == |b| {
      // one side is done
    } else {
      MarkStepIsSound(rel, a, b, m);
      MarkFromIsSound(rel, a, b, MarkStep(rel, a, b, m));
    }
  }

  /** For every relation: the lines left unmarked on the two sides are equal in number and match
      pairwise in order, and each other line is marked once, in increasing order. */
  lemma DiffIsSound(rel: Rel, a: seq<string>, b: seq<string>) returns (kept1: seq<nat>, kept2: seq<nat>)
    ensures Split(|a|, Removed(rel, a, b), kept1) && Split(|b|, Added(rel, a, b), kept2)
    ensures |kept1| == |kept2| && forall k: nat :: k < |kept1| ==> rel(a[kept1[k]], b[kept2[k]])
  {
    var m := MarkFrom(rel, a, b, Start());
    MarkFromIsSound(rel, a, b, Start());
    SplitRest(m.i, m.old1, Lefts(m.pairs), |a|);
    SplitRest(m.j, m.old2, Rights(m.pairs), |b|);
    kept1, kept2 := Lefts(m.pairs), Rights(m.pairs);
    forall k: nat | k < |kept1| ensures rel(a[kept1[k]], b[kept2[k]]) {
      assert PairOk(rel, a, b, 0, 0, m.pairs[k]);
    }
  }

  lemma {:induction false} SortedGrows(s: seq<nat>, k: nat)
    requires Sorted(s) && k < |s|
    ensures s[k] >= k
  {
    if k == 0 {
    } else {
      SortedGrows(s, k - 1);
    }
  }

  lemma {:induction false} AllKept(n: nat, kept: seq<nat>, k: nat)
    requires Split(n, [], kept) && k <= n
    ensures k <= |kept| && forall l: nat :: l < k ==> kept[l] == l
  {
    if k == 0 {
    } else {
      AllKept(n, kept, k - 1);
      assert k - 1 in kept;
      var at: nat :| at < |kept| && kept[at] == k - 1;
      SortedGrows(kept, at);
    }
  }

  lemma {:induction false} NothingMarked(rel: Rel, a: seq<string>, b: seq<string>, m: Marks)
    requires |a| == |b| && m.i == m.j <= |a| && forall k: nat :: k < |a| ==> rel(a[k], b[k])
    ensures var r := MarkFrom(rel, a, b, m);
      r.old1 == m.old1 && r.old2 == m.old2 && r.i == |a| && r.j == |b|
    decreases |a| - m.i
  {
    if m.i == |a| {
      // both sides are done
    } else {
      NothingMarked(rel, a, b, m.(i := m.i + 1, j := m.j + 1, pairs := m.pairs + [Pair(m.i, m.j)]));
    }
  }

  ghost predicate MatchThroughout(rel: Rel, a: seq<string>, b: seq<string>) {
    |a| == |b| && forall k: nat :: k < |a| ==> rel(a[k], b[k])
  }

  /** Nothing is marked exactly when the two texts match line by line. */
  lemma NothingMarkedIff(rel: Rel, a: seq<string>, b: seq<string>)
    ensures Removed(rel, a, b) == [] && Added(rel, a, b) == [] <==> MatchThroughout(rel, a, b)
  {
    if MatchThroughout(rel, a, b) { NothingMarked(rel, a, b, Start()); }
    if Removed(rel, a, b) == [] && Added(rel, a, b) == [] {
      var kept1, kept2 := DiffIsSound(rel, a, b);
      AllKept(|a|, kept1, |a|);
      AllKept(|b|, kept2, |b|);
      if kept1 != [] { SortedGrows(kept1, |kept1| - 1); }
      if kept2 != [] { SortedGrows(kept2, |kept2| - 1); }
      forall k: nat | k < |a| ensures rel(a[k], b[k]) { assert rel(a[kept1[k]], b[kept2[k]]); }
    }
  }

  // ---- the output ------------------------------------------------------------------------------------

  datatype DiffLine = Minus(n: nat, text: string) | Plus(n: nat, text: string)

  /** Line numbers that have a text in lines. */
  ghost predicate Numbers(s: seq<nat>, lines: seq<string>) { forall k: nat :: k < |s| ==> 1 <= s[k] <= |lines| }

  /** Which of the two lists the next line comes from: the one being continued, else the one with the
      smaller number. */
  function TakesLeft(old1: seq<nat>, old2: seq<nat>, p: nat, q: nat, l1: int, l2: int): bool
    requires p < |old1| || q < |old2|
  {
    if (p < |old1| && old1[p] == l1 + 1) || q >= |old2| then true
    else if old2[q] == l2 + 1 || p >= |old1| then false
    else old1[p] < old2[q]
  }

  /** The merging loop from positions p and q on, with diff as the output so far. */
  function MergeFrom(w: seq<string>, b: seq<string>, old1: seq<nat>, old2: seq<nat>, p: nat, q: nat, l1: int, l2: int,
                     diff: seq<DiffLine>): seq<DiffLine>
    requires p <= |old1| && q <= |old2| && Numbers(old1, w) && Numbers(old2, b)
    decreases |old1| - p + |old2| - q
  {
    if p == |old1| && q == |old2| then diff
    else if TakesLeft(old1, old2, p, q, l1, l2) then
      MergeFrom(w, b, old1, old2, p + 1, q, old1[p], l2, diff + [Minus(old1[p], w[old1[p] - 1])])
    else
      MergeFrom(w, b, old1, old2, p, q + 1, l1, old2[q], diff + [Plus(old2[q], b[old2[q] - 1])])
  }

  function WithRemoved(w: seq<string>, from: nat, diff: seq<DiffLine>): seq<DiffLine>
    requires from <= |w|
    decreases |w| - from
  {
    if from == |w| then diff else WithRemoved(w, from + 1, diff + [Minus(from + 1, w[from])])
  }

  function WithAdded(b: seq<string>, from: nat, diff: seq<DiffLine>): seq<DiffLine>
    requires from <= |b|
    decreases |b| - from
  {
    if from == |b| then diff else WithAdded(b, from + 1, diff + [Plus(from + 1, b[from])])
  }

  /** The marked lines merged, then what is left of either side. */
  function DiffOf(rel: Rel, a: seq<string>, b: seq<string>, w: seq<string>): seq<DiffLine>
    requires |w| == |a|
  {
    MarksInRange(rel, a, b);
    var m := MarkFrom(rel, a, b, Start());
    WithAdded(b, m.j, WithRemoved(w, m.i, MergeFrom(w, b, m.old1, m.old2, 0, 0, -2, -2, [])))
  }

  lemma MarksInRange(rel: Rel, a: seq<string>, b: seq<string>)
    ensures var m := MarkFrom(rel, a, b, Start());
      && m.i <= |a| && m.j <= |b|
      && forall w: seq<string> :: |w| == |a| ==> Numbers(m.old1, w) && Numbers(m.old2, b)
  {
    MarkFromIsSound(rel, a, b, Start());
  }

  // ---- what the output says -----------------------------------------------------------------------------

  /** The numbers of one kind among the first n lines. */
  function ListedUpTo(d: seq<DiffLine>, n: nat, minus: bool): seq<nat>
    requires n <= |d|
  {
    if n == 0 then [] else ListedUpTo(d, n - 1, minus) + (if d[n - 1].Minus? == minus then [d[n - 1].n] else [])
  }

  function Minuses(d: seq<DiffLine>): seq<nat> { ListedUpTo(d, |d|, true) }

  function Pluses(d: seq<DiffLine>): seq<nat> { ListedUpTo(d, |d|, false) }

  /** Every printed line carries the text of the line it numbers. */
  ghost predicate LineOk(w: seq<string>, b: seq<string>, l: DiffLine) {
    match l
    case Minus(n, text) => 1 <= n <= |w| && text == w[n - 1]
    case Plus(n, text) => 1 <= n <= |b| && text == b[n - 1]
  }

  ghost predicate LinesOk(w: seq<string>, b: seq<string>, d: seq<DiffLine>) { forall l :: l in d ==> LineOk(w, b, l) }

  lemma {:induction false} ListedFrame(d: seq<DiffLine>, e: seq<DiffLine>, n: nat, minus: bool)
    requires n <= |d| && d <= e
    ensures ListedUpTo(e, n, minus) == ListedUpTo(d, n, minus)
  {
    if n == 0 {
    } else {
      ListedFrame(d, e, n - 1, minus);
    }
  }

  lemma ListedOne(d: seq<DiffLine>, l: DiffLine)
    ensures Minuses(d + [l]) == Minuses(d) + (if l.Minus? then [l.n] else [])
    ensures Pluses(d + [l]) == Pluses(d) + (if l.Plus? then [l.n] else [])
  {
    ListedFrame(d, d + [l], |d|, true);
    ListedFrame(d, d + [l], |d|, false);
  }

  lemma {:induction false} RemovedListed(w: seq<string>, from: nat, d: seq<DiffLine>)
    requires from <= |w|
    ensures Minuses(WithRemoved(w, from, d)) == Minuses(d) + Rest(from, |w|)
    ensures Pluses(WithRemoved(w, from, d)) == Pluses(d)
    decreases |w| - from
  {
    if from == |w| {
    } else {
      ListedOne(d, Minus(from + 1, w[from]));
      RemovedListed(w, from + 1, d + [Minus(from + 1, w[from])]);
    }
  }

  lemma {:induction false} AddedListed(b: seq<string>, from: nat, d: seq<DiffLine>)
    requires from <= |b|
    ensures Minuses(WithAdded(b, from, d)) == Minuses(d)
    ensures Pluses(WithAdded(b, from, d)) == Pluses(d) + Rest(from, |b|)
    decreases |b| - from
  {
    if from == |b| {
    } else {
      ListedOne(d, Plus(from + 1, b[from]));
      AddedListed(b, from + 1, d + [Plus(from + 1, b[from])]);
    }
  }

  lemma {:induction false} MergeListsLeft(w: seq<string>, b: seq<string>, old1: seq<nat>, old2: seq<nat>,
      p: nat, q: nat, l1: int, l2: int, diff: seq<DiffLine>)
    requires p <= |old1| && q <= |old2| && Numbers(old1, w) && Numbers(old2, b) && Minuses(diff) == old1[..p]
    ensures Minuses(MergeFrom(w, b, old1, old2, p, q, l1, l2, diff)) == old1
    decreases |old1| - p + |old2| - q
  {
    if p == |old1| && q == |old2| {
      assert old1[..p] == old1;
    } else if TakesLeft(old1, old2, p, q, l1, l2) {
      var l := Minus(old1[p], w[old1[p] - 1]);
      ListedOne(diff, l);
      assert old1[..p + 1] == old1[..p] + [old1[p]];
      MergeListsLeft(w, b, old1, old2, p + 1, q, old1[p], l2, diff + [l]);
    } else {
      var l := Plus(old2[q], b[old2[q] - 1]);
      ListedOne(diff, l);
      MergeListsLeft(w, b, old1, old2, p, q + 1, l1, old2[q], diff + [l]);
    }
  }

  lemma {:induction false} MergeListsRight(w: seq<string>, b: seq<string>, old1: seq<nat>, old2: seq<nat>,
      p: nat, q: nat, l1: int, l2: int, diff: seq<DiffLine>)
    requires p <= |old1| && q <= |old2| && Numbers(old1, w) && Numbers(old2, b) && Pluses(diff) == old2[..q]
    ensures Pluses(MergeFrom(w, b, old1, old2, p, q, l1, l2, diff)) == old2
    decreases |old1| - p + |old2| - q
  {
    if p == |old1| && q == |old2| {
      assert old2[..q] == old2;
    } else if TakesLeft(old1, old2, p, q, l1, l2) {
      var l := Minus(old1[p], w[old1[p] - 1]);
      ListedOne(diff, l);
      MergeListsRight(w, b, old1, old2, p + 1, q, old1[p], l2, diff + [l]);
    } else {
      var l := Plus(old2[q], b[old2[q] - 1]);
      ListedOne(diff, l);
      assert old2[..q + 1] == old2[..q] + [old2[q]];
      MergeListsRight(w, b, old1, old2, p, q + 1, l1, old2[q], diff + [l]);
    }
  }

  lemma {:induction false} MergeKeepsTexts(w: seq<string>, b: seq<string>, old1: seq<nat>, old2: seq<nat>,
      p: nat, q: nat, l1: int, l2: int, diff: seq<DiffLine>)
    requires p <= |old1| && q <= |old2| && Numbers(old1, w) && Numbers(old2, b) && LinesOk(w, b, diff)
    ensures LinesOk(w, b, MergeFrom(w, b, old1, old2, p, q, l1, l2, diff))
    decreases |old1| - p + |old2| - q
  {
    if p == |old1| && q == |old2| {
      // everything is listed
    } else if TakesLeft(old1, old2, p, q, l1, l2) {
      MergeKeepsTexts(w, b, old1, old2, p + 1, q, old1[p], l2, diff + [Minus(old1[p], w[old1[p] - 1])]);
    } else {
      MergeKeepsTexts(w, b, old1, old2, p, q + 1, l1, old2[q], diff + [Plus(old2[q], b[old2[q] - 1])]);
    }
  }

  lemma {:induction false} RemovedKeepsTexts(w: seq<string>, b: seq<string>, from: nat, d: seq<DiffLine>)
    requires from <= |w| && LinesOk(w, b, d)
    ensures LinesOk(w, b, WithRemoved(w, from, d))
    decreases |w| - from
  {
    if from == |w| {
    } else {
      RemovedKeepsTexts(w, b, from + 1, d + [Minus(from + 1, w[from])]);
    }
  }

  lemma {:induction false} AddedKeepsTexts(w: seq<string>, b: seq<string>, from: nat, d: seq<DiffLine>)
    requires from <= |b| && LinesOk(w, b, d)
    ensures LinesOk(w, b, WithAdded(b, from, d))
    decreases |b| - from
  {
    if from == |b| {
    } else {
      AddedKeepsTexts(w, b, from + 1, d + [Plus(from + 1, b[from])]);
    }
  }

  /** The output lists exactly the marked lines, each once, and both kinds of numbers in increasing
      order. */
  lemma DiffListsTheMarks(rel: Rel, a: seq<string>, b: seq<string>, w: seq<string>)
    requires |w| == |a|
    ensures Minuses(DiffOf(rel, a, b, w)) == Removed(rel, a, b)
    ensures Pluses(DiffOf(rel, a, b, w)) == Added(rel, a, b)
    ensures Sorted(Removed(rel, a, b)) && Sorted(Added(rel, a, b))
  {
    MarksInRange(rel, a, b);
    var m := MarkFrom(rel, a, b, Start());
    var d := MergeFrom(w, b, m.old1, m.old2, 0, 0, -2, -2, []);
    MergeListsLeft(w, b, m.old1, m.old2, 0, 0, -2, -2, []);
    MergeListsRight(w, b, m.old1, m.old2, 0, 0, -2, -2, []);
    RemovedListed(w, m.i, d);
    AddedListed(b, m.j, WithRemoved(w, m.i, d));
    var _, _ := DiffIsSound(rel, a, b);
  }

  /** Every line of the output has the text of the line it numbers: of w on the left, of b on the right. */
  lemma DiffKeepsTexts(rel: Rel, a: seq<string>, b: seq<string>, w: seq<string>)
    requires |w| == |a|
    ensures LinesOk(w, b, DiffOf(rel, a, b, w))
  {
    MarksInRange(rel, a, b);
    var m := MarkFrom(rel, a, b, Start());
    MergeKeepsTexts(w, b, m.old1, m.old2, 0, 0, -2, -2, []);
    var d := MergeFrom(w, b, m.old1, m.old2, 0, 0, -2, -2, []);
    RemovedKeepsTexts(w, b, m.i, d);
    AddedKeepsTexts(w, b, m.j, WithRemoved(w, m.i, d));
  }

  /** The output is empty exactly when the two texts match line by line. */
  lemma EmptyDiffIff(rel: Rel, a: seq<string>, b: seq<string>, w: seq<string>)
    requires |w| == |a|
    ensures DiffOf(rel, a, b, w) == [] <==> MatchThroughout(rel, a, b)
  {
    DiffListsTheMarks(rel, a, b, w);
    NothingMarkedIff(rel, a, b);
    NothingListed(DiffOf(rel, a, b, w));
  }

  lemma NothingListed(d: seq<DiffLine>)
    ensures d == [] <==> Minuses(d) == [] && Pluses(d) == []
  {
  }

  // ---- the order of the output ------------------------------------------------------------------------

  /** n is marked, and the number before it is not. */
  ghost predicate RunStart(s: seq<nat>, n: nat) { n in s && (n > 0 ==> n - 1 !in s) }

  /** Line l may be printed before line n of the side minus says. */
  ghost predicate Precedes(old1: seq<nat>, old2: seq<nat>, l: DiffLine, minus: bool, n: nat) {
    if l.Minus? == minus then l.n < n
    else if minus then RunStart(old2, l.n) && RunStart(old1, n) ==> l.n <= n
    else RunStart(old1, l.n) && RunStart(old2, n) ==> l.n < n
  }

  /** Behind the line at t comes the line with the next number, if that is marked on the same side. */
  ghost predicate RunGoesOn(old1: seq<nat>, old2: seq<nat>, d: seq<DiffLine>, t: nat)
    requires t + 1 < |d|
  {
    d[t].n + 1 in (if d[t].Minus? then old1 else old2) ==> d[t + 1].Minus? == d[t].Minus? && d[t + 1].n == d[t].n + 1
  }

  /** Runs of consecutive numbers are printed whole, in the order of their first numbers, an added one before a
      removed one with the same first number. */
  ghost predicate OrderOk(old1: seq<nat>, old2: seq<nat>, d: seq<DiffLine>) {
    && (forall t: nat :: t + 1 < |d| ==> RunGoesOn(old1, old2, d, t))
    && (forall s: nat, t: nat :: s < t < |d| ==> Precedes(old1, old2, d[s], d[t].Minus?, d[t].n))
  }

  /** Where the loop stands on one side: l is the number before position p. */
  ghost predicate Stands(ns: seq<nat>, p: nat, l: int) {
    && p <= |ns| && Sorted(ns) && (forall n :: n in ns ==> n >= 1)
    && l == if p == 0 then -2 else ns[p - 1]
  }

  ghost predicate LastIs(d: seq<DiffLine>, minus: bool, l: int) {
    d != [] && d[|d| - 1].Minus? == minus && d[|d| - 1].n == l
  }

  ghost predicate Merging(old1: seq<nat>, old2: seq<nat>, p: nat, q: nat, l1: int, l2: int, d: seq<DiffLine>) {
    && Stands(old1, p, l1) && Stands(old2, q, l2) && OrderOk(old1, old2, d)
    && (d == [] || LastIs(d, true, l1) || LastIs(d, false, l2))
    && (p < |old1| && old1[p] == l1 + 1 ==> LastIs(d, true, l1))
    && (q < |old2| && old2[q] == l2 + 1 ==> LastIs(d, false, l2))
    && (forall s: nat, k: nat :: s < |d| && p <= k < |old1| ==> Precedes(old1, old2, d[s], true, old1[k]))
    && (forall s: nat, k: nat :: s < |d| && q <= k < |old2| ==> Precedes(old1, old2, d[s], false, old2[k]))
  }

  lemma NextNumber(ns: seq<nat>, p: nat, l: int)
    requires Stands(ns, p, l)
    ensures l + 1 in ns && p > 0 ==> p < |ns| && ns[p] == l + 1
    ensures p < |ns| && RunStart(ns, ns[p]) ==> ns[p] != l + 1
  {
    if l + 1 in ns && p > 0 {
      var k: nat :| k < |ns| && ns[k] == l + 1;
    }
    if p > 0 { assert ns[p - 1] in ns; }
  }

  lemma OrderGrows(old1: seq<nat>, old2: seq<nat>, d: seq<DiffLine>, l: DiffLine)
    requires OrderOk(old1, old2, d) && forall s: nat :: s < |d| ==> Precedes(old1, old2, d[s], l.Minus?, l.n)
    requires d != [] ==> RunGoesOn(old1, old2, d + [l], |d| - 1)
    ensures OrderOk(old1, old2, d + [l])
  {
    var e := d + [l];
    forall t: nat | t + 1 < |e| ensures RunGoesOn(old1, old2, e, t) {
      if t + 1 < |d| { assert RunGoesOn(old1, old2, d, t); }
    }
  }

  lemma MergesLeft(old1: seq<nat>, old2: seq<nat>, p: nat, q: nat, l1: int, l2: int, d: seq<DiffLine>, text: string)
    requires Merging(old1, old2, p, q, l1, l2, d) && p < |old1| && TakesLeft(old1, old2, p, q, l1, l2)
    ensures Merging(old1, old2, p + 1, q, old1[p], l2, d + [Minus(old1[p], text)])
  {
    var l := Minus(old1[p], text);
    NextNumber(old1, p, l1);
    NextNumber(old2, q, l2);
    OrderGrows(old1, old2, d, l);
    var e := d + [l];
    forall s: nat, k: nat | s < |e| && q <= k < |old2| ensures Precedes(old1, old2, e[s], false, old2[k]) {
      if s == |d| && k > q { assert old2[q] < old2[k]; }
    }
  }

  lemma MergesRight(old1: seq<nat>, old2: seq<nat>, p: nat, q: nat, l1: int, l2: int, d: seq<DiffLine>, text: string)
    requires Merging(old1, old2, p, q, l1, l2, d) && q < |old2| && !TakesLeft(old1, old2, p, q, l1, l2)
    ensures Merging(old1, old2, p, q + 1, l1, old2[q], d + [Plus(old2[q], text)])
  {
    var l := Plus(old2[q], text);
    NextNumber(old1, p, l1);
    NextNumber(old2, q, l2);
    OrderGrows(old1, old2, d, l);
    var e := d + [l];
    forall s: nat, k: nat | s < |e| && p <= k < |old1| ensures Precedes(old1, old2, e[s], true, old1[k]) {
      if s == |d| && k > p { assert old1[p] < old1[k]; }
    }
  }

  lemma {:induction false} MergeFromOrder(w: seq<string>, b: seq<string>, old1: seq<nat>, old2: seq<nat>,
      p: nat, q: nat, l1: int, l2: int, d: seq<DiffLine>)
    requires Numbers(old1, w) && Numbers(old2, b) && Merging(old1, old2, p, q, l1, l2, d)
    ensures OrderOk(old1, old2, MergeFrom(w, b, old1, old2, p, q, l1, l2, d))
    decreases |old1| - p + |old2| - q
  {
    if p == |old1| && q == |old2| {
      // everything is listed
    } else if TakesLeft(old1, old2, p, q, l1, l2) {
      MergesLeft(old1, old2, p, q, l1, l2, d, w[old1[p] - 1]);
      MergeFromOrder(w, b, old1, old2, p + 1, q, old1[p], l2, d + [Minus(old1[p], w[old1[p] - 1])]);
    } else {
      MergesRight(old1, old2, p, q, l1, l2, d, b[old2[q] - 1]);
      MergeFromOrder(w, b, old1, old2, p, q + 1, l1, old2[q], d + [Plus(old2[q], b[old2[q] - 1])]);
    }
  }

  /** The merged marks are in order, whatever was marked. */
  lemma MergeIsInOrder(w: seq<string>, b: seq<string>, old1: seq<nat>, old2: seq<nat>)
    requires Numbers(old1, w) && Numbers(old2, b) && Sorted(old1) && Sorted(old2)
    ensures OrderOk(old1, old2, MergeFrom(w, b, old1, old2, 0, 0, -2, -2, []))
  {
    MergeFromOrder(w, b, old1, old2, 0, 0, -2, -2, []);
  }

  // ---- one line more or less ---------------------------------------------------------------------------

  ghost predicate MatchAt(rel: Rel, a: seq<string>, b: seq<string>, i: nat, j: nat, k: nat) {
    i + k < |a| && j + k < |b| && rel(a[i + k], b[j + k])
  }

  /** n lines match pairwise from (i, j) on. */
  ghost predicate Runs(rel: Rel, a: seq<string>, b: seq<string>, i: nat, j: nat, n: nat) {
    i + n <= |a| && j + n <= |b| && forall k: nat :: k < n ==> MatchAt(rel, a, b, i, j, k)
  }

  lemma RunsOn(rel: Rel, a: seq<string>, b: seq<string>, i: nat, j: nat, n: nat)
    requires Runs(rel, a, b, i, j, n) && n > 0
    ensures i < |a| && j < |b| && rel(a[i], b[j]) && Runs(rel, a, b, i + 1, j + 1, n - 1)
  {
    assert MatchAt(rel, a, b, i, j, 0);
    var x: nat, y: nat := i + 1, j + 1;
    forall k: nat | k < n - 1 ensures MatchAt(rel, a, b, x, y, k) { assert MatchAt(rel, a, b, i, j, k + 1); }
  }

  /** Matching lines are passed over. */
  lemma {:induction false} MarkingPasses(rel: Rel, a: seq<string>, b: seq<string>, m: Marks, n: nat)
      returns (r: Marks)
    requires Runs(rel, a, b, m.i, m.j, n)
    ensures r == Marks(m.old1, m.old2, m.i + n, m.j + n, r.pairs)
    ensures MarkFrom(rel, a, b, m) == MarkFrom(rel, a, b, r)
    decreases n
  {
    if n == 0 {
      r := m;
    } else {
      RunsOn(rel, a, b, m.i, m.j, n);
      var next := MarkStep(rel, a, b, m);
      r := MarkingPasses(rel, a, b, next, n - 1);
    }
  }

  lemma {:induction false} PrefixCovers(rel: Rel, a: seq<string>, b: seq<string>, i: nat, j: nat, n: nat)
    requires Runs(rel, a, b, i, j, n)
    ensures Prefix(rel, a, b, i, j) >= n
    decreases n
  {
    if n == 0 {
    } else {
      RunsOn(rel, a, b, i, j, n);
      PrefixCovers(rel, a, b, i + 1, j + 1, n - 1);
    }
  }

  lemma {:induction false} LcsIsShort(rel: Rel, a: seq<string>, b: seq<string>, i: nat, j: nat)
    requires i <= |a| && j <= |b|
    ensures Lcs(rel, a, b, i, j) <= |a| - i && Lcs(rel, a, b, i, j) <= |b| - j
    decreases |a| - i + |b| - j
  {
    if i == |a| || j == |b| {
      // nothing is left on one side
    } else {
      LcsIsShort(rel, a, b, i + 1, j);
      LcsIsShort(rel, a, b, i, j + 1);
      LcsIsShort(rel, a, b, i + 1, j + 1);
    }
  }

  /** b is a without line k, and the line left out matches nothing. */
  ghost predicate OneRemoved(rel: Rel, a: seq<string>, b: seq<string>, k: nat) {
    && k <= |b| && |a| == |b| + 1
    && (forall t: nat :: t < k ==> rel(a[t], b[t])) && (forall t: nat :: k <= t < |b| ==> rel(a[t + 1], b[t]))
    && forall t: nat :: t < |b| ==> !rel(a[k], b[t])
  }

  lemma RunsBehindRemoved(rel: Rel, a: seq<string>, b: seq<string>, k: nat)
    requires OneRemoved(rel, a, b, k)
    ensures Runs(rel, a, b, 0, 0, k) && Runs(rel, a, b, k + 1, k, |b| - k)
  {
    var x: nat := k + 1;
    forall t: nat | t < |b| - k ensures MatchAt(rel, a, b, x, k, t) { assert rel(a[k + t + 1], b[k + t]); }
  }

  /** What the look-ahead sees at the line left out: skipping it is worth more. */
  lemma SkipsRemoved(rel: Rel, a: seq<string>, b: seq<string>, k: nat)
    requires OneRemoved(rel, a, b, k) && k < |b|
    ensures CountFrom(rel, a, b, k + 1, k, LOOK_AHEAD) > CountFrom(rel, a, b, k, k + 1, LOOK_AHEAD)
  {
    var n := |b| - k;
    RunsBehindRemoved(rel, a, b, k);
    PrefixCovers(rel, a, b, k + 1, k, n);
    CountIsAtMostLcs(rel, a, b, k, k + 1, LOOK_AHEAD);
    LcsIsShort(rel, a, b, k, k + 1);
  }

  /** The diff of a text and the same without one line, which matches no other, is that line alone. */
  lemma OneRemovedDiff(rel: Rel, a: seq<string>, b: seq<string>, w: seq<string>, k: nat)
    requires OneRemoved(rel, a, b, k) && |w| == |a|
    ensures DiffOf(rel, a, b, w) == [Minus(k + 1, w[k])]
  {
    MarksInRange(rel, a, b);
    RunsBehindRemoved(rel, a, b, k);
    var m := MarkingPasses(rel, a, b, Start(), k);
    if k == |b| {
      assert MarkFrom(rel, a, b, Start()) == m;
      assert MergeFrom(w, b, [], [], 0, 0, -2, -2, []) == [];
      assert WithRemoved(w, k, []) == WithRemoved(w, k + 1, [] + [Minus(k + 1, w[k])]);
    } else {
      SkipsRemoved(rel, a, b, k);
      var next := MarkStep(rel, a, b, m);
      assert next == Marks([k + 1], [], k + 1, k, m.pairs);
      var last := MarkingPasses(rel, a, b, next, |b| - k);
      assert MarkFrom(rel, a, b, Start()) == last;
      MergesOneLeft(w, b, k + 1);
    }
  }

  lemma MergesOneLeft(w: seq<string>, b: seq<string>, n: nat)
    requires 1 <= n <= |w|
    ensures Numbers([n], w) && Numbers([], b)
    ensures MergeFrom(w, b, [n], [], 0, 0, -2, -2, []) == [Minus(n, w[n - 1])]
  {
    var l := Minus(n, w[n - 1]);
    assert MergeFrom(w, b, [n], [], 0, 0, -2, -2, []) == MergeFrom(w, b, [n], [], 1, 0, n, -2, [] + [l]);
  }

  /** b is a with one more line k, which nothing matches. */
  ghost predicate OneAdded(rel: Rel, a: seq<string>, b: seq<string>, k: nat) {
    && k <= |a| && |b| == |a| + 1
    && (forall t: nat :: t < k ==> rel(a[t], b[t])) && (forall t: nat :: k <= t < |a| ==> rel(a[t], b[t + 1]))
    && forall t: nat :: t < |a| ==> !rel(a[t], b[k])
  }

  lemma RunsBehindAdded(rel: Rel, a: seq<string>, b: seq<string>, k: nat)
    requires OneAdded(rel, a, b, k)
    ensures Runs(rel, a, b, 0, 0, k) && Runs(rel, a, b, k, k + 1, |a| - k)
  {
    var y: nat := k + 1;
    forall t: nat | t < |a| - k ensures MatchAt(rel, a, b, k, y, t) { assert rel(a[k + t], b[k + t + 1]); }
  }

  lemma SkipsAdded(rel: Rel, a: seq<string>, b: seq<string>, k: nat)
    requires OneAdded(rel, a, b, k) && k < |a|
    ensures CountFrom(rel, a, b, k, k + 1, LOOK_AHEAD) > CountFrom(rel, a, b, k + 1, k, LOOK_AHEAD)
  {
    var n := |a| - k;
    RunsBehindAdded(rel, a, b, k);
    PrefixCovers(rel, a, b, k, k + 1, n);
    CountIsAtMostLcs(rel, a, b, k + 1, k, LOOK_AHEAD);
    LcsIsShort(rel, a, b, k + 1, k);
  }

  /** The diff of a text and the same with one more line, which nothing matches, is that line alone. */
  lemma OneAddedDiff(rel: Rel, a: seq<string>, b: seq<string>, w: seq<string>, k: nat)
    requires OneAdded(rel, a, b, k) && |w| == |a|
    ensures DiffOf(rel, a, b, w) == [Plus(k + 1, b[k])]
  {
    MarksInRange(rel, a, b);
    RunsBehindAdded(rel, a, b, k);
    var m := MarkingPasses(rel, a, b, Start(), k);
    if k == |a| {
      assert MarkFrom(rel, a, b, Start()) == m;
      assert MergeFrom(w, b, [], [], 0, 0, -2, -2, []) == [];
      assert WithAdded(b, k, []) == WithAdded(b, k + 1, [] + [Plus(k + 1, b[k])]);
    } else {
      SkipsAdded(rel, a, b, k);
      var next := MarkStep(rel, a, b, m);
      assert next == Marks([], [k + 1], k, k + 1, m.pairs);
      var last := MarkingPasses(rel, a, b, next, |a| - k);
      assert MarkFrom(rel, a, b, Start()) == last;
      MergesOneRight(w, b, k + 1);
    }
  }

  /** Putting a line that matches nothing in front of line k of b, and taking that as what was expected. */
  lemma RemovedLineIsListed(rel: Rel, b: seq<string>, x: string, k: nat)
    requires k <= |b| && forall t: nat :: t < |b| ==> rel(b[t], b[t]) && !rel(x, b[t])
    ensures var a := b[..k] + [x] + b[k..]; DiffOf(rel, a, b, a) == [Minus(k + 1, x)]
  {
    OneRemovedDiff(rel, b[..k] + [x] + b[k..], b, b[..k] + [x] + b[k..], k);
  }

  /** The same with that as the output. */
  lemma AddedLineIsListed(rel: Rel, a: seq<string>, y: string, k: nat)
    requires k <= |a| && forall t: nat :: t < |a| ==> rel(a[t], a[t]) && !rel(a[t], y)
    ensures var b := a[..k] + [y] + a[k..]; DiffOf(rel, a, b, a) == [Plus(k + 1, y)]
  {
    OneAddedDiff(rel, a, a[..k] + [y] + a[k..], a, k);
  }

  lemma MergesOneRight(w: seq<string>, b: seq<string>, n: nat)
    requires 1 <= n <= |b|
    ensures Numbers([], w) && Numbers([n], b)
    ensures MergeFrom(w, b, [], [n], 0, 0, -2, -2, []) == [Plus(n, b[n - 1])]
  {
    var l := Plus(n, b[n - 1]);
    assert MergeFrom(w, b, [], [n], 0, 0, -2, -2, []) == MergeFrom(w, b, [], [n], 0, 1, -2, n, [] + [l]);
  }

  // ---- the program ---------------------------------------------------------------------------------------

  /** The first loop of generate_array_diff. */
  method MarkLines(rel: Rel, a: seq<string>, b: seq<string>)
      returns (old1: seq<nat>, old2: seq<nat>, idx1: nat, idx2: nat)
    ensures var m := MarkFrom(rel, a, b, Start());
      old1 == m.old1 && old2 == m.old2 && idx1 == m.i && idx2 == m.j && idx1 <= |a| && idx2 <= |b|
  {
    old1, old2, idx1, idx2 := [], [], 0, 0;
    ghost var m := Start();
    while idx1 < |a| && idx2 < |b|
      invariant idx1 <= |a| && idx2 <= |b| && m == Marks(old1, old2, idx1, idx2, m.pairs)
      invariant MarkFrom(rel, a, b, Start()) == MarkFrom(rel, a, b, m)
      decreases Left(a, b, idx1, idx2)
    {
      old1, old2, idx1, idx2 := MarkTurn(rel, a, b, old1, old2, idx1, idx2, m);
      m := MarkStep(rel, a, b, m);
    }
  }

  /** One turn of it. */
  method MarkTurn(rel: Rel, a: seq<string>, b: seq<string>, old1: seq<nat>, old2: seq<nat>,
      idx1: nat, idx2: nat, ghost m: Marks)
      returns (new1: seq<nat>, new2: seq<nat>, next1: nat, next2: nat)
    requires idx1 < |a| && idx2 < |b| && m == Marks(old1, old2, idx1, idx2, m.pairs)
    ensures var n := MarkStep(rel, a, b, m);
      new1 == n.old1 && new2 == n.old2 && next1 == n.i && next2 == n.j
    ensures next1 <= |a| && next2 <= |b| && next1 + next2 > idx1 + idx2
  {
    new1, new2, next1, next2 := old1, old2, idx1, idx2;
    if rel(a[idx1], b[idx2]) {
      next1, next2 := idx1 + 1, idx2 + 1;
    } else {
      var c1 := CountArrayDiff(rel, a, b, idx1 + 1, idx2, LOOK_AHEAD);
      var c2 := CountArrayDiff(rel, a, b, idx1, idx2 + 1, LOOK_AHEAD);
      if c1 > c2 {
        new1, next1 := old1 + [idx1 + 1], idx1 + 1;
      } else if c2 > 0 {
        new2, next2 := old2 + [idx2 + 1], idx2 + 1;
      } else {
        new1, next1 := old1 + [idx1 + 1], idx1 + 1;
        new2, next2 := old2 + [idx2 + 1], idx2 + 1;
      }
    }
  }

  /** The second loop: p and q are the positions of k1 and k2, past the end where those are null. */
  method MergeMarks(w: seq<string>, b: seq<string>, old1: seq<nat>, old2: seq<nat>) returns (diff: seq<DiffLine>)
    requires Numbers(old1, w) && Numbers(old2, b)
    ensures diff == MergeFrom(w, b, old1, old2, 0, 0, -2, -2, [])
  {
    diff := [];
    var p, q := 0, 0;
    var l1: int, l2: int := -2, -2;
    while p < |old1| || q < |old2|
      invariant p <= |old1| && q <= |old2|
      invariant MergeFrom(w, b, old1, old2, 0, 0, -2, -2, []) == MergeFrom(w, b, old1, old2, p, q, l1, l2, diff)
      decreases |old1| - p + |old2| - q
    {
      if (p < |old1| && old1[p] == l1 + 1) || q >= |old2| {
        l1, diff, p := old1[p], diff + [Minus(old1[p], w[old1[p] - 1])], p + 1;
      } else if old2[q] == l2 + 1 || p >= |old1| {
        l2, diff, q := old2[q], diff + [Plus(old2[q], b[old2[q] - 1])], q + 1;
      } else if old1[p] < old2[q] {
        l1, diff, p := old1[p], diff + [Minus(old1[p], w[old1[p] - 1])], p + 1;
      } else {
        l2, diff, q := old2[q], diff + [Plus(old2[q], b[old2[q] - 1])], q + 1;
      }
    }
  }

  /** generate_array_diff: the lines of a are those of w, or patterns for them. */
  method GenerateArrayDiff(rel: Rel, a: seq<string>, b: seq<string>, w: seq<string>) returns (diff: seq<DiffLine>)
    requires |w| == |a|
    ensures diff == DiffOf(rel, a, b, w)
  {
    var old1, old2, idx1, idx2 := MarkLines(rel, a, b);
    MarksInRange(rel, a, b);
    diff := MergeMarks(w, b, old1, old2);
    ghost var goal := DiffOf(rel, a, b, w);
    while idx1 < |a|
      invariant idx1 <= |a| && idx2 <= |b| && goal == WithAdded(b, idx2, WithRemoved(w, idx1, diff))
    {
      diff, idx1 := diff + [Minus(idx1 + 1, w[idx1])], idx1 + 1;
    }
    while idx2 < |b|
      invariant idx2 <= |b| && goal == WithAdded(b, idx2, diff)
    {
      diff, idx2 := diff + [Plus(idx2 + 1, b[idx2])], idx2 + 1;
    }
  }
}
