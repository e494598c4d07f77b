/** Chains of addresses, and the C strings that serve as keys: what the two caches share. */
module Chains {

  datatype Option<T> = None | Some(value: T)

  type Id = nat                     // address of a stored entry

  const NUL: char := '\0'

  /** memcmp(a, b, strlen(a) + 1) == 0 on the two C strings. */
  predicate SameName(a: string, b: string) { a + [NUL] <= b + [NUL] }

  /** A stored name is matched by itself, and by nothing else exactly when it contains no NUL. */
  lemma NamesMatchOnlyThemselves(b: string)
    ensures SameName(b, b)
    ensures NUL !in b <==> forall a :: SameName(a, b) ==> a == b
  {
    if NUL in b {
      var k: nat :| k < |b| && b[k] == NUL;
      var a := b[..k];
      assert a + [NUL] <= b + [NUL];
      assert SameName(a, b) && a != b;
    } else {
      assert forall k :: 0 <= k < |b| ==> b[k] in b && (b + [NUL])[k] != NUL;
      forall a | SameName(a, b) ensures a == b {
        assert (a + [NUL])[|a|] == (b + [NUL])[|a|] == NUL;
        assert a == (a + [NUL])[..|a|] == (b + [NUL])[..|a|] == b;
      }
    }
  }

  ghost predicate NoDuplicates(s: seq<Id>) { forall j: nat, k: nat :: j < k < |s| ==> s[j] != s[k] }

  lemma NoDuplicatesInConcat(a: seq<Id>, b: seq<Id>)
    requires NoDuplicates(a) && NoDuplicates(b) && forall x :: x in b ==> x !in a
    ensures NoDuplicates(a + b)
  {
    forall j: nat, k: nat | j < k < |a + b| ensures (a + b)[j] != (a + b)[k] {
      if j < |a| <= k { assert b[k - |a|] in b && a[j] in a; }
    }
  }

  ghost function TotalLength(chains: seq<seq<Id>>, n: nat): nat
    requires n <= |chains|
  {
    if n == 0 then 0 else TotalLength(chains, n - 1) + |chains[n - 1]|
  }

  lemma {:induction false} TotalOfUpdate(chains: seq<seq<Id>>, i: nat, s: seq<Id>, n: nat)
    requires i < |chains| && n <= |chains|
    ensures TotalLength(chains[i := s], n) == TotalLength(chains, n) + (if i < n then |s| - |chains[i]| else 0)
  {
    if n == 0 {
    } else {
      TotalOfUpdate(chains, i, s, n - 1);
    }
  }

  ghost function Without(s: seq<Id>, id: Id): seq<Id> {
    if s == [] then [] else if s[0] == id then s[1..] else [s[0]] + Without(s[1..], id)
  }

  lemma {:induction false} WithoutIndex(s: seq<Id>, id: Id) returns (k: nat)
    requires id in s
    ensures k < |s| && s[k] == id && id !in s[..k]
    ensures Without(s, id) == s[..k] + s[k + 1..]
  {
    if s[0] == id {
      k := 0;
    } else {
      k := WithoutIndex(s[1..], id);
      assert Without(s, id) == [s[0]] + (s[1..][..k] + s[1..][k + 1..]);
      assert s[..k + 1] == [s[0]] + s[1..][..k];
      k := k + 1;
    }
  }

  lemma {:induction false} CutIsWithout(s: seq<Id>, k: nat)
    requires k < |s| && s[k] !in s[..k]
    ensures Without(s, s[k]) == s[..k] + s[k + 1..]
  {
    if k == 0 {
    } else {
      assert s[..k] == [s[0]] + s[1..][..k - 1];
      CutIsWithout(s[1..], k - 1);
    }
  }

  lemma {:induction false} EmptyTotal(chains: seq<seq<Id>>, n: nat)
    requires n <= |chains| && forall i: nat :: i < n ==> chains[i] == []
    ensures TotalLength(chains, n) == 0
  {
    if n == 0 {
    } else {
      EmptyTotal(chains, n - 1);
    }
  }
}
