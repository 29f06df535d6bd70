/** Lists of numbers in which nothing occurs twice. */
module Distinct {
  ghost predicate Once(s: seq<nat>) {
    forall i, j :: 0 <= i < j < |s| ==> s[i] != s[j]
  }

  /** The list without the first occurrence of `x`. */
  function Remove(s: seq<nat>, x: nat): seq<nat> {
    if s == [] then [] else if s[0] == x then s[1..] else [s[0]] + Remove(s[1..], x)
  }

  lemma {:induction false} RemoveSpec(s: seq<nat>, x: nat)
    requires Once(s)
    ensures Once(Remove(s, x))
    ensures forall y :: y in Remove(s, x) <==> y in s && y != x
  {
    if s != [] {
      assert s == [s[0]] + s[1..];
      if s[0] != x {
        RemoveSpec(s[1..], x);
        PushOnce(Remove(s[1..], x), s[0]);
      }
    }
  }

  lemma {:induction false} RemoveLength(s: seq<nat>, x: nat)
    requires x in s
    ensures |Remove(s, x)| == |s| - 1
  {
    if s[0] != x { RemoveLength(s[1..], x); }
  }

  lemma PushOnce(s: seq<nat>, x: nat)
    requires Once(s) && x !in s
    ensures Once([x] + s)
  {
  }

  /** There are at most `n` different numbers below `n`. */
  lemma {:induction false} AtMost(s: seq<nat>, n: nat)
    requires Once(s) && forall x :: x in s ==> x < n
    ensures |s| <= n
    decreases n
  {
    if n == 0 {
      assert forall i :: 0 <= i < |s| ==> s[i] in s;
    } else {
      RemoveSpec(s, n - 1);
      AtMost(Remove(s, n - 1), n - 1);
      if n - 1 in s {
        RemoveLength(s, n - 1);
      } else {
        AtMost(s, n - 1);
      }
    }
  }

  /** `n` different numbers below `n` are all of them. */
  lemma Pigeonhole(s: seq<nat>, n: nat, x: nat)
    requires Once(s) && (forall y :: y in s ==> y < n) && |s| == n && x < n
    ensures x in s
  {
    if x !in s {
      PushOnce(s, x);
      AtMost([x] + s, n);
    }
  }
}
