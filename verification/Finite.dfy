/** Counting facts about finite ranges and duplicate-free sequences. */
module Finite {

  /** The numbers below `n`. */
  function Range(n: nat): (r: set<nat>)
    ensures |r| == n && forall k :: k in r <==> 0 <= k < n
  {
    if n == 0 then {} else Range(n - 1) + {n - 1}
  }

  ghost predicate Distinct<T>(s: seq<T>) {
    forall i, j :: 0 <= i < j < |s| ==> s[i] != s[j]
  }

  lemma {:induction false} ElementCount<T>(s: seq<T>)
    requires Distinct(s)
    ensures |set k | k in s| == |s|
  {
    if s != [] {
      var front := s[..|s| - 1];
      ElementCount(front);
      assert (set k | k in s) == (set k | k in front) + {s[|s| - 1]};
    }
  }

  lemma SubsetCount<T>(a: set<T>, b: set<T>)
    requires a <= b
    ensures |a| <= |b| && (|a| == |b| ==> a == b)
  {
    assert b == a + (b - a);
    assert |b| == |a| + |b - a|;
  }

  /** Distinct numbers below `n` are at most `n`, and are `n` exactly when none is missing. */
  lemma DistinctBelow(s: seq<nat>, n: nat)
    requires Distinct(s) && forall i :: 0 <= i < |s| ==> s[i] < n
    ensures |s| <= n
    ensures |s| == n <==> forall k :: 0 <= k < n ==> k in s
  {
    var elems := set k | k in s;
    ElementCount(s);
    assert elems <= Range(n);
    SubsetCount(elems, Range(n));
    forall k | 0 <= k < n && |s| == n ensures k in s {
      assert k in Range(n) && elems == Range(n);
    }
    if forall k :: 0 <= k < n ==> k in s {
      assert elems == Range(n);
    }
  }
}
