/** Counting distinct values in a bounded range. */
module Pigeonhole {
  predicate Distinct<T(==)>(s: seq<T>) {
    forall i, j | 0 <= i < j < |s| :: s[i] != s[j]
  }

  lemma {:induction false} ElementCount(s: seq<int>)
    requires Distinct(s)
    ensures |set x | x in s| == |s|
  {
    if s != [] {
      var rest := s[..|s| - 1];
      ElementCount(rest);
      assert s == rest + [s[|s| - 1]];
      assert (set x | x in s) == (set x | x in rest) + {s[|s| - 1]};
    }
  }

  /** The naturals below `n`. */
  function Below(n: nat): (s: set<int>)
    ensures |s| == n && forall x :: x in s <==> 0 <= x < n
  {
    if n == 0 then {} else Below(n - 1) + {n - 1}
  }

  lemma SubsetCount(a: set<int>, b: set<int>)
    requires a <= b
    ensures |a| <= |b|
  {
    assert b == a + (b - a);
  }

  /** Distinct values below `n` number at most `n`. */
  lemma AtMost(s: seq<int>, n: nat)
    requires Distinct(s) && forall i | 0 <= i < |s| :: 0 <= s[i] < n
    ensures |s| <= n
  {
    ElementCount(s);
    SubsetCount((set x | x in s), Below(n));
  }
}
