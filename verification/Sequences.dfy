/** Sequences without repetition, as the lists and chains of the kernel are. */
module Sequences {
  ghost predicate Distinct<T>(x: seq<T>)
  {
    forall i, j | 0 <= i < j < |x| :: x[i] != x[j]
  }

  /** Different numbers below n are at most n many. */
  lemma {:induction false} Pigeonhole(x: seq<nat>, n: nat)
    requires Distinct(x) && forall i | 0 <= i < |x| :: x[i] < n
    ensures |x| <= n
    decreases n
  {
    assert |x| > 0 ==> x[0] < n;
    if n > 0 && exists k :: 0 <= k < |x| && x[k] == n - 1 {
      var k :| 0 <= k < |x| && x[k] == n - 1;
      var y := x[..k] + x[k + 1..];
      assert forall i | 0 <= i < |y| :: y[i] == if i < k then x[i] else x[i + 1];
      Pigeonhole(y, n - 1);
    } else if n > 0 {
      Pigeonhole(x, n - 1);
    }
  }
}
