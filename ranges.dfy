/** Index sets 0..n-1: the key sets of the index-keyed maps of the quiz. */
module Ranges {

  /** The indices 0, 1, ..., n-1. */
  function Range(n: int): (r: set<int>)
    ensures forall i :: i in r <==> 0 <= i < n
    decreases n
  {
    if n <= 0 then {} else Range(n - 1) + {n - 1}
  }

  /** A subset is no larger than the set that contains it. */
  lemma {:induction false} SubsetSize(a: set<int>, b: set<int>)
    requires a <= b
    ensures |a| <= |b|
  {
    assert b == a + (b - a);
  }

  /** Range(n) has exactly n elements. */
  lemma {:induction false} RangeSize(n: nat)
    ensures |Range(n)| == n
  {
    if n > 0 {
      RangeSize(n - 1);
      var r := Range(n - 1);
      assert n - 1 !in r;
      assert Range(n) == r + {n - 1};
      assert |r + {n - 1}| == |r| + 1;
    }
  }

  /** A subset of Range(n) has at most n elements, and exactly n when, and only when, it is all of Range(n). */
  lemma SubsetOfRange(s: set<int>, n: nat)
    requires s <= Range(n)
    ensures |s| <= n
    ensures |s| == n <==> s == Range(n)
  {
    RangeSize(n);
    assert |Range(n) - s| == n - |s|;
    if |s| == n {
      assert Range(n) - s == {};
    }
  }
}
