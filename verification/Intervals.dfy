/** Sets of consecutive integers, and how many there are. */
module Intervals {

  /** The integers from `lo` up to, and not including, `hi`. */
  function Interval(lo: int, hi: int): (s: set<int>)
    ensures forall x :: x in s <==> lo <= x < hi
    ensures |s| == if lo <= hi then hi - lo else 0
    decreases hi - lo
  {
    if lo >= hi then {} else Interval(lo, hi - 1) + {hi - 1}
  }

  lemma SubsetSize<T>(a: set<T>, b: set<T>)
    requires a <= b
    ensures |a| <= |b|
  {
    assert b == a + (b - a);
  }
}
