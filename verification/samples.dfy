/** Specification functions over a block of samples: the mathematical sum
    the kernel's accumulator tracks, and the smallest and largest sample. */
module Samples {

  /** The sum of a block, built from the front the way the kernel's loop
      adds one sample after another. */
  function Sum(s: seq<int>): (total: int)
  {
    if |s| == 0 then 0 else Sum(s[..|s| - 1]) + s[|s| - 1]
  }

  /** The smallest sample of a non-empty block. */
  function MinOf(s: seq<int>): (m: int)
    requires |s| > 0
    ensures m in s
    ensures forall i :: 0 <= i < |s| ==> m <= s[i]
  {
    if |s| == 1 then s[0]
    else
      var rest := MinOf(s[..|s| - 1]);
      if s[|s| - 1] < rest then s[|s| - 1] else rest
  }

  /** The largest sample of a non-empty block. */
  function MaxOf(s: seq<int>): (m: int)
    requires |s| > 0
    ensures m in s
    ensures forall i :: 0 <= i < |s| ==> s[i] <= m
  {
    if |s| == 1 then s[0]
    else
      var rest := MaxOf(s[..|s| - 1]);
      if s[|s| - 1] > rest then s[|s| - 1] else rest
  }

  /** When every sample lies in [lo, hi], the sum of n samples lies in
      [n * lo, n * hi]. */
  lemma {:induction false} SumBounds(s: seq<int>, lo: int, hi: int)
    requires forall i :: 0 <= i < |s| ==> lo <= s[i] <= hi
    ensures lo * |s| <= Sum(s) <= hi * |s|
  {
    if |s| > 0 {
      var init := s[..|s| - 1];
      SumBounds(init, lo, hi);
      assert lo * |s| == lo * |init| + lo;
      assert hi * |s| == hi * |init| + hi;
    }
  }

  /** The sum of a block lies between |s| times its smallest and |s| times
      its largest sample. */
  lemma SumBetweenMinMax(s: seq<int>)
    requires |s| > 0
    ensures MinOf(s) * |s| <= Sum(s) <= MaxOf(s) * |s|
  {
    SumBounds(s, MinOf(s), MaxOf(s));
  }
}
