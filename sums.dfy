/** Sums over integer and real sequences, as numpy.sum computes them, and the facts about
    them that the histogram and the weight normalisation rely on. */
module Sums {

  function SumInt(s: seq<int>): int
  {
    if |s| == 0 then 0 else SumInt(s[..|s| - 1]) + s[|s| - 1]
  }

  function SumReal(s: seq<real>): real
  {
    if |s| == 0 then 0.0 else SumReal(s[..|s| - 1]) + s[|s| - 1]
  }

  /** The sum of every element of every array in a list of arrays. */
  function SumAll(w: seq<seq<real>>): real
  {
    if |w| == 0 then 0.0 else SumAll(w[..|w| - 1]) + SumReal(w[|w| - 1])
  }

  /** Every element divided by c, as `w / c` on a numpy array. */
  function Scale(w: seq<real>, c: real): (r: seq<real>)
    requires c != 0.0
    ensures |r| == |w|
  {
    seq(|w|, t requires 0 <= t < |w| => w[t] / c)
  }

  predicate AllNonNegative(s: seq<real>) {
    forall t :: 0 <= t < |s| ==> 0.0 <= s[t]
  }

  /** Changing one element changes the sum by the difference. */
  lemma {:induction false} SumIntUpdate(s: seq<int>, k: nat, v: int)
    requires k < |s|
    ensures SumInt(s[k := v]) == SumInt(s) - s[k] + v
  {
    var s' := s[k := v];
    if k < |s| - 1 {
      assert s'[..|s| - 1] == s[..|s| - 1][k := v];
      SumIntUpdate(s[..|s| - 1], k, v);
    } else {
      assert s'[..|s| - 1] == s[..|s| - 1];
    }
  }

  lemma {:induction false} SumIntNonNegative(s: seq<int>)
    requires forall t :: 0 <= t < |s| ==> 0 <= s[t]
    ensures 0 <= SumInt(s)
  {
    if |s| > 0 {
      SumIntNonNegative(s[..|s| - 1]);
    }
  }

  /** Summing the elements at pairwise distinct positions of a non-negative sequence
      never exceeds the sum of the whole sequence. */
  lemma {:induction false} SumAtDistinctBounded(h: seq<int>, pos: seq<nat>)
    requires forall t :: 0 <= t < |h| ==> 0 <= h[t]
    requires forall i :: 0 <= i < |pos| ==> pos[i] < |h|
    requires forall i, k :: 0 <= i < k < |pos| ==> pos[i] != pos[k]
    ensures SumInt(seq(|pos|, i requires 0 <= i < |pos| => h[pos[i]])) <= SumInt(h)
    decreases |pos|
  {
    var g := seq(|pos|, i requires 0 <= i < |pos| => h[pos[i]]);
    if |pos| == 0 {
      SumIntNonNegative(h);
    } else {
      var k := pos[|pos| - 1];
      var p := pos[..|pos| - 1];
      var h' := h[k := 0];
      SumAtDistinctBounded(h', p);
      var g' := seq(|p|, i requires 0 <= i < |p| => h'[p[i]]);
      assert g[..|g| - 1] == g';
      SumIntUpdate(h, k, 0);
    }
  }

  lemma {:induction false} SumScale(w: seq<real>, c: real)
    requires c != 0.0
    ensures SumReal(Scale(w, c)) == SumReal(w) / c
  {
    if |w| > 0 {
      var init, last := w[..|w| - 1], w[|w| - 1];
      assert Scale(w, c)[..|w| - 1] == Scale(init, c);
      SumScale(init, c);
      DivideSum(SumReal(init), last, c);
    }
  }

  /** Division by c distributes over a sum. */
  lemma DivideSum(a: real, b: real, c: real)
    requires c != 0.0
    ensures a / c + b / c == (a + b) / c
  {
  }

  lemma {:induction false} SumRealNonNegative(s: seq<real>)
    requires AllNonNegative(s)
    ensures 0.0 <= SumReal(s)
  {
    if |s| > 0 {
      SumRealNonNegative(s[..|s| - 1]);
    }
  }

  lemma {:induction false} SumAllNonNegative(w: seq<seq<real>>)
    requires forall k :: 0 <= k < |w| ==> AllNonNegative(w[k])
    ensures 0.0 <= SumAll(w)
  {
    if |w| > 0 {
      SumAllNonNegative(w[..|w| - 1]);
      SumRealNonNegative(w[|w| - 1]);
    }
  }

  /** With non-negative entries the grand total is at least the total of the first array. */
  lemma {:induction false} SumAllAtLeastFirst(w: seq<seq<real>>)
    requires |w| >= 1
    requires forall k :: 0 <= k < |w| ==> AllNonNegative(w[k])
    ensures SumReal(w[0]) <= SumAll(w)
  {
    if |w| > 1 {
      SumAllAtLeastFirst(w[..|w| - 1]);
      SumRealNonNegative(w[|w| - 1]);
    } else {
      assert w[..0] == [];
    }
  }
}
