/** trajectory_weights: the stationary distribution on the active set, lifted to the full
    state space and read off frame by frame, then normalised. */
module Weights {
  import opened Wrappers
  import opened NumpyIndex
  import opened Sums
  import opened StateMap

  /** The values numpy writes into k selected slots from pi: pi itself when the lengths
      agree, pi[0] in every slot when pi has one element, otherwise a broadcast ValueError. */
  function Broadcast(pi: seq<real>, k: nat): (r: Option<seq<real>>)
    ensures r.Some? <==> |pi| == k || |pi| == 1
    ensures r.Some? ==> |r.value| == k
    ensures r.Some? ==> forall i :: 0 <= i < k ==> r.value[i] == if |pi| == k then pi[i] else pi[0]
  {
    if |pi| == k then Some(pi)
    else if |pi| == 1 then Some(seq(k, _ => pi[0]))
    else None
  }

  /** `statdist_full = zeros(n); statdist_full[active_set] = pi`. */
  function StatdistFull(n: nat, activeSet: seq<int>, pi: seq<real>): (r: Result<seq<real>>)
    requires AllIndexable(n, activeSet)
    ensures r.Err? ==> r.error == ShapeMismatch
    ensures r.Ok? ==> |r.value| == n
  {
    match Broadcast(pi, |activeSet|)
    case None => Err(ShapeMismatch)
    case Some(v) => Ok(FancyAssign(seq(n, _ => 0.0), activeSet, v))
  }

  /** Every full state carries the stationary probability of its active position, and an
      inactive state carries 0; the lift fails only when pi cannot be broadcast. */
  lemma {:induction false} StatdistFullAt(n: nat, activeSet: seq<int>, pi: seq<real>)
    requires AllIndexable(n, activeSet)
    ensures StatdistFull(n, activeSet, pi).Ok? <==> |pi| == |activeSet| || |pi| == 1
    ensures StatdistFull(n, activeSet, pi).Ok? ==>
      var sd := StatdistFull(n, activeSet, pi).value;
      var f := Full2Active(n, activeSet);
      forall j :: 0 <= j < n ==>
        sd[j] == if f[j] < 0 then 0.0 else if |pi| == |activeSet| then pi[f[j]] else pi[0]
  {
    var f := Full2Active(n, activeSet);
    forall j | 0 <= j < n
      ensures f[j] == LastHit(n, activeSet, j)
    {
      Full2ActiveAt(n, activeSet, j);
    }
  }

  /** `statdist_full[dtraj]` for every trajectory: the raw weights, or None on the first
      trajectory holding a label that is no index of statdist_full (an IndexError). */
  function RawWeights(sd: seq<real>, dtrajs: seq<seq<int>>): (r: Option<seq<seq<real>>>)
    ensures r.Some? <==> LabelsIndexable(|sd|, dtrajs)
    ensures r.Some? ==> |r.value| == |dtrajs|
    ensures r.Some? ==> forall k :: 0 <= k < |dtrajs| ==> Take(sd, dtrajs[k]) == Some(r.value[k])
  {
    if LabelsIndexable(|sd|, dtrajs) then
      Some(seq(|dtrajs|, k requires 0 <= k < |dtrajs| => Take(sd, dtrajs[k]).value))
    else
      None
  }

  /** The total the loop of trajectory_weights accumulates: after appending the k-th array
      it adds the sum over ALL arrays appended so far, so the result is the sum of the
      totals of every prefix w[..1], w[..2], ..., w[..|w|]. */
  function LoopTotal(w: seq<seq<real>>): (r: real)
    ensures |w| == 1 ==> r == SumReal(w[0])
  {
    if |w| == 0 then 0.0
    else
      assert |w| == 1 ==> w[..0] == [] && SumAll(w) == SumReal(w[0]);
      LoopTotal(w[..|w| - 1]) + SumAll(w)
  }

  /** Every trajectory is as long as the first one. */
  predicate SameLengths<T>(w: seq<seq<T>>) {
    forall k :: 0 <= k < |w| ==> |w[k]| == |w[0]|
  }

  /** Trajectory j gets through one turn of the loop of trajectory_weights: its labels
      index statdist_full, and appending its array keeps W a regular array for `np.sum`. */
  predicate Passes(n: nat, dtrajs: seq<seq<int>>, j: nat)
    requires j < |dtrajs|
  {
    AllIndexable(n, dtrajs[j]) && |dtrajs[j]| == |dtrajs[0]|
  }

  /** What a trajectory that does not get through raises: IndexError at
      `statdist_full[dtraj]` first, otherwise ValueError at `np.sum(W)` on arrays of
      different lengths. */
  function StepError(n: nat, dtrajs: seq<seq<int>>, j: nat): Error
    requires j < |dtrajs|
  {
    if !AllIndexable(n, dtrajs[j]) then IndexOutOfRange else ShapeMismatch
  }

  /** The error the loop of trajectory_weights stops with, from trajectory k on: the error
      of the first trajectory that does not get through, or None when all of them do. */
  function LoopFailure(n: nat, dtrajs: seq<seq<int>>, k: nat): (e: Option<Error>)
    requires k <= |dtrajs|
    ensures e.None? <==> forall j :: k <= j < |dtrajs| ==> Passes(n, dtrajs, j)
    ensures e.Some? ==> exists j :: k <= j < |dtrajs| && !Passes(n, dtrajs, j) && e.value == StepError(n, dtrajs, j)
                                   && forall i :: k <= i < j ==> Passes(n, dtrajs, i)
    decreases |dtrajs| - k
  {
    if k == |dtrajs| then None
    else if !Passes(n, dtrajs, k) then Some(StepError(n, dtrajs, k))
    else LoopFailure(n, dtrajs, k + 1)
  }

  /** The loop stops at the first trajectory that does not get through, with its error. */
  lemma {:induction false} FailsAtFirst(n: nat, dtrajs: seq<seq<int>>, k: nat, i: nat)
    requires k <= i < |dtrajs|
    requires forall j :: k <= j < i ==> Passes(n, dtrajs, j)
    requires !Passes(n, dtrajs, i)
    ensures LoopFailure(n, dtrajs, k) == Some(StepError(n, dtrajs, i))
    decreases i - k
  {
    if k < i {
      assert Passes(n, dtrajs, k);
      FailsAtFirst(n, dtrajs, k + 1, i);
    }
  }

  /** All trajectories get through exactly when every label is an index and all lengths
      agree. */
  lemma {:induction false} NoLoopFailure(n: nat, dtrajs: seq<seq<int>>)
    ensures LoopFailure(n, dtrajs, 0).None? <==> LabelsIndexable(n, dtrajs) && SameLengths(dtrajs)
  {
    if LoopFailure(n, dtrajs, 0).None? {
      forall k | 0 <= k < |dtrajs|
        ensures AllIndexable(n, dtrajs[k]) && |dtrajs[k]| == |dtrajs[0]|
      {
        assert Passes(n, dtrajs, k);
      }
    }
  }

  function NormalizeAll(w: seq<seq<real>>, c: real): (r: seq<seq<real>>)
    requires c != 0.0
    ensures |r| == |w| && forall k :: 0 <= k < |w| ==> r[k] == Scale(w[k], c)
  {
    seq(|w|, k requires 0 <= k < |w| => Scale(w[k], c))
  }

  lemma {:induction false} SumNormalizeAll(w: seq<seq<real>>, c: real)
    requires c != 0.0
    ensures SumAll(NormalizeAll(w, c)) == SumAll(w) / c
  {
    if |w| > 0 {
      assert NormalizeAll(w, c)[..|w| - 1] == NormalizeAll(w[..|w| - 1], c);
      SumNormalizeAll(w[..|w| - 1], c);
      SumScale(w[|w| - 1], c);
      DivideSum(SumAll(w[..|w| - 1]), SumReal(w[|w| - 1]), c);
    }
  }

  /** Some trajectory has at least one frame. */
  predicate HasFrames<T>(w: seq<seq<T>>) {
    exists k :: 0 <= k < |w| && |w[k]| > 0
  }

  /** The weights trajectory_weights returns, as written: raw weights divided by
      LoopTotal. A zero total gives nan/inf as soon as some frame is divided by it; with
      no frame at all the division changes nothing and the empty arrays come back. */
  function WeightsAsWritten(sd: seq<real>, dtrajs: seq<seq<int>>): (r: Result<seq<seq<real>>>)
    ensures r.Err? ==> r.error in {IndexOutOfRange, ShapeMismatch, NonFiniteWeights}
    ensures r.Err? && r.error == NonFiniteWeights ==> HasFrames(dtrajs)
    ensures r.Ok? ==> |r.value| == |dtrajs|
  {
    match LoopFailure(|sd|, dtrajs, 0)
    case Some(e) => Err(e)
    case None =>
      NoLoopFailure(|sd|, dtrajs);
      var w := RawWeights(sd, dtrajs).value;
      var total := LoopTotal(w);
      if total != 0.0 then Ok(NormalizeAll(w, total))
      else if HasFrames(dtrajs) then Err(NonFiniteWeights)
      else Ok(w)
  }

  /** The weights as documented: raw weights divided by their grand total, with the same
      outcome as above for a zero total. */
  function WeightsIntended(sd: seq<real>, dtrajs: seq<seq<int>>): (r: Result<seq<seq<real>>>)
    ensures r.Err? ==> r.error == IndexOutOfRange || r.error == NonFiniteWeights
    ensures r.Err? && r.error == NonFiniteWeights ==> HasFrames(dtrajs)
    ensures r.Ok? ==> |r.value| == |dtrajs|
  {
    match RawWeights(sd, dtrajs)
    case None => Err(IndexOutOfRange)
    case Some(w) =>
      var total := SumAll(w);
      if total != 0.0 then Ok(NormalizeAll(w, total))
      else if HasFrames(dtrajs) then Err(NonFiniteWeights)
      else Ok(w)
  }

  /** One weight array per trajectory, as long as its trajectory, frame t carrying the
      lifted stationary weight of its label over the loop total; the nan/inf outcome
      happens exactly when that total is 0 and some frame exists. */
  lemma WeightsShape(sd: seq<real>, dtrajs: seq<seq<int>>)
    ensures var r := WeightsAsWritten(sd, dtrajs);
      && (r.Err? && r.error != NonFiniteWeights <==> !LabelsIndexable(|sd|, dtrajs) || !SameLengths(dtrajs))
      && (r.Err? && r.error != NonFiniteWeights ==> r == Err(LoopFailure(|sd|, dtrajs, 0).value))
      && (r == Err(IndexOutOfRange) ==> !LabelsIndexable(|sd|, dtrajs))
      && (r == Err(ShapeMismatch) ==> !SameLengths(dtrajs))
      && (SameLengths(dtrajs) && !LabelsIndexable(|sd|, dtrajs) ==> r == Err(IndexOutOfRange))
      && (LabelsIndexable(|sd|, dtrajs) && !SameLengths(dtrajs) ==> r == Err(ShapeMismatch))
      && (r.Err? && r.error == NonFiniteWeights <==>
            LabelsIndexable(|sd|, dtrajs) && SameLengths(dtrajs) &&
            LoopTotal(RawWeights(sd, dtrajs).value) == 0.0 && HasFrames(dtrajs))
      && (r.Ok? ==> |r.value| == |dtrajs|)
      && (r.Ok? ==> forall k :: 0 <= k < |dtrajs| ==> |r.value[k]| == |dtrajs[k]|)
      && (r.Ok? ==> forall k, t :: 0 <= k < |dtrajs| && 0 <= t < |dtrajs[k]| ==>
            var total := LoopTotal(RawWeights(sd, dtrajs).value);
            total != 0.0 && r.value[k][t] == sd[Wrap(|sd|, dtrajs[k][t])] / total)
  {
    NoLoopFailure(|sd|, dtrajs);
    var e := LoopFailure(|sd|, dtrajs, 0);
    if e.Some? {
      var j :| 0 <= j < |dtrajs| && !Passes(|sd|, dtrajs, j) && e.value == StepError(|sd|, dtrajs, j);
      assert e.value == IndexOutOfRange ==> !AllIndexable(|sd|, dtrajs[j]);
      assert e.value == ShapeMismatch ==> |dtrajs[j]| != |dtrajs[0]|;
    }
  }

  /** No trajectories, or only empty ones: nothing is divided and the empty arrays are
      returned as they are. */
  lemma EmptyTrajectoriesReturned()
    ensures WeightsAsWritten([1.0], []) == Ok([])
    ensures WeightsAsWritten([1.0], [[]]) == Ok([[]])
  {
    var one: seq<seq<int>> := [[]];
    NoLoopFailure(1, one);
    NoLoopFailure(1, []);
    var w := RawWeights([1.0], one).value;
    assert w == [[]];
    assert w[..0] == [] && SumAll(w) == 0.0;
    assert LoopTotal(w) == 0.0;
    assert !HasFrames(one);
  }

  /** With a single trajectory the loop total is that trajectory's total, so the returned
      weights sum to one whenever the raw weights do not sum to zero. */
  lemma {:induction false} SingleTrajectoryNormalized(sd: seq<real>, dtraj: seq<int>)
    requires AllIndexable(|sd|, dtraj)
    requires SumReal(Take(sd, dtraj).value) != 0.0
    ensures WeightsAsWritten(sd, [dtraj]).Ok?
    ensures SumAll(WeightsAsWritten(sd, [dtraj]).value) == 1.0
  {
    NoLoopFailure(|sd|, [dtraj]);
    var w := RawWeights(sd, [dtraj]).value;
    assert w[..0] == [];
    assert LoopTotal(w) == SumReal(w[0]) == SumAll(w);
    SumNormalizeAll(w, LoopTotal(w));
    DivideBySelf(SumAll(w));
  }

  /** With two or more trajectories and non-negative stationary weights, the loop total
      exceeds the grand total as soon as the first trajectory has positive weight, so the
      returned weights sum to strictly less than one. */
  lemma {:induction false} SeveralTrajectoriesFallShort(sd: seq<real>, dtrajs: seq<seq<int>>)
    requires |dtrajs| >= 2
    requires AllNonNegative(sd)
    requires LabelsIndexable(|sd|, dtrajs) && SameLengths(dtrajs)
    requires 0.0 < SumReal(Take(sd, dtrajs[0]).value)
    ensures WeightsAsWritten(sd, dtrajs).Ok?
    ensures 0.0 < SumAll(WeightsAsWritten(sd, dtrajs).value) < 1.0
  {
    NoLoopFailure(|sd|, dtrajs);
    var w := RawWeights(sd, dtrajs).value;
    forall k | 0 <= k < |w|
      ensures AllNonNegative(w[k])
    {
      assert Take(sd, dtrajs[k]) == Some(w[k]);
    }
    LoopTotalBound(w);
    var prev := w[..|w| - 1];
    LoopTotalBound(prev);
    assert prev[0] == w[0];
    SumAllAtLeastFirst(prev);
    SumAllAtLeastFirst(w);
    var total := LoopTotal(w);
    assert SumAll(w) < total;
    SumNormalizeAll(w, total);
    DivideBySmaller(SumAll(w), total);
  }

  lemma DivideBySelf(x: real)
    requires x != 0.0
    ensures x / x == 1.0
  {
  }

  lemma DivideBySmaller(x: real, c: real)
    requires 0.0 < x < c
    ensures 0.0 < x / c < 1.0
  {
    DivideByPositive(x, c);
    DivideByPositive(c - x, c);
    assert x / c + (c - x) / c == 1.0;
  }

  lemma DivideByPositive(p: real, c: real)
    requires 0.0 < p && 0.0 < c
    ensures 0.0 < p / c
  {
  }

  /** With non-negative entries the loop total is at least the grand total. */
  lemma {:induction false} LoopTotalBound(w: seq<seq<real>>)
    requires forall k :: 0 <= k < |w| ==> AllNonNegative(w[k])
    ensures SumAll(w) <= LoopTotal(w)
  {
    if |w| > 0 {
      LoopTotalBound(w[..|w| - 1]);
      SumAllNonNegative(w[..|w| - 1]);
    }
  }

  /** Two one-frame trajectories in the same state: as written each weight is 1/3 and
      they sum to 2/3. */
  lemma TwoTrajectoriesCounterexample()
    ensures WeightsAsWritten([1.0], [[0], [0]]) == Ok([[1.0 / 3.0], [1.0 / 3.0]])
  {
    NoLoopFailure(1, [[0], [0]]);
    assert AllIndexable(1, [0]) && Wrap(1, 0) == 0;
    assert Take([1.0], [0]).value[0] == 1.0;
    assert Take([1.0], [0]).value == [1.0];
    var w := RawWeights([1.0], [[0], [0]]).value;
    assert w == [[1.0], [1.0]];
    assert w[..1] == [[1.0]] && w[..1][..0] == [];
    assert SumAll(w[..1]) == 1.0;
    assert LoopTotal(w[..1]) == 1.0;
    assert LoopTotal(w) == 3.0;
    assert Scale([1.0], 3.0) == [1.0 / 3.0];
    assert NormalizeAll(w, 3.0) == [[1.0 / 3.0], [1.0 / 3.0]];
  }

  /** Trajectories of different lengths: `np.sum(W)` refuses the ragged list with a
      ValueError, whatever their labels' weights. */
  lemma RaggedTrajectoriesRaise()
    ensures WeightsAsWritten([1.0], [[0, 0], [0]]) == Err(ShapeMismatch)
  {
    var dtrajs := [[0, 0], [0]];
    assert Passes(1, dtrajs, 0);
    assert !Passes(1, dtrajs, 1) && StepError(1, dtrajs, 1) == ShapeMismatch;
  }

  /** The documented normalisation holds of the intended weights for any number of
      trajectories: they sum to one whenever the raw weights do not sum to zero. */
  lemma {:induction false} IntendedWeightsNormalized(sd: seq<real>, dtrajs: seq<seq<int>>)
    requires LabelsIndexable(|sd|, dtrajs)
    requires SumAll(RawWeights(sd, dtrajs).value) != 0.0
    ensures WeightsIntended(sd, dtrajs).Ok?
    ensures SumAll(WeightsIntended(sd, dtrajs).value) == 1.0
  {
    var w := RawWeights(sd, dtrajs).value;
    SumNormalizeAll(w, SumAll(w));
    DivideBySelf(SumAll(w));
  }

  /** The loop of trajectory_weights: reads off `statdist_full[dtraj]` for each trajectory
      into a new array, appends it, and adds the sum over all arrays appended so far to
      the total; it stops with the error of the first trajectory that does not get
      through. */
  method ReadOffWeights(sd: seq<real>, dtrajs: seq<seq<int>>) returns (ws: Result<seq<array<real>>>, total: real)
    ensures ws.Err? <==> LoopFailure(|sd|, dtrajs, 0).Some?
    ensures ws.Err? ==> ws.error == LoopFailure(|sd|, dtrajs, 0).value
    ensures ws.Ok? ==> RawWeights(sd, dtrajs).Some?
    ensures ws.Ok? ==> |ws.value| == |dtrajs| && total == LoopTotal(RawWeights(sd, dtrajs).value)
    ensures ws.Ok? ==> forall k :: 0 <= k < |dtrajs| ==>
      fresh(ws.value[k]) && ws.value[k][..] == RawWeights(sd, dtrajs).value[k]
    ensures ws.Ok? ==> forall k, k' :: 0 <= k < k' < |dtrajs| ==> ws.value[k] != ws.value[k']
  {
    var arrays: seq<array<real>> := [];
    var raw: seq<seq<real>> := [];
    total := 0.0;
    var i := 0;
    while i < |dtrajs|
      invariant 0 <= i <= |dtrajs|
      invariant |arrays| == |raw| == i
      invariant forall k :: 0 <= k < i ==> Take(sd, dtrajs[k]) == Some(raw[k])
      invariant forall k :: 0 <= k < i ==> fresh(arrays[k]) && arrays[k][..] == raw[k]
      invariant forall k, k' :: 0 <= k < k' < i ==> arrays[k] != arrays[k']
      invariant total == LoopTotal(raw)
      invariant forall k :: 0 <= k < i ==> Passes(|sd|, dtrajs, k)
    {
      var w := Take(sd, dtrajs[i]);
      if w.None? {
        FailsAtFirst(|sd|, dtrajs, 0, i);
        return Err(IndexOutOfRange), total;
      }
      // `np.sum(W)` raises once W holds arrays of different lengths; the arrays read off
      // so far are dropped with the exception, so the check can come before the copy.
      if |dtrajs[i]| != |dtrajs[0]| {
        FailsAtFirst(|sd|, dtrajs, 0, i);
        return Err(ShapeMismatch), total;
      }
      var a := NewArray(w.value);
      arrays := arrays + [a];
      LoopTotalAppend(raw, w.value);
      raw := raw + [w.value];
      total := total + SumAll(raw);
      i := i + 1;
    }
    NoLoopFailure(|sd|, dtrajs);
    RawWeightsAre(sd, dtrajs, raw);
    return Ok(arrays), total;
  }

  /** Appending an array adds the total of the extended list to the loop total. */
  lemma LoopTotalAppend(w: seq<seq<real>>, v: seq<real>)
    ensures LoopTotal(w + [v]) == LoopTotal(w) + SumAll(w + [v])
  {
    assert (w + [v])[..|w|] == w;
  }

  /** A list that reads off every trajectory in order is the raw weights. */
  lemma RawWeightsAre(sd: seq<real>, dtrajs: seq<seq<int>>, raw: seq<seq<real>>)
    requires |raw| == |dtrajs|
    requires forall k :: 0 <= k < |dtrajs| ==> Take(sd, dtrajs[k]) == Some(raw[k])
    ensures RawWeights(sd, dtrajs) == Some(raw)
  {
    assert LabelsIndexable(|sd|, dtrajs);
    var w := RawWeights(sd, dtrajs).value;
    assert forall k :: 0 <= k < |raw| ==> Take(sd, dtrajs[k]) == Some(w[k]) && w[k] == raw[k];
    assert w == raw;
  }

  /** A new array holding v: the copy fancy indexing makes. */
  method NewArray(v: seq<real>) returns (a: array<real>)
    ensures fresh(a) && a[..] == v
  {
    a := new real[|v|](t requires 0 <= t < |v| => v[t]);
  }

  /** `for w in W: w /= c`: every array of the list divided by c, in place. */
  method DivideAllInPlace(ws: seq<array<real>>, c: real)
    requires c != 0.0
    requires forall k, k' :: 0 <= k < k' < |ws| ==> ws[k] != ws[k']
    modifies set k | 0 <= k < |ws| :: ws[k]
    ensures forall k :: 0 <= k < |ws| ==> ws[k][..] == Scale(old(ws[k][..]), c)
  {
    var k := 0;
    while k < |ws|
      invariant 0 <= k <= |ws|
      invariant forall j :: 0 <= j < k ==> ws[j][..] == Scale(old(ws[j][..]), c)
      invariant forall j :: k <= j < |ws| ==> ws[j][..] == old(ws[j][..])
    {
      DivideInPlace(ws[k], c);
      k := k + 1;
    }
  }

  /** `w /= c` on a numpy array: every element divided by c, in place. */
  method DivideInPlace(w: array<real>, c: real)
    requires c != 0.0
    modifies w
    ensures w[..] == Scale(old(w[..]), c)
  {
    var t := 0;
    while t < w.Length
      invariant 0 <= t <= w.Length
      invariant forall u :: 0 <= u < t ==> w[u] == old(w[u]) / c
      invariant forall u :: t <= u < w.Length ==> w[u] == old(w[u])
    {
      w[t] := w[t] / c;
      t := t + 1;
    }
  }
}
