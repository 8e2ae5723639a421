/** The state histogram of the full trajectories and active_count_fraction, the share of
    all frames that fall in active states. */
module StateCounts {
  import opened Wrappers
  import opened NumpyIndex
  import opened Sums

  /** All frames of all trajectories, trajectory after trajectory. */
  function Flatten(dtrajs: seq<seq<int>>): seq<int>
  {
    if |dtrajs| == 0 then [] else Flatten(dtrajs[..|dtrajs| - 1]) + dtrajs[|dtrajs| - 1]
  }

  /** How many frames carry label s. */
  function Count(frames: seq<int>, s: int): (c: nat)
    ensures c <= |frames|
    ensures c == 0 <==> forall t :: 0 <= t < |frames| ==> frames[t] != s
  {
    if |frames| == 0 then 0
    else Count(frames[..|frames| - 1], s) + (if frames[|frames| - 1] == s then 1 else 0)
  }

  predicate NonNegativeLabels(frames: seq<int>) {
    forall t :: 0 <= t < |frames| ==> 0 <= frames[t]
  }

  /** One more than the largest label, 0 without frames: the length of numpy.bincount's output. */
  function HistLength(frames: seq<int>): (m: nat)
    requires NonNegativeLabels(frames)
    ensures forall t :: 0 <= t < |frames| ==> frames[t] < m
    ensures |frames| > 0 ==> exists t :: 0 <= t < |frames| && frames[t] == m - 1
    ensures |frames| == 0 ==> m == 0
  {
    if |frames| == 0 then 0
    else
      var m' := HistLength(frames[..|frames| - 1]);
      var last := frames[|frames| - 1];
      if last + 1 > m' then last + 1 else m'
  }

  function Histogram(frames: seq<int>, m: nat): (h: seq<nat>)
    ensures |h| == m
    ensures forall s :: 0 <= s < m ==> h[s] <= |frames|
    ensures forall s :: 0 <= s < m ==> (h[s] == 0 <==> forall t :: 0 <= t < |frames| ==> frames[t] != s)
  {
    seq(m, s => Count(frames, s))
  }

  /** count_states: the histogram of labels over all frames, numpy.bincount's ValueError
      on a negative label. */
  function CountStates(dtrajs: seq<seq<int>>): (r: Result<seq<nat>>)
    ensures r.Ok? <==> NonNegativeLabels(Flatten(dtrajs))
    ensures r.Err? ==> r.error == NegativeLabel
    ensures r.Ok? ==> |r.value| == HistLength(Flatten(dtrajs))
  {
    var frames := Flatten(dtrajs);
    if NonNegativeLabels(frames) then Ok(Histogram(frames, HistLength(frames)))
    else Err(NegativeLabel)
  }

  /** Every frame is counted exactly once: a histogram long enough for every label sums
      to the number of frames. */
  lemma {:induction false} HistogramTotal(frames: seq<int>, m: nat)
    requires forall t :: 0 <= t < |frames| ==> 0 <= frames[t] < m
    ensures SumInt(Histogram(frames, m)) == |frames|
  {
    if |frames| == 0 {
      SumIntZeros(m);
    } else {
      var p := frames[..|frames| - 1];
      var l := frames[|frames| - 1];
      HistogramTotal(p, m);
      assert Histogram(frames, m) == Histogram(p, m)[l := Count(p, l) + 1];
      SumIntUpdate(Histogram(p, m), l, Count(p, l) + 1);
    }
  }

  lemma {:induction false} SumIntZeros(m: nat)
    ensures SumInt(Histogram([], m)) == 0
  {
    if m > 0 {
      assert Histogram([], m)[..m - 1] == Histogram([], m - 1);
      SumIntZeros(m - 1);
    }
  }

  /** active_count_fraction: `sum(hist[active_set]) / sum(hist)` with Python float
      division, a ZeroDivisionError when there are no frames. */
  function CountFraction(dtrajs: seq<seq<int>>, activeSet: seq<int>): (r: Result<real>)
    ensures r.Err? ==> r.error in {NegativeLabel, IndexOutOfRange, DivisionByZero}
  {
    match CountStates(dtrajs)
    case Err(e) => Err(e)
    case Ok(hist) =>
      match Take(hist, activeSet)
      case None => Err(IndexOutOfRange)
      case Some(active) =>
        if SumInt(hist) == 0 then Err(DivisionByZero)
        else Ok(SumInt(active) as real / SumInt(hist) as real)
  }

  /** The fraction is the share of frames whose label is an active state: the active
      states' frame counts over the number of all frames, which is positive. */
  lemma {:induction false} CountFractionIsActiveShare(dtrajs: seq<seq<int>>, activeSet: seq<int>)
    requires CountFraction(dtrajs, activeSet).Ok?
    ensures var frames := Flatten(dtrajs);
      var m := HistLength(frames);
      && AllIndexable(m, activeSet)
      && |frames| > 0
      && CountFraction(dtrajs, activeSet).value ==
           SumInt(seq(|activeSet|, i requires 0 <= i < |activeSet| => Count(frames, Wrap(m, activeSet[i])) as int))
             as real / |frames| as real
  {
    var frames := Flatten(dtrajs);
    var m := HistLength(frames);
    var hist := Histogram(frames, m);
    HistogramTotal(frames, m);
    var active := Take(hist, activeSet).value;
    assert active == seq(|activeSet|, i requires 0 <= i < |activeSet| => Count(frames, Wrap(m, activeSet[i])) as int);
  }

  /** With distinct active labels no frame is counted twice, so the fraction lies in [0, 1]. */
  lemma {:induction false} CountFractionInUnitInterval(dtrajs: seq<seq<int>>, activeSet: seq<int>)
    requires CountFraction(dtrajs, activeSet).Ok?
    requires DistinctSlots(HistLength(Flatten(dtrajs)), activeSet)
    ensures 0.0 <= CountFraction(dtrajs, activeSet).value <= 1.0
  {
    var frames := Flatten(dtrajs);
    var m := HistLength(frames);
    var hist := Histogram(frames, m);
    var active := Take(hist, activeSet).value;
    var pos := seq(|activeSet|, i requires 0 <= i < |activeSet| => Wrap(m, activeSet[i]));
    assert active == seq(|pos|, i requires 0 <= i < |pos| => hist[pos[i]]);
    SumAtDistinctBounded(hist, pos);
    SumIntNonNegative(active);
    FractionBounded(SumInt(active), SumInt(hist));
  }

  lemma FractionBounded(a: int, b: int)
    requires 0 <= a <= b && b != 0
    ensures 0.0 <= a as real / b as real <= 1.0
  {
    assert a as real / b as real + (b - a) as real / b as real == 1.0;
  }
}
