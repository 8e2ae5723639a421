/** EstimatedMSM: a Markov state model together with the bookkeeping that relates the full
    discrete state space of the trajectories to the active set the model is estimated on. */
module Estimators {
  import opened Wrappers
  import opened NumpyIndex
  import opened StateMap
  import opened Weights
  import opened StateCounts

  /** For each active state, the (trajectory index, time index) pairs of its frames. */
  type IndexTable = seq<seq<(nat, nat)>>

  /** The connected sets are ordered by size, largest first. */
  predicate SortedBySizeDescending(sets: seq<seq<int>>) {
    forall k :: 0 < k < |sets| ==> |sets[k]| <= |sets[k - 1]|
  }

  /** `connected_sets[0]`: an IndexError when there are no connected sets. */
  function FirstConnectedSet(sets: seq<seq<int>>): (r: Result<seq<int>>)
    ensures r.Ok? <==> |sets| > 0
    ensures r.Err? ==> r.error == IndexOutOfRange
    ensures r.Ok? ==> r.value in sets
  {
    if |sets| == 0 then Err(IndexOutOfRange) else Ok(sets[0])
  }

  /** When the connected sets come sorted by size, their first one is a largest one. */
  lemma {:induction false} FirstConnectedSetIsLargest(sets: seq<seq<int>>)
    requires SortedBySizeDescending(sets)
    ensures FirstConnectedSet(sets).Ok? ==>
      forall k :: 0 <= k < |sets| ==> |sets[k]| <= |FirstConnectedSet(sets).value|
  {
    if |sets| > 1 {
      var prefix := sets[..|sets| - 1];
      FirstConnectedSetIsLargest(prefix);
      assert prefix[0] == sets[0] && prefix[|sets| - 2] == sets[|sets| - 2];
      assert |sets[|sets| - 1]| <= |sets[|sets| - 2]| <= |sets[0]|;
    }
  }

  /** `float(nstates) / float(nstates_full)`: a ZeroDivisionError on an empty full space. */
  function StateFraction(nstates: nat, nstatesFull: nat): (r: Result<real>)
    ensures r.Ok? <==> nstatesFull > 0
    ensures r.Err? ==> r.error == DivisionByZero
    ensures r.Ok? ==> 0.0 <= r.value
    ensures r.Ok? && nstates <= nstatesFull ==> r.value <= 1.0
    ensures r.Ok? && nstates == nstatesFull ==> r.value == 1.0
  {
    if nstatesFull == 0 then Err(DivisionByZero)
    else
      FractionBounded(if nstates <= nstatesFull then nstates else 0, nstatesFull);
      Ok(nstates as real / nstatesFull as real)
  }

  /** Distinct active labels address distinct slots, so there are at most as many of
      them as there are full states. */
  lemma {:induction false} ActiveSetFits(n: nat, activeSet: seq<int>)
    requires AllIndexable(n, activeSet) && DistinctSlots(n, activeSet)
    ensures |activeSet| <= n
  {
    var ones := seq(n, _ => 1);
    var pos := seq(|activeSet|, i requires 0 <= i < |activeSet| => Wrap(n, activeSet[i]));
    Sums.SumAtDistinctBounded(ones, pos);
    OnesSum(|activeSet|);
    OnesSum(n);
    assert seq(|pos|, i requires 0 <= i < |pos| => ones[pos[i]]) == seq(|activeSet|, _ => 1);
  }

  lemma {:induction false} OnesSum(k: nat)
    ensures Sums.SumInt(seq(k, _ => 1)) == k
  {
    if k > 0 {
      assert seq(k, _ => 1)[..k - 1] == seq(k - 1, _ => 1);
      OnesSum(k - 1);
    }
  }

  class EstimatedMsm {
    const lag: int
    const dtTraj: string
    const connectivity: string
    const activeSet: seq<int>
    const dtrajsFull: seq<seq<int>>
    const countMatrixFull: seq<seq<int>>
    const countMatrixActive: seq<seq<int>>
    const connectedSets: seq<seq<int>>
    /** Number of states of the transition matrix (from the MSM base class). */
    const nstates: nat
    /** Stationary distribution of the transition matrix (from the MSM base class). */
    const stationaryDistribution: seq<real>
    /** index_states of the discrete-trajectory utilities, whose code is not modelled. */
    const indexStates: (seq<seq<int>>, seq<int>) -> Result<IndexTable>
    const nstatesFull: nat
    const full2active: array<int>

    var isEstimated: bool
    /** The attribute discrete_trajectories_active fills on every access. */
    var dtrajsActive: seq<seq<int>>
    /** The cache of active_state_indexes; None until a first successful access. */
    var activeStateIndexes: Option<IndexTable>
    /** How many times index_states has produced the cached table. */
    ghost var tableComputations: nat

    ghost predicate Valid()
      reads this, full2active
    {
      && full2active.Length == nstatesFull
      && AllIndexable(nstatesFull, activeSet)
      && full2active[..] == Full2Active(nstatesFull, activeSet)
      && (activeStateIndexes.Some? ==> indexStates(dtrajsFull, activeSet) == Ok(activeStateIndexes.value))
      && tableComputations == (if activeStateIndexes.Some? then 1 else 0)
    }

    /** The constructor: an IndexError when an active-set label is no index of the full
        state space, otherwise a model whose full-to-active map inverts the active set. */
    static method Create(dtrajs: seq<seq<int>>, dtTraj: string, lag: int, connectivity: string,
                         activeSet: seq<int>, connectedSets: seq<seq<int>>,
                         countMatrixFull: seq<seq<int>>, countMatrixActive: seq<seq<int>>,
                         transitionMatrix: seq<seq<real>>, stationaryDistribution: seq<real>,
                         indexStates: (seq<seq<int>>, seq<int>) -> Result<IndexTable>)
      returns (r: Result<EstimatedMsm>)
      ensures r.Err? <==> !AllIndexable(|countMatrixFull|, activeSet)
      ensures r.Err? ==> r.error == IndexOutOfRange
      ensures r.Ok? ==> fresh(r.value) && fresh(r.value.full2active)
      ensures r.Ok? ==> r.value.Valid() && r.value.isEstimated
      ensures r.Ok? ==> r.value.nstatesFull == |countMatrixFull| && r.value.activeSet == activeSet
      ensures r.Ok? ==> r.value.dtrajsFull == dtrajs && r.value.connectedSets == connectedSets
      ensures r.Ok? ==> r.value.nstates == |transitionMatrix| && r.value.lag == lag
      ensures r.Ok? ==> r.value.dtTraj == dtTraj && r.value.connectivity == connectivity
      ensures r.Ok? ==> r.value.countMatrixFull == countMatrixFull && r.value.countMatrixActive == countMatrixActive
      ensures r.Ok? ==> r.value.stationaryDistribution == stationaryDistribution && r.value.indexStates == indexStates
      ensures r.Ok? ==> r.value.activeStateIndexes == None && r.value.dtrajsActive == []
      ensures r.Ok? ==> r.value.CheckIsEstimated() == Ok(())
      ensures r.Ok? ==> r.value.LargestConnectedSet() == FirstConnectedSet(connectedSets)
      ensures r.Ok? ==> r.value.ActiveStateFraction() == StateFraction(|transitionMatrix|, |countMatrixFull|)
      ensures r.Ok? ==> r.value.ActiveCountFraction() == CountFraction(dtrajs, activeSet)
    {
      if !AllIndexable(|countMatrixFull|, activeSet) {
        return Err(IndexOutOfRange);
      }
      var m := new EstimatedMsm(dtrajs, dtTraj, lag, connectivity, activeSet, connectedSets,
                                countMatrixFull, countMatrixActive, transitionMatrix,
                                stationaryDistribution, indexStates);
      return Ok(m);
    }

    constructor (dtrajs: seq<seq<int>>, dtTraj: string, lag: int, connectivity: string,
                 activeSet: seq<int>, connectedSets: seq<seq<int>>,
                 countMatrixFull: seq<seq<int>>, countMatrixActive: seq<seq<int>>,
                 transitionMatrix: seq<seq<real>>, stationaryDistribution: seq<real>,
                 indexStates: (seq<seq<int>>, seq<int>) -> Result<IndexTable>)
      requires AllIndexable(|countMatrixFull|, activeSet)
      ensures Valid() && isEstimated && fresh(full2active)
      ensures nstatesFull == |countMatrixFull| && nstates == |transitionMatrix|
      ensures this.activeSet == activeSet && dtrajsFull == dtrajs && this.connectedSets == connectedSets
      ensures this.lag == lag && this.dtTraj == dtTraj && this.connectivity == connectivity
      ensures this.countMatrixFull == countMatrixFull && this.countMatrixActive == countMatrixActive
      ensures this.stationaryDistribution == stationaryDistribution && this.indexStates == indexStates
      ensures activeStateIndexes == None && dtrajsActive == []
    {
      var n := |countMatrixFull|;
      var f := BuildFull2Active(n, activeSet);
      this.lag := lag;
      this.dtTraj := dtTraj;
      this.connectivity := connectivity;
      this.activeSet := activeSet;
      this.dtrajsFull := dtrajs;
      this.countMatrixFull := countMatrixFull;
      this.countMatrixActive := countMatrixActive;
      this.connectedSets := connectedSets;
      this.nstates := |transitionMatrix|;
      this.stationaryDistribution := stationaryDistribution;
      this.indexStates := indexStates;
      this.nstatesFull := n;
      this.full2active := f;
      this.isEstimated := true;
      this.dtrajsActive := [];
      this.activeStateIndexes := None;
      this.tableComputations := 0;
    }

    /** _check_is_estimated: an AssertionError unless the model is estimated. */
    function CheckIsEstimated(): (r: Result<()>)
      reads this
      ensures r.Ok? <==> isEstimated
      ensures r.Err? ==> r.error == NotEstimated
    {
      if isEstimated then Ok(()) else Err(NotEstimated)
    }

    /** largest_connected_set */
    function LargestConnectedSet(): (r: Result<seq<int>>)
      reads this
      ensures isEstimated ==> r == FirstConnectedSet(connectedSets)
      ensures !isEstimated ==> r == Err(NotEstimated)
    {
      if !isEstimated then Err(NotEstimated) else FirstConnectedSet(connectedSets)
    }

    /** active_state_fraction */
    function ActiveStateFraction(): (r: Result<real>)
      reads this
      ensures isEstimated ==> r == StateFraction(nstates, nstatesFull)
      ensures !isEstimated ==> r == Err(NotEstimated)
    {
      if !isEstimated then Err(NotEstimated) else StateFraction(nstates, nstatesFull)
    }

    /** active_count_fraction */
    function ActiveCountFraction(): (r: Result<real>)
      reads this
      ensures isEstimated ==> r == CountFraction(dtrajsFull, activeSet)
      ensures !isEstimated ==> r == Err(NotEstimated)
    {
      if !isEstimated then Err(NotEstimated) else CountFraction(dtrajsFull, activeSet)
    }

    /** discrete_trajectories_active: maps every full trajectory through full2active,
        appending to the attribute as it goes; an IndexError leaves the arrays mapped so
        far in the attribute. */
    method DiscreteTrajectoriesActive() returns (r: Result<seq<seq<int>>>)
      requires Valid()
      modifies this`dtrajsActive
      ensures Valid()
      ensures !isEstimated ==> r == Err(NotEstimated) && dtrajsActive == old(dtrajsActive)
      ensures isEstimated ==> r == MapTrajectories(Full2Active(nstatesFull, activeSet), dtrajsFull)
      ensures isEstimated ==> dtrajsActive == MappedPrefix(Full2Active(nstatesFull, activeSet), dtrajsFull)
    {
      if !isEstimated {
        return Err(NotEstimated);
      }
      var f := full2active[..];
      assert f == Full2Active(nstatesFull, activeSet);
      dtrajsActive := [];
      var i := 0;
      while i < |dtrajsFull|
        invariant 0 <= i <= |dtrajsFull|
        invariant |dtrajsActive| == i
        invariant forall k :: 0 <= k < i ==> Take(f, dtrajsFull[k]) == Some(dtrajsActive[k])
      {
        var a := Take(f, dtrajsFull[i]);
        if a.None? {
          MappedPrefixUnique(f, dtrajsFull, dtrajsActive);
          return Err(IndexOutOfRange);
        }
        dtrajsActive := dtrajsActive + [a.value];
        i := i + 1;
      }
      MappedPrefixUnique(f, dtrajsFull, dtrajsActive);
      return Ok(dtrajsActive);
    }

    /** trajectory_weights, as written: the lifted stationary weights of every frame, each
        array divided in place by the total the loop accumulates. */
    method TrajectoryWeights() returns (r: Result<seq<array<real>>>)
      requires Valid()
      ensures var expected := match StatdistFull(nstatesFull, activeSet, stationaryDistribution)
                                case Err(e) => Err(e)
                                case Ok(sd) => WeightsAsWritten(sd, dtrajsFull);
        && (!isEstimated ==> r == Err(NotEstimated))
        && (isEstimated ==> (r.Ok? <==> expected.Ok?))
        && (isEstimated && r.Err? ==> r.error == expected.error)
        && (isEstimated && r.Ok? ==> |r.value| == |expected.value|)
        && (isEstimated && r.Ok? ==> forall k :: 0 <= k < |r.value| ==> fresh(r.value[k]) && r.value[k][..] == expected.value[k])
        && (isEstimated && r.Ok? ==> forall k, k' :: 0 <= k < k' < |r.value| ==> r.value[k] != r.value[k'])
    {
      if !isEstimated {
        return Err(NotEstimated);
      }
      var lifted := StatdistFull(nstatesFull, activeSet, stationaryDistribution);
      if lifted.Err? {
        return Err(lifted.error);
      }
      var sd := lifted.value;
      var ws, total := ReadOffWeights(sd, dtrajsFull);
      if ws.Err? {
        return Err(ws.error);
      }
      if total == 0.0 && HasFrames(dtrajsFull) {
        return Err(NonFiniteWeights);
      }
      // With a zero total there is no frame, and dividing the empty arrays changes nothing.
      if total != 0.0 {
        DivideAllInPlace(ws.value, total);
      }
      return Ok(ws.value);
    }

    /** active_state_indexes: the table is computed by index_states on the first
        successful access and returned from the cache, unchanged, on every later one. */
    method ActiveStateIndexes() returns (r: Result<IndexTable>)
      requires Valid()
      modifies this`activeStateIndexes, this`tableComputations
      ensures Valid()
      ensures !isEstimated ==> r == Err(NotEstimated) && activeStateIndexes == old(activeStateIndexes)
      ensures isEstimated ==> r == indexStates(dtrajsFull, activeSet)
      ensures isEstimated && r.Ok? ==> activeStateIndexes == Some(r.value)
      ensures r.Err? ==> activeStateIndexes == old(activeStateIndexes) == None || !isEstimated
      ensures old(activeStateIndexes).Some? ==> activeStateIndexes == old(activeStateIndexes)
      ensures isEstimated && old(activeStateIndexes).Some? ==> r == Ok(old(activeStateIndexes).value)
      ensures tableComputations == old(tableComputations) + (if old(activeStateIndexes).None? && activeStateIndexes.Some? then 1 else 0)
    {
      if !isEstimated {
        return Err(NotEstimated);
      }
      if activeStateIndexes.Some? {
        return Ok(activeStateIndexes.value);
      }
      r := indexStates(dtrajsFull, activeSet);
      if r.Ok? {
        activeStateIndexes := Some(r.value);
        tableComputations := tableComputations + 1;
      }
    }
  }

  /** When the transition matrix has one state per active label and the labels are
      distinct, the active states are a share of the full states: the fraction is in [0, 1]. */
  lemma ActiveStateFractionInUnitInterval(m: EstimatedMsm)
    requires m.isEstimated && m.nstatesFull > 0
    requires AllIndexable(m.nstatesFull, m.activeSet) && DistinctSlots(m.nstatesFull, m.activeSet)
    requires m.nstates == |m.activeSet|
    ensures m.ActiveStateFraction().Ok?
    ensures 0.0 <= m.ActiveStateFraction().value <= 1.0
  {
    ActiveSetFits(m.nstatesFull, m.activeSet);
  }
}
