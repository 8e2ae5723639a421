# EstimatedMSM bookkeeping: full state space versus active set

This project models the post-estimation bookkeeping of PyEMMA's `EstimatedMSM`
(`pyemma/msm/estimators/estimated_msm.py`). It covers the part that relates the full
discrete state space of the input trajectories to the reduced active set on which the
Markov model is estimated:

- the constructor builds the full→active map with numpy fancy assignment and switches on the "estimated" flag;
- `discrete_trajectories_active` maps every full trajectory through that map;
- `trajectory_weights` lifts the stationary distribution to the full space, reads off one weight per frame and normalises in place;
- `active_state_indexes` computes the per-state index table once and caches it;
- `largest_connected_set`, `active_state_fraction` and `active_count_fraction` are derived quantities, each behind the `_check_is_estimated` guard.

Files and modules:

- `wrappers.dfy` (`Wrappers`): `Option`, `Result` and one `Error` constructor per failure of the Python code (IndexError, the ValueError of a shape numpy cannot broadcast or sum, bincount's ValueError, ZeroDivisionError, AssertionError), plus the nan/inf outcome of a numpy division by zero.
- `numpy_index.dfy` (`NumpyIndex`): numpy integer-array indexing. An index `l` into a length-`n` array is valid when `-n <= l < n`, and a negative index counts from the end. `a[idx]` is all or nothing. `a[idx] = vals` is taken to keep the last value written to a slot (see Left out).
- `sums.dfy` (`Sums`): `numpy.sum` over integer and real sequences and the facts about it that the proofs use.
- `state_map.dfy` (`StateMap`): the full→active map and the active trajectories.
- `weights.dfy` (`Weights`): the trajectory weights as written, the documented normalisation, and the in-place division.
- `state_counts.dfy` (`StateCounts`): the state histogram and `active_count_fraction`.
- `estimated_msm.dfy` (`Estimators`): the `EstimatedMsm` class. It holds the constructor arguments as constant fields, `full2active` as an `array<int>`, and three mutable attributes: the estimated flag, the active-trajectory list and the index-table cache.

The model keeps these behaviours of the code:

- a zero weight total gives nan/inf arrays as soon as some frame is divided by it, and with no frames the empty arrays come back unchanged;
- with several trajectories of equal length and non-negative weights, the weights sum to less than one whenever the first trajectory carries weight (see Findings);
- trajectories of different lengths make `np.sum(W)` raise ValueError, so `trajectory_weights` returns no weights for them;
- an active label out of range raises numpy's IndexError, and a negative label wraps around;
- the active set is not checked to be increasing or free of repeats.

## Model

| member | source | states |
|---|---|---|
| `NumpyIndex.Take` | pyemma/msm/estimators/estimated_msm.py:333 | `a[idx]` (also at lines 191 and 272): the values at the addressed slots, negative indices counting from the end, or IndexError exactly when some index is out of range |
| `NumpyIndex.LastHit` | pyemma/msm/estimators/estimated_msm.py:102 | the slot a repeated fancy-assignment index ends up with: the last position whose label addresses it, and -1 exactly when no label does |
| `NumpyIndex.FancyAssign` | pyemma/msm/estimators/estimated_msm.py:101-102 | `base[idx] = vals`: a slot written by a position no later index overwrites holds that value; a slot no index addresses keeps its base value; the length is unchanged |
| `NumpyIndex.FancyAssignExtend` | pyemma/msm/estimators/estimated_msm.py:102 | scattering one more label is one single-slot update of the previous scatter, which is what makes the scatter expressible as a loop |
| `StateMap.BuildFull2Active` | pyemma/msm/estimators/estimated_msm.py:101-102 | the array filled with -1 and then scattered label by label equals the full→active map |
| `StateMap.Full2Active` | pyemma/msm/estimators/estimated_msm.py:99-102 | the full→active map has one entry per full state (`nstates_full` entries) |
| `StateMap.Full2ActiveInverse` | pyemma/msm/estimators/estimated_msm.py:99-102 | for distinct labels `full2active[active_set[i]] == i`; every entry lies in [-1, len(active_set)); a non-negative entry points back to a label of its slot; -1 marks exactly the labels outside the active set |
| `StateMap.MappedPrefix` | pyemma/msm/estimators/estimated_msm.py:189-191 | the arrays the loop has appended: each is `full2active[dtraj]` of the trajectory at its position, and the list stops only at a trajectory that raises IndexError |
| `StateMap.MappedPrefixUnique` | pyemma/msm/estimators/estimated_msm.py:189-191 | any list that maps the trajectories in order and stops exactly at the first failing one is that prefix |
| `StateMap.MapTrajectories` | pyemma/msm/estimators/estimated_msm.py:189-193 | on success one array per trajectory, each `full2active[dtraj]` of the trajectory at its position; the only failure is IndexError |
| `StateMap.ActiveTrajectories` | pyemma/msm/estimators/estimated_msm.py:180-193 | one array per full trajectory, same order and length; frame t is the active position of its label, -1 exactly when the label is outside the active set; IndexError exactly when some label is not a valid index |
| `Weights.Broadcast` | pyemma/msm/estimators/estimated_msm.py:328 | the stationary vector fills the active slots when its length matches, is broadcast when it has one element, and otherwise raises ValueError |
| `Weights.StatdistFull` | pyemma/msm/estimators/estimated_msm.py:327-328 | the lifted distribution has one entry per full state, or fails with the broadcast ValueError |
| `Weights.StatdistFullAt` | pyemma/msm/estimators/estimated_msm.py:327-328 | full state j carries `pi[full2active[j]]` when it is active and 0 otherwise |
| `Weights.RawWeights` | pyemma/msm/estimators/estimated_msm.py:332-333 | `statdist_full[dtraj]` for every trajectory, or IndexError exactly when some label is not a valid index |
| `Weights.LoopTotal` | pyemma/msm/estimators/estimated_msm.py:331-335 | `wtot` after the loop: after each append it adds the total of every array collected so far; with one trajectory it is that trajectory's total |
| `Weights.LoopFailure` | pyemma/msm/estimators/estimated_msm.py:332-335 | the error the loop stops with: that of the first trajectory whose labels are not all indexes (IndexError, checked first) or whose length differs from the first one's (ValueError at `np.sum(W)`); None exactly when every trajectory gets through |
| `Weights.NoLoopFailure` | pyemma/msm/estimators/estimated_msm.py:332-335 | the loop gets through exactly when every label is an index and all trajectories have the same length |
| `Weights.FailsAtFirst` | pyemma/msm/estimators/estimated_msm.py:332-335 | when trajectory i is the first that does not get through, the loop stops with its error |
| `Weights.NormalizeAll` | pyemma/msm/estimators/estimated_msm.py:337-338 | every array divided by the total, element by element, one array per trajectory |
| `Weights.WeightsAsWritten` | pyemma/msm/estimators/estimated_msm.py:327-340 | the weights as the code computes them: one array per trajectory on success; the only failures are IndexError, the ValueError of `np.sum` on trajectories of different lengths, and the non-finite result of a zero total, which needs some frame to divide |
| `Weights.WeightsShape` | pyemma/msm/estimators/estimated_msm.py:330-338 | the result has one array per trajectory, each as long as its trajectory; frame t's weight is the lifted stationary weight of its label over a nonzero loop total; an exception happens exactly when some label is no index or the lengths differ, IndexError when only the labels fail and ValueError when only the lengths do; nan/inf happens exactly when the loop gets through, the loop total is 0 and some frame exists |
| `Weights.EmptyTrajectoriesReturned` | pyemma/msm/estimators/estimated_msm.py:330-340 | with no trajectories the empty list comes back, and with one empty trajectory one empty array, since no division touches a frame |
| `Weights.SingleTrajectoryNormalized` | pyemma/msm/estimators/estimated_msm.py:330-338 | with one trajectory whose raw weights do not sum to zero, the returned weights sum to 1 |
| `Weights.SeveralTrajectoriesFallShort` | pyemma/msm/estimators/estimated_msm.py:335 | with two or more trajectories of equal length, non-negative stationary weights and a positive first trajectory, the returned weights sum to strictly between 0 and 1 |
| `Weights.TwoTrajectoriesCounterexample` | pyemma/msm/estimators/estimated_msm.py:335 | two one-frame trajectories in one state of probability 1 get weights 1/3 and 1/3 |
| `Weights.RaggedTrajectoriesRaise` | pyemma/msm/estimators/estimated_msm.py:335 | trajectories `[0, 0]` and `[0]` make `np.sum(W)` raise ValueError |
| `Weights.IntendedWeightsNormalized` | pyemma/msm/estimators/estimated_msm.py:292-296 | divided by the grand total, the weights of any number of trajectories sum to 1 |
| `Weights.WeightsIntended` | pyemma/msm/estimators/estimated_msm.py:292-296 | the corrected weights: one array per trajectory on success; the only failures are IndexError and the non-finite result of a zero total, which needs some frame to divide |
| `Weights.ReadOffWeights` | pyemma/msm/estimators/estimated_msm.py:330-335 | the loop appends a fresh, distinct array per trajectory holding its raw weights, and its total is the loop total; it stops with exactly the error of the first trajectory that does not get through |
| `Weights.DivideAllInPlace` | pyemma/msm/estimators/estimated_msm.py:337-338 | every array of the list is divided by the total in place |
| `Weights.DivideInPlace` | pyemma/msm/estimators/estimated_msm.py:338 | `w /= wtot`: every element divided, in place |
| `StateCounts.Count` | pyemma/msm/estimators/estimated_msm.py:271 | the number of frames with label s is at most the number of frames, and 0 exactly when no frame carries s |
| `StateCounts.HistLength` | pyemma/msm/estimators/estimated_msm.py:271 | bincount's length: larger than every label, one more than the largest label, 0 without frames |
| `StateCounts.Histogram` | pyemma/msm/estimators/estimated_msm.py:271 | one count per state, none above the number of frames, and an empty bin exactly for a state no frame carries |
| `StateCounts.CountStates` | pyemma/msm/estimators/estimated_msm.py:271 | the state histogram, one more bin than the largest label, on success; bincount's ValueError exactly when some frame has a negative label |
| `StateCounts.HistogramTotal` | pyemma/msm/estimators/estimated_msm.py:271-273 | the histogram sums to the number of frames, so `sum(hist)` counts every frame once |
| `StateCounts.CountFraction` | pyemma/msm/estimators/estimated_msm.py:269-273 | fails only with bincount's ValueError, IndexError on an active label outside the histogram, or ZeroDivisionError |
| `StateCounts.CountFractionIsActiveShare` | pyemma/msm/estimators/estimated_msm.py:269-273 | the fraction is the active states' frame counts over the number of frames, which is positive |
| `StateCounts.CountFractionInUnitInterval` | pyemma/msm/estimators/estimated_msm.py:269-273 | with distinct active labels the fraction lies in [0, 1] |
| `Estimators.FirstConnectedSet` | pyemma/msm/estimators/estimated_msm.py:157 | `connected_sets[0]`: one of the connected sets, or IndexError exactly when there are none |
| `Estimators.FirstConnectedSetIsLargest` | pyemma/msm/estimators/estimated_msm.py:150-166 | when the connected sets are sorted by size (descending), the first one is at least as large as every other |
| `Estimators.StateFraction` | pyemma/msm/estimators/estimated_msm.py:261 | ZeroDivisionError exactly on an empty full space; otherwise non-negative, at most 1 when there are no more states than full states, and 1 when they are equal |
| `Estimators.ActiveSetFits` | pyemma/msm/estimators/estimated_msm.py:101-102 | distinct active labels are no more numerous than the full states |
| `Estimators.ActiveStateFractionInUnitInterval` | pyemma/msm/estimators/estimated_msm.py:255-261 | with one model state per distinct active label, the active state fraction lies in [0, 1] |
| `Estimators.EstimatedMsm.Create` | pyemma/msm/estimators/estimated_msm.py:35-105 | construction fails with IndexError exactly when an active label is not a valid index of the full space; otherwise every field holds its constructor argument, `full2active` is the map the scatter defines, the cache and the active-trajectory list are empty, and the guard passes, so `largest_connected_set`, `active_state_fraction` and `active_count_fraction` are the values computed from the caller's arguments |
| `Estimators.EstimatedMsm.constructor` | pyemma/msm/estimators/estimated_msm.py:99-105 | `nstates_full` is the row count of the full count matrix; `full2active` has that length and equals the map the scatter defines; the model is estimated |
| `Estimators.EstimatedMsm.CheckIsEstimated` | pyemma/msm/estimators/estimated_msm.py:107-108 | the guard passes exactly when the model is estimated, and otherwise fails with AssertionError |
| `Estimators.EstimatedMsm.LargestConnectedSet` | pyemma/msm/estimators/estimated_msm.py:150-157 | `connected_sets[0]` behind the guard |
| `Estimators.EstimatedMsm.ActiveStateFraction` | pyemma/msm/estimators/estimated_msm.py:255-261 | the state fraction behind the guard |
| `Estimators.EstimatedMsm.ActiveCountFraction` | pyemma/msm/estimators/estimated_msm.py:263-273 | the count fraction of the full trajectories behind the guard |
| `Estimators.EstimatedMsm.DiscreteTrajectoriesActive` | pyemma/msm/estimators/estimated_msm.py:178-193 | returns the mapped trajectories or IndexError, and leaves in the attribute the arrays appended before the error; nothing else changes |
| `Estimators.EstimatedMsm.TrajectoryWeights` | pyemma/msm/estimators/estimated_msm.py:279-340 | returns fresh, pairwise distinct arrays whose contents are the as-written weights, or the same error |
| `Estimators.EstimatedMsm.ActiveStateIndexes` | pyemma/msm/estimators/estimated_msm.py:346-358 | returns the table index_states gives; the first successful access fills the cache and later ones return it unchanged; the table is computed once: the computation count rises by one exactly when the access fills the cache; a failure leaves the cache empty |

## Findings

| source | as written | input that shows it | evidently intended | confidence | as-written member | corrected member |
|---|---|---|---|---|---|---|
| pyemma/msm/estimators/estimated_msm.py:335 | `wtot += np.sum(W)` adds the total of every array collected so far, so `wtot` is the sum of all prefix totals | two one-frame trajectories `[0]`, `[0]` with `pi = [1.0]`: weights 1/3 and 1/3, which sum to 2/3 (trajectories of different lengths raise instead) | `wtot += np.sum(w)`, so that the weights sum to 1 as documented at lines 292-296 | high, not executed | `Weights.TwoTrajectoriesCounterexample` (and `Weights.SeveralTrajectoriesFallShort`) | `Weights.IntendedWeightsNormalized` |

`Estimators.EstimatedMsm.TrajectoryWeights` deliberately returns the weights as written (`Weights.WeightsAsWritten`). `Weights.WeightsIntended` is the corrected computation, and it is proved to sum to one for any number of trajectories whenever the raw weights do not sum to zero.

## Left out

- `MSM.__init__` and `TimeUnit(dt_traj).get_scaled(lag)` (line 86): the transition matrix, its stationary distribution and the time unit belong to the base class and to unit parsing. The transition matrix and the stationary distribution are constructor inputs, and `dt_traj` is stored as a string.
- The deep copies (lines 88-96): the model holds the arguments as immutable values, so no caller can alias them.
- The plain getters `lagtime`, `nstates_full`, `active_set`, `connectivity`, `connected_sets`, `discrete_trajectories_full`, `count_matrix_active` and `count_matrix_full` return constructor arguments, or for `nstates_full` the row count of `C_full`; six of them sit behind the `_check_is_estimated` guard, which always passes after construction. They are the constant fields of the class.
- The `active_set` setter (lines 137-139): after construction the active set is constant. Changing it would leave `full2active` stale, and the model does not allow that.
- `effective_count_matrix`, `generate_traj`, `sample_by_state`, `sample_by_distributions`, `hmm` and `coarse_grain`: they call estimators, random generators and trajectory utilities that are not part of this model.
- `index_states` (pyemma/util/discrete_trajectories.py) is not part of this model. It is a function-valued constructor argument, so a failure it raises is a `Result` error.
- `count_states` (pyemma/util/discrete_trajectories.py) is not part of this model. It is taken to be the `numpy.bincount` histogram over all frames: its length is one more than the largest label, and a negative label raises ValueError.
- `np.sum(W)` at line 335 on a list of arrays of different lengths: numpy 1.24 and later refuse the ragged list with ValueError at the first trajectory whose length differs, and the model raises that error there. Older numpy can sum the arrays as objects and fail only later, with a broadcast ValueError or at `w /= wtot` (line 338). So with older numpy an IndexError of a later trajectory can surface first; the model does not capture that timing.
- Floating point: weights and fractions are exact reals. A numpy division of at least one frame by a zero total gives nan/inf, and the model reports it as the `NonFiniteWeights` outcome.
- Repeated active labels: numpy does not specify which of several values assigned to the same slot by `a[idx] = vals` is kept, so with repeated labels in the active set the position `full2active` keeps (lines 101-102) and the stationary weight `statdist_full` keeps (line 328) are unspecified; the model takes the last one, as numpy's implementation does.
- A single ndarray passed in place of a list of trajectories: the model takes a list of trajectories.
- The `_dtrajs_active` attribute only exists after its first access; the model starts it as an empty list.
- Python's `assert` in `_check_is_estimated` can be disabled with `-O`; the model always checks it.
- The Bayesian ensemble statistics (sample mean, standard deviation, confidence bounds) live in code that is not part of this model.
