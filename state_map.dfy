/** The map from full-space state labels to active-set positions that EstimatedMSM builds
    in its constructor, and the active trajectories it derives from it. */
module StateMap {
  import opened Wrappers
  import opened NumpyIndex

  /** 0, 1, ..., k - 1 */
  function Range(k: nat): (r: seq<int>)
    ensures |r| == k && forall i :: 0 <= i < k ==> r[i] == i
  {
    seq(k, i => i)
  }

  /** `full2active = -1 * ones(n); full2active[active_set] = range(len(active_set))`. */
  function Full2Active(n: nat, activeSet: seq<int>): (f: seq<int>)
    requires AllIndexable(n, activeSet)
    ensures |f| == n
  {
    FancyAssign(seq(n, _ => -1), activeSet, Range(|activeSet|))
  }

  /** The constructor's `full2active`: a new array of -1, then label activeSet[i] set to i,
      one label after the other. */
  method BuildFull2Active(n: nat, activeSet: seq<int>) returns (f: array<int>)
    requires AllIndexable(n, activeSet)
    ensures fresh(f) && f[..] == Full2Active(n, activeSet)
  {
    f := new int[n](_ => -1);
    var i := 0;
    while i < |activeSet|
      invariant 0 <= i <= |activeSet|
      invariant f[..] == Scattered(n, activeSet, i)
    {
      ScatterStep(n, activeSet, i);
      f[Wrap(n, activeSet[i])] := i;
      i := i + 1;
    }
    assert activeSet[..i] == activeSet;
  }

  /** The map after the first k labels of the active set have been scattered. */
  function Scattered(n: nat, activeSet: seq<int>, k: nat): (f: seq<int>)
    requires AllIndexable(n, activeSet) && k <= |activeSet|
    ensures |f| == n
  {
    assert AllIndexable(n, activeSet[..k]);
    FancyAssign(seq(n, _ => -1), activeSet[..k], Range(k))
  }

  /** Scattering label k + 1 updates one slot of the map scattered so far. */
  lemma ScatterStep(n: nat, activeSet: seq<int>, k: nat)
    requires AllIndexable(n, activeSet) && k < |activeSet|
    ensures Scattered(n, activeSet, k + 1) == Scattered(n, activeSet, k)[Wrap(n, activeSet[k]) := k]
  {
    FancyAssignExtend(seq(n, _ => -1), activeSet[..k], Range(k), activeSet[k], k);
    assert activeSet[..k + 1] == activeSet[..k] + [activeSet[k]];
    assert Range(k + 1) == Range(k) + [k];
  }

  /** Slot j of the map holds the last active-set position whose label addresses j, and -1
      exactly when no active-set label addresses it. */
  lemma Full2ActiveAt(n: nat, activeSet: seq<int>, j: nat)
    requires AllIndexable(n, activeSet) && j < n
    ensures Full2Active(n, activeSet)[j] == LastHit(n, activeSet, j)
  {
  }

  /** The map inverts the active set: for distinct labels, label activeSet[i] maps to i;
      every non-negative entry points back to a label that addresses its slot; and -1
      marks exactly the labels outside the active set. */
  lemma Full2ActiveInverse(n: nat, activeSet: seq<int>)
    requires AllIndexable(n, activeSet)
    ensures var f := Full2Active(n, activeSet);
      && (DistinctSlots(n, activeSet) ==>
            forall i :: 0 <= i < |activeSet| ==> f[Wrap(n, activeSet[i])] == i)
      && (forall j :: 0 <= j < n ==> -1 <= f[j] < |activeSet|)
      && (forall j :: 0 <= j < n && f[j] >= 0 ==> Wrap(n, activeSet[f[j]]) == j)
      && (forall j :: 0 <= j < n ==>
            (f[j] == -1 <==> forall i :: 0 <= i < |activeSet| ==> Wrap(n, activeSet[i]) != j))
  {
    var f := Full2Active(n, activeSet);
    forall j | 0 <= j < n
      ensures f[j] == LastHit(n, activeSet, j)
    {
      Full2ActiveAt(n, activeSet, j);
    }
  }

  /** The arrays the loop of discrete_trajectories_active has appended when it stops:
      one per trajectory, up to the first trajectory holding a label that is no index of f. */
  function MappedPrefix(f: seq<int>, dtrajs: seq<seq<int>>): (p: seq<seq<int>>)
    ensures |p| <= |dtrajs|
    ensures forall k :: 0 <= k < |p| ==> Take(f, dtrajs[k]) == Some(p[k])
    ensures |p| < |dtrajs| ==> Take(f, dtrajs[|p|]).None?
  {
    if |dtrajs| == 0 then []
    else match Take(f, dtrajs[0])
      case None => []
      case Some(a) => [a] + MappedPrefix(f, dtrajs[1..])
  }

  /** MappedPrefix is the only list of arrays that maps each trajectory in order and stops
      exactly at the first trajectory f cannot index. */
  lemma {:induction false} MappedPrefixUnique(f: seq<int>, dtrajs: seq<seq<int>>, p: seq<seq<int>>)
    requires |p| <= |dtrajs|
    requires forall k :: 0 <= k < |p| ==> Take(f, dtrajs[k]) == Some(p[k])
    requires |p| < |dtrajs| ==> Take(f, dtrajs[|p|]).None?
    ensures p == MappedPrefix(f, dtrajs)
  {
    if |dtrajs| > 0 && |p| > 0 {
      MappedPrefixUnique(f, dtrajs[1..], p[1..]);
    }
  }

  /** discrete_trajectories_active: every full trajectory mapped through f, or the
      IndexError of the first trajectory that holds a label f cannot index. */
  function MapTrajectories(f: seq<int>, dtrajs: seq<seq<int>>): (r: Result<seq<seq<int>>>)
    ensures r.Err? ==> r.error == IndexOutOfRange
    ensures r.Ok? ==> |r.value| == |dtrajs|
    ensures r.Ok? ==> forall k :: 0 <= k < |dtrajs| ==> Take(f, dtrajs[k]) == Some(r.value[k])
  {
    var p := MappedPrefix(f, dtrajs);
    if |p| == |dtrajs| then Ok(p) else Err(IndexOutOfRange)
  }

  /** Labels a full-to-active map of length n accepts in every trajectory. */
  predicate LabelsIndexable(n: nat, dtrajs: seq<seq<int>>) {
    forall k :: 0 <= k < |dtrajs| ==> AllIndexable(n, dtrajs[k])
  }

  /** The active trajectories: one per full trajectory, same order and length; frame t is
      the active position of its label, -1 exactly when the label is outside the active
      set; and an IndexError exactly when some label is no index of the map. */
  lemma {:induction false} ActiveTrajectories(n: nat, activeSet: seq<int>, dtrajs: seq<seq<int>>)
    requires AllIndexable(n, activeSet)
    ensures var r := MapTrajectories(Full2Active(n, activeSet), dtrajs);
      && (r.Ok? <==> LabelsIndexable(n, dtrajs))
      && (r.Err? ==> r.error == IndexOutOfRange)
      && (r.Ok? ==> |r.value| == |dtrajs|)
      && (r.Ok? ==> forall k :: 0 <= k < |dtrajs| ==> |r.value[k]| == |dtrajs[k]|)
      && (r.Ok? ==> forall k, t :: 0 <= k < |dtrajs| && 0 <= t < |dtrajs[k]| ==>
            var s := Wrap(n, dtrajs[k][t]);
            && r.value[k][t] == LastHit(n, activeSet, s)
            && (r.value[k][t] == -1 <==> forall i :: 0 <= i < |activeSet| ==> Wrap(n, activeSet[i]) != s)
            && (r.value[k][t] >= 0 ==> Wrap(n, activeSet[r.value[k][t]]) == s))
  {
    var f := Full2Active(n, activeSet);
    var p := MappedPrefix(f, dtrajs);
    if |p| == |dtrajs| {
      forall k, t | 0 <= k < |dtrajs| && 0 <= t < |dtrajs[k]|
        ensures p[k][t] == LastHit(n, activeSet, Wrap(n, dtrajs[k][t]))
      {
        Full2ActiveAt(n, activeSet, Wrap(n, dtrajs[k][t]));
      }
    }
  }
}
