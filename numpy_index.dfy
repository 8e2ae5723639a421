/** Integer-array indexing as numpy performs it on a one-dimensional array of length n:
    an index l is accepted when -n <= l < n, and a negative index counts from the end. */
module NumpyIndex {
  import opened Wrappers

  predicate Indexable(n: nat, l: int) {
    -(n as int) <= l < n
  }

  predicate AllIndexable(n: nat, idx: seq<int>) {
    forall i :: 0 <= i < |idx| ==> Indexable(n, idx[i])
  }

  /** The slot of a length-n array that index l addresses. */
  function Wrap(n: nat, l: int): (p: nat)
    requires Indexable(n, l)
    ensures p < n
    ensures p == l || p == l + n
  {
    if l < 0 then l + n else l
  }

  /** No two indices address the same slot. */
  predicate DistinctSlots(n: nat, idx: seq<int>)
    requires AllIndexable(n, idx)
  {
    forall i, k :: 0 <= i < k < |idx| ==> Wrap(n, idx[i]) != Wrap(n, idx[k])
  }

  /** `a[idx]` for an integer index array: all or nothing, an IndexError on any bad index. */
  function Take<T>(a: seq<T>, idx: seq<int>): (r: Option<seq<T>>)
    ensures r.Some? <==> AllIndexable(|a|, idx)
    ensures r.Some? ==> |r.value| == |idx|
    ensures r.Some? ==> forall t :: 0 <= t < |idx| ==> r.value[t] == a[Wrap(|a|, idx[t])]
  {
    if AllIndexable(|a|, idx) then
      Some(seq(|idx|, t requires 0 <= t < |idx| => a[Wrap(|a|, idx[t])]))
    else
      None
  }

  /** The last position i whose index idx[i] addresses slot j, or -1 when none does. */
  function LastHit(n: nat, idx: seq<int>, j: nat): (h: int)
    requires AllIndexable(n, idx)
    ensures -1 <= h < |idx|
    ensures h >= 0 ==> Wrap(n, idx[h]) == j
    ensures h >= 0 ==> forall i :: h < i < |idx| ==> Wrap(n, idx[i]) != j
    ensures h == -1 <==> forall i :: 0 <= i < |idx| ==> Wrap(n, idx[i]) != j
    decreases |idx|
  {
    if |idx| == 0 then -1
    else if Wrap(n, idx[|idx| - 1]) == j then |idx| - 1
    else LastHit(n, idx[..|idx| - 1], j)
  }

  /** `base[idx] = vals`, taking the values to be written in order, so that where two
      indices address the same slot the later value stays. numpy itself leaves that
      choice unspecified. */
  function FancyAssign<T>(base: seq<T>, idx: seq<int>, vals: seq<T>): (r: seq<T>)
    requires |vals| == |idx| && AllIndexable(|base|, idx)
    ensures |r| == |base|
    ensures forall i :: 0 <= i < |idx| && (forall i' :: i < i' < |idx| ==> Wrap(|base|, idx[i']) != Wrap(|base|, idx[i]))
                        ==> r[Wrap(|base|, idx[i])] == vals[i]
    ensures forall j :: 0 <= j < |base| && (forall i :: 0 <= i < |idx| ==> Wrap(|base|, idx[i]) != j)
                        ==> r[j] == base[j]
  {
    seq(|base|, j requires 0 <= j < |base| =>
      var h := LastHit(|base|, idx, j);
      if h < 0 then base[j] else vals[h])
  }

  /** Writing one more index and value on top of a fancy assignment is one single-slot update. */
  lemma {:induction false} FancyAssignExtend<T>(base: seq<T>, idx: seq<int>, vals: seq<T>, l: int, v: T)
    requires |vals| == |idx| && AllIndexable(|base|, idx) && Indexable(|base|, l)
    ensures AllIndexable(|base|, idx + [l])
    ensures FancyAssign(base, idx + [l], vals + [v]) == FancyAssign(base, idx, vals)[Wrap(|base|, l) := v]
  {
    var idx', vals' := idx + [l], vals + [v];
    assert idx'[..|idx|] == idx;
    var lhs := FancyAssign(base, idx', vals');
    var rhs := FancyAssign(base, idx, vals)[Wrap(|base|, l) := v];
    forall j | 0 <= j < |base|
      ensures lhs[j] == rhs[j]
    {
      if Wrap(|base|, l) != j {
        assert LastHit(|base|, idx', j) == LastHit(|base|, idx, j);
      }
    }
  }
}
