/**
 The parts of Rust's `Vec<T>` that the containers delegate to, on plain
 sequences. Where `Vec` panics on an out-of-range index, the model makes the
 index a precondition.
 */
module StdVec {
  import opened Wrappers

  /** `Vec::pop`: removes and returns the last element, or `None` on an empty vector. */
  function Pop<T>(v: seq<T>): (r: (Option<T>, seq<T>))
    ensures r.0.None? <==> |v| == 0
    ensures r.0.None? ==> r.1 == v
    ensures r.0.Some? ==> r.1 + [r.0.value] == v
  {
    if |v| == 0 then (None, v) else (Some(v[|v| - 1]), v[..|v| - 1])
  }

  /** `Vec::insert`: shifts everything from `idx` one place right and puts `x` at `idx`. */
  function Insert<T>(v: seq<T>, idx: nat, x: T): (r: seq<T>)
    requires idx <= |v|
    ensures |r| == |v| + 1
    ensures r[idx] == x
    ensures forall j :: 0 <= j < idx ==> r[j] == v[j]
    ensures forall j :: idx < j < |r| ==> r[j] == v[j - 1]
  {
    v[..idx] + [x] + v[idx..]
  }

  /** `Vec::remove`: takes out the element at `idx`, shifting the rest left. */
  function Remove<T>(v: seq<T>, idx: nat): (r: (T, seq<T>))
    requires idx < |v|
    ensures r.0 == v[idx]
    ensures |r.1| == |v| - 1
    ensures forall j :: 0 <= j < idx ==> r.1[j] == v[j]
    ensures forall j :: idx <= j < |r.1| ==> r.1[j] == v[j + 1]
  {
    (v[idx], v[..idx] + v[idx + 1..])
  }

  /**
   `Vec::swap_remove`: swaps the element at `idx` with the last one, then pops it.
   Order is not preserved; the old last element lands at `idx`.
   */
  function SwapRemove<T>(v: seq<T>, idx: nat): (r: (T, seq<T>))
    requires idx < |v|
    ensures r.0 == v[idx]
    ensures |r.1| == |v| - 1
    ensures idx < |r.1| ==> r.1[idx] == v[|v| - 1]
    ensures forall j :: 0 <= j < |r.1| && j != idx ==> r.1[j] == v[j]
    ensures multiset(r.1) + multiset{r.0} == multiset(v)
  {
    var last := |v| - 1;
    var swapped := v[idx := v[last]][last := v[idx]];
    assert multiset(swapped) == multiset(v) by { SwapPreservesMultiset(v, idx, last); }
    assert swapped == swapped[..last] + [v[idx]];
    (v[idx], swapped[..last])
  }

  /** Swapping two slots leaves the multiset of elements unchanged. */
  lemma SwapPreservesMultiset<T>(v: seq<T>, i: nat, j: nat)
    requires i < |v| && j < |v|
    ensures multiset(v[i := v[j]][j := v[i]]) == multiset(v)
  {
  }

  /** Removing what `Insert` put in gives back the element and the original vector. */
  lemma RemoveAfterInsert<T>(v: seq<T>, idx: nat, x: T)
    requires idx <= |v|
    ensures Remove(Insert(v, idx, x), idx) == (x, v)
  {
    var w := Insert(v, idx, x);
    assert Remove(w, idx).1 == v;
  }
}
