/**
 `NonEmptyVec<T>`: a vector that always holds at least one element. Operations
 that could empty it refuse to remove the last element instead.
 */
module NonEmptyVecs {
  import opened Wrappers
  import StdVec

  /** The error of every operation refused because it would leave no element. */
  datatype NotEnoughElementsError = NotEnoughElementsError

  datatype NonEmptyVec<T> = NonEmptyVec(vec: seq<T>)

  /** The invariant every public operation keeps: at least one element. */
  predicate Valid<T>(v: NonEmptyVec<T>) {
    |v.vec| >= 1
  }

  /** `NonZeroUsize`: a length that cannot be zero. */
  type NonZero = n: nat | n >= 1 witness 1

  // ---------------------------------------------------------------------------
  // Construction

  /** `TryFrom<Vec<T>>`: fails exactly on the empty vector, otherwise wraps it unchanged. */
  function TryFrom<T>(vec: seq<T>): (r: Result<NonEmptyVec<T>, NotEnoughElementsError>)
    ensures r.Err? <==> |vec| == 0
    ensures r.Ok? ==> Valid(r.value) && r.value.vec == vec
  {
    if |vec| == 0 then Err(NotEnoughElementsError) else Ok(NonEmptyVec(vec))
  }

  /** `From<T>`: the one-element vector. */
  function FromValue<T>(x: T): (r: NonEmptyVec<T>)
    ensures Valid(r)
    ensures Len(r) == 1 && First(r) == x
  {
    NonEmptyVec([x])
  }

  // ---------------------------------------------------------------------------
  // Accessors

  /** `len`: the number of elements, never zero. */
  function Len<T>(v: NonEmptyVec<T>): (n: NonZero)
    requires Valid(v)
    ensures n == |v.vec|
  {
    |v.vec|
  }

  /** `has_len`: whether the vector holds exactly `n` elements. */
  function HasLen<T>(v: NonEmptyVec<T>, n: nat): (r: bool)
    requires Valid(v)
    ensures r <==> n == Len(v)
    ensures n == 0 ==> !r
  {
    |v.vec| == n
  }

  /** `first`: the element at index 0, which always exists. */
  function First<T>(v: NonEmptyVec<T>): (x: T)
    requires Valid(v)
    ensures x == v.vec[0]
    ensures x in v.vec
  {
    v.vec[0]
  }

  /** `last`: the element at index `len - 1`, which always exists. */
  function Last<T>(v: NonEmptyVec<T>): (x: T)
    requires Valid(v)
    ensures x == v.vec[Len(v) - 1]
    ensures Len(v) == 1 ==> x == First(v)
  {
    v.vec[|v.vec| - 1]
  }

  /** `Index<usize>`: the element at `i`; a larger index panics in the source. */
  function At<T>(v: NonEmptyVec<T>, i: nat): (x: T)
    requires Valid(v) && i < Len(v)
    ensures x == AsSlice(v)[i]
    ensures i == 0 ==> x == First(v)
    ensures i == Len(v) - 1 ==> x == Last(v)
  {
    v.vec[i]
  }

  /** `as_slice`: the elements, unchanged. */
  function AsSlice<T>(v: NonEmptyVec<T>): (s: seq<T>)
    requires Valid(v)
    ensures |s| == Len(v)
    ensures TryFrom(s) == Ok(v)
  {
    v.vec
  }

  /** `take`: consumes the vector, keeping only its first element. */
  function Take<T>(v: NonEmptyVec<T>): (x: T)
    requires Valid(v)
    ensures x == First(v)
  {
    v.vec[0]
  }

  // ---------------------------------------------------------------------------
  // Writes through mutable references

  /** Writing `x` through `index_mut(i)`: only slot `i` changes. */
  function SetAt<T>(v: NonEmptyVec<T>, i: nat, x: T): (r: NonEmptyVec<T>)
    requires Valid(v) && i < Len(v)
    ensures Valid(r) && Len(r) == Len(v)
    ensures At(r, i) == x
    ensures forall j :: 0 <= j < Len(v) && j != i ==> r.vec[j] == v.vec[j]
  {
    NonEmptyVec(v.vec[i := x])
  }

  /** Writing `x` through `first_mut`: only the first slot changes. */
  function SetFirst<T>(v: NonEmptyVec<T>, x: T): (r: NonEmptyVec<T>)
    requires Valid(v)
    ensures Valid(r) && Len(r) == Len(v)
    ensures First(r) == x
    ensures forall j :: 0 < j < Len(v) ==> r.vec[j] == v.vec[j]
  {
    SetAt(v, 0, x)
  }

  /** Writing `x` through `last_mut`: only the last slot changes. */
  function SetLast<T>(v: NonEmptyVec<T>, x: T): (r: NonEmptyVec<T>)
    requires Valid(v)
    ensures Valid(r) && Len(r) == Len(v)
    ensures Last(r) == x
    ensures forall j :: 0 <= j < Len(v) - 1 ==> r.vec[j] == v.vec[j]
  {
    SetAt(v, |v.vec| - 1, x)
  }

  // ---------------------------------------------------------------------------
  // Growing

  /** `push`: appends `x`; always allowed. */
  function Push<T>(v: NonEmptyVec<T>, x: T): (r: NonEmptyVec<T>)
    requires Valid(v)
    ensures Valid(r) && Len(r) == Len(v) + 1
    ensures Last(r) == x
    ensures r.vec[..Len(v)] == v.vec
  {
    NonEmptyVec(v.vec + [x])
  }

  /** `insert`: puts `x` at `idx`, shifting the rest right; `idx > len` panics in the source. */
  function Insert<T>(v: NonEmptyVec<T>, idx: nat, x: T): (r: NonEmptyVec<T>)
    requires Valid(v) && idx <= Len(v)
    ensures Valid(r) && Len(r) == Len(v) + 1
    ensures r.vec[idx] == x
    ensures r.vec[..idx] == v.vec[..idx] && r.vec[idx + 1..] == v.vec[idx..]
  {
    var w := StdVec.Insert(v.vec, idx, x);
    assert w[..idx] == v.vec[..idx];
    assert w[idx + 1..] == v.vec[idx..];
    NonEmptyVec(w)
  }

  // ---------------------------------------------------------------------------
  // Shrinking, guarded so that one element always remains

  /**
   `pop`: `None` and no change when only one element is left; otherwise the
   last element, removed.
   */
  function Pop<T>(v: NonEmptyVec<T>): (r: (Option<T>, NonEmptyVec<T>))
    requires Valid(v)
    ensures Valid(r.1)
    ensures r.0.None? <==> Len(v) == 1
    ensures r.0.None? ==> r.1 == v
    ensures r.0.Some? ==> r.0.value == Last(v) && r.1.vec + [r.0.value] == v.vec
  {
    if |v.vec| == 1 then (None, v)
    else
      var (x, rest) := StdVec.Pop(v.vec);
      (x, NonEmptyVec(rest))
  }

  /**
   `remove`: refused with `NotEnoughElementsError` when only one element is
   left, whatever the index (this check comes first); otherwise the element at
   `idx`, removed with the rest shifted left. An out-of-range index on a longer
   vector panics in the source.
   */
  function Remove<T>(v: NonEmptyVec<T>, idx: nat): (r: (Result<T, NotEnoughElementsError>, NonEmptyVec<T>))
    requires Valid(v) && (Len(v) == 1 || idx < Len(v))
    ensures Valid(r.1)
    ensures r.0.Err? <==> Len(v) == 1
    ensures r.0.Err? ==> r.1 == v
    ensures r.0.Ok? ==> r.0.value == v.vec[idx] && Len(r.1) == Len(v) - 1
    ensures r.0.Ok? ==> r.1.vec[..idx] == v.vec[..idx] && r.1.vec[idx..] == v.vec[idx + 1..]
  {
    if |v.vec| == 1 then (Err(NotEnoughElementsError), v)
    else
      var (x, rest) := StdVec.Remove(v.vec, idx);
      assert rest[..idx] == v.vec[..idx];
      assert rest[idx..] == v.vec[idx + 1..];
      (Ok(x), NonEmptyVec(rest))
  }

  /**
   `swap_remove`: the same one-element guard as `remove`; otherwise the element
   at `idx` is returned and the old last element takes its place.
   */
  function SwapRemove<T>(v: NonEmptyVec<T>, idx: nat): (r: (Result<T, NotEnoughElementsError>, NonEmptyVec<T>))
    requires Valid(v) && (Len(v) == 1 || idx < Len(v))
    ensures Valid(r.1)
    ensures r.0.Err? <==> Len(v) == 1
    ensures r.0.Err? ==> r.1 == v
    ensures r.0.Ok? ==> r.0.value == v.vec[idx] && Len(r.1) == Len(v) - 1
    ensures r.0.Ok? && idx < Len(r.1) ==> r.1.vec[idx] == Last(v)
    ensures r.0.Ok? ==> forall j :: 0 <= j < Len(r.1) && j != idx ==> r.1.vec[j] == v.vec[j]
    ensures r.0.Ok? ==> multiset(r.1.vec) + multiset{r.0.value} == multiset(v.vec)
  {
    if |v.vec| == 1 then (Err(NotEnoughElementsError), v)
    else
      var (x, rest) := StdVec.SwapRemove(v.vec, idx);
      (Ok(x), NonEmptyVec(rest))
  }

  // ---------------------------------------------------------------------------
  // Inverses

  /** Pushing back what `pop` returned restores the vector. */
  lemma PushAfterPop<T>(v: NonEmptyVec<T>)
    requires Valid(v) && Len(v) > 1
    ensures Push(Pop(v).1, Pop(v).0.value) == v
  {
  }

  /** Popping right after a push returns the pushed value and the vector before it. */
  lemma PopAfterPush<T>(v: NonEmptyVec<T>, x: T)
    requires Valid(v)
    ensures Pop(Push(v, x)) == (Some(x), v)
  {
  }

  /** Inserting back what `remove` returned, at the same index, restores the vector. */
  lemma InsertAfterRemove<T>(v: NonEmptyVec<T>, idx: nat)
    requires Valid(v) && 1 < Len(v) && idx < Len(v)
    ensures Insert(Remove(v, idx).1, idx, Remove(v, idx).0.value) == v
  {
  }

  /** Removing right after an insert at the same index returns the inserted value and the vector before it. */
  lemma RemoveAfterInsert<T>(v: NonEmptyVec<T>, idx: nat, x: T)
    requires Valid(v) && idx <= Len(v)
    ensures Remove(Insert(v, idx, x), idx) == (Ok(x), v)
  {
    StdVec.RemoveAfterInsert(v.vec, idx, x);
  }

  /** Converting a vector built by `TryFrom` back to a slice gives the source vector. */
  lemma TryFromRoundTrip<T>(vec: seq<T>)
    requires |vec| > 0
    ensures AsSlice(TryFrom(vec).value) == vec
  {
  }

  // ---------------------------------------------------------------------------
  // The invariant under any sequence of calls

  /** One call on a vector; every index is the caller's argument. */
  datatype Call<T> =
    | PushCall(x: T)
    | InsertCall(idx: nat, x: T)
    | PopCall
    | RemoveCall(idx: nat)
    | SwapRemoveCall(idx: nat)
    | SetAtCall(idx: nat, x: T)

  /**
   The vector after one call, or `None` when the call's index makes `Vec`
   panic (which ends the program, so nothing further happens).
   */
  function Step<T>(v: NonEmptyVec<T>, c: Call<T>): (r: Option<NonEmptyVec<T>>)
    requires Valid(v)
    ensures r.Some? ==> Valid(r.value)
    ensures r.None? <==> match c
      case InsertCall(idx, _) => idx > Len(v)
      case RemoveCall(idx) => Len(v) > 1 && idx >= Len(v)
      case SwapRemoveCall(idx) => Len(v) > 1 && idx >= Len(v)
      case SetAtCall(idx, _) => idx >= Len(v)
      case _ => false
  {
    match c
    case PushCall(x) => Some(Push(v, x))
    case InsertCall(idx, x) => if idx <= |v.vec| then Some(Insert(v, idx, x)) else None
    case PopCall => Some(Pop(v).1)
    case RemoveCall(idx) => if |v.vec| == 1 || idx < |v.vec| then Some(Remove(v, idx).1) else None
    case SwapRemoveCall(idx) => if |v.vec| == 1 || idx < |v.vec| then Some(SwapRemove(v, idx).1) else None
    case SetAtCall(idx, x) => if idx < |v.vec| then Some(SetAt(v, idx, x)) else None
  }

  /**
   Runs the calls in order, stopping at a panic. Whatever vector is reached
   still holds at least one element.
   */
  function Run<T>(v: NonEmptyVec<T>, calls: seq<Call<T>>): (r: Option<NonEmptyVec<T>>)
    requires Valid(v)
    ensures r.Some? ==> Valid(r.value)
    decreases |calls|
  {
    if |calls| == 0 then Some(v)
    else
      match Step(v, calls[0])
      case None => None
      case Some(w) => Run(w, calls[1..])
  }

  /** A run of only pushes and pops never panics, and the vector keeps its first element. */
  lemma {:induction false} PushPopKeepFirst<T>(v: NonEmptyVec<T>, calls: seq<Call<T>>)
    requires Valid(v)
    requires forall i :: 0 <= i < |calls| ==> calls[i].PushCall? || calls[i].PopCall?
    ensures Run(v, calls).Some?
    ensures First(Run(v, calls).value) == First(v)
    decreases |calls|
  {
    if |calls| > 0 {
      var w := Step(v, calls[0]).value;
      assert First(w) == First(v);
      PushPopKeepFirst(w, calls[1..]);
    }
  }

  /** The source's push/pop test: `[1, 2]` pops `2`, then refuses, then writes through index and `first_mut`. */
  lemma PopPushExample()
    ensures var v := TryFrom([1, 2]).value;
      && Pop(v).0 == Some(2)
      && var v1 := Pop(v).1;
      && Pop(v1).0 == None
      && At(Pop(v1).1, 0) == 1
      && var v2 := SetAt(Pop(v1).1, 0, 0);
      && First(v2) == 0
      && At(SetFirst(v2, 4), 0) == 4
  {
  }
}
