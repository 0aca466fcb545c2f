/**
 `NonEmptySlice<'a, T>`: a read-only view of at least one element over storage
 owned elsewhere. The view is a value here; the borrow is not modelled.
 */
module NonEmptySlices {
  import opened Wrappers
  import NonEmptyVecs

  /** The error type is the one the vector wrapper defines. */
  type NotEnoughElementsError = NonEmptyVecs.NotEnoughElementsError

  datatype NonEmptySlice<T> = NonEmptySlice(slice: seq<T>)

  /** The invariant fixed at construction: at least one element. */
  predicate Valid<T>(v: NonEmptySlice<T>) {
    |v.slice| >= 1
  }

  /** `TryFrom<&[T]>`: fails exactly on the empty slice, otherwise views it unchanged. */
  function TryFrom<T>(s: seq<T>): (r: Result<NonEmptySlice<T>, NotEnoughElementsError>)
    ensures r.Err? <==> |s| == 0
    ensures r.Ok? ==> Valid(r.value) && r.value.slice == s
  {
    if |s| == 0 then Err(NonEmptyVecs.NotEnoughElementsError) else Ok(NonEmptySlice(s))
  }

  /** `From<&T>`: a view of length one over a single value. */
  function FromRef<T>(x: T): (r: NonEmptySlice<T>)
    ensures Valid(r)
    ensures Len(r) == 1 && First(r) == x && Last(r) == x
  {
    NonEmptySlice([x])
  }

  /** `len`: the number of viewed elements, never zero. */
  function Len<T>(v: NonEmptySlice<T>): (n: NonEmptyVecs.NonZero)
    requires Valid(v)
    ensures n == |v.slice|
  {
    |v.slice|
  }

  /** `has_len`: whether the view holds exactly `n` elements. */
  function HasLen<T>(v: NonEmptySlice<T>, n: nat): (r: bool)
    requires Valid(v)
    ensures r <==> n == Len(v)
    ensures n == 0 ==> !r
  {
    |v.slice| == n
  }

  /** `first`: the element at index 0. */
  function First<T>(v: NonEmptySlice<T>): (x: T)
    requires Valid(v)
    ensures x == AsSlice(v)[0]
  {
    v.slice[0]
  }

  /** `last`: the element at index `len - 1`. */
  function Last<T>(v: NonEmptySlice<T>): (x: T)
    requires Valid(v)
    ensures x == AsSlice(v)[Len(v) - 1]
    ensures Len(v) == 1 ==> x == First(v)
  {
    v.slice[|v.slice| - 1]
  }

  /** `as_slice`: the viewed elements, unchanged; converting them again gives the same view. */
  function AsSlice<T>(v: NonEmptySlice<T>): (s: seq<T>)
    ensures |s| == |v.slice|
    ensures Valid(v) ==> TryFrom(s) == Ok(v)
  {
    v.slice
  }
}
