# strict — a verified model of three invariant-carrying containers

The `strict` crate provides three small containers whose types make a size
promise:

- `OneToThree<T>` holds exactly one, two or three elements. It is a closed sum
  type (`One`, `Two`, `Three`), so callers can match on the arity.
- `NonEmptyVec<T>` is a `Vec` that always holds at least one element.
  `pop`, `remove` and `swap_remove` refuse to take out the last element.
- `NonEmptySlice<'a, T>` is a read-only view of at least one element.

This project models all three as immutable Dafny values with pure functions
and proves the promises each operation makes. The files are:

- `wrappers.dfy` (`Wrappers`): Rust's `Option` and `Result`, with Rust's
  constructor names.
- `std_vec.dfy` (`StdVec`): the `Vec` operations the wrappers delegate to
  (`pop`, `insert`, `remove`, `swap_remove`) on plain sequences. Where `Vec`
  panics on an out-of-range index, the index is a precondition.
- `one_to_three.dfy` (`OneToThrees`): the sum type, its accessors, the sort
  decision tree, `map`/`try_map`, equality, the iterator and the conversions.
- `non_empty_vec.dfy` (`NonEmptyVecs`): the vector wrapper as a datatype over
  `seq<T>` with the invariant `Valid` (length at least 1). Every operation
  requires `Valid` and every result satisfies it. A write through a mutable
  reference (`first_mut`, `last_mut`, `index_mut`) is a "set this slot"
  function.
- `non_empty_slice.dfy` (`NonEmptySlices`): the view, as a datatype over
  `seq<T>` with the same invariant. It reuses the vector module's
  `NotEnoughElementsError`, as the source does through `crate::`.

Modelling notes:

- `sorted` is stated for `int`, a total order. The decision tree is the
  source's, comparison for comparison. The proved contract is:
  - the arity is kept;
  - the result is non-decreasing;
  - the result is a permutation of the input (a multiset equality);
  - it is the only non-decreasing permutation (`SortedIsUnique`).
- `try_from(Vec)` for `OneToThree` pops up to three elements from the end.
  On a vector longer than three it therefore keeps the last three elements
  and drops the front. The model reproduces this rather than failing, and
  `TryFromVec` states it as a postcondition.
- `non_empty_slice.rs` is not declared in `src/lib.rs`, so it is not compiled
  into the crate. It is modelled on its own anyway.
- `to_vec` and `to_ref_vec` give the same sequence in a value model, so
  `ToSeq` stands for both.
- The iterator is a cursor value `Iter(idx, few)`. `Next` returns
  `get(idx)` and advances the cursor.
  - `NextN` records the outputs of `n` calls.
  - `Collect` is what a `for` loop sees: it calls `next` until the first
    `None`.
  - `Hash` walks this iteration (`for e in self.iter()`), so
    `CollectIsToSeq` is the slot order it hashes in. `Debug` does not use the
    iterator: it formats `to_ref_vec()`, i.e. `ToSeq`, directly.

## Model

| member | source | states |
|---|---|---|
| OneToThrees.ToSeq | src/one_to_three.rs:67-80 | `to_vec`/`to_ref_vec` hold between one and three elements |
| OneToThrees.Len | src/one_to_three.rs:23-29 | the length is 1, 2 or 3, matches the variant exactly, and equals the length of `to_vec()` |
| OneToThrees.First | src/one_to_three.rs:33-39 | `first` is slot 0 of `to_vec()` for every variant |
| OneToThrees.Get | src/one_to_three.rs:47-55 | `get(i)` is `Some` exactly when `i` is below the arity; then it is `to_vec()[i]`; `get(0)` is `first()` |
| OneToThrees.SetFirst | src/one_to_three.rs:40-46 | a write through `first_mut` replaces slot 0 only and keeps the arity |
| OneToThrees.SetAt | src/one_to_three.rs:56-66 | `get_mut(i)` exists exactly when `i` is below the arity; a write through it replaces slot `i` only |
| OneToThrees.GetAfterSetAt | src/one_to_three.rs:47-66 | after a write through `get_mut(i)`, `get(i)` returns the written value and every other `get(j)` is unchanged |
| OneToThrees.Sorted | src/one_to_three.rs:81-112 | `sorted` keeps the arity and returns a non-decreasing rearrangement of the slots (same multiset) |
| OneToThrees.SortTwo | src/one_to_three.rs:87-93 | the two-slot branch returns its two values in non-decreasing order as a rearrangement of (a, b); it keeps them only when `a < b`, so equal values are swapped |
| OneToThrees.SortThree | src/one_to_three.rs:94-110 | each of the six orders the three-slot decision tree picks is non-decreasing and a rearrangement of (a, b, c) |
| OneToThrees.SortedIsUnique | src/one_to_three.rs:81-112 | any same-arity, non-decreasing rearrangement of the input equals `sorted`'s result |
| OneToThrees.SortedIdempotent | src/one_to_three.rs:81-112 | sorting a sorted container changes nothing |
| OneToThrees.SortedExamples | src/one_to_three.rs:230-265 | the sort test's cases, e.g. `three(1,2,1)` gives `three(1,1,2)` and `three(3,1,2)` gives `three(1,2,3)` |
| OneToThrees.Map | src/one_to_three.rs:113-122 | `map(f)` keeps the arity and applies `f` to each slot in place |
| OneToThrees.TryMap | src/one_to_three.rs:123-132 | `try_map(f)` is `Ok` exactly when `f` succeeds on every slot, and then holds the unwrapped values in place; otherwise it is the error of the first failing slot in slot order |
| OneToThrees.TryMapSeq | src/one_to_three.rs:123-132 | a left-to-right, stop-at-first-failure map over any sequence, with the same all-or-first-error contract |
| OneToThrees.TryMapMatchesSeq | src/one_to_three.rs:123-132 | `try_map` on the container gives the same success value or the same error as the sequence reference on its slots |
| OneToThrees.TryMapOkIsMap | src/one_to_three.rs:113-132 | when every slot succeeds, `try_map(f)` is `Ok(map(g))` for the unwrapped function `g` |
| OneToThrees.MapExample | src/one_to_three.rs:267-273 | the `map` test's shape: `three(1,2,3)` maps slot by slot, with `n + 1` standing for `to_string` |
| OneToThrees.TryMapExample | src/one_to_three.rs:275-286 | `three(1,-2,3)` fails under an unsigned parse and succeeds unchanged under a signed one |
| OneToThrees.Eq | src/one_to_three.rs:143-152 | with the element type's `eq` as a parameter, `eq` holds exactly when both have the same arity and the element `eq` holds slot by slot; different arities are never equal |
| OneToThrees.EqOfValueEquality | src/one_to_three.rs:143-152 | when the element `eq` is value equality, container `eq` holds exactly when the containers, equivalently their `to_vec()`s, are equal |
| OneToThrees.ToSeqInjective | src/one_to_three.rs:143-152 | two containers with the same slots in the same order are the same container |
| OneToThrees.NewIter | src/one_to_three.rs:175-179 | a new iterator starts at slot 0 of the container |
| OneToThrees.Next | src/one_to_three.rs:180-187 | `next` yields slot `idx` while it is below the arity, `None` after that, and always advances the cursor by one |
| OneToThrees.NextNFrom | src/one_to_three.rs:180-187 | the k-th of n calls of `next` from cursor `idx` yields slot `idx + k` if it exists and `None` otherwise |
| OneToThrees.IterYieldsSlots | src/one_to_three.rs:171-187 | iterating a fresh `iter()` yields exactly the slots of `to_vec()` in order, then `None` on every later call |
| OneToThrees.CollectFrom | src/one_to_three.rs:180-187 | calling `next` until `None` from cursor `idx` collects the slots from `idx` on |
| OneToThrees.CollectIsToSeq | src/one_to_three.rs:163-169 | a full iteration, the walk `Hash` makes, visits exactly `to_vec()` in slot order |
| OneToThrees.TryFromVec | src/one_to_three.rs:198-212 | converting a vector fails with "Empty vec" exactly when it is empty; one to three elements convert in order; a longer vector gives `Three` of its last three elements |
| OneToThrees.TryFromVecRoundTrip | src/one_to_three.rs:198-212 | converting `to_vec()` back gives the original container |
| OneToThrees.TryFromVecExample | src/one_to_three.rs:198-212 | `[1,2,3]` converts to `three(1,2,3)`, `[0,1,2,3]` drops the 0, and `[]` fails |
| OneToThrees.FromValue | src/one_to_three.rs:214-218 | `From<T>` gives the one-slot container of that value |
| OneToThrees.FromPair | src/one_to_three.rs:219-223 | `From<(T, T)>` gives the two slots in tuple order |
| OneToThrees.FromTriple | src/one_to_three.rs:224-228 | `From<(T, T, T)>` gives the three slots in tuple order |
| OneToThrees.FromTuplesMatchTryFromVec | src/one_to_three.rs:198-228 | the tuple conversions agree with converting the vector of the same elements |
| StdVec.Pop | src/non_empty_vec.rs:93 | `Vec::pop` returns `None` exactly on an empty vector; otherwise it returns the last element and the vector without it |
| StdVec.Insert | src/non_empty_vec.rs:83 | `Vec::insert(idx, x)` puts `x` at `idx` and shifts the elements from `idx` on one place right |
| StdVec.Remove | src/non_empty_vec.rs:112 | `Vec::remove(idx)` returns the element at `idx` and shifts the later ones one place left |
| StdVec.SwapRemove | src/non_empty_vec.rs:121 | `Vec::swap_remove(idx)` returns the element at `idx`; the old last element takes its place; all other slots are unchanged; the multiset loses exactly the removed element |
| StdVec.RemoveAfterInsert | src/non_empty_vec.rs:83-112 | removing at the index just inserted at returns the inserted element and the vector before the insert |
| NonEmptyVecs.TryFrom | src/non_empty_vec.rs:127-139 | conversion fails with `NotEnoughElementsError` exactly on an empty vector; otherwise it wraps that vector unchanged |
| NonEmptyVecs.FromValue | src/non_empty_vec.rs:141-148 | `From<T>` gives a vector of length 1 whose first element is the value |
| NonEmptyVecs.Len | src/non_empty_vec.rs:29-34 | `len` is never zero and is the number of wrapped elements |
| NonEmptyVecs.HasLen | src/non_empty_vec.rs:36-39 | `has_len(n)` holds exactly when `n` is `len()`, so never for 0 |
| NonEmptyVecs.First | src/non_empty_vec.rs:41-46 | `first` is the element at index 0, which always exists |
| NonEmptyVecs.Last | src/non_empty_vec.rs:55-60 | `last` is the element at index `len - 1`; on a single element it is `first` |
| NonEmptyVecs.At | src/non_empty_vec.rs:157-163 | indexing at `i` is element `i` of `as_slice()`; at 0 it is `first` and at `len - 1` it is `last` |
| NonEmptyVecs.AsSlice | src/non_empty_vec.rs:97-100 | `as_slice` has `len()` elements and converting it back gives the same vector |
| NonEmptyVecs.Take | src/non_empty_vec.rs:70-74 | `take` returns the first element |
| NonEmptyVecs.SetAt | src/non_empty_vec.rs:165-170 | a write through `index_mut(i)` changes slot `i` only and keeps the length and the invariant |
| NonEmptyVecs.SetFirst | src/non_empty_vec.rs:48-53 | a write through `first_mut` changes `first()` only |
| NonEmptyVecs.SetLast | src/non_empty_vec.rs:62-68 | a write through `last_mut` changes `last()` only |
| NonEmptyVecs.Push | src/non_empty_vec.rs:76-79 | `push(x)` grows the length by one, keeps the old elements as a prefix and makes `x` the last element |
| NonEmptyVecs.Insert | src/non_empty_vec.rs:81-84 | `insert(i, x)` grows the length by one, puts `x` at `i`, keeps the prefix before `i` and shifts the rest right |
| NonEmptyVecs.Pop | src/non_empty_vec.rs:86-95 | `pop` is `None` with no change exactly on length 1; otherwise it returns `last()` and the vector without it; the invariant holds after it |
| NonEmptyVecs.Remove | src/non_empty_vec.rs:107-114 | `remove` fails with no change exactly on length 1, for any index; otherwise it returns the element at `idx` and closes the gap |
| NonEmptyVecs.SwapRemove | src/non_empty_vec.rs:116-123 | `swap_remove` has the same one-element guard; otherwise it returns the element at `idx`, moves `last()` into its place, leaves other slots alone and drops exactly that element from the multiset |
| NonEmptyVecs.PushAfterPop | src/non_empty_vec.rs:76-95 | pushing back what `pop` returned restores the vector |
| NonEmptyVecs.PopAfterPush | src/non_empty_vec.rs:76-95 | `pop` right after `push(x)` returns `x` and the vector before the push |
| NonEmptyVecs.InsertAfterRemove | src/non_empty_vec.rs:81-114 | inserting back what `remove(i)` returned, at `i`, restores the vector |
| NonEmptyVecs.RemoveAfterInsert | src/non_empty_vec.rs:81-114 | `remove(i)` right after `insert(i, x)` returns `x` and the vector before the insert |
| NonEmptyVecs.TryFromRoundTrip | src/non_empty_vec.rs:127-139 | a non-empty vector converted and read back through `as_slice` is unchanged |
| NonEmptyVecs.Step | src/non_empty_vec.rs:76-123 | one mutating call keeps the invariant; it panics exactly on an out-of-range index (for `remove`/`swap_remove` only when longer than one) |
| NonEmptyVecs.Run | src/non_empty_vec.rs:76-123 | any sequence of push/insert/pop/remove/swap_remove/index writes that does not panic leaves at least one element |
| NonEmptyVecs.PushPopKeepFirst | src/non_empty_vec.rs:76-95 | a run of pushes and pops never panics and never changes `first()` |
| NonEmptyVecs.PopPushExample | src/non_empty_vec.rs:198-209 | the source's test: `[1,2]` pops `2`, then `None`, keeps `1` at index 0, and writes through index and `first_mut` are read back |
| NonEmptySlices.TryFrom | src/non_empty_slice.rs:45-56 | conversion fails with `NotEnoughElementsError` exactly on an empty slice; otherwise it views that slice unchanged |
| NonEmptySlices.FromRef | src/non_empty_slice.rs:58-65 | `From<&T>` gives a view of length 1 whose first and last element is the value |
| NonEmptySlices.Len | src/non_empty_slice.rs:19-22 | `len` is never zero and is the number of viewed elements |
| NonEmptySlices.HasLen | src/non_empty_slice.rs:24-27 | `has_len(n)` holds exactly when `n` is `len()`, so never for 0 |
| NonEmptySlices.First | src/non_empty_slice.rs:29-32 | `first` is element 0 of `as_slice()` |
| NonEmptySlices.Last | src/non_empty_slice.rs:34-37 | `last` is element `len - 1` of `as_slice()`; on a single element it is `first` |
| NonEmptySlices.AsSlice | src/non_empty_slice.rs:39-42 | `as_slice` returns the viewed elements unchanged; converting them again gives the same view |

## Left out

- `unsafe` unchecked accesses and `NonZeroUsize::new_unchecked`: they are ordinary indexing here, justified by the invariant; the length type is the subset type `NonZero`.
- Lifetimes and borrowing: views and mutable references are values and "set slot" functions; `as_mut_slice` is covered by the slot writes.
- `Hash` and `Debug` for `OneToThree`: they feed opaque `Hasher` and `Formatter` state. Only their slot order is stated: `Hash` walks the iterator (`CollectIsToSeq`), and `Debug` lists `to_ref_vec()` (`ToSeq`).
- `Clone`, `Copy`, `Deref`, `Index` with ranges and the `IntoIterator` impls: in a value model they are plain sequence access.
- `sorted` on a partial order such as floats with NaN: `OneToThrees.Sorted` is stated for `int` only.
- `OneToThrees.Sorted`: the sort is not stable. On ties, `a < b` is false, so `Two(a, b)` becomes `Two(b, a)`, and the three-slot tree reorders equal values too. With `int`, equal values cannot be told apart, so the model cannot show which of two equal but distinguishable elements ends up first.
- `OneToThrees.Next`: the cursor is an unbounded `nat`; the `usize` overflow of `idx += 1` after 2^64 calls is not modelled.
- `Vec` panics on an out-of-range `insert`, `remove`, `swap_remove` or index: preconditions of the single operations, and the end of a run in `NonEmptyVecs.Run`.
- String parsing and `to_string` from the `map`/`try_map` tests: the examples use `n + 1` and a sign check on integers in their place.
- `src/lib.rs` is module wiring only.
