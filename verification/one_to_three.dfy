/**
 `OneToThree<T>`: an ordered collection of exactly one, two or three elements,
 a closed sum type so that callers can match on the arity.
 */
module OneToThrees {
  import opened Wrappers
  import StdVec

  datatype OneToThree<T> = One(T) | Two(T, T) | Three(T, T, T)

  /** The error string of the conversion from an empty vector. */
  const EmptyVec: string := "Empty vec"

  /** The elements in slot order (`to_vec`, and `to_ref_vec` in this value model). */
  function ToSeq<T>(x: OneToThree<T>): (s: seq<T>)
    ensures 1 <= |s| <= 3
  {
    match x
    case One(a) => [a]
    case Two(a, b) => [a, b]
    case Three(a, b, c) => [a, b, c]
  }

  /** The arity: exactly 1, 2 or 3, as the variant says. */
  function Len<T>(x: OneToThree<T>): (n: nat)
    ensures 1 <= n <= 3
    ensures n == |ToSeq(x)|
    ensures n == 1 <==> x.One?
    ensures n == 2 <==> x.Two?
    ensures n == 3 <==> x.Three?
  {
    match x
    case One(_) => 1
    case Two(_, _) => 2
    case Three(_, _, _) => 3
  }

  /** Slot 0, present in every variant. */
  function First<T>(x: OneToThree<T>): (f: T)
    ensures f == ToSeq(x)[0]
  {
    match x
    case One(f) => f
    case Two(f, _) => f
    case Three(f, _, _) => f
  }

  /** `get`: the element at slot `i` if `i` is below the arity, `None` otherwise. */
  function Get<T>(x: OneToThree<T>, i: nat): (r: Option<T>)
    ensures r.Some? <==> i < Len(x)
    ensures r.Some? ==> r.value == ToSeq(x)[i]
    ensures i == 0 ==> r == Some(First(x))
  {
    match (i, x)
    case (0, _) => Some(First(x))
    case (1, Two(_, b)) => Some(b)
    case (1, Three(_, b, _)) => Some(b)
    case (2, Three(_, _, c)) => Some(c)
    case _ => None
  }

  /** Writing `v` through `first_mut`: slot 0 becomes `v`, nothing else changes. */
  function SetFirst<T>(x: OneToThree<T>, v: T): (r: OneToThree<T>)
    ensures Len(r) == Len(x)
    ensures ToSeq(r) == ToSeq(x)[0 := v]
  {
    match x
    case One(_) => One(v)
    case Two(_, b) => Two(v, b)
    case Three(_, b, c) => Three(v, b, c)
  }

  /**
   Writing `v` through `get_mut(i)`: `None` when `i` is not below the arity
   (no write happens), otherwise the container with slot `i` replaced.
   */
  function SetAt<T>(x: OneToThree<T>, i: nat, v: T): (r: Option<OneToThree<T>>)
    ensures r.Some? <==> i < Len(x)
    ensures r.Some? ==> Len(r.value) == Len(x) && ToSeq(r.value) == ToSeq(x)[i := v]
  {
    match (i, x)
    case (0, One(_)) => Some(One(v))
    case (0, Two(_, b)) => Some(Two(v, b))
    case (0, Three(_, b, c)) => Some(Three(v, b, c))
    case (1, Two(a, _)) => Some(Two(a, v))
    case (1, Three(a, _, c)) => Some(Three(a, v, c))
    case (2, Three(a, b, _)) => Some(Three(a, b, v))
    case _ => None
  }

  /** Reading back a slot just written through `get_mut` yields the written value. */
  lemma GetAfterSetAt<T>(x: OneToThree<T>, i: nat, v: T, j: nat)
    requires i < Len(x)
    ensures Get(SetAt(x, i, v).value, j) == if j == i then Some(v) else Get(x, j)
  {
  }

  // ---------------------------------------------------------------------------
  // Sorting

  /** Non-decreasing order of a sequence of integers. */
  predicate NonDecreasing(s: seq<int>) {
    forall i, j :: 0 <= i < j < |s| ==> s[i] <= s[j]
  }

  /**
   `sorted`: the comparison decision tree of the source, instantiated with the
   total order on `int`: the arity is kept, the slots come out non-decreasing,
   and they are a rearrangement of the input.
   */
  function Sorted(x: OneToThree<int>): (r: OneToThree<int>)
    ensures Len(r) == Len(x)
    ensures NonDecreasing(ToSeq(r))
    ensures multiset(ToSeq(r)) == multiset(ToSeq(x))
  {
    match x
    case One(a) => One(a)
    case Two(a, b) =>
      var r := SortTwo(a, b);
      assert ToSeq(x) == [a, b];
      r
    case Three(a, b, c) =>
      var r := SortThree(a, b, c);
      OrderedByNeighbours(ToSeq(r));
      assert ToSeq(x) == [a, b, c];
      r
  }

  /** Three values ordered pairwise from left to right are non-decreasing. */
  lemma OrderedByNeighbours(s: seq<int>)
    requires |s| == 3 && s[0] <= s[1] <= s[2]
    ensures NonDecreasing(s)
  {
  }

  /** The two-slot branch of `sorted`: one comparison and a conditional swap. */
  function SortTwo(a: int, b: int): (r: OneToThree<int>)
    ensures r.Two? && ToSeq(r)[0] <= ToSeq(r)[1]
    ensures multiset(ToSeq(r)) == multiset(ToSeq(Two(a, b)))
  {
    if a < b then Two(a, b)
    else
      SwapPair(a, b);
      Two(b, a)
  }

  /**
   The three-slot branch of `sorted`: first `a < b`, then `b < c` or `a < c`,
   selecting one of six orders; each is reached from (a, b, c) by the
   adjacent swaps noted.
   */
  function SortThree(a: int, b: int, c: int): (r: OneToThree<int>)
    ensures r.Three? && ToSeq(r)[0] <= ToSeq(r)[1] <= ToSeq(r)[2]
    ensures multiset(ToSeq(r)) == multiset(ToSeq(Three(a, b, c)))
  {
    if a < b then
      if b < c then Three(a, b, c)
      else if a < c then
        SwapLastTwo(a, b, c);
        Three(a, c, b)
      else
        SwapLastTwo(a, b, c);
        SwapFirstTwo(a, c, b);
        Three(c, a, b)
    else if a < c then
      SwapFirstTwo(a, b, c);
      Three(b, a, c)
    else if b < c then
      SwapFirstTwo(a, b, c);
      SwapLastTwo(b, a, c);
      Three(b, c, a)
    else
      SwapFirstTwo(a, b, c);
      SwapLastTwo(b, a, c);
      SwapFirstTwo(b, c, a);
      Three(c, b, a)
  }

  /** Exchanging two values keeps the multiset. */
  lemma SwapPair(a: int, b: int)
    ensures multiset([b, a]) == multiset([a, b])
  {
  }

  /** Exchanging the last two of three values keeps the multiset. */
  lemma SwapLastTwo(a: int, b: int, c: int)
    ensures multiset([a, c, b]) == multiset([a, b, c])
  {
  }

  /** Exchanging the first two of three values keeps the multiset. */
  lemma SwapFirstTwo(a: int, b: int, c: int)
    ensures multiset([b, a, c]) == multiset([a, b, c])
  {
  }

  /** Two non-decreasing sequences holding the same multiset of elements are equal. */
  lemma {:induction false} SortedPermutationUnique(s: seq<int>, t: seq<int>)
    requires NonDecreasing(s) && NonDecreasing(t)
    requires multiset(s) == multiset(t)
    ensures s == t
    decreases |s|
  {
    assert |s| == |t| by {
      assert |s| == |multiset(s)| && |t| == |multiset(t)|;
    }
    if |s| > 0 {
      SmallestFirst(s, t);
      TailMultiset(s);
      TailMultiset(t);
      SortedPermutationUnique(s[1..], t[1..]);
    }
  }

  /** Non-decreasing permutations of each other start with the same, smallest, element. */
  lemma SmallestFirst(s: seq<int>, t: seq<int>)
    requires NonDecreasing(s) && NonDecreasing(t)
    requires multiset(s) == multiset(t)
    requires |s| > 0 && |t| > 0
    ensures s[0] == t[0]
  {
    assert s[0] in multiset(t) by { assert s[0] in multiset(s); }
    assert t[0] in multiset(s) by { assert t[0] in multiset(t); }
    var i :| 0 <= i < |t| && t[i] == s[0];
    var j :| 0 <= j < |s| && s[j] == t[0];
  }

  /** Dropping the head removes exactly one occurrence of it from the multiset. */
  lemma TailMultiset(s: seq<int>)
    requires |s| > 0
    ensures multiset(s[1..]) == multiset(s) - multiset{s[0]}
  {
    assert s == [s[0]] + s[1..];
  }

  /**
   `sorted` returns THE sorted rearrangement: any same-arity container whose
   slots are a non-decreasing permutation of `x` is the result.
   */
  lemma SortedIsUnique(x: OneToThree<int>, y: OneToThree<int>)
    requires Len(y) == Len(x)
    requires multiset(ToSeq(y)) == multiset(ToSeq(x))
    requires NonDecreasing(ToSeq(y))
    ensures Sorted(x) == y
  {
    SortedPermutationUnique(ToSeq(Sorted(x)), ToSeq(y));
    ToSeqInjective(Sorted(x), y);
  }

  /** Sorting an already sorted container changes nothing. */
  lemma SortedIdempotent(x: OneToThree<int>)
    ensures Sorted(Sorted(x)) == Sorted(x)
  {
    SortedIsUnique(Sorted(x), Sorted(x));
  }

  /** The examples of the source's sort test. */
  lemma SortedExamples()
    ensures Sorted(One(1)) == One(1)
    ensures Sorted(Two(5, 2)) == Two(2, 5)
    ensures Sorted(Two(1, 2)) == Two(1, 2)
    ensures Sorted(Three(1, 2, 1)) == Three(1, 1, 2)
    ensures Sorted(Three(3, 2, 1)) == Three(1, 2, 3)
    ensures Sorted(Three(3, 2, 4)) == Three(2, 3, 4)
    ensures Sorted(Three(1, 2, 3)) == Three(1, 2, 3)
    ensures Sorted(Three(1, 3, 2)) == Three(1, 2, 3)
    ensures Sorted(Three(2, 1, 3)) == Three(1, 2, 3)
    ensures Sorted(Three(3, 1, 2)) == Three(1, 2, 3)
  {
  }

  // ---------------------------------------------------------------------------
  // Mapping

  /** `map`: applies `f` to every slot, keeping the arity. */
  function Map<T, U>(x: OneToThree<T>, f: T -> U): (r: OneToThree<U>)
    ensures Len(r) == Len(x)
    ensures forall i :: 0 <= i < Len(x) ==> ToSeq(r)[i] == f(ToSeq(x)[i])
  {
    match x
    case One(a) => One(f(a))
    case Two(a, b) => Two(f(a), f(b))
    case Three(a, b, c) => Three(f(a), f(b), f(c))
  }

  /**
   `try_map`: applies `f` slot by slot with `?`, so the first `Err` in slot
   order is returned and later slots are not looked at. `Ok` exactly when every
   slot succeeds, and then the slots hold the unwrapped values.
   */
  function TryMap<T, U, E>(x: OneToThree<T>, f: T -> Result<U, E>): (r: Result<OneToThree<U>, E>)
    ensures r.Ok? <==> forall i :: 0 <= i < Len(x) ==> f(ToSeq(x)[i]).Ok?
    ensures r.Ok? ==> Len(r.value) == Len(x)
    ensures r.Ok? ==> forall i :: 0 <= i < Len(x) ==> ToSeq(r.value)[i] == f(ToSeq(x)[i]).value
    ensures r.Err? ==> exists k :: 0 <= k < Len(x) && FirstErr(ToSeq(x), f, k) && r.error == f(ToSeq(x)[k]).error
  {
    var xs := ToSeq(x);
    match x
    case One(a) =>
      var fa := f(a);
      if fa.Err? then
        assert FirstErr(xs, f, 0);
        Err(fa.error)
      else Ok(One(fa.value))
    case Two(a, b) =>
      var fa := f(a);
      if fa.Err? then
        assert FirstErr(xs, f, 0);
        Err(fa.error)
      else
      var fb := f(b);
      if fb.Err? then
        assert FirstErr(xs, f, 1);
        Err(fb.error)
      else Ok(Two(fa.value, fb.value))
    case Three(a, b, c) =>
      var fa := f(a);
      if fa.Err? then
        assert FirstErr(xs, f, 0);
        Err(fa.error)
      else
      var fb := f(b);
      if fb.Err? then
        assert FirstErr(xs, f, 1);
        Err(fb.error)
      else
      var fc := f(c);
      if fc.Err? then
        assert FirstErr(xs, f, 2);
        Err(fc.error)
      else Ok(Three(fa.value, fb.value, fc.value))
  }

  /** Slot `k` is the first one in `s` on which `f` fails. */
  predicate FirstErr<T, U, E>(s: seq<T>, f: T -> Result<U, E>, k: int) {
    0 <= k < |s| && f(s[k]).Err? && forall j :: 0 <= j < k ==> f(s[j]).Ok?
  }

  /**
   A reference for `try_map` on any sequence: walk left to right, stop at the
   first failure.
   */
  function TryMapSeq<T, U, E>(s: seq<T>, f: T -> Result<U, E>): (r: Result<seq<U>, E>)
    ensures r.Ok? <==> forall i :: 0 <= i < |s| ==> f(s[i]).Ok?
    ensures r.Ok? ==> |r.value| == |s| && forall i :: 0 <= i < |s| ==> r.value[i] == f(s[i]).value
    ensures r.Err? ==> exists k :: FirstErr(s, f, k) && r.error == f(s[k]).error
  {
    if |s| == 0 then Ok([])
    else
      var head := f(s[0]);
      if head.Err? then
        assert FirstErr(s, f, 0);
        Err(head.error)
      else
        var rest := TryMapSeq(s[1..], f);
        if rest.Err? then
          FirstErrShift(s, f, rest.error);
          Err(rest.error)
        else
          Ok([head.value] + rest.value)
  }

  /** A first failure in the tail of `s` is the first failure of `s` when the head succeeds. */
  lemma FirstErrShift<T, U, E>(s: seq<T>, f: T -> Result<U, E>, e: E)
    requires |s| > 0 && f(s[0]).Ok?
    requires exists k :: FirstErr(s[1..], f, k) && e == f(s[1..][k]).error
    ensures exists k :: FirstErr(s, f, k) && e == f(s[k]).error
  {
  }

  /** `try_map` on the container agrees with the sequence reference on its slots. */
  lemma TryMapMatchesSeq<T, U, E>(x: OneToThree<T>, f: T -> Result<U, E>)
    ensures TryMap(x, f).Ok? <==> TryMapSeq(ToSeq(x), f).Ok?
    ensures TryMap(x, f).Ok? ==> ToSeq(TryMap(x, f).value) == TryMapSeq(ToSeq(x), f).value
    ensures TryMap(x, f).Err? ==> TryMap(x, f).error == TryMapSeq(ToSeq(x), f).error
  {
  }

  /** When every slot succeeds, `try_map` is `map` of the unwrapped results. */
  lemma TryMapOkIsMap<T, U, E>(x: OneToThree<T>, f: T -> Result<U, E>, g: T -> U)
    requires forall i :: 0 <= i < Len(x) ==> f(ToSeq(x)[i]) == Ok(g(ToSeq(x)[i]))
    ensures TryMap(x, f) == Ok(Map(x, g))
  {
    ToSeqInjective(TryMap(x, f).value, Map(x, g));
  }

  /**
   The source's `map` test, with `n + 1` standing for `to_string`: each slot
   is transformed in place.
   */
  lemma MapExample()
    ensures Map(Three(1, 2, 3), (n: int) => n + 1) == Three(2, 3, 4)
  {
  }

  /**
   The source's `try_map` test, with the parsed strings standing for their
   numbers: an unsigned parse fails on the negative slot, a signed one succeeds.
   */
  lemma TryMapExample()
    ensures TryMap(Three(1, -2, 3), (n: int) => if n < 0 then Err("invalid digit") else Ok(n)).Err?
    ensures TryMap<int, int, string>(Three(1, -2, 3), (n: int) => Ok(n)) == Ok(Three(1, -2, 3))
  {
  }

  // ---------------------------------------------------------------------------
  // Equality

  /**
   `PartialEq::eq`, with the element type's `eq` as the parameter `eq`:
   the same variant, and `eq` holds slot by slot in slot order.
   */
  function Eq<T>(x: OneToThree<T>, y: OneToThree<T>, eq: (T, T) -> bool): (r: bool)
    ensures r <==> Len(x) == Len(y) && forall i :: 0 <= i < Len(x) ==> eq(ToSeq(x)[i], ToSeq(y)[i])
    ensures Len(x) != Len(y) ==> !r
  {
    match (x, y)
    case (One(a), One(b)) =>
      assert ToSeq(x)[0] == a && ToSeq(y)[0] == b;
      eq(a, b)
    case (Two(a, b), Two(c, d)) =>
      assert ToSeq(x)[0] == a && ToSeq(x)[1] == b;
      assert ToSeq(y)[0] == c && ToSeq(y)[1] == d;
      eq(a, c) && eq(b, d)
    case (Three(a, b, c), Three(d, e, f)) =>
      assert ToSeq(x)[0] == a && ToSeq(x)[1] == b && ToSeq(x)[2] == c;
      assert ToSeq(y)[0] == d && ToSeq(y)[1] == e && ToSeq(y)[2] == f;
      eq(a, d) && eq(b, e) && eq(c, f)
    case _ => false
  }

  /**
   When the elements' `eq` is value equality, `eq` on containers is value
   equality of the containers, i.e. equality of their `to_vec()`s.
   */
  lemma EqOfValueEquality<T>(x: OneToThree<T>, y: OneToThree<T>)
    ensures Eq(x, y, (a: T, b: T) => a == b) <==> x == y
    ensures Eq(x, y, (a: T, b: T) => a == b) <==> ToSeq(x) == ToSeq(y)
  {
  }

  /** A container is determined by its slots. */
  lemma ToSeqInjective<T>(x: OneToThree<T>, y: OneToThree<T>)
    requires ToSeq(x) == ToSeq(y)
    ensures x == y
  {
  }

  // ---------------------------------------------------------------------------
  // Iteration

  /** `OneToThreeIter`: a cursor over a container. */
  datatype Iter<T> = Iter(idx: nat, few: OneToThree<T>)

  /** `OneToThreeIter::new`: a cursor at slot 0. */
  function NewIter<T>(x: OneToThree<T>): (it: Iter<T>)
    ensures it.few == x && it.idx == 0
  {
    Iter(0, x)
  }

  /** `Iterator::next`: yields `get(idx)` and always advances the cursor. */
  function Next<T>(it: Iter<T>): (r: (Option<T>, Iter<T>))
    ensures r.0.Some? <==> it.idx < Len(it.few)
    ensures r.0.Some? ==> r.0.value == ToSeq(it.few)[it.idx]
    ensures r.1.few == it.few && r.1.idx == it.idx + 1
  {
    (Get(it.few, it.idx), Iter(it.idx + 1, it.few))
  }

  /** The outputs of `n` successive calls of `next`. */
  function NextN<T>(it: Iter<T>, n: nat): (outs: seq<Option<T>>)
    ensures |outs| == n
    decreases n
  {
    if n == 0 then [] else [Next(it).0] + NextN(Next(it).1, n - 1)
  }

  /**
   From cursor position `idx`, the k-th call of `next` yields slot `idx + k`
   while that is below the arity, and `None` from then on.
   */
  lemma {:induction false} NextNFrom<T>(it: Iter<T>, n: nat)
    ensures forall k :: 0 <= k < n ==>
      NextN(it, n)[k] == (if it.idx + k < Len(it.few) then Some(ToSeq(it.few)[it.idx + k]) else None)
    decreases n
  {
    if n > 0 {
      var nx := Next(it);
      NextNFrom(nx.1, n - 1);
      forall k | 0 <= k < n
        ensures NextN(it, n)[k] == (if it.idx + k < Len(it.few) then Some(ToSeq(it.few)[it.idx + k]) else None)
      {
        if k > 0 {
          assert NextN(it, n)[k] == NextN(nx.1, n - 1)[k - 1];
        }
      }
    }
  }

  /**
   Iterating a fresh cursor yields exactly the slots in order, then `None`
   on every later call.
   */
  lemma IterYieldsSlots<T>(x: OneToThree<T>, n: nat)
    ensures forall k :: 0 <= k < n && k < Len(x) ==> NextN(NewIter(x), n)[k] == Some(ToSeq(x)[k])
    ensures forall k :: Len(x) <= k < n ==> NextN(NewIter(x), n)[k] == None
  {
    NextNFrom(NewIter(x), n);
  }

  /** What a `for` loop over the cursor sees: call `next` until it returns `None`. */
  function Collect<T>(it: Iter<T>): (s: seq<T>)
    decreases 3 - it.idx
  {
    match Next(it).0
    case None => []
    case Some(v) => [v] + Collect(Next(it).1)
  }

  /** Collecting from cursor position `idx` yields the slots from `idx` on. */
  lemma {:induction false} CollectFrom<T>(it: Iter<T>)
    ensures Collect(it) == if it.idx < Len(it.few) then ToSeq(it.few)[it.idx..] else []
    decreases 3 - it.idx
  {
    if it.idx < Len(it.few) {
      CollectFrom(Next(it).1);
    }
  }

  /** A full iteration, the walk `Hash` makes over `iter()`, visits exactly `to_vec()`. */
  lemma CollectIsToSeq<T>(x: OneToThree<T>)
    ensures Collect(NewIter(x)) == ToSeq(x)
  {
    CollectFrom(NewIter(x));
  }

  // ---------------------------------------------------------------------------
  // Conversions

  /**
   `TryFrom<Vec<T>>`: pops `c`, then `b`, then `a` from the end of `v`.
   Empty input fails with "Empty vec"; one to three elements convert in order;
   from longer input only the last three elements are kept.
   */
  function TryFromVec<T>(v: seq<T>): (r: Result<OneToThree<T>, string>)
    ensures r.Err? <==> |v| == 0
    ensures r.Err? ==> r.error == EmptyVec
    ensures 1 <= |v| <= 3 ==> r.Ok? && ToSeq(r.value) == v
    ensures |v| > 3 ==> r.Ok? && r.value.Three? && ToSeq(r.value) == v[|v| - 3..]
  {
    var (c, v1) := StdVec.Pop(v);
    if c.None? then Err(EmptyVec)
    else
      var (b, v2) := StdVec.Pop(v1);
      if b.None? then Ok(One(c.value))
      else
        var (a, _) := StdVec.Pop(v2);
        if a.None? then Ok(Two(b.value, c.value))
        else Ok(Three(a.value, b.value, c.value))
  }

  /** Converting a container to a vector and back gives the container. */
  lemma TryFromVecRoundTrip<T>(x: OneToThree<T>)
    ensures TryFromVec(ToSeq(x)) == Ok(x)
  {
  }

  /** Examples: `[1, 2, 3]` converts in order, a fourth element in front is dropped, `[]` fails. */
  lemma TryFromVecExample()
    ensures TryFromVec([1, 2, 3]) == Ok(Three(1, 2, 3))
    ensures TryFromVec([0, 1, 2, 3]) == Ok(Three(1, 2, 3))
    ensures TryFromVec<int>([]) == Err(EmptyVec)
  {
  }

  /** `From<T>`: a single value. */
  function FromValue<T>(a: T): (r: OneToThree<T>)
    ensures ToSeq(r) == [a]
  {
    One(a)
  }

  /** `From<(T, T)>`: a pair, in order. */
  function FromPair<T>(t: (T, T)): (r: OneToThree<T>)
    ensures ToSeq(r) == [t.0, t.1]
  {
    Two(t.0, t.1)
  }

  /** `From<(T, T, T)>`: a triple, in order. */
  function FromTriple<T>(t: (T, T, T)): (r: OneToThree<T>)
    ensures ToSeq(r) == [t.0, t.1, t.2]
  {
    Three(t.0, t.1, t.2)
  }

  /** The tuple conversions agree with the vector conversion on the same elements. */
  lemma FromTuplesMatchTryFromVec<T>(a: T, b: T, c: T)
    ensures TryFromVec([a]) == Ok(FromValue(a))
    ensures TryFromVec([a, b]) == Ok(FromPair((a, b)))
    ensures TryFromVec([a, b, c]) == Ok(FromTriple((a, b, c)))
  {
  }
}
