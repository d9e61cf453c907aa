/**
 The values computed by the parallel list helpers. Coroutines only decide when the pieces of work
 run; each helper's result is a function of its inputs, and here it is proved equal to the
 sequential operation it parallelises.
 */
module Parallelism {
  import opened Nullable
  import opened Collections
  import Monoid

  /**
   `parallelBalancedReduce(list, combine)`: the split of `balancedReduce`, with the two halves
   reduced by two concurrent tasks that are both awaited before their results are combined,
   left result first.
   */
  function ParallelBalancedReduce<T>(list: seq<T>, combine: (T, T) -> T): (r: Option<T>)
    ensures r.None? <==> list == []
    ensures |list| == 1 ==> r == Some(list[0])
    decreases |list|
  {
    if |list| == 0 then None
    else if |list| == 1 then Some(list[0])
    else
      var middle := |list| / 2;
      var leftResult := ParallelBalancedReduce(list[..middle], combine);
      var rightResult := ParallelBalancedReduce(list[middle..], combine);
      if leftResult.Some? && rightResult.Some? then Some(combine(leftResult.value, rightResult.value))
      else if leftResult.Some? then leftResult
      else rightResult
  }

  /** The parallel reduction computes the same value as the sequential balanced reduction. */
  lemma {:induction false} ParallelBalancedReduceIsBalancedReduce<T>(list: seq<T>, combine: (T, T) -> T)
    ensures ParallelBalancedReduce(list, combine) == Monoid.BalancedReduce(list, combine)
    decreases |list|
  {
    if |list| > 1 {
      var middle := |list| / 2;
      ParallelBalancedReduceIsBalancedReduce(list[..middle], combine);
      ParallelBalancedReduceIsBalancedReduce(list[middle..], combine);
    }
  }

  /** For an associative combine, the parallel reduction of a non-empty list is its left fold. */
  lemma ParallelBalancedReduceIsReduce<T(!new)>(list: seq<T>, combine: (T, T) -> T)
    requires Monoid.Associative(combine) && list != []
    ensures ParallelBalancedReduce(list, combine) == Some(Reduce(list, combine))
  {
    ParallelBalancedReduceIsBalancedReduce(list, combine);
    Monoid.BalancedReduceIsReduce(list, combine);
  }

  /** The library's test: five strings reduced in parallel with concatenation. */
  lemma ParallelBalancedReduceExample()
    ensures ParallelBalancedReduce(["abc", "def", "ghi", "jkl", "mno"], Monoid.Concat) == Some("abcdefghijklmno")
  {
    ParallelBalancedReduceIsBalancedReduce(["abc", "def", "ghi", "jkl", "mno"], Monoid.Concat);
    Monoid.BalancedReduceExample();
  }

  /**
   `parallelListMap(list, transform)`: one task per element, each computing the transform of its
   own element; awaiting them all collects the results by position, so the result is
   `list.map(transform)`: same length, same order.
   */
  function ParallelListMap<T, R>(list: seq<T>, transform: T -> R): (r: seq<R>)
    ensures r == Map(list, transform)
  {
    MapAt(list, transform);
    seq(|list|, i requires 0 <= i < |list| => transform(list[i]))
  }

  /** The failure `chunked` raises for a size that is not positive. */
  datatype Failure = IllegalArgument(size: int)

  /** A value, or the failure that aborted the computation. */
  datatype Result<T> = Ok(value: T) | Err(failure: Failure)

  /**
   `parallelListMap(list, maxCoroutines, transform)`: the list cut into chunks of `maxCoroutines`
   elements, each chunk mapped in parallel, the chunk results concatenated in order. A
   non-positive `maxCoroutines` fails before any work starts.
   */
  function ParallelListMapChunked<T, R>(list: seq<T>, maxCoroutines: int, transform: T -> R): (r: Result<seq<R>>)
    ensures r.Err? <==> maxCoroutines < 1
  {
    if maxCoroutines < 1 then Err(IllegalArgument(maxCoroutines))
    else Ok(FlatMap(Chunked(list, maxCoroutines), (chunk: seq<T>) => ParallelListMap(chunk, transform)))
  }

  /** Mapping every chunk and concatenating the results maps the concatenation of the chunks. */
  lemma {:induction false} FlatMapOfMappedChunks<T, R>(chunks: seq<seq<T>>, transform: T -> R)
    ensures FlatMap(chunks, (chunk: seq<T>) => ParallelListMap(chunk, transform)) == Map(Flatten(chunks), transform)
    decreases |chunks|
  {
    var mapChunk := (chunk: seq<T>) => ParallelListMap(chunk, transform);
    if chunks != [] {
      FlatMapOfMappedChunks(chunks[1..], transform);
      MapAppend(chunks[0], Flatten(chunks[1..]), transform);
      assert Map(chunks, mapChunk) == [mapChunk(chunks[0])] + Map(chunks[1..], mapChunk);
      assert ([mapChunk(chunks[0])] + Map(chunks[1..], mapChunk))[1..] == Map(chunks[1..], mapChunk);
    }
  }

  /** `map` distributes over concatenation. */
  lemma {:induction false} MapAppend<T, R>(s: seq<T>, t: seq<T>, f: T -> R)
    ensures Map(s + t, f) == Map(s, f) + Map(t, f)
    decreases |s|
  {
    if s == [] {
      assert s + t == t;
    } else {
      assert (s + t)[0] == s[0];
      assert (s + t)[1..] == s[1..] + t;
      MapAppend(s[1..], t, f);
    }
  }

  /**
   With at least one coroutine per chunk, the chunked parallel map is `list.map(transform)`; with
   none it fails.
   */
  lemma ParallelListMapChunkedIsMap<T, R>(list: seq<T>, maxCoroutines: int, transform: T -> R)
    ensures maxCoroutines >= 1 ==> ParallelListMapChunked(list, maxCoroutines, transform) == Ok(Map(list, transform))
    ensures maxCoroutines < 1 ==> ParallelListMapChunked(list, maxCoroutines, transform) == Err(IllegalArgument(maxCoroutines))
  {
    if maxCoroutines >= 1 {
      FlatMapOfMappedChunks(Chunked(list, maxCoroutines), transform);
    }
  }

  /** The transform of the library's test, `{ it * 2 }`. */
  function Double(x: int): int
  {
    x * 2
  }

  /** The library's test: `[1, 2, 3]` doubled with up to 1000 coroutines. */
  lemma ParallelListMapChunkedExample()
    ensures ParallelListMapChunked([1, 2, 3], 1000, Double) == Ok([2, 4, 6])
  {
    ParallelListMapChunkedIsMap([1, 2, 3], 1000, Double);
    assert [1, 2, 3][1..] == [2, 3] && [2, 3][1..] == [3] && [3][1..] == [];
    assert Map([3], Double) == [6];
    assert Map([2, 3], Double) == [4, 6];
    assert Map([1, 2, 3], Double) == [2, 4, 6];
  }

  /** What `parallelListFilter` maps each element to before dropping the nulls. */
  function KeepIf<T>(pred: T -> bool): T -> Option<T>
  {
    (x: T) => if pred(x) then Some(x) else None
  }

  /**
   `parallelListFilter(list, maxCoroutines, pred)`: a chunked parallel map of each element to
   itself or to null, depending on the predicate, followed by `filterNotNull`.
   */
  function ParallelListFilter<T>(list: seq<T>, maxCoroutines: int, pred: T -> bool): (r: Result<seq<T>>)
    ensures r.Err? <==> maxCoroutines < 1
  {
    match ParallelListMapChunked(list, maxCoroutines, KeepIf(pred))
    case Err(failure) => Err(failure)
    case Ok(kept) => Ok(FilterNotNull(kept))
  }

  /** Mapping to "the element or null" and dropping the nulls is `filter`. */
  lemma {:induction false} FilterNotNullOfKeepIf<T>(list: seq<T>, pred: T -> bool)
    ensures FilterNotNull(Map(list, KeepIf(pred))) == Filter(list, pred)
    decreases |list|
  {
    if list != [] {
      FilterNotNullOfKeepIf(list[1..], pred);
      var mapped := Map(list, KeepIf(pred));
      assert mapped == [KeepIf(pred)(list[0])] + Map(list[1..], KeepIf(pred));
      assert mapped[1..] == Map(list[1..], KeepIf(pred));
    }
  }

  /**
   With at least one coroutine per chunk, the parallel filter is `list.filter(pred)`: it keeps
   exactly the elements satisfying the predicate, in their original order.
   */
  lemma ParallelListFilterIsFilter<T>(list: seq<T>, maxCoroutines: int, pred: T -> bool)
    requires maxCoroutines >= 1
    ensures ParallelListFilter(list, maxCoroutines, pred) == Ok(Filter(list, pred))
    ensures IsSubsequence(Filter(list, pred), list)
    ensures forall x :: x in Filter(list, pred) <==> x in list && pred(x)
  {
    ParallelListMapChunkedIsMap(list, maxCoroutines, KeepIf(pred));
    FilterNotNullOfKeepIf(list, pred);
    FilterKeepsOrder(list, pred);
  }

  /** The predicate of the library's test, `{ it % 2 != 0 }`. */
  predicate IsOdd(x: int)
  {
    x % 2 != 0
  }

  /** The library's test: the odd elements of `[1, 2, 3]`. */
  lemma ParallelListFilterExample()
    ensures ParallelListFilter([1, 2, 3], 1000, IsOdd) == Ok([1, 3])
  {
    ParallelListFilterIsFilter([1, 2, 3], 1000, IsOdd);
    assert [1, 2, 3][1..] == [2, 3] && [2, 3][1..] == [3] && [3][1..] == [];
    assert Filter([3], IsOdd) == [3];
    assert Filter([2, 3], IsOdd) == [3];
    assert Filter([1, 2, 3], IsOdd) == [1, 3];
  }

  /**
   `parallelListFilter` on a list whose element type admits null (elements `Option<U>`): the
   element itself is kept when the predicate holds, so a null element is dropped by
   `filterNotNull` whether or not it satisfies the predicate.
   */
  function ParallelListFilterOfNullable<U>(list: seq<Option<U>>, maxCoroutines: int, pred: Option<U> -> bool)
    : (r: Result<seq<U>>)
    ensures r.Err? <==> maxCoroutines < 1
  {
    match ParallelListMapChunked(list, maxCoroutines, (x: Option<U>) => if pred(x) then x else None)
    case Err(failure) => Err(failure)
    case Ok(kept) => Ok(FilterNotNull(kept))
  }

  /** On such a list the result is the non-null elements that satisfy the pred, in order. */
  lemma ParallelListFilterOfNullableDropsNulls<U>(list: seq<Option<U>>, maxCoroutines: int, pred: Option<U> -> bool)
    requires maxCoroutines >= 1
    ensures ParallelListFilterOfNullable(list, maxCoroutines, pred) == Ok(FilterNotNull(Filter(list, pred)))
  {
    var keep := (x: Option<U>) => if pred(x) then x else None;
    ParallelListMapChunkedIsMap(list, maxCoroutines, keep);
    FilterNotNullOfNullableKeep(list, pred);
  }

  lemma {:induction false} FilterNotNullOfNullableKeep<U>(list: seq<Option<U>>, pred: Option<U> -> bool)
    ensures FilterNotNull(Map(list, (x: Option<U>) => if pred(x) then x else None))
         == FilterNotNull(Filter(list, pred))
    decreases |list|
  {
    var keep := (x: Option<U>) => if pred(x) then x else None;
    if list != [] {
      FilterNotNullOfNullableKeep(list[1..], pred);
      var mapped := Map(list, keep);
      assert mapped == [keep(list[0])] + Map(list[1..], keep);
      assert mapped[1..] == Map(list[1..], keep);
      if pred(list[0]) {
        assert ([list[0]] + Filter(list[1..], pred))[1..] == Filter(list[1..], pred);
      }
    }
  }

  /** A predicate that every element, null included, satisfies. */
  predicate AcceptAll(x: Option<int>)
  {
    true
  }

  /** A null element that satisfies the predicate still disappears from the result. */
  lemma NullElementIsDropped()
    ensures ParallelListFilterOfNullable([None, Some(1)], 1000, AcceptAll) == Ok([1])
  {
    ParallelListFilterOfNullableDropsNulls([None, Some(1)], 1000, AcceptAll);
    assert [None, Some(1)][1..] == [Some(1)] && [Some(1)][1..] == [];
    assert Filter([Some(1)], AcceptAll) == [Some(1)];
    assert Filter([None, Some(1)], AcceptAll) == [None, Some(1)];
    assert FilterNotNull([Some(1)]) == [1];
    assert FilterNotNull([None, Some(1)]) == [1];
  }
}
