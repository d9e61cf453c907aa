/**
 The Kotlin standard-library list operations the library is built from (`fold`, `reduce`, `map`,
 `filter`, `filterNotNull`, `chunked`, `flatMap`, `sum`), written as plain recursive definitions.
 They are the sequential reference meaning against which the library's own algorithms are proved.
 */
module Collections {
  import opened Nullable

  /** `fold(initial, operation)`: accumulates from the left. */
  function FoldLeft<A, T>(acc: A, s: seq<T>, f: (A, T) -> A): A
    decreases |s|
  {
    if s == [] then acc else FoldLeft(f(acc, s[0]), s[1..], f)
  }

  /** `reduce(operation)` of a non-empty list: the left fold seeded with the first element. */
  function Reduce<T>(s: seq<T>, f: (T, T) -> T): T
    requires s != []
  {
    FoldLeft(s[0], s[1..], f)
  }

  /** Folding a concatenation folds the first part, then continues with the second. */
  lemma {:induction false} FoldLeftAppend<A, T>(acc: A, s: seq<T>, t: seq<T>, f: (A, T) -> A)
    ensures FoldLeft(acc, s + t, f) == FoldLeft(FoldLeft(acc, s, f), t, f)
    decreases |s|
  {
    if s == [] {
      assert s + t == t;
    } else {
      assert (s + t)[0] == s[0];
      assert (s + t)[1..] == s[1..] + t;
      FoldLeftAppend(f(acc, s[0]), s[1..], t, f);
    }
  }

  /** A fold over four elements applies the operation four times. */
  lemma FoldLeftOfFour<A, T>(acc: A, x1: T, x2: T, x3: T, x4: T, f: (A, T) -> A)
    ensures FoldLeft(acc, [x1, x2, x3, x4], f) == f(f(f(f(acc, x1), x2), x3), x4)
  {
    assert [x1, x2, x3, x4][1..] == [x2, x3, x4];
    assert [x2, x3, x4][1..] == [x3, x4];
    assert [x3, x4][1..] == [x4];
    var a3 := f(f(f(acc, x1), x2), x3);
    assert FoldLeft(a3, [x4], f) == f(a3, x4);
    assert FoldLeft(f(f(acc, x1), x2), [x3, x4], f) == f(a3, x4);
  }

  /** `sum()` of a list of integers. */
  function Sum(s: seq<int>): int
    decreases |s|
  {
    if s == [] then 0 else s[0] + Sum(s[1..])
  }

  /** `map(transform)`. */
  function Map<T, R>(s: seq<T>, f: T -> R): seq<R>
    decreases |s|
  {
    if s == [] then [] else [f(s[0])] + Map(s[1..], f)
  }

  /** `map` keeps the length and puts `f(s[i])` at position `i`. */
  lemma {:induction false} MapAt<T, R>(s: seq<T>, f: T -> R)
    ensures |Map(s, f)| == |s|
    ensures forall i :: 0 <= i < |s| ==> Map(s, f)[i] == f(s[i])
    decreases |s|
  {
    if s != [] {
      MapAt(s[1..], f);
      forall i | 0 <= i < |s|
        ensures Map(s, f)[i] == f(s[i])
      {
        if i > 0 {
          assert Map(s, f)[i] == Map(s[1..], f)[i - 1];
        }
      }
    }
  }

  /** `filter(predicate)`. */
  function Filter<T>(s: seq<T>, p: T -> bool): seq<T>
    decreases |s|
  {
    if s == [] then []
    else if p(s[0]) then [s[0]] + Filter(s[1..], p)
    else Filter(s[1..], p)
  }

  /** `filterNotNull()`: drops the nulls and keeps the order of the rest. */
  function FilterNotNull<T>(s: seq<Option<T>>): seq<T>
    decreases |s|
  {
    if s == [] then []
    else if s[0].Some? then [s[0].value] + FilterNotNull(s[1..])
    else FilterNotNull(s[1..])
  }

  /** `a` is obtained from `b` by deleting elements, keeping the order of the rest. */
  predicate IsSubsequence<T(==)>(a: seq<T>, b: seq<T>)
    decreases |b|
  {
    if a == [] then true
    else if b == [] then false
    else if a[0] == b[0] then IsSubsequence(a[1..], b[1..])
    else IsSubsequence(a, b[1..])
  }

  /**
   `filter` keeps exactly the elements that satisfy the predicate, in their original order: every
   occurrence of a satisfying value is kept and no other value is.
   */
  lemma {:induction false} FilterKeepsOrder<T>(s: seq<T>, p: T -> bool)
    ensures IsSubsequence(Filter(s, p), s)
    ensures forall x :: x in Filter(s, p) <==> x in s && p(x)
    ensures forall x :: multiset(Filter(s, p))[x] == if p(x) then multiset(s)[x] else 0
    decreases |s|
  {
    if s != [] {
      FilterKeepsOrder(s[1..], p);
      var rest := Filter(s[1..], p);
      if p(s[0]) {
        assert ([s[0]] + rest)[1..] == rest;
        assert multiset(Filter(s, p)) == multiset{s[0]} + multiset(rest);
      } else {
        SubsequenceOfTail(rest, s);
      }
      assert s == [s[0]] + s[1..];
      assert multiset(s) == multiset{s[0]} + multiset(s[1..]);
    }
  }

  /** A subsequence of the tail is a subsequence of the whole. */
  lemma {:induction false} SubsequenceOfTail<T>(a: seq<T>, b: seq<T>)
    requires b != [] && IsSubsequence(a, b[1..])
    ensures IsSubsequence(a, b)
    decreases |b|, 1
  {
    if a != [] && a[0] == b[0] {
      SubsequenceDropHead(a, b[1..]);
    }
  }

  /** Deleting the first element of a subsequence leaves a subsequence. */
  lemma {:induction false} SubsequenceDropHead<T>(a: seq<T>, c: seq<T>)
    requires a != [] && IsSubsequence(a, c)
    ensures IsSubsequence(a[1..], c)
    decreases |c| + 1, 0
  {
    if a[0] == c[0] {
      SubsequenceOfTail(a[1..], c);
    } else {
      SubsequenceDropHead(a, c[1..]);
      SubsequenceOfTail(a[1..], c);
    }
  }

  /** Concatenates a list of lists (`flatten()`). */
  function Flatten<T>(ss: seq<seq<T>>): seq<T>
    decreases |ss|
  {
    if ss == [] then [] else ss[0] + Flatten(ss[1..])
  }

  /** `flatMap(transform)`. */
  function FlatMap<T, R>(s: seq<T>, f: T -> seq<R>): seq<R>
  {
    Flatten(Map(s, f))
  }

  /**
   `chunked(size)`: consecutive chunks of `size` elements, the last one possibly shorter; the
   standard library rejects a non-positive size, so callers must check it first.
   */
  function Chunked<T>(s: seq<T>, size: int): (chunks: seq<seq<T>>)
    requires size >= 1
    ensures Flatten(chunks) == s
    ensures forall i :: 0 <= i < |chunks| ==> 1 <= |chunks[i]| <= size
    ensures forall i :: 0 <= i < |chunks| - 1 ==> |chunks[i]| == size
    decreases |s|
  {
    if |s| <= size then
      if s == [] then [] else [s]
    else
      var rest := Chunked(s[size..], size);
      assert ([s[..size]] + rest)[1..] == rest;
      assert s[..size] + s[size..] == s;
      [s[..size]] + rest
  }
}
