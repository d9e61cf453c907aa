# kotlin-fp-techniques in Dafny

This project models the functional core of the Kotlin library *kotlin-fp-techniques*. It proves
what that core computes.

- **Monoid combinators and reductions** (`Monoid.kt`):
  - the private `Map.combine`, which merges two maps key by key with a value combiner, and its
    two uses `combineMergeMultimap` and `combineMergeNestedMaps`;
  - `productCombine`, the componentwise combine of pairs;
  - the `(sum, count)` fold inside `mean`;
  - two reductions of a list with a binary `combine` that return `null` for an empty list:
    `balancedReduce` (divide and conquer) and `eagerReduce` (repeated pairwise passes over a
    mutable list, written here as loops).
- **Parallel list helpers** (`Parallelism.kt`), for the values they compute:
  - `parallelBalancedReduce`;
  - both overloads of `parallelListMap`;
  - `parallelListFilter`.
- **Recursion** (`Recursion.kt`):
  - the tail-recursive `triangularNumber`, with Kotlin's 64-bit `Long` wrap-around written out;
  - `fibonacci`, as the plain recurrence together with a memo-table method.

Kotlin's `null` is `Option.None` (module `Nullable`). A `combine` or `transform` argument is a
Dafny function value. Associativity is stated as a hypothesis (`Monoid.Associative`) wherever a
property needs it.

The standard-library list operations the core is built from are in module `Collections`:
`fold`, `reduce`, `map`, `filter`, `filterNotNull`, `chunked`, `flatMap` and `sum`. They are
plain recursive definitions and serve as the sequential reference meaning. The main results are:

- both reductions equal `reduce` (a left fold) under an associative combine, and equal each other;
- the parallel helpers equal `balancedReduce`, `map` and `filter`.

The files are:

- `nullable.dfy`
- `collections.dfy`
- `monoid.dfy`
- `parallelism.dfy`
- `recursion.dfy`

Two points worth noting:

- **`Map.combine` in `Monoid.kt`.** Its comment says the library does not use Arrow's
  `Map.combine`, which has a known bug, and supplies its own. The model follows the private
  implementation in `Monoid.kt`.
- **`ParallelismTest.kt`.** The test calls `parallelListMap` and `parallelListFilter` with an
  argument named `maxCoroutineNumber`, but the source names the parameter `maxCoroutines`. The
  model follows the source; the test's values (1000 coroutines) are used as they are.

## Model

| member | source | states |
|---|---|---|
| Monoid.FoldEntries | src/main/kotlin/Monoid.kt:46-52 | Folding a map's entries onto an accumulator with `acc + (k to value(k, v))` gives the keys of both maps. Every folded key maps to its computed value, and every other accumulator key keeps its value. This holds whatever order the entries are visited in. |
| Monoid.FoldReceiverOntoOther | src/main/kotlin/Monoid.kt:46-48 | The branch taken when the receiver is smaller. Keys are the union; single-map keys keep their value; a shared key gets `valueCombine(receiver's, other's)`. |
| Monoid.FoldOtherOntoReceiver | src/main/kotlin/Monoid.kt:49-51 | The other branch gives the same four facts, again with the receiver's value first. |
| Monoid.Combine | src/main/kotlin/Monoid.kt:45-53 | `combine`: the key set is the union of both key sets. A key of only one map keeps that map's value. A shared key gets `valueCombine(receiver's value, other's value)`. |
| Monoid.CombineBranchesAgree | src/main/kotlin/Monoid.kt:45-53 | The two branches build the same map, so the result does not depend on which map is smaller. |
| Monoid.CombineMergeMultimap | src/main/kotlin/Monoid.kt:31-32 | Key union; a shared key's lists are concatenated, receiver's list first. |
| Monoid.CombineMergeNestedMaps | src/main/kotlin/Monoid.kt:37-40 | Key union; a shared key's inner maps are merged in turn by `combine` with string concatenation, receiver first. |
| Monoid.CombineMergeMultimapExample | src/test/kotlin/MonoidTest.kt:20-36 | Folding the four test multimaps from the empty map gives `ones = [1..6]`, `tens = [10..60]`. |
| Monoid.CombineMergeNestedMapsExample | src/test/kotlin/MonoidTest.kt:39-50 | Folding the two test nested maps gives `category = {1: "Alpha", 2: "Beta"}`. |
| Monoid.ProductCombine | src/main/kotlin/Monoid.kt:55-62 | `productCombine` assembles a product monoid: when both operations are associative the product is associative, and when each has an identity the pair of the two identities is the product's identity. |
| Monoid.ProductCombineKeepsComponentsApart | src/main/kotlin/Monoid.kt:60-62 | The first component of the product depends only on the operands' first components, and likewise for the second. |
| Monoid.ProductOfMonoids | src/main/kotlin/Monoid.kt:55-62 | Any operation on pairs that applies two operations componentwise is associative when both are, and has the pair of their identities as its identity. |
| Monoid.ProductCombineExample | src/test/kotlin/MonoidTest.kt:53-61 | `("Left", 4)` and `("Right", 1)` under `(plus, minus)` give `("LeftRight", 3)`. |
| Monoid.MeanStep | src/main/kotlin/Monoid.kt:69-73 | One step of the fold in `mean` adds the element to the running sum and 1 to the running count. |
| Monoid.MeanFoldAdds | src/main/kotlin/Monoid.kt:69-74 | Folding `productCombine(plus, plus)` with `(i, 1)` from any `(s, c)` gives `(s + sum, c + size)`. |
| Monoid.SumAndCount | src/main/kotlin/Monoid.kt:67-74 | The fold in `mean`, from the identity `(0, 0)`, yields the list's sum and its size. |
| Monoid.SumAndCountExample | src/test/kotlin/MonoidTest.kt:63-70 | `[1, 2, 3, 4, 5]` yields `(15, 5)`. |
| Monoid.ReduceAppend | src/main/kotlin/Monoid.kt:97-100 | Under an associative combine, reducing a concatenation of two non-empty lists combines the two reductions, left first. |
| Monoid.BalancedReduce | src/main/kotlin/Monoid.kt:88-102 | The result is null exactly when the list is empty, and a singleton gives its element. |
| Monoid.BalancedReduceIsReduce | src/main/kotlin/Monoid.kt:88-102 | Under an associative combine, the balanced reduction of a non-empty list is its left fold `reduce(combine)`. |
| Monoid.BalancedReduceExample | src/test/kotlin/MonoidTest.kt:73-79 | The five test strings reduce to `"abcdefghijklmno"`. |
| Monoid.ConcatReduceExample | src/test/kotlin/MonoidTest.kt:74-78 | `String::plus` is associative, and the left fold of the five test strings is `"abcdefghijklmno"`. |
| Monoid.PairwisePass | src/main/kotlin/Monoid.kt:116-122 | One pass turns a list of length n into one of length `(n+1)/2`. Element j is `combine(list[2j], list[2j+1])`, or `list[2j]` alone when it is the last element. |
| Monoid.PairwisePassKeepsReduce | src/main/kotlin/Monoid.kt:116-122 | Under an associative combine, a pass over a non-empty list leaves it non-empty and does not change its left fold. |
| Monoid.EagerReduction | src/main/kotlin/Monoid.kt:113-125 | What `eagerReduce` returns: null exactly for the empty list, the element of a singleton, otherwise the reduction of the pass. The recursion terminates because each pass shortens a list of two or more. |
| Monoid.EagerReductionIsReduce | src/main/kotlin/Monoid.kt:113-125 | Under an associative combine, the eager reduction of a non-empty list is its left fold. |
| Monoid.EagerReductionIsBalancedReduce | src/main/kotlin/Monoid.kt:88-125 | Under an associative combine, `eagerReduce` and `balancedReduce` agree on every list, the empty one included. |
| Monoid.EagerReduce | src/main/kotlin/Monoid.kt:113-125 | The loop that replaces the working list by its pass until at most one element is left returns the eager reduction of the input. |
| Monoid.CombinePairs | src/main/kotlin/Monoid.kt:116-122 | The `for (i in indices step 2)` loop that fills `shorterList` builds exactly the pass. |
| Monoid.EagerReductionExample | src/test/kotlin/MonoidTest.kt:82-88 | The five test strings reduce to `"abcdefghijklmno"`. |
| Monoid.BalancedReduceOfNullable | src/main/kotlin/Monoid.kt:88-102 | `balancedReduce` when the element type admits null: null for the empty list, and a singleton gives its element, which may itself be null. |
| Monoid.BalancedReduceOfNullableWithoutNulls | src/main/kotlin/Monoid.kt:88-102 | For an element type that admits null: when no element is null and `combine` of two non-null values is never null, `balancedReduce` computes what `Monoid.BalancedReduce` computes, and is null exactly for the empty list. |
| Monoid.NullablePlusIsAssociative | src/main/kotlin/Monoid.kt:100-101 | `plus` on nullable strings, where null reads as `"null"`, is associative. |
| Monoid.NullElementSkipsCombine | src/main/kotlin/Monoid.kt:100-101 | `balancedReduce(listOf<String?>(null, "a"), plus)` is `"a"`, while `reduce` and `eagerReduce` give `"nulla"`, although `plus` is associative. |
| Parallelism.ParallelBalancedReduce | src/main/kotlin/Parallelism.kt:32-52 | The result is null exactly when the list is empty, and a singleton gives its element. |
| Parallelism.ParallelBalancedReduceIsBalancedReduce | src/main/kotlin/Parallelism.kt:27-52 | The parallel reduction has the same value as `Monoid.balancedReduce` on every input. |
| Parallelism.ParallelBalancedReduceIsReduce | src/main/kotlin/Parallelism.kt:32-52 | Under an associative combine, the parallel reduction of a non-empty list is its left fold. |
| Parallelism.ParallelBalancedReduceExample | src/test/kotlin/ParallelismTest.kt:18-26 | The five test strings reduce to `"abcdefghijklmno"`. |
| Parallelism.ParallelListMap | src/main/kotlin/Parallelism.kt:60-64 | The unbounded parallel map is `list.map(transform)`: same length, same order. |
| Collections.Chunked | src/main/kotlin/Parallelism.kt:73 | `chunked(size)`: the chunks concatenate back to the list. Every chunk has between 1 and `size` elements. All but the last have exactly `size`. |
| Parallelism.ParallelListMapChunked | src/main/kotlin/Parallelism.kt:72-75 | The chunked parallel map fails exactly when `maxCoroutines < 1`, which `chunked` rejects. |
| Parallelism.FlatMapOfMappedChunks | src/main/kotlin/Parallelism.kt:73-75 | Mapping each chunk and concatenating the results maps the concatenated chunks. |
| Parallelism.ParallelListMapChunkedIsMap | src/main/kotlin/Parallelism.kt:72-75 | With `maxCoroutines >= 1` the result is `list.map(transform)` in order. Otherwise it is the `IllegalArgument` failure. |
| Parallelism.ParallelListMapChunkedExample | src/test/kotlin/ParallelismTest.kt:29-37 | `[1, 2, 3]` doubled with up to 1000 coroutines gives `[2, 4, 6]`. |
| Parallelism.ParallelListFilter | src/main/kotlin/Parallelism.kt:77-82 | The parallel filter fails exactly when `maxCoroutines < 1`. |
| Parallelism.FilterNotNullOfKeepIf | src/main/kotlin/Parallelism.kt:82 | Mapping each element to itself or null by the predicate, then dropping the nulls, is `filter`. |
| Parallelism.ParallelListFilterIsFilter | src/main/kotlin/Parallelism.kt:77-82 | With `maxCoroutines >= 1` the result is `list.filter(predicate)`. It is an order-preserving subsequence of the input and contains exactly the elements that satisfy the predicate. |
| Collections.FilterKeepsOrder | src/main/kotlin/Parallelism.kt:82 | `filter` keeps the elements satisfying the predicate in their original order (a subsequence). Every occurrence of a satisfying value is kept and no occurrence of any other value: the count of each value is its count in the input or 0. |
| Parallelism.ParallelListFilterExample | src/test/kotlin/ParallelismTest.kt:40-48 | The odd elements of `[1, 2, 3]` are `[1, 3]`. |
| Parallelism.ParallelListFilterOfNullable | src/main/kotlin/Parallelism.kt:77-82 | `parallelListFilter` on an element type that admits null fails exactly when `maxCoroutines < 1`, which `chunked` rejects. |
| Parallelism.ParallelListFilterOfNullableDropsNulls | src/main/kotlin/Parallelism.kt:77-82 | When the element type admits null, the result is the non-null elements among those satisfying the predicate. |
| Parallelism.NullElementIsDropped | src/main/kotlin/Parallelism.kt:82 | A null element is dropped even when it satisfies the predicate: `[null, 1]` with an always-true predicate gives `[1]`. |
| Recursion.WrapLong | src/main/kotlin/Recursion.kt:22 | `Long` addition wraps modulo 2^64: the result lies in `[Long.MIN_VALUE, Long.MAX_VALUE]`, differs from the exact value by a multiple of 2^64, and equals it when it is already a `Long`. |
| Recursion.WrapLongAdd | src/main/kotlin/Recursion.kt:22 | Wrapping an intermediate sum gives the same `Long` as wrapping only the final sum. |
| Recursion.TriangularNumber | src/main/kotlin/Recursion.kt:20-23 | The result is a `Long`, and `triangularNumber(0, acc) == acc`. |
| Recursion.TriangularNumberWraps | src/main/kotlin/Recursion.kt:20-23 | For every `n >= 0`, `triangularNumber(n, acc)` is `acc + n(n+1)/2` wrapped to a `Long`. |
| Recursion.TriangularNumberClosedForm | src/main/kotlin/Recursion.kt:20-23 | When `acc + n(n+1)/2` fits in a `Long`, the result is exactly `acc + n(n+1)/2`. |
| Recursion.TriangularNumberExample | src/test/kotlin/RecursionTest.kt:6-10 | `triangularNumber(10_000_000) == 50_000_005_000_000`. |
| Recursion.Fibonacci | src/main/kotlin/Recursion.kt:33-39 | The recurrence of `fibonacci`: its value is 0 only at 0, and `fibonacci(n) >= n - 1` from 2 on, so in the model (unbounded integers) the values grow without bound. |
| Recursion.FibonacciMemoized | src/main/kotlin/Recursion.kt:33-39 | Answering from the memo table, or computing from the two recursive calls and recording the result, returns `fibonacci(n)`. Every table entry stays correct, and no entry is lost. |
| Recursion.FibonacciExample | src/test/kotlin/RecursionTest.kt:13-17 | `fibonacci(70) == 190_392_490_709_135`. |

## Left out

- Coroutines are not modelled: `coroutineScope`, `async`/`await`, dispatchers and scheduling. Neither is the cancellation or eager failure of `awaitAll`. Each parallel helper is modelled by the value it returns. An exception thrown by `transform`, `combine` or `predicate` is not modelled; these are total functions here.
- `parallelFlowMergeMap` and `parallelFlowMergeFilter` are not modelled. Their emission order depends on `flatMapMerge` scheduling, so they have no deterministic value to state.
- `mean`'s final `Double` division is left out because it is floating point. Only the integer `(sum, count)` fold is modelled.
- Monoid.SumAndCount: does not model Kotlin `Int` (32-bit) overflow of the running sum and count. Both are unbounded integers here.
- Recursion.Fibonacci: is defined on unbounded integers, so its values grow without bound where Kotlin's `Long` wraps from n = 93 on.
- Recursion.FibonacciMemoized: computes with unbounded integers, so it does not model the `Long` overflow of `fibonacci(n)` for n ≥ 93. Negative `n` is excluded: for it the source recurses downwards past both base cases.
- Recursion.TriangularNumber: requires `n >= 0`. For negative `n` the source only reaches 0 after wrapping past `Long.MIN_VALUE`, some 2^64 calls later, which is not modelled.
- The cache inside Arrow's `MemoizedDeepRecursiveFunction` is not modelled. `Recursion.FibonacciMemoized` stands in for it with an explicit memo table passed in and returned.
- A map's iteration order is left open. `Monoid.FoldEntries` visits entries in an unspecified order, and its result is proved not to depend on it.
- Monoid.BalancedReduce: is modelled for element types that cannot be null. Kotlin's `T?` is then distinct from `T`, as `Option<T>` is from `T` here. When `T` admits null, a non-empty half that reduces to a null element is taken for an empty half. `balancedReduce(listOf<String?>(null, "a"), plus)` then returns `"a"` without calling `plus`, so `BalancedReduce`'s "null exactly for the empty list" and `Monoid.BalancedReduceIsReduce` do not hold. `Monoid.BalancedReduceOfNullable` models that case; see Findings.
- Monoid.EagerReduction: is modelled for element types that cannot be null. When `T` admits null, the model's "no result" and a null element are the same `null` in Kotlin (`Monoid.Flattened`): `eagerReduce(listOf<String?>(null))` is `null` for a non-empty list. The value is otherwise unchanged, since `eagerReduce` never tests an element for null; `[null, "a"]` with `plus` gives `"nulla"`, as `reduce` does.
- Parallelism.ParallelBalancedReduce: is modelled for element types that cannot be null, like `Monoid.BalancedReduce`. Parallelism.kt:47-51 has the same `?:` fallback, so for `listOf<String?>(null, "a")` it also returns `"a"`.
- `Map.combine` is modelled for non-null value types only, which is how the library uses it. The `?:` fallback for a `valueCombine` that returns null is not modelled.
- `Composing.kt`, `Currying.kt`, `PartialApplication.kt` and `MonadicContext.kt` are not part of this model. They are thin wrappers over Arrow and floating-point math.
- `runningTotal`, `runningAverage`, `runningDelta`, `runningTransformState` and `Action` are imported by `MonoidTest.kt` but do not appear in `Monoid.kt`. They are not part of this model.

## Findings

| source | as written | input that shows it | evidently intended | confidence | as-written member | corrected member |
|---|---|---|---|---|---|---|
| src/main/kotlin/Monoid.kt:100-101 | When `T` admits null, `leftResult ?: rightResult` treats a non-empty half that reduces to a null element as an empty half. It returns the other half's result without calling `combine`. | `balancedReduce(listOf<String?>(null, "a"), String?::plus)` returns `"a"`, while `reduce` and `eagerReduce` return `"nulla"`. | `null` stands only for the empty list, as the comment at Monoid.kt:86 says. `Monoid.BalancedReduce` keeps the two apart, and `Monoid.BalancedReduceIsReduce` proves its result is `reduce(combine)` for every associative `combine`. | medium, not executed | Monoid.NullElementSkipsCombine | Monoid.BalancedReduce |
