/**
 Monoid combinators and reductions: a key-wise map merge, the product of two combine operations,
 the single-pass `(sum, count)` fold behind `mean`, and two reductions of a list with a binary
 combine operation, balanced (divide and conquer) and eager (repeated pairwise passes).
 */
module Monoid {
  import opened Nullable
  import opened Collections

  /** The combine operation of a semigroup: grouping does not matter, operand order does. */
  ghost predicate Associative<T(!new)>(f: (T, T) -> T) {
    forall a, b, c :: f(f(a, b), c) == f(a, f(b, c))
  }

  /** `e` is a two-sided identity of `f`. */
  ghost predicate IsIdentity<T(!new)>(f: (T, T) -> T, e: T) {
    forall a :: f(e, a) == a && f(a, e) == a
  }

  // ---------------------------------------------------------------------------------------------
  // Map.combine

  /**
   `entries.fold(acc) { acc, (k, v) -> acc + (k to value(k, v)) }`. Each entry is visited once; the
   order in which the map hands out its entries is not fixed here, and none is needed since every
   visit writes a different key.
   */
  ghost function FoldEntries<K, V>(entries: map<K, V>, acc: map<K, V>, value: (K, V) -> V): (r: map<K, V>)
    ensures r.Keys == acc.Keys + entries.Keys
    ensures forall k :: k in entries ==> r[k] == value(k, entries[k])
    ensures forall k :: k in acc && k !in entries ==> r[k] == acc[k]
    decreases |entries|
  {
    if entries == map[] then acc
    else
      var k :| k in entries;
      var r := FoldEntries(entries - {k}, acc[k := value(k, entries[k])], value);
      FoldEntriesStep(entries, acc, value, k, r);
      r
  }

  /** One visit of `combine`'s fold: writing entry `k` first, then folding the rest, covers every entry. */
  lemma FoldEntriesStep<K, V>(entries: map<K, V>, acc: map<K, V>, value: (K, V) -> V, k: K, r: map<K, V>)
    requires k in entries
    requires r.Keys == acc[k := value(k, entries[k])].Keys + (entries - {k}).Keys
    requires forall j :: j in entries - {k} ==> r[j] == value(j, entries[j])
    requires forall j :: j in acc[k := value(k, entries[k])] && j !in entries - {k} ==> r[j] == acc[k := value(k, entries[k])][j]
    ensures r.Keys == acc.Keys + entries.Keys
    ensures forall j :: j in entries ==> r[j] == value(j, entries[j])
    ensures forall j :: j in acc && j !in entries ==> r[j] == acc[j]
  {
    forall j | j in entries
      ensures r[j] == value(j, entries[j])
    {
      if j != k {
        assert j in entries - {k};
      }
    }
  }

  /** The branch taken when the receiver is the smaller map: its entries are folded onto `other`. */
  ghost function FoldReceiverOntoOther<K, V>(receiver: map<K, V>, other: map<K, V>, valueCombine: (V, V) -> V): (r: map<K, V>)
    ensures r.Keys == receiver.Keys + other.Keys
    ensures forall k :: k in receiver && k !in other ==> r[k] == receiver[k]
    ensures forall k :: k !in receiver && k in other ==> r[k] == other[k]
    ensures forall k :: k in receiver && k in other ==> r[k] == valueCombine(receiver[k], other[k])
  {
    FoldEntries(receiver, other, (k: K, v: V) => if k in other then valueCombine(v, other[k]) else v)
  }

  /** The other branch: the entries of `other` are folded onto the receiver. */
  ghost function FoldOtherOntoReceiver<K, V>(receiver: map<K, V>, other: map<K, V>, valueCombine: (V, V) -> V): (r: map<K, V>)
    ensures r.Keys == receiver.Keys + other.Keys
    ensures forall k :: k in receiver && k !in other ==> r[k] == receiver[k]
    ensures forall k :: k !in receiver && k in other ==> r[k] == other[k]
    ensures forall k :: k in receiver && k in other ==> r[k] == valueCombine(receiver[k], other[k])
  {
    FoldEntries(other, receiver, (k: K, v: V) => if k in receiver then valueCombine(receiver[k], v) else v)
  }

  /**
   `receiver.combine(other, valueCombine)`: folds the smaller map onto the larger one. The keys are
   those of both maps; a key of only one map keeps that map's value; a shared key gets
   `valueCombine(receiver's value, other's value)`, the receiver's value always first.
   */
  ghost function Combine<K, V>(receiver: map<K, V>, other: map<K, V>, valueCombine: (V, V) -> V): (r: map<K, V>)
    ensures r.Keys == receiver.Keys + other.Keys
    ensures forall k :: k in receiver && k !in other ==> r[k] == receiver[k]
    ensures forall k :: k !in receiver && k in other ==> r[k] == other[k]
    ensures forall k :: k in receiver && k in other ==> r[k] == valueCombine(receiver[k], other[k])
  {
    if |receiver| < |other| then FoldReceiverOntoOther(receiver, other, valueCombine)
    else FoldOtherOntoReceiver(receiver, other, valueCombine)
  }

  /** Both branches of `combine` build the same map, so the result does not depend on the sizes. */
  lemma CombineBranchesAgree<K, V>(receiver: map<K, V>, other: map<K, V>, valueCombine: (V, V) -> V)
    ensures FoldReceiverOntoOther(receiver, other, valueCombine) == FoldOtherOntoReceiver(receiver, other, valueCombine)
  {
    var a := FoldReceiverOntoOther(receiver, other, valueCombine);
    var b := FoldOtherOntoReceiver(receiver, other, valueCombine);
    assert a.Keys == b.Keys;
    forall k | k in a
      ensures a[k] == b[k]
    {
    }
  }

  /** Merges two multimaps, concatenating the lists of a shared key receiver-first. */
  ghost function CombineMergeMultimap(map1: map<string, seq<int>>, map2: map<string, seq<int>>): (r: map<string, seq<int>>)
    ensures r.Keys == map1.Keys + map2.Keys
    ensures forall k :: k in map1 && k !in map2 ==> r[k] == map1[k]
    ensures forall k :: k !in map1 && k in map2 ==> r[k] == map2[k]
    ensures forall k :: k in map1 && k in map2 ==> r[k] == map1[k] + map2[k]
  {
    Combine(map1, map2, (list1: seq<int>, list2: seq<int>) => list1 + list2)
  }

  /** `String::plus`. */
  function Concat(s1: string, s2: string): string
  {
    s1 + s2
  }

  /** Merges two maps of maps: the inner maps are merged in turn, concatenating shared strings. */
  ghost function CombineMergeNestedMaps(map1: map<string, map<int, string>>, map2: map<string, map<int, string>>)
    : (r: map<string, map<int, string>>)
    ensures r.Keys == map1.Keys + map2.Keys
    ensures forall k :: k in map1 && k !in map2 ==> r[k] == map1[k]
    ensures forall k :: k !in map1 && k in map2 ==> r[k] == map2[k]
    ensures forall k :: k in map1 && k in map2 ==>
      r[k] == Combine(map1[k], map2[k], Concat)
  {
    Combine(map1, map2, (inner1: map<int, string>, inner2: map<int, string>) => Combine(inner1, inner2, Concat))
  }

  /** Folding the four multimaps of the library's test from the empty map. */
  lemma CombineMergeMultimapExample()
    ensures FoldLeft(map[], [map["ones" := [1, 2, 3]], map["tens" := [10, 20, 30]],
                             map["ones" := [4, 5, 6]], map["tens" := [40, 50, 60]]], CombineMergeMultimap)
         == map["ones" := [1, 2, 3, 4, 5, 6], "tens" := [10, 20, 30, 40, 50, 60]]
  {
    FoldLeftOfFour(map[], map["ones" := [1, 2, 3]], map["tens" := [10, 20, 30]],
                   map["ones" := [4, 5, 6]], map["tens" := [40, 50, 60]], CombineMergeMultimap);
    MultimapExampleStep1();
    MultimapExampleStep2();
    MultimapExampleStep3(map["ones" := [1, 2, 3], "tens" := [10, 20, 30]], map["ones" := [4, 5, 6]]);
    MultimapExampleStep4(map["ones" := [1, 2, 3, 4, 5, 6], "tens" := [10, 20, 30]], map["tens" := [40, 50, 60]]);
  }

  lemma MultimapExampleStep1()
    ensures CombineMergeMultimap(map[], map["ones" := [1, 2, 3]]) == map["ones" := [1, 2, 3]]
  {
  }

  lemma MultimapExampleStep2()
    ensures CombineMergeMultimap(map["ones" := [1, 2, 3]], map["tens" := [10, 20, 30]])
         == map["ones" := [1, 2, 3], "tens" := [10, 20, 30]]
  {
  }

  lemma MultimapExampleStep3(map1: map<string, seq<int>>, map2: map<string, seq<int>>)
    requires map1 == map["ones" := [1, 2, 3], "tens" := [10, 20, 30]] && map2 == map["ones" := [4, 5, 6]]
    ensures CombineMergeMultimap(map1, map2) == map["ones" := [1, 2, 3, 4, 5, 6], "tens" := [10, 20, 30]]
  {
    assert "tens" != "ones";
    assert [1, 2, 3] + [4, 5, 6] == [1, 2, 3, 4, 5, 6];
    MapOfTwoKeys(CombineMergeMultimap(map1, map2), "ones", [1, 2, 3, 4, 5, 6], "tens", [10, 20, 30]);
  }

  lemma MultimapExampleStep4(map1: map<string, seq<int>>, map2: map<string, seq<int>>)
    requires map1 == map["ones" := [1, 2, 3, 4, 5, 6], "tens" := [10, 20, 30]] && map2 == map["tens" := [40, 50, 60]]
    ensures CombineMergeMultimap(map1, map2) == map["ones" := [1, 2, 3, 4, 5, 6], "tens" := [10, 20, 30, 40, 50, 60]]
  {
    assert "tens" != "ones";
    assert [10, 20, 30] + [40, 50, 60] == [10, 20, 30, 40, 50, 60];
    MapOfTwoKeys(CombineMergeMultimap(map1, map2), "ones", [1, 2, 3, 4, 5, 6], "tens", [10, 20, 30, 40, 50, 60]);
  }

  /** Folding the two nested maps of the library's test gives "Alpha" and "Beta". */
  lemma CombineMergeNestedMapsExample()
    ensures FoldLeft(map[], [map["category" := map[1 := "A", 2 := "B"]], map["category" := map[1 := "lpha", 2 := "eta"]]],
                     CombineMergeNestedMaps)
         == map["category" := map[1 := "Alpha", 2 := "Beta"]]
  {
    var m1, m2 := map["category" := map[1 := "A", 2 := "B"]], map["category" := map[1 := "lpha", 2 := "eta"]];
    NestedMapsExampleStep1();
    NestedMapsExampleStep2();
    assert [m1, m2][1..] == [m2];
    assert FoldLeft(m1, [m2], CombineMergeNestedMaps) == FoldLeft(CombineMergeNestedMaps(m1, m2), [], CombineMergeNestedMaps);
  }

  lemma NestedMapsExampleStep1()
    ensures CombineMergeNestedMaps(map[], map["category" := map[1 := "A", 2 := "B"]])
         == map["category" := map[1 := "A", 2 := "B"]]
  {
  }

  lemma NestedMapsExampleStep2()
    ensures CombineMergeNestedMaps(map["category" := map[1 := "A", 2 := "B"]], map["category" := map[1 := "lpha", 2 := "eta"]])
         == map["category" := map[1 := "Alpha", 2 := "Beta"]]
  {
    NestedMapsExampleInner(map[1 := "A", 2 := "B"], map[1 := "lpha", 2 := "eta"]);
  }

  lemma NestedMapsExampleInner(inner1: map<int, string>, inner2: map<int, string>)
    requires inner1 == map[1 := "A", 2 := "B"] && inner2 == map[1 := "lpha", 2 := "eta"]
    ensures Combine(inner1, inner2, Concat) == map[1 := "Alpha", 2 := "Beta"]
  {
    NestedMapsExampleInnerEntries(inner1, inner2);
    NestedMapsExampleStrings();
    MapOfTwoKeys(Combine(inner1, inner2, Concat), 1, "Alpha", 2, "Beta");
  }

  lemma NestedMapsExampleInnerEntries(inner1: map<int, string>, inner2: map<int, string>)
    requires inner1 == map[1 := "A", 2 := "B"] && inner2 == map[1 := "lpha", 2 := "eta"]
    ensures Combine(inner1, inner2, Concat).Keys == {1, 2}
    ensures Combine(inner1, inner2, Concat)[1] == Concat("A", "lpha")
    ensures Combine(inner1, inner2, Concat)[2] == Concat("B", "eta")
  {
  }

  lemma MapOfTwoKeys<K, V>(m: map<K, V>, k1: K, v1: V, k2: K, v2: V)
    requires m.Keys == {k1, k2} && m[k1] == v1 && m[k2] == v2
    ensures m == map[k1 := v1, k2 := v2]
  {
  }

  lemma NestedMapsExampleStrings()
    ensures Concat("A", "lpha") == "Alpha" && Concat("B", "eta") == "Beta"
  {
  }

  // ---------------------------------------------------------------------------------------------
  // productCombine and mean

  /**
   The product of two combine operations, applied componentwise to pairs. It assembles two monoids
   into a product monoid whose identity is the pair of the two identities.
   */
  function ProductCombine<L(!new), R(!new)>(leftCombine: (L, L) -> L, rightCombine: (R, R) -> R): (product: ((L, R), (L, R)) -> (L, R))
    ensures Associative(leftCombine) && Associative(rightCombine) ==> Associative(product)
    ensures forall leftIdentity: L, rightIdentity: R ::
      IsIdentity(leftCombine, leftIdentity) && IsIdentity(rightCombine, rightIdentity) ==>
        IsIdentity(product, (leftIdentity, rightIdentity))
  {
    var product := (pair1: (L, R), pair2: (L, R)) => (leftCombine(pair1.0, pair2.0), rightCombine(pair1.1, pair2.1));
    ProductOfMonoids(leftCombine, rightCombine, product);
    product
  }

  /**
   The product never mixes components: the first component of the result depends only on the
   first components of the operands, the second only on the second ones.
   */
  lemma ProductCombineKeepsComponentsApart<L(!new), R(!new)>(leftCombine: (L, L) -> L, rightCombine: (R, R) -> R,
                                                  pair1: (L, R), pair2: (L, R), other1: (L, R), other2: (L, R))
    ensures pair1.0 == other1.0 && pair2.0 == other2.0 ==>
      ProductCombine(leftCombine, rightCombine)(pair1, pair2).0 == ProductCombine(leftCombine, rightCombine)(other1, other2).0
    ensures pair1.1 == other1.1 && pair2.1 == other2.1 ==>
      ProductCombine(leftCombine, rightCombine)(pair1, pair2).1 == ProductCombine(leftCombine, rightCombine)(other1, other2).1
  {
  }

  /**
   An operation that combines pairs componentwise with two associative operations is associative,
   and the pair of their identities is its identity.
   */
  lemma ProductOfMonoids<L(!new), R(!new)>(leftCombine: (L, L) -> L, rightCombine: (R, R) -> R, product: ((L, R), (L, R)) -> (L, R))
    requires forall pair1: (L, R), pair2: (L, R) ::
      product(pair1, pair2) == (leftCombine(pair1.0, pair2.0), rightCombine(pair1.1, pair2.1))
    ensures Associative(leftCombine) && Associative(rightCombine) ==> Associative(product)
    ensures forall leftIdentity: L, rightIdentity: R ::
      IsIdentity(leftCombine, leftIdentity) && IsIdentity(rightCombine, rightIdentity) ==>
        IsIdentity(product, (leftIdentity, rightIdentity))
  {
    if Associative(leftCombine) && Associative(rightCombine) {
      forall a: (L, R), b: (L, R), c: (L, R)
        ensures product(product(a, b), c) == product(a, product(b, c))
      {
        assert leftCombine(leftCombine(a.0, b.0), c.0) == leftCombine(a.0, leftCombine(b.0, c.0));
        assert rightCombine(rightCombine(a.1, b.1), c.1) == rightCombine(a.1, rightCombine(b.1, c.1));
      }
    }
    forall leftIdentity: L, rightIdentity: R |
      IsIdentity(leftCombine, leftIdentity) && IsIdentity(rightCombine, rightIdentity)
      ensures IsIdentity(product, (leftIdentity, rightIdentity))
    {
      forall a: (L, R)
        ensures product((leftIdentity, rightIdentity), a) == a && product(a, (leftIdentity, rightIdentity)) == a
      {
        assert leftCombine(leftIdentity, a.0) == a.0 && leftCombine(a.0, leftIdentity) == a.0;
        assert rightCombine(rightIdentity, a.1) == a.1 && rightCombine(a.1, rightIdentity) == a.1;
      }
    }
  }

  /** The library's test: `("Left", 4)` with `("Right", 1)` under string `plus` and integer `minus`. */
  lemma ProductCombineExample()
    ensures ProductCombine((a: string, b: string) => a + b, (a: int, b: int) => a - b)(("Left", 4), ("Right", 1))
         == ("LeftRight", 3)
  {
    assert "Left" + "Right" == "LeftRight";
  }

  /** The accumulation step of `mean`: adds `(i, 1)` to the running `(sum, count)` with the product monoid. */
  function MeanStep(acc: (int, int), i: int): (r: (int, int))
    ensures r == (acc.0 + i, acc.1 + 1)
  {
    ProductCombine((a: int, b: int) => a + b, (a: int, b: int) => a + b)(acc, (i, 1))
  }

  /** The single traversal of `mean`, folding from the identity `(0, 0)`, yields the list's sum and its size. */
  function SumAndCount(list: seq<int>): (r: (int, int))
    ensures r == (Sum(list), |list|)
  {
    MeanFoldAdds((0, 0), list);
    FoldLeft((0, 0), list, MeanStep)
  }

  /** Folding from any `(sum, count)` adds the list's sum and its size. */
  lemma {:induction false} MeanFoldAdds(acc: (int, int), list: seq<int>)
    ensures FoldLeft(acc, list, MeanStep) == (acc.0 + Sum(list), acc.1 + |list|)
    decreases |list|
  {
    if list != [] {
      MeanFoldAdds(MeanStep(acc, list[0]), list[1..]);
    }
  }

  /** The library's test list `[1, 2, 3, 4, 5]` gives `(15, 5)`, whose quotient is 3. */
  lemma SumAndCountExample()
    ensures SumAndCount([1, 2, 3, 4, 5]) == (15, 5)
  {
    var list := [1, 2, 3, 4, 5];
    assert list[1..] == [2, 3, 4, 5] && list[1..][1..] == [3, 4, 5];
    assert Sum([3, 4, 5]) == 12;
    assert Sum(list) == 15;
  }

  // ---------------------------------------------------------------------------------------------
  // Left folds under an associative combine

  /** With an associative combine, a seed can be pulled out of a left fold. */
  lemma {:induction false} FoldLeftShift<T(!new)>(x: T, y: T, s: seq<T>, f: (T, T) -> T)
    requires Associative(f)
    ensures FoldLeft(f(x, y), s, f) == f(x, FoldLeft(y, s, f))
    decreases |s|
  {
    if s != [] {
      calc {
        FoldLeft(f(x, y), s, f);
        FoldLeft(f(f(x, y), s[0]), s[1..], f);
        FoldLeft(f(x, f(y, s[0])), s[1..], f);
        { FoldLeftShift(x, f(y, s[0]), s[1..], f); }
        f(x, FoldLeft(f(y, s[0]), s[1..], f));
      }
    }
  }

  /** With an associative combine, reducing a concatenation combines the reductions of its parts. */
  lemma ReduceAppend<T(!new)>(s: seq<T>, t: seq<T>, f: (T, T) -> T)
    requires Associative(f) && s != [] && t != []
    ensures Reduce(s + t, f) == f(Reduce(s, f), Reduce(t, f))
  {
    assert (s + t)[0] == s[0];
    assert (s + t)[1..] == s[1..] + t;
    FoldLeftAppend(s[0], s[1..], t, f);
    assert t == [t[0]] + t[1..];
    FoldLeftShift(Reduce(s, f), t[0], t[1..], f);
  }

  // ---------------------------------------------------------------------------------------------
  // balancedReduce

  /**
   `balancedReduce(list, combine)`: `null` for an empty list, the element of a singleton, otherwise
   the left half (the first `size / 2` elements) and the right half are reduced and their results
   combined, left first; a half that gave `null` would leave the other half's result.
   */
  function BalancedReduce<T>(list: seq<T>, combine: (T, T) -> T): (r: Option<T>)
    ensures r.None? <==> list == []
    ensures |list| == 1 ==> r == Some(list[0])
    decreases |list|
  {
    if |list| == 0 then None
    else if |list| == 1 then Some(list[0])
    else
      var middle := |list| / 2;
      var leftResult := BalancedReduce(list[..middle], combine);
      var rightResult := BalancedReduce(list[middle..], combine);
      if leftResult.Some? && rightResult.Some? then Some(combine(leftResult.value, rightResult.value))
      else if leftResult.Some? then leftResult
      else rightResult
  }

  /** For an associative combine, the balanced reduction of a non-empty list is its left fold. */
  lemma {:induction false} BalancedReduceIsReduce<T(!new)>(list: seq<T>, combine: (T, T) -> T)
    requires Associative(combine) && list != []
    ensures BalancedReduce(list, combine) == Some(Reduce(list, combine))
    decreases |list|
  {
    if |list| > 1 {
      var left, right := list[..|list| / 2], list[|list| / 2..];
      BalancedReduceIsReduce(left, combine);
      BalancedReduceIsReduce(right, combine);
      assert BalancedReduce(list, combine) == Some(combine(Reduce(left, combine), Reduce(right, combine)));
      assert list == left + right;
      ReduceAppend(left, right, combine);
    }
  }

  /** The library's test: five strings reduced with concatenation. */
  lemma BalancedReduceExample()
    ensures BalancedReduce(["abc", "def", "ghi", "jkl", "mno"], Concat) == Some("abcdefghijklmno")
  {
    ConcatReduceExample();
    BalancedReduceIsReduce(["abc", "def", "ghi", "jkl", "mno"], Concat);
  }

  /** Concatenation is associative. */
  lemma ConcatIsAssociative()
    ensures Associative(Concat)
  {
    forall a: string, b: string, c: string
      ensures Concat(Concat(a, b), c) == Concat(a, Concat(b, c))
    {
      assert (a + b) + c == a + (b + c);
    }
  }

  /** Concatenation is associative, and the left fold of the test list is its concatenation. */
  lemma ConcatReduceExample()
    ensures Associative(Concat)
    ensures Reduce(["abc", "def", "ghi", "jkl", "mno"], Concat) == "abcdefghijklmno"
  {
    ConcatIsAssociative();
    var list := ["abc", "def", "ghi", "jkl", "mno"];
    assert list[1..] == ["def", "ghi", "jkl", "mno"];
    FoldLeftOfFour("abc", "def", "ghi", "jkl", "mno", Concat);
    assert "abc" + "def" + "ghi" + "jkl" + "mno" == "abcdefghijklmno";
  }

  // ---------------------------------------------------------------------------------------------
  // eagerReduce

  /** Element `j` of one eager pass: the pair `(2j, 2j+1)` combined, or an unpaired last element. */
  function PairAt<T>(s: seq<T>, j: nat, combine: (T, T) -> T): T
    requires 2 * j < |s|
  {
    if 2 * j + 1 < |s| then combine(s[2 * j], s[2 * j + 1]) else s[2 * j]
  }

  /**
   One pass of `eagerReduce`: adjacent pairs combined left to right, an odd last element carried
   over unchanged, so the list shrinks to half its size rounded up.
   */
  function PairwisePass<T>(s: seq<T>, combine: (T, T) -> T): (r: seq<T>)
    ensures |r| == (|s| + 1) / 2
    ensures forall j :: 0 <= j < |r| ==> r[j] == PairAt(s, j, combine)
    decreases |s|
  {
    if |s| == 0 then []
    else if |s| == 1 then [s[0]]
    else
      var rest := PairwisePass(s[2..], combine);
      assert forall j :: 1 <= j < |rest| + 1 ==> PairAt(s, j, combine) == PairAt(s[2..], j - 1, combine);
      [combine(s[0], s[1])] + rest
  }

  /** A list holding the pairs of `s` in order is the pass over `s`. */
  lemma PairwisePassIsDeterminedByPairs<T>(s: seq<T>, r: seq<T>, combine: (T, T) -> T)
    requires |r| == (|s| + 1) / 2
    requires forall j :: 0 <= j < |r| ==> r[j] == PairAt(s, j, combine)
    ensures r == PairwisePass(s, combine)
  {
  }

  /**
   What `eagerReduce` computes: `null` for an empty list, the element of a singleton, otherwise the
   eager reduction of the list after one pass. Each pass shortens a list of two or more elements.
   */
  function EagerReduction<T>(list: seq<T>, combine: (T, T) -> T): (r: Option<T>)
    ensures r.None? <==> list == []
    ensures |list| == 1 ==> r == Some(list[0])
    decreases |list|
  {
    if |list| == 0 then None
    else if |list| == 1 then Some(list[0])
    else EagerReduction(PairwisePass(list, combine), combine)
  }

  /** For an associative combine, a pass does not change the left fold. */
  lemma {:induction false} PairwisePassKeepsReduce<T(!new)>(s: seq<T>, combine: (T, T) -> T)
    requires Associative(combine) && s != []
    ensures PairwisePass(s, combine) != []
    ensures Reduce(PairwisePass(s, combine), combine) == Reduce(s, combine)
    decreases |s|
  {
    if |s| == 2 {
      assert PairwisePass(s, combine) == [combine(s[0], s[1])];
      assert s[1..] == [s[1]];
    } else if |s| > 2 {
      var pair := combine(s[0], s[1]);
      var rest := PairwisePass(s[2..], combine);
      PairwisePassKeepsReduce(s[2..], combine);
      assert PairwisePass(s, combine) == [pair] + rest;
      ReduceAppend([pair], rest, combine);
      assert [pair][1..] == [];
      assert Reduce([pair], combine) == pair;
      assert s == s[..2] + s[2..];
      ReduceAppend(s[..2], s[2..], combine);
      var head := s[..2];
      assert head[0] == s[0] && head[1..] == [s[1]] && [s[1]][1..] == [];
      assert FoldLeft(s[0], [s[1]], combine) == FoldLeft(pair, [], combine);
      assert Reduce(head, combine) == pair;
    }
  }

  /** For an associative combine, the eager reduction of a non-empty list is its left fold. */
  lemma {:induction false} EagerReductionIsReduce<T(!new)>(list: seq<T>, combine: (T, T) -> T)
    requires Associative(combine) && list != []
    ensures EagerReduction(list, combine) == Some(Reduce(list, combine))
    decreases |list|
  {
    if |list| > 1 {
      PairwisePassKeepsReduce(list, combine);
      EagerReductionIsReduce(PairwisePass(list, combine), combine);
    }
  }

  /** For an associative combine, the eager and the balanced reduction agree on every list. */
  lemma EagerReductionIsBalancedReduce<T(!new)>(list: seq<T>, combine: (T, T) -> T)
    requires Associative(combine)
    ensures EagerReduction(list, combine) == BalancedReduce(list, combine)
  {
    if list != [] {
      EagerReductionIsReduce(list, combine);
      BalancedReduceIsReduce(list, combine);
    }
  }

  /**
   `eagerReduce(list, combine)`: repeated passes over a working list, each building a shorter list
   from pairs `(i, i + 1)` for `i` stepping by two, until at most one element is left.
   */
  method EagerReduce<T>(list: seq<T>, combine: (T, T) -> T) returns (r: Option<T>)
    ensures r == EagerReduction(list, combine)
  {
    var current := list;
    while |current| > 1
      invariant EagerReduction(current, combine) == EagerReduction(list, combine)
      decreases |current|
    {
      current := CombinePairs(current, combine);
    }
    r := if |current| == 0 then None else Some(current[0]);
  }

  /**
   The body of one `eagerReduce` call: for `i` over the indices stepping by two, adds the last
   element alone when `i` is the last index, otherwise `combine(list[i], list[i + 1])`.
   */
  method CombinePairs<T>(list: seq<T>, combine: (T, T) -> T) returns (shorterList: seq<T>)
    ensures shorterList == PairwisePass(list, combine)
  {
    shorterList := [];
    var i := 0;
    while i < |list|
      invariant 0 <= i <= |list| + 1
      invariant i == 2 * |shorterList|
      invariant forall j :: 0 <= j < |shorterList| ==> shorterList[j] == PairAt(list, j, combine)
      decreases |list| - i
    {
      ghost var done := shorterList;
      if i == |list| - 1 {
        shorterList := shorterList + [list[i]];
      } else {
        shorterList := shorterList + [combine(list[i], list[i + 1])];
      }
      assert shorterList[|done|] == PairAt(list, |done|, combine);
      assert forall j :: 0 <= j < |done| ==> shorterList[j] == done[j];
      i := i + 2;
    }
    PairwisePassIsDeterminedByPairs(list, shorterList, combine);
  }

  /** The library's test: the eager reduction of the five strings under concatenation. */
  lemma EagerReductionExample()
    ensures EagerReduction(["abc", "def", "ghi", "jkl", "mno"], Concat) == Some("abcdefghijklmno")
  {
    ConcatReduceExample();
    EagerReductionIsReduce(["abc", "def", "ghi", "jkl", "mno"], Concat);
  }

  // ---------------------------------------------------------------------------------------------
  // Reductions over an element type that admits null

  /**
   When the element type admits null, Kotlin's `T?` is `T` itself: "no result" and a null element
   are the same `null`. `Flattened` reads a result of the model, which keeps the two apart, as that
   single null.
   */
  function Flattened<U>(r: Option<Option<U>>): (flat: Option<U>)
    ensures flat.Some? <==> r.Some? && r.value.Some?
  {
    if r.Some? then r.value else None
  }

  /**
   `balancedReduce` on a list whose elements admit null (elements `Option<U>`). A non-empty half
   that reduces to a null element cannot be told from an empty half, so the `?:` fallback returns
   the other half's result without calling `combine`.
   */
  function BalancedReduceOfNullable<U>(list: seq<Option<U>>, combine: (Option<U>, Option<U>) -> Option<U>): (r: Option<U>)
    ensures list == [] ==> r.None?
    ensures |list| == 1 ==> r == list[0]
    decreases |list|
  {
    if |list| == 0 then None
    else if |list| == 1 then list[0]
    else
      var middle := |list| / 2;
      var leftResult := BalancedReduceOfNullable(list[..middle], combine);
      var rightResult := BalancedReduceOfNullable(list[middle..], combine);
      if leftResult.Some? && rightResult.Some? then combine(leftResult, rightResult)
      else if leftResult.Some? then leftResult
      else rightResult
  }

  /**
   Without null elements, and with a combine that never returns null for non-null operands, the
   nullable reading computes what `BalancedReduce` computes, and is null only for the empty list.
   */
  lemma {:induction false} BalancedReduceOfNullableWithoutNulls<U>(list: seq<Option<U>>, combine: (Option<U>, Option<U>) -> Option<U>)
    requires forall i :: 0 <= i < |list| ==> list[i].Some?
    requires forall a: Option<U>, b: Option<U> :: a.Some? && b.Some? ==> combine(a, b).Some?
    ensures BalancedReduceOfNullable(list, combine) == Flattened(BalancedReduce(list, combine))
    ensures BalancedReduceOfNullable(list, combine).Some? <==> list != []
    decreases |list|
  {
    if |list| > 1 {
      var left, right := list[..|list| / 2], list[|list| / 2..];
      assert forall i :: 0 <= i < |left| ==> left[i] == list[i];
      assert forall i :: 0 <= i < |right| ==> right[i] == list[|list| / 2 + i];
      BalancedReduceOfNullableWithoutNulls(left, combine);
      BalancedReduceOfNullableWithoutNulls(right, combine);
      var leftResult, rightResult := BalancedReduceOfNullable(left, combine), BalancedReduceOfNullable(right, combine);
      assert BalancedReduceOfNullable(list, combine) == combine(leftResult, rightResult);
      assert BalancedReduce(list, combine) == Some(combine(leftResult, rightResult));
    }
  }

  /** Kotlin's `String?.plus`: a null operand contributes the text `"null"`. */
  function NullablePlus(a: Option<string>, b: Option<string>): (r: Option<string>)
    ensures r.Some?
  {
    Some(Text(a) + Text(b))
  }

  /** The text of a nullable string, `"null"` for null. */
  function Text(a: Option<string>): string
  {
    if a.Some? then a.value else "null"
  }

  /** `String?.plus` is associative. */
  lemma NullablePlusIsAssociative()
    ensures Associative(NullablePlus)
  {
    forall a: Option<string>, b: Option<string>, c: Option<string>
      ensures NullablePlus(NullablePlus(a, b), c) == NullablePlus(a, NullablePlus(b, c))
    {
      assert (Text(a) + Text(b)) + Text(c) == Text(a) + (Text(b) + Text(c));
    }
  }

  /**
   `listOf<String?>(null, "a")` reduced with `plus`: the left half reduces to the null element, so
   `balancedReduce` returns `"a"` without calling `plus`, while `reduce` and `eagerReduce` give
   `"nulla"`, although `plus` is associative.
   */
  lemma NullElementSkipsCombine()
    ensures Associative(NullablePlus)
    ensures BalancedReduceOfNullable([None, Some("a")], NullablePlus) == Some("a")
    ensures Reduce([None, Some("a")], NullablePlus) == Some("nulla")
    ensures Flattened(EagerReduction([None, Some("a")], NullablePlus)) == Some("nulla")
  {
    NullablePlusIsAssociative();
    var list: seq<Option<string>> := [None, Some("a")];
    assert list[..1] == [None] && list[1..] == [Some("a")];
    assert "null" + "a" == "nulla";
    assert Reduce(list, NullablePlus) == NullablePlus(None, Some("a"));
    assert PairwisePass(list, NullablePlus) == [Some("nulla")];
  }
}
