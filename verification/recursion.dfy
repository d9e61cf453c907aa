/**
 Two recursive functions on Kotlin `Long` values: the tail-recursive triangular number with an
 accumulator, and the classical Fibonacci recurrence, evaluated with a memo table.
 */
module Recursion {

  const LONG_MIN: int := -0x8000_0000_0000_0000
  const LONG_MAX: int := 0x7fff_ffff_ffff_ffff
  /** The number of `Long` values, 2^64. */
  const LONG_RANGE: int := 0x1_0000_0000_0000_0000

  /** `x` is a value of Kotlin's signed 64-bit `Long`. */
  predicate IsLong(x: int)
  {
    LONG_MIN <= x <= LONG_MAX
  }

  /** Two's-complement wrap-around of `Long` arithmetic: the `Long` congruent to `x` modulo 2^64. */
  function WrapLong(x: int): (r: int)
    ensures IsLong(r)
    ensures IsLong(x) ==> r == x
    ensures (r - x) % LONG_RANGE == 0
  {
    (x - LONG_MIN) % LONG_RANGE + LONG_MIN
  }

  /** Adding a multiple of 2^64 does not change a remainder modulo 2^64. */
  lemma ModAddMultiple(a: int, k: int)
    ensures (a + LONG_RANGE * k) % LONG_RANGE == a % LONG_RANGE
  {
    assert a + LONG_RANGE * k == LONG_RANGE * (a / LONG_RANGE + k) + a % LONG_RANGE;
  }

  /** Wrapping an intermediate sum early gives the same `Long` as wrapping once at the end. */
  lemma WrapLongAdd(x: int, y: int)
    ensures WrapLong(WrapLong(x) + y) == WrapLong(x + y)
  {
    var q := (x - LONG_MIN) / LONG_RANGE;
    assert WrapLong(x) == x - LONG_RANGE * q;
    ModAddMultiple(x + y - LONG_MIN, -q);
  }

  /**
   `triangularNumber(n, acc)`: returns `acc` once `n` reaches 0, otherwise moves `n` into the
   accumulator (a `Long` addition, which wraps) and continues with `n - 1`. A negative `n` only
   reaches 0 after wrapping past `Long.MIN_VALUE`, some 2^64 calls later, so `n` is taken to be
   non-negative.
   */
  function TriangularNumber(n: int, acc: int := 0): (r: int)
    requires 0 <= n <= LONG_MAX && IsLong(acc)
    ensures IsLong(r)
    ensures n == 0 ==> r == acc
    decreases n
  {
    if n == 0 then acc else TriangularNumber(n - 1, WrapLong(acc + n))
  }

  /**
   The result is `acc + n(n+1)/2` wrapped to a `Long`: the overflowing additions along the way
   lose nothing beyond what wrapping the exact sum loses.
   */
  lemma {:induction false} TriangularNumberWraps(n: int, acc: int)
    requires 0 <= n <= LONG_MAX && IsLong(acc)
    ensures TriangularNumber(n, acc) == WrapLong(acc + n * (n + 1) / 2)
    decreases n
  {
    if n > 0 {
      TriangleStep(n);
      TriangularNumberWraps(n - 1, WrapLong(acc + n));
      WrapLongAdd(acc + n, (n - 1) * n / 2);
    }
  }

  /** The n-th triangle is n plus the one before it. */
  lemma TriangleStep(n: int)
    ensures n * (n + 1) / 2 == n + (n - 1) * n / 2
  {
    assert n * (n + 1) == 2 * n + (n - 1) * n;
  }

  /**
   Closed form: when `acc + n(n+1)/2` is a `Long`, no step overflows and the result is exactly
   `acc + n(n+1)/2`.
   */
  lemma TriangularNumberClosedForm(n: int, acc: int)
    requires 0 <= n <= LONG_MAX && IsLong(acc)
    requires acc + n * (n + 1) / 2 <= LONG_MAX
    ensures TriangularNumber(n, acc) == acc + n * (n + 1) / 2
  {
    TriangularNumberWraps(n, acc);
    assert 0 <= n * (n + 1) / 2;
  }

  /** The library's test: the 10 000 000th triangular number, which fits in a `Long`. */
  lemma TriangularNumberExample()
    ensures TriangularNumber(10_000_000) == 50_000_005_000_000
  {
    TriangularNumberClosedForm(10_000_000, 0);
  }

  /**
   `fibonacci(n)`: 0 for 0, 1 for 1, otherwise the sum of the two preceding values; 0 is reached
   only at 0, and from 2 on `fibonacci(n) >= n - 1`, so the values grow without bound and
   eventually leave the range of `Long`.
   */
  function Fibonacci(n: nat): (r: nat)
    ensures r == 0 <==> n == 0
    ensures n >= 2 ==> r >= n - 1
  {
    if n == 0 then 0
    else if n == 1 then 1
    else Fibonacci(n - 1) + Fibonacci(n - 2)
  }

  /** Every entry of the memo table holds the Fibonacci number of its key. */
  ghost predicate ValidMemo(memo: map<nat, nat>)
  {
    forall k :: k in memo ==> memo[k] == Fibonacci(k)
  }

  /**
   `fibonacci` as memoized recursion: a value already in the table is returned from it; otherwise
   it is computed from the two recursive calls and recorded. Memoization does not change results.
   */
  method FibonacciMemoized(n: nat, memo: map<nat, nat>) returns (r: nat, memo': map<nat, nat>)
    requires ValidMemo(memo)
    ensures r == Fibonacci(n)
    ensures ValidMemo(memo') && n in memo'
    ensures memo.Keys <= memo'.Keys
    decreases n
  {
    if n in memo {
      return memo[n], memo;
    }
    if n == 0 {
      r, memo' := 0, memo;
    } else if n == 1 {
      r, memo' := 1, memo;
    } else {
      var previous, memo1 := FibonacciMemoized(n - 1, memo);
      var beforePrevious, memo2 := FibonacciMemoized(n - 2, memo1);
      r, memo' := previous + beforePrevious, memo2;
    }
    memo' := memo'[n := r];
  }

  /** The library's test: the 70th Fibonacci number. */
  lemma FibonacciExample()
    ensures Fibonacci(70) == 190_392_490_709_135
  {
    // Consecutive pairs, two steps apart, so that each value follows from the two before it.
    assert Fibonacci(1) == 1 && Fibonacci(2) == 1;
    assert Fibonacci(3) == 2 && Fibonacci(4) == 3;
    assert Fibonacci(5) == 5 && Fibonacci(6) == 8;
    assert Fibonacci(7) == 13 && Fibonacci(8) == 21;
    assert Fibonacci(9) == 34 && Fibonacci(10) == 55;
    assert Fibonacci(11) == 89 && Fibonacci(12) == 144;
    assert Fibonacci(13) == 233 && Fibonacci(14) == 377;
    assert Fibonacci(15) == 610 && Fibonacci(16) == 987;
    assert Fibonacci(17) == 1_597 && Fibonacci(18) == 2_584;
    assert Fibonacci(19) == 4_181 && Fibonacci(20) == 6_765;
    assert Fibonacci(21) == 10_946 && Fibonacci(22) == 17_711;
    assert Fibonacci(23) == 28_657 && Fibonacci(24) == 46_368;
    assert Fibonacci(25) == 75_025 && Fibonacci(26) == 121_393;
    assert Fibonacci(27) == 196_418 && Fibonacci(28) == 317_811;
    assert Fibonacci(29) == 514_229 && Fibonacci(30) == 832_040;
    assert Fibonacci(31) == 1_346_269 && Fibonacci(32) == 2_178_309;
    assert Fibonacci(33) == 3_524_578 && Fibonacci(34) == 5_702_887;
    assert Fibonacci(35) == 9_227_465 && Fibonacci(36) == 14_930_352;
    assert Fibonacci(37) == 24_157_817 && Fibonacci(38) == 39_088_169;
    assert Fibonacci(39) == 63_245_986 && Fibonacci(40) == 102_334_155;
    assert Fibonacci(41) == 165_580_141 && Fibonacci(42) == 267_914_296;
    assert Fibonacci(43) == 433_494_437 && Fibonacci(44) == 701_408_733;
    assert Fibonacci(45) == 1_134_903_170 && Fibonacci(46) == 1_836_311_903;
    assert Fibonacci(47) == 2_971_215_073 && Fibonacci(48) == 4_807_526_976;
    assert Fibonacci(49) == 7_778_742_049 && Fibonacci(50) == 12_586_269_025;
    assert Fibonacci(51) == 20_365_011_074 && Fibonacci(52) == 32_951_280_099;
    assert Fibonacci(53) == 53_316_291_173 && Fibonacci(54) == 86_267_571_272;
    assert Fibonacci(55) == 139_583_862_445 && Fibonacci(56) == 225_851_433_717;
    assert Fibonacci(57) == 365_435_296_162 && Fibonacci(58) == 591_286_729_879;
    assert Fibonacci(59) == 956_722_026_041 && Fibonacci(60) == 1_548_008_755_920;
    assert Fibonacci(61) == 2_504_730_781_961 && Fibonacci(62) == 4_052_739_537_881;
    assert Fibonacci(63) == 6_557_470_319_842 && Fibonacci(64) == 10_610_209_857_723;
    assert Fibonacci(65) == 17_167_680_177_565 && Fibonacci(66) == 27_777_890_035_288;
    assert Fibonacci(67) == 44_945_570_212_853 && Fibonacci(68) == 72_723_460_248_141;
  }
}
