/**
 * Configuration normalisation (event.go:13-31, 241-247): the shard count is
 * defaulted to 16 and rounded up to a power of two, so that the shard index
 * can be taken with a bit mask.
 */
module Configuration {
  import opened Types

  const DefaultBucketNum: int64 := 16

  /** 2^62, the largest power of two an `int64` holds. */
  const MaxBucketNum: int64 := 0x4000_0000_0000_0000

  predicate IsPowerOfTwo(n: int)
    decreases if n < 0 then 0 else n
  {
    n == 1 || (n > 1 && n % 2 == 0 && IsPowerOfTwo(n / 2))
  }

  /** `x` is the least power of two that is at least `n` (so at least max(n, 1)). */
  ghost predicate IsLeastPowerOfTwoAtLeast(n: int, x: int) {
    IsPowerOfTwo(x) && n <= x && forall p :: IsPowerOfTwo(p) && p < x ==> p < n
  }

  lemma {:induction false} PowerOfTwoProduct(x: int, y: int)
    requires IsPowerOfTwo(x) && IsPowerOfTwo(y)
    ensures IsPowerOfTwo(x * y)
    decreases y
  {
    if y != 1 {
      PowerOfTwoProduct(x, y / 2);
      assert x * y == 2 * (x * (y / 2));
      assert (x * y) / 2 == x * (y / 2);
    }
  }

  lemma MaxBucketNumIsPowerOfTwo()
    ensures IsPowerOfTwo(MaxBucketNum as int)
  {
    var k := 1024;
    assert IsPowerOfTwo(k) && IsPowerOfTwo(4);
    PowerOfTwoProduct(k, k);
    PowerOfTwoProduct(k * k, k);
    PowerOfTwoProduct(k * k * k, k * k * k);
    PowerOfTwoProduct(k * k * k * k * k * k, 4);
    assert k * k * k * k * k * k * 4 == MaxBucketNum as int;
  }

  /** No power of two lies strictly between a power of two and its double. */
  lemma {:induction false} PowerOfTwoGap(p: int, x: int)
    requires IsPowerOfTwo(p) && IsPowerOfTwo(x) && p < 2 * x
    ensures p <= x
    decreases x
  {
    if p != 1 && x != 1 {
      PowerOfTwoGap(p / 2, x / 2);
    }
  }

  /**
   * `toBinaryNumber`, with the doubling capped at 2^62 so that it cannot
   * overflow (see `AsWrittenLoopNeverExits` for the loop as written).
   */
  method ToBinaryNumber(n: int64) returns (x: int64)
    ensures IsPowerOfTwo(x as int) && 1 <= x <= MaxBucketNum
    ensures n <= MaxBucketNum ==> IsLeastPowerOfTwoAtLeast(n as int, x as int)
    ensures n > MaxBucketNum ==> x == MaxBucketNum
  {
    MaxBucketNumIsPowerOfTwo();
    x := 1;
    while x < n && x < MaxBucketNum
      invariant 1 <= x <= MaxBucketNum && IsPowerOfTwo(x as int)
      invariant forall p :: IsPowerOfTwo(p) && p < x as int ==> p < n as int
    {
      assert IsPowerOfTwo(2 * x as int);
      PowerOfTwoGap(2 * x as int, MaxBucketNum as int);
      forall p | IsPowerOfTwo(p) && p < 2 * x as int
        ensures p < n as int
      {
        PowerOfTwoGap(p, x as int);
      }
      x := x * 2;
    }
    if x == MaxBucketNum && n > x {
      assert n > MaxBucketNum;
    }
  }

  /**
   * `n` is the shard count `Config.init` makes of a requested `BucketNum`:
   * a power of two in range; the default for a non-positive request; the
   * least power of two not below a request in range; the cap otherwise.
   */
  ghost predicate Normalised(requested: int64, n: int64) {
    && IsPowerOfTwo(n as int) && 1 <= n <= MaxBucketNum
    && (requested <= 0 ==> n == DefaultBucketNum)
    && (0 < requested <= MaxBucketNum ==> IsLeastPowerOfTwoAtLeast(requested as int, n as int))
    && (requested > MaxBucketNum ==> n == MaxBucketNum)
  }

  /** The emitter's settings; `New` normalises the caller's value in place. */
  class Config {
    var BucketNum: int64
    var BucketSize: int64

    /** `new(Config)`: both fields zero. */
    constructor ()
      ensures BucketNum == 0 && BucketSize == 0
    {
      BucketNum, BucketSize := 0, 0;
    }

    constructor Of(bucketNum: int64, bucketSize: int64)
      ensures BucketNum == bucketNum && BucketSize == bucketSize
    {
      BucketNum, BucketSize := bucketNum, bucketSize;
    }

    /** `Config.init`. */
    method Init()
      modifies this
      ensures Normalised(old(BucketNum), BucketNum)
      ensures BucketSize == if old(BucketSize) <= 0 then 0 else old(BucketSize)
    {
      if BucketNum <= 0 {
        BucketNum := DefaultBucketNum;
      }
      if BucketSize <= 0 {
        BucketSize := 0;
      }
      assert IsPowerOfTwo(16);
      BucketNum := ToBinaryNumber(BucketNum);
    }
  }

  // --- toBinaryNumber as written: `x *= 2` on int64 wraps around ---

  function Pow2(k: nat): (r: nat)
    ensures r >= 1
  {
    if k == 0 then 1 else 2 * Pow2(k - 1)
  }

  /** Go's `int64` multiplication by 2: two's-complement wrap-around. */
  function DoubleWrapped(x: int64): (r: int64)
    ensures -0x8000_0000_0000_0000 <= 2 * x as int < 0x8000_0000_0000_0000 ==> r as int == 2 * x as int
  {
    var m := (2 * x as int) % 0x1_0000_0000_0000_0000;
    if m < 0x8000_0000_0000_0000 then m as int64 else (m - 0x1_0000_0000_0000_0000) as int64
  }

  /** The value of `x` in `toBinaryNumber` after `k` iterations of `x *= 2`. */
  function AsWrittenState(k: nat): int64 {
    if k == 0 then 1 else DoubleWrapped(AsWrittenState(k - 1))
  }

  lemma {:induction false} Pow2Bound(k: nat)
    requires k <= 62
    ensures 1 <= Pow2(k) <= MaxBucketNum as int
  {
    if k > 0 {
      Pow2Bound(k - 1);
      if k < 62 {
        Pow2Monotone(k, 62);
      }
      Pow2At62();
    }
  }

  lemma {:induction false} Pow2Monotone(j: nat, k: nat)
    requires j <= k
    ensures Pow2(j) <= Pow2(k)
    decreases k
  {
    if j < k {
      Pow2Monotone(j, k - 1);
    }
  }

  lemma Pow2At62()
    ensures Pow2(62) == MaxBucketNum as int
  {
    assert Pow2(2) == 4 && Pow2(10) == 1024;
    Pow2Sum(10, 10);
    Pow2Sum(20, 20);
    Pow2Sum(40, 20);
    Pow2Sum(60, 2);
  }

  lemma {:induction false} Pow2Sum(a: nat, b: nat)
    ensures Pow2(a + b) == Pow2(a) * Pow2(b)
    decreases b
  {
    if b > 0 {
      Pow2Sum(a, b - 1);
      assert Pow2(a + b) == 2 * Pow2(a + b - 1);
    }
  }

  lemma DoubleWrappedOverflow()
    ensures DoubleWrapped(MaxBucketNum) as int == -0x8000_0000_0000_0000
    ensures DoubleWrapped(-0x8000_0000_0000_0000) == 0
    ensures DoubleWrapped(0) == 0
  {
  }

  /** The states the loop goes through: 2^k up to 2^62, then -2^63, then 0 for ever. */
  lemma {:induction false} AsWrittenStates(k: nat)
    ensures AsWrittenState(k) as int == if k <= 62 then Pow2(k) else if k == 63 then -0x8000_0000_0000_0000 else 0
  {
    if 0 < k <= 62 {
      AsWrittenStates(k - 1);
      Pow2Bound(k);
      assert 2 * Pow2(k - 1) == Pow2(k);
    } else if k == 63 {
      AsWrittenStates(62);
      Pow2At62();
      DoubleWrappedOverflow();
    } else if k > 63 {
      AsWrittenStates(k - 1);
      DoubleWrappedOverflow();
    }
  }

  /**
   * For any request above 2^62 the guard `x < n` holds in every state the
   * loop reaches, so `toBinaryNumber` as written never returns.
   */
  lemma AsWrittenLoopNeverExits(n: int64, k: nat)
    requires n > MaxBucketNum
    ensures AsWrittenState(k) < n
  {
    AsWrittenStates(k);
    if k <= 62 {
      Pow2Bound(k);
    }
  }

  /** Every request in [1, 2^62] has a least power of two not below it, and its exponent is at most 62. */
  lemma LeastExponent(n: int64) returns (k: nat)
    requires 1 <= n <= MaxBucketNum
    ensures k <= 62 && IsLeastPowerOfTwoAtLeast(n as int, Pow2(k))
  {
    Pow2At62();
    k := 0;
    while Pow2(k) < n as int
      invariant k <= 62 && IsPowerOfTwo(Pow2(k))
      invariant forall p :: IsPowerOfTwo(p) && p < Pow2(k) ==> p < n as int
      decreases 62 - k
    {
      if k == 62 {
        assert false;
      }
      Pow2IsPowerOfTwo(k + 1);
      forall p | IsPowerOfTwo(p) && p < Pow2(k + 1)
        ensures p < n as int
      {
        PowerOfTwoGap(p, Pow2(k));
      }
      k := k + 1;
    }
  }

  /**
   * For every request in [1, 2^62] the loop as written stops, after `k`
   * doublings, at the least power of two not below the request: the value
   * the corrected `ToBinaryNumber` returns.
   */
  lemma AsWrittenAgreesUpToMax(n: int64)
    requires 1 <= n <= MaxBucketNum
    ensures exists k: nat :: && k <= 62 && IsLeastPowerOfTwoAtLeast(n as int, Pow2(k))
                             && AsWrittenState(k) as int == Pow2(k)
                             && forall j :: 0 <= j < k ==> AsWrittenState(j) < n
  {
    var k := LeastExponent(n);
    AsWrittenStates(k);
    forall j | 0 <= j < k
      ensures AsWrittenState(j) < n
    {
      AsWrittenStates(j);
      Pow2Monotone(j, k);
      Pow2IsPowerOfTwo(j);
      Pow2Strict(j, k);
    }
  }

  lemma {:induction false} Pow2IsPowerOfTwo(k: nat)
    ensures IsPowerOfTwo(Pow2(k))
  {
    if k > 0 {
      Pow2IsPowerOfTwo(k - 1);
    }
  }

  lemma {:induction false} Pow2Strict(j: nat, k: nat)
    requires j < k
    ensures Pow2(j) < Pow2(k)
    decreases k
  {
    if j < k - 1 {
      Pow2Strict(j, k - 1);
    }
  }

  // --- the shard mask: Go's `&` on non-negative integers ---

  /** Bitwise and of two naturals, bit by bit from the least significant. */
  function BitAnd(a: nat, b: nat): nat
    decreases a
  {
    if a == 0 || b == 0 then 0
    else 2 * BitAnd(a / 2, b / 2) + (if a % 2 == 1 && b % 2 == 1 then 1 else 0)
  }

  lemma {:induction false} BitAndBound(a: nat, b: nat)
    ensures BitAnd(a, b) <= b
    decreases a
  {
    if a != 0 && b != 0 {
      BitAndBound(a / 2, b / 2);
    }
  }

  /** With a power-of-two shard count, masking with count-1 is taking the remainder. */
  lemma {:induction false} MaskIsRemainder(h: nat, n: nat)
    requires IsPowerOfTwo(n)
    ensures BitAnd(h, n - 1) == h % n
    decreases n
  {
    if n > 1 && h > 0 {
      var m := n / 2;
      assert IsPowerOfTwo(m) && n == 2 * m;
      MaskIsRemainder(h / 2, m);
      var b := n - 1;
      assert b % 2 == 1 && b / 2 == m - 1;
      BitAndOdd(h, b);
      RemainderOfDouble(h, n, m);
    } else {
      MaskTrivial(h, n);
    }
  }

  lemma MaskTrivial(h: nat, n: nat)
    requires n >= 1 && (n == 1 || h == 0)
    ensures BitAnd(h, n - 1) == h % n
  {
  }

  lemma BitAndOdd(h: nat, b: nat)
    requires h > 0 && b % 2 == 1
    ensures BitAnd(h, b) == 2 * BitAnd(h / 2, b / 2) + h % 2
  {
  }

  lemma RemainderOfDouble(h: nat, n: nat, m: nat)
    requires m > 0 && n == 2 * m
    ensures h % n == 2 * ((h / 2) % m) + h % 2
  {
    var q := h / 2;
    assert h == 2 * q + h % 2;
    assert q == m * (q / m) + q % m;
    assert h == n * (q / m) + (2 * (q % m) + h % 2);
    DivModUnique(h, n, q / m, 2 * (q % m) + h % 2);
  }

  lemma DivModUnique(h: int, n: int, a: int, r: int)
    requires 0 < n && 0 <= r < n && h == n * a + r
    ensures h % n == r
  {
    var a', r' := h / n, h % n;
    assert n * (a - a') == r' - r;
    if a - a' >= 1 {
      MulAtLeast(n, a - a');
    }
    if a' - a >= 1 {
      MulAtLeast(n, a' - a);
    }
  }

  lemma MulAtLeast(n: int, d: int)
    requires n > 0 && d >= 1
    ensures n * d >= n
  {
  }
}
