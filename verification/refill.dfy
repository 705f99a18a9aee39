/** The refill phase of one request (bucket.go:111-123), read sequentially. */
module Refilling {
  import opened Optional
  import opened Configuration
  import opened Buckets

  function Min(a: int, b: int): int {
    if a <= b then a else b
  }

  /** Go's integer division, which truncates toward zero (Dafny's `/` is Euclidean). The
      quotient has the sign of the dividend and is positive exactly when at least one whole
      divisor fits in the dividend. */
  function GoDiv(a: int, d: int): (q: int)
    requires 0 < d
    ensures 0 <= a ==> 0 <= q
    ensures a < 0 ==> q <= 0
    ensures 0 < q <==> d <= a
  {
    if 0 <= a then
      EuclideanQuotientBounds(a, d);
      MulNonPositive(a / d, d);
      MulAtLeastOnce(a / d, d);
      a / d
    else
      -((-a) / d)
  }

  lemma EuclideanQuotientBounds(a: int, d: int)
    requires 0 <= a && 0 < d
    ensures 0 <= a / d && (a / d) * d <= a < (a / d) * d + d
  {
  }

  /** The truncating quotient counts whole divisors: for a non-negative dividend it is the
      largest `q` with `q * d <= a`; for a negative one it is the smallest `q` with
      `a <= q * d`, that is, it rounds toward zero. */
  lemma GoDivTruncates(a: int, d: int)
    requires 0 < d
    ensures 0 <= a ==> GoDiv(a, d) * d <= a < GoDiv(a, d) * d + d
    ensures a < 0 ==> GoDiv(a, d) * d - d < a <= GoDiv(a, d) * d
  {
    if 0 <= a {
      EuclideanQuotientBounds(a, d);
    } else {
      EuclideanQuotientBounds(-a, d);
      assert GoDiv(a, d) * d == -(((-a) / d) * d);
    }
  }

  lemma MulNonPositive(x: int, d: int)
    requires 0 < d
    ensures x <= 0 ==> x * d <= 0
  {
  }

  lemma MulAtLeastOnce(x: int, d: int)
    requires 0 < d
    ensures 1 <= x ==> d <= x * d
  {
    if 1 <= x {
      MulMonotone(1, x, d);
    }
  }

  /** Truncating and Euclidean division agree on whether the quotient is positive, so the
      refill guard is the same under either reading (they differ only for negative dividends,
      where both quotients are at most zero). */
  lemma GuardAgreesWithEuclidean(a: int, d: int)
    requires 0 < d
    ensures GoDiv(a, d) > 0 <==> a / d > 0
  {
  }

  /** Whole refill intervals elapsed since the bucket was last refilled: positive exactly
      when at least one whole interval has passed, never positive for a clock reading
      before the stamp. `TokensToAddCountsIntervals` gives its exact value. */
  function TokensToAdd(conf: Config, b: Bucket, now: int): (r: int)
    requires Validate(conf) == None
    ensures 0 < r <==> b.updatedAt + RefillNanos(conf) <= now
    ensures b.updatedAt <= now ==> 0 <= r
    ensures now < b.updatedAt ==> r <= 0
  {
    GoDiv(now - b.updatedAt, RefillNanos(conf))
  }

  /** The tokens to add count the whole intervals in the elapsed time: for a clock reading at
      or after the stamp, `r` intervals fit and `r + 1` do not; before the stamp the count
      rounds toward zero. */
  lemma TokensToAddCountsIntervals(conf: Config, b: Bucket, now: int)
    requires Validate(conf) == None
    ensures var r := TokensToAdd(conf, b, now);
            var d := RefillNanos(conf);
            && (b.updatedAt <= now ==> r * d <= now - b.updatedAt < r * d + d)
            && (now < b.updatedAt ==> r * d - d < now - b.updatedAt <= r * d)
  {
    GoDivTruncates(now - b.updatedAt, RefillNanos(conf));
  }

  /** The refill phase: add the whole intervals elapsed, store the capacity if the sum went
      over it, and stamp the bucket with `now`; a non-positive amount changes nothing. */
  function Refill(conf: Config, b: Bucket, now: int): (r: Bucket)
    requires Validate(conf) == None
    ensures TokensToAdd(conf, b, now) <= 0 ==> r == b
    ensures 0 < TokensToAdd(conf, b, now) ==>
              r.token == Min(conf.tokenNumber, b.token + TokensToAdd(conf, b, now))
              && r.updatedAt == now
    ensures 0 < TokensToAdd(conf, b, now) ==> b.updatedAt < r.updatedAt
    ensures b.updatedAt <= r.updatedAt
    ensures InRange(conf, b) ==> InRange(conf, r)
  {
    var k := TokensToAdd(conf, b, now);
    if k > 0 then
      var added := b.token + k;
      Bucket(if added > conf.tokenNumber then conf.tokenNumber else added, now)
    else
      b
  }

  /** A refill happens exactly when at least one whole interval has elapsed. */
  lemma RefillHappensIff(conf: Config, b: Bucket, now: int)
    requires Validate(conf) == None
    ensures 0 < TokensToAdd(conf, b, now) <==> b.updatedAt + RefillNanos(conf) <= now
  {
  }

  /** Refilling twice at the same instant is refilling once: the first refill stamps the
      bucket with `now`, so the second sees no elapsed time. */
  lemma RefillIdempotent(conf: Config, b: Bucket, now: int)
    requires Validate(conf) == None
    ensures Refill(conf, Refill(conf, b, now), now) == Refill(conf, b, now)
  {
    var r := Refill(conf, b, now);
    if r != b {
      assert TokensToAdd(conf, r, now) == 0;
    }
  }

  /** Division by `d` of `k * d + extra`, with the remainder below `d`, is `k`. */
  lemma GoDivWholeIntervals(k: nat, d: int, extra: int)
    requires 0 < d && 0 <= extra < d
    ensures GoDiv(k * d + extra, d) == k
  {
    var a := k * d + extra;
    NatMulNonNegative(k, d);
    var q := GoDiv(a, d);
    GoDivTruncates(a, d);
    assert (q - k) * d == q * d - k * d;
    assert (k - q) * d == k * d - q * d;
    MulAtLeastOnce(q - k, d);
    MulAtLeastOnce(k - q, d);
  }

  lemma NatMulNonNegative(k: nat, d: int)
    requires 0 < d
    ensures 0 <= k * d
  {
  }

  lemma MulMonotone(x: int, y: int, d: int)
    requires x <= y && 0 < d
    ensures x * d <= y * d
  {
    assert y * d - x * d == (y - x) * d;
  }

  /** After `k` whole intervals plus a leftover shorter than one interval, the refill adds
      exactly `k` tokens (capped) and stamps the bucket with `now`: the leftover is dropped,
      because the next refill measures from `now`, not from the end of the last whole interval. */
  lemma RefillAfterWholeIntervals(conf: Config, b: Bucket, k: nat, extra: int, now: int)
    requires Validate(conf) == None
    requires 0 <= extra < RefillNanos(conf)
    requires now == b.updatedAt + k * RefillNanos(conf) + extra
    ensures TokensToAdd(conf, b, now) == k
    ensures 0 < k ==> Refill(conf, b, now) == Bucket(Min(conf.tokenNumber, b.token + k), now)
    ensures k == 0 ==> Refill(conf, b, now) == b
  {
    GoDivWholeIntervals(k, RefillNanos(conf), extra);
    assert now - b.updatedAt == k * RefillNanos(conf) + extra;
  }
}

/** The 64-bit reading of the refill arithmetic: the Go code computes in signed 64-bit
    integers, and this module states when its unbounded model agrees with that. */
module Int64Bounds {
  import opened Optional
  import opened Configuration
  import opened Buckets
  import opened Refilling

  const Int64Max: int := 0x7fff_ffff_ffff_ffff

  predicate FitsInt64(x: int) {
    -Int64Max - 1 <= x <= Int64Max
  }

  /** A truncating quotient by an interval of at least the minimum length is no larger in
      magnitude than the dividend divided by that minimum. */
  lemma GoDivMagnitude(a: int, d: int)
    requires MinRefillMicrosecond * NanosPerMicrosecond <= d
    ensures 0 <= a ==> 0 <= GoDiv(a, d) && GoDiv(a, d) * (MinRefillMicrosecond * NanosPerMicrosecond) <= a
    ensures a < 0 ==> GoDiv(a, d) <= 0 && -GoDiv(a, d) * (MinRefillMicrosecond * NanosPerMicrosecond) <= -a
  {
    var q := GoDiv(a, d);
    GoDivTruncates(a, d);
    if 0 <= a {
      ScaleDown(q, MinRefillMicrosecond * NanosPerMicrosecond, d);
    } else {
      ScaleDown(-q, MinRefillMicrosecond * NanosPerMicrosecond, d);
      assert -q * d == -(q * d);
    }
  }

  /** Multiplying a non-negative factor by a smaller number gives a smaller product. */
  lemma ScaleDown(q: int, x: int, y: int)
    requires 0 <= q && x <= y
    ensures q * x <= q * y
  {
    assert q * y - q * x == q * (y - x);
    NonNegativeProduct(q, y - x);
  }

  lemma NonNegativeProduct(x: int, y: int)
    requires 0 <= x && 0 <= y
    ensures 0 <= x * y
  {
  }

  /** Under these bounds no intermediate value of one request overflows: the interval in
      nanoseconds, the elapsed-time quotient, the token sum before the cap, and the
      decremented count all fit in a signed 64-bit integer, so the model's unbounded
      arithmetic is the Go arithmetic. */
  lemma RefillFitsInt64(conf: Config, b: Bucket, now: int)
    requires Validate(conf) == None
    requires conf.refillMicrosecond <= Int64Max / NanosPerMicrosecond
    requires conf.tokenNumber <= Int64Max - Int64Max / (MinRefillMicrosecond * NanosPerMicrosecond)
    requires InRange(conf, b)
    requires FitsInt64(now - b.updatedAt)
    ensures FitsInt64(RefillNanos(conf))
    ensures FitsInt64(TokensToAdd(conf, b, now))
    ensures FitsInt64(b.token + TokensToAdd(conf, b, now))
    ensures FitsInt64(Refill(conf, b, now).token - 1)
  {
    GoDivMagnitude(now - b.updatedAt, RefillNanos(conf));
  }

  const TwoTo64: int := 0x1_0000_0000_0000_0000

  /** Go's wrap-around of an exact product into a signed 64-bit integer. */
  function Wrap64(x: int): (w: int)
    ensures FitsInt64(w)
    ensures FitsInt64(x) ==> w == x
    ensures (w - x) % TwoTo64 == 0
  {
    (x + Int64Max + 1) % TwoTo64 - Int64Max - 1
  }

  /** The refill interval as the handler computes it: the product of the configured
      microseconds and 1000 in signed 64-bit arithmetic, which wraps on overflow. */
  function RefillNanosAsWritten(conf: Config): (n: int)
    ensures FitsInt64(n)
    ensures FitsInt64(RefillNanos(conf)) ==> n == RefillNanos(conf)
  {
    Wrap64(RefillNanos(conf))
  }

  /** Go's truncating division for a divisor of either sign. */
  function TruncDiv(a: int, d: int): (q: int)
    requires d != 0
    ensures 0 <= a && d < 0 ==> q <= 0
    ensures 0 < d ==> q == GoDiv(a, d)
  {
    if 0 < d then GoDiv(a, d) else -GoDiv(a, -d)
  }

  /** The tokens to add as the handler computes them with the wrapped interval: the same
      count as `TokensToAdd` when the interval fits in 64 bits, and never positive at a later
      instant when the interval wrapped to a negative number. */
  function TokensToAddAsWritten(conf: Config, b: Bucket, now: int): (r: int)
    requires RefillNanosAsWritten(conf) != 0
    ensures Validate(conf) == None && FitsInt64(RefillNanos(conf)) ==> r == TokensToAdd(conf, b, now)
    ensures b.updatedAt <= now && RefillNanosAsWritten(conf) < 0 ==> r <= 0
  {
    TruncDiv(now - b.updatedAt, RefillNanosAsWritten(conf))
  }

  /** Validation accepts an interval of 2^61 microseconds, and its length in nanoseconds wraps
      to exactly zero, so the refill division of every request with a client key divides by
      zero. */
  lemma ValidIntervalWrapsToZero()
    ensures Validate(Config(1, 0x2000_0000_0000_0000, false)) == None
    ensures RefillNanosAsWritten(Config(1, 0x2000_0000_0000_0000, false)) == 0
  {
  }

  /** Validation accepts an interval just over (2^63 - 1) / 1000 microseconds; its length
      wraps to a negative number, so no request at a later instant ever refills the bucket. */
  lemma ValidIntervalWrapsNegative(b: Bucket, now: int)
    requires b.updatedAt <= now
    ensures Validate(Config(1, Int64Max / 1000 + 1, false)) == None
    ensures RefillNanosAsWritten(Config(1, Int64Max / 1000 + 1, false)) < 0
    ensures TokensToAddAsWritten(Config(1, Int64Max / 1000 + 1, false), b, now) <= 0
  {
  }

  /** The corrected validation: the checks of `Validate`, in the same order, then a rejection
      of an interval whose nanosecond length does not fit in 64 bits. What it accepts has an
      interval whose 64-bit value is the exact one and is at least ten thousand
      nanoseconds, the interval the rest of the model divides by. */
  function ValidateInt64(conf: Config): (r: Option<ConfigError>)
    ensures Validate(conf) != None ==> r == Validate(conf)
    ensures r == None <==>
              Validate(conf) == None && conf.refillMicrosecond <= Int64Max / NanosPerMicrosecond
    ensures r != None && Validate(conf) == None ==> r == Some(RefillIntervalTooLarge)
    ensures r == None ==>
              RefillNanosAsWritten(conf) == RefillNanos(conf)
              && MinRefillMicrosecond * NanosPerMicrosecond <= RefillNanosAsWritten(conf)
  {
    var v := Validate(conf);
    if v != None then v
    else if conf.refillMicrosecond > Int64Max / NanosPerMicrosecond then Some(RefillIntervalTooLarge)
    else v
  }
}
