# Token-bucket admission filter, modelled in Dafny

This project models the core of a Go token-bucket rate limiter, written as gin middleware.
Each client key (the client IP) owns a bucket. A bucket holds at most `TokenNumber` tokens
and gets one token back every `RefillMicrosecond` microseconds. Each request either passes
(and spends one token) or is aborted with 429 Too Many Requests. A request with no client
key passes in weak-rejection mode; otherwise it is aborted with 400 Bad Request.

The model is sequential. Each request is one indivisible step:
`Handler.Step(conf, store, key, now)` takes an immutable `map<string, Bucket>` and the clock
reading `now` in Unix nanoseconds. It returns the outcome, the event tag and the new store.

Modules, following `bucket.go`:

- `Optional` (optional.dfy): the `Option` type.
- `Configuration` (config.dfy): the `Config` record, `Validate` (Go's `Config.Valid`),
  the default configuration, and the nanosecond refill interval.
- `Buckets` (bucket_state.dfy): the bucket record (`token`, `updatedAt`) and `NewBucket`.
- `Storage` (storage.dfy): the default get-or-create store over a map.
- `Refilling` (refill.dfy): Go's truncating division, the number of tokens to add, and the
  refill phase with its cap.
- `Int64Bounds` (refill.dfy): the bounds under which the Go code's signed 64-bit arithmetic
  agrees with the unbounded model, the interval product as written, and the corrected
  validation.
- `Decrement` (decrement.dfy): decrement, rollback and the admit/reject decision.
- `Handler` (handler.dfy): the request step, the missing-key policy, the capacity invariant,
  key independence, exact-N admits, refill recovery and an example run.

Go's `/` truncates toward zero, while Dafny's is Euclidean. The model spells out Go's
division as `GoDiv`. `GuardAgreesWithEuclidean` shows that the refill guard `tokensToAdd > 0`
decides the same way under either division.

Two facts about the code shape the model:

- `GetOrCreate` cannot fail (bucket.go:46, bucket.go:54), so there is no backend-failure
  outcome.
- The refill is skipped whenever `tokensToAdd <= 0` (bucket.go:117), which covers a wall
  clock that moved backwards.

## Model

| member | source | states |
|---|---|---|
| Configuration.Validate | bucket.go:80-88 | the capacity check comes first: `InvalidTokenNumber` exactly when `TokenNumber < 1`; otherwise `RefillIntervalTooSmall` exactly when `RefillMicrosecond < 10`; otherwise no error |
| Configuration.ValidConfigGivesPositiveInterval | bucket.go:84-116 | in unbounded arithmetic, a validated configuration gives a capacity of at least 1 and a refill interval of at least 10 000 ns, so the refill division is by a positive number (the 64-bit product can wrap: see Findings) |
| Configuration.RefillNanos | bucket.go:115 | the interval in nanoseconds is the configured microseconds times 1000 in unbounded arithmetic; an interval that passes the interval check is at least 10 000 ns |
| Configuration.DefaultConfig | bucket.go:70-78 | the shipped defaults are 10000 tokens and 100 µs (100 000 ns per token) in strict mode, and they pass validation |
| Buckets.NewBucket | bucket.go:137-145 | a new bucket starts full (`token = TokenNumber`), is stamped with the creation instant, and is within range for a valid capacity |
| Storage.GetOrCreate | bucket.go:54-68 | a present key returns its stored bucket and leaves the map unchanged; an absent key stores the created bucket and returns it; the key set grows by at most this key; no other key's entry changes |
| Storage.GetOrCreateRepeatable | bucket.go:54-68 | a second call for the same key returns the first call's bucket, ignores its creator and changes nothing |
| Storage.GetOrCreateIsolated | bucket.go:54-68 | creating an entry for one key does not change what another key gets |
| Refilling.GoDiv | bucket.go:116-117 | Go's truncating quotient has the sign of the dividend and is positive exactly when at least one whole interval fits in the elapsed time |
| Refilling.GoDivTruncates | bucket.go:116 | the quotient counts whole intervals: for non-negative elapsed time, `q*d <= a < q*d + d`; for negative elapsed time it rounds toward zero, `q*d - d < a <= q*d` |
| Refilling.GuardAgreesWithEuclidean | bucket.go:116-117 | the guard `tokensToAdd > 0` decides the same under truncating and Euclidean division |
| Refilling.TokensToAdd | bucket.go:112-117 | the tokens to add are positive exactly when `updatedAt + interval <= now`, are non-negative for a clock reading at or after the stamp, and are never positive before it |
| Refilling.TokensToAddCountsIntervals | bucket.go:113-116 | the tokens to add count whole intervals: at or after the stamp, `r` intervals fit into the elapsed time and `r + 1` do not; before the stamp the count rounds toward zero |
| Refilling.Refill | bucket.go:111-123 | with `tokensToAdd <= 0` the bucket is unchanged; otherwise `token = min(TokenNumber, token + tokensToAdd)` and `updatedAt = now`, which strictly increases the stamp; the range `0..TokenNumber` is preserved |
| Refilling.RefillHappensIff | bucket.go:113-117 | a refill happens exactly when at least one whole interval has elapsed since `updatedAt` |
| Refilling.RefillIdempotent | bucket.go:111-123 | refilling twice at the same instant gives the same bucket as refilling once |
| Refilling.RefillAfterWholeIntervals | bucket.go:113-122 | after `k` whole intervals plus a leftover shorter than one interval, exactly `k` tokens are added (capped) and the stamp becomes `now`, so the leftover time is discarded |
| Int64Bounds.Wrap64 | bucket.go:115 | Go's int64 wrap-around: the result fits in 64 bits, is congruent to the exact value modulo 2^64, and is the exact value when that fits |
| Int64Bounds.TruncDiv | bucket.go:116 | Go's `/` for a divisor of either sign: it is `GoDiv` for a positive divisor, and a non-negative dividend over a negative divisor gives at most zero |
| Int64Bounds.TokensToAddAsWritten | bucket.go:113-116 | the tokens to add with the wrapped interval: the same as `TokensToAdd` when the exact interval fits in 64 bits; never positive at a later instant when the interval wrapped negative |
| Int64Bounds.RefillNanosAsWritten | bucket.go:115 | the interval as computed in 64 bits always fits in 64 bits, and equals the exact product whenever the exact product fits |
| Int64Bounds.ValidIntervalWrapsToZero | bucket.go:80-116 | validation accepts 2^61 µs, and the 64-bit interval for it is 0, so the division at line 116 is by zero |
| Int64Bounds.ValidIntervalWrapsNegative | bucket.go:80-117 | validation accepts `(2^63-1)/1000 + 1` µs; the 64-bit interval for it is negative, and no later request gets a positive refill |
| Int64Bounds.ValidateInt64 | bucket.go:80-88 | the corrected check: same errors in the same order as `Valid`, plus a rejection of intervals over `(2^63-1)/1000` µs; what it accepts has an exact 64-bit interval of at least 10 000 ns |
| Int64Bounds.RefillFitsInt64 | bucket.go:113-125 | if the capacity is at most `2^63-1 - (2^63-1)/10000`, the interval in ns fits, the elapsed time fits, and the bucket holds `0..TokenNumber` tokens, then every intermediate value fits in a signed 64-bit integer |
| Decrement.Consume | bucket.go:125-133 | a request is admitted exactly when `token >= 1`; an admission lowers `token` by exactly one; a rejection's rollback leaves the bucket as it was |
| Decrement.ConsumeKeepsRange | bucket.go:125-126 | consuming keeps a bucket in range, never raises its count and keeps its stamp |
| Handler.EventCode | bucket.go:18-23 | `EventPass` is 1, `EventRejected` is 2 and `EventIPNotFound` is 3, because the constant block's `iota` starts at the event-key string |
| Handler.AbortStatus | bucket.go:99-128 | only a passing request is not aborted; a missing key gets 400, a rate limit gets 429, and both are client-error statuses |
| Handler.Step | bucket.go:95-134 | an empty key does not touch the store, reports `EventIPNotFound`, and passes exactly in weak mode (otherwise `BadRequest`, never `RateLimited`); a non-empty key never gets `BadRequest`, reports `EventPass` exactly when it passes, and changes only its own entry, which becomes the refilled-and-charged version of its stored bucket or of a new bucket created at `now` |
| Handler.StepDecision | bucket.go:107-133 | for a non-empty key the request passes exactly when the refilled bucket holds a token, and then that bucket is stored with one token less; a rate-limited request stores the refilled bucket with its count restored; the key is present afterwards; no other key's entry changes |
| Handler.StepPreservesRange | bucket.go:119-126 | if every stored bucket holds `0..TokenNumber` tokens before a request, this still holds after it |
| Handler.RunPreservesRange | bucket.go:107-145 | over any sequence of requests (any keys, any clock readings), starting from the empty store or any in-range store, every bucket ends with between zero and `TokenNumber` tokens |
| Handler.StepNeverRewindsStamp | bucket.go:117-122 | a bucket's `updatedAt` never decreases, for any clock reading |
| Handler.MissingKeyPolicy | bucket.go:96-105 | an empty key leaves the store unchanged and reports `EventIPNotFound`; it passes in weak mode and otherwise gets 400, never 429 |
| Handler.DistinctKeysCommute | bucket.go:107-133 | requests for two different keys commute: the final store and both outcomes are the same in either order |
| Handler.DrainWithoutRefill | bucket.go:125-130 | with no time advance, a bucket with `t` tokens admits the next `t` requests and rejects all later ones, ending at `max(t - n, 0)` tokens |
| Handler.ExactCapacityAdmits | bucket.go:107-143 | for a fresh key and no time advance, the first `TokenNumber` requests pass and the next is rate-limited, leaving the bucket empty |
| Handler.RefillRecovery | bucket.go:111-133 | an empty bucket asked again after `k` whole intervals admits exactly when `k >= 1`, and then holds `min(TokenNumber, k) - 1` tokens stamped with the new instant |
| Handler.CapacityTenExample | bucket.go:107-145 | with capacity 10 and 100 µs: ten requests at one instant pass and the eleventh is rate-limited; 250 µs later one request passes and one token remains |

## Left out

- Concurrency is not modelled: the atomics, the mutex and the concurrent map. Each request
  is one indivisible step. So the double-checked re-lookup under the lock in `GetOrCreate`
  is folded into the single lookup. Over-refill and lost updates between interleaved
  requests are not modelled either. Parallel requests for one key are not modelled; only
  the sequential `Handler.ExactCapacityAdmits` is stated.
- The gin plumbing is replaced by the `Outcome` and `Event` values: `c.ClientIP`, `c.Next`,
  `c.AbortWithStatus`, `c.Set`, `handleEvent` and the `EventHook` callback. The hook cannot
  change the bucket or the branch taken; its own effects on the gin context are not
  modelled.
- `time.Now()` is replaced by the `now` parameter. The Go code reads the clock separately
  when it creates a bucket, just before the refill reading. The model stamps a new bucket
  with the same `now`. A fresh bucket is full, so the only possible difference is its
  stamp, which is a few nanoseconds earlier in the Go code. That earlier stamp can change a
  later decision. Take capacity 1, with the bucket drained at `now`. A request at
  `now + d - 1`, where `d` is the interval, is admitted by the Go code but rejected by the
  model.
- The `panic` in `BucketHandler` for an invalid configuration is not modelled.
  Instead, `Handler.Step` requires `Validate(conf) == None`.
- The error-string formatting of `wrapErr` is left out, and so is the `nil`-configuration
  branch of `newBucket`.
- The `Storage` interface is not modelled. Only its default map-backed implementation is.
- Signed 64-bit wrap-around is not modelled in the request step: integers are unbounded.
  Only the interval product is modelled as written (`Int64Bounds.RefillNanosAsWritten`). `Int64Bounds.RefillFitsInt64`
  gives bounds under which no wrap-around happens. Outside those bounds, the model does not
  follow the Go code.
- `bucket_test.go` is not modelled. It exercises names that are absent from `bucket.go`
  (a serializer, a storage with `Set`/`Get`, `New`, `eventHappen`), so it states nothing
  about this code. Serialization of bucket state is absent as well.

## Findings

| source | as written | input that shows it | evidently intended | confidence | as-written member | corrected member |
|---|---|---|---|---|---|---|
| bucket.go:84-116 | `Valid` sets no upper bound on `RefillMicrosecond`, and `RefillMicrosecond * 1000` is int64 arithmetic | `RefillMicrosecond = 2^61`: the product wraps to 0, and the division at line 116 panics on every request with a client key. Just above `(2^63-1)/1000` the product wraps to a negative number, and a drained bucket never refills | `Valid` also rejects `RefillMicrosecond > (2^63-1)/1000`, so the interval in nanoseconds is exact and positive | high; not executed | Int64Bounds.ValidIntervalWrapsToZero | Int64Bounds.ValidateInt64 |

The rest of the model divides by the exact interval `Configuration.RefillNanos`. That is the
64-bit value whenever `Int64Bounds.ValidateInt64` accepts the configuration.
`Int64Bounds.ValidIntervalWrapsNegative` shows the negative-interval case with its own
input.
