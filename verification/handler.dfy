/** One request through the admission handler (bucket.go:95-134), as one indivisible step over
    an immutable store, with the clock reading passed in as `now`. */
module Handler {
  import opened Optional
  import opened Configuration
  import opened Buckets
  import opened Storage
  import opened Refilling
  import opened Decrement

  /** What happens to the request: it continues down the pipeline, or it is aborted. */
  datatype Outcome = Pass | RateLimited | BadRequest

  /** The event tag recorded for the request. */
  datatype Event = EventPass | EventRejected | EventIPNotFound

  const StatusBadRequest: int := 400
  const StatusTooManyRequests: int := 429

  /** The numeric value of each event: the constant block starts its `iota` count at the
      event-key string, so the first event is 1. */
  function EventCode(e: Event): (c: int)
    ensures e == EventPass ==> c == 1
    ensures e == EventRejected ==> c == 2
    ensures e == EventIPNotFound ==> c == 3
  {
    match e
    case EventPass => 1
    case EventRejected => 2
    case EventIPNotFound => 3
  }

  /** The status an aborted request receives; a passing request is not aborted. */
  function AbortStatus(o: Outcome): (r: Option<int>)
    ensures r == None <==> o == Pass
    ensures o == BadRequest ==> r == Some(StatusBadRequest)
    ensures o == RateLimited ==> r == Some(StatusTooManyRequests)
    ensures o != Pass ==> r.Some? && 400 <= r.value < 500
  {
    match o
    case Pass => None
    case RateLimited => Some(StatusTooManyRequests)
    case BadRequest => Some(StatusBadRequest)
  }

  /** The outcome, the event and the store after the request. */
  datatype Reply = Reply(outcome: Outcome, event: Event, store: Store)

  /** The bucket the request starts from: the stored one, or a fresh one created at `now`. */
  function Current(conf: Config, s: Store, key: string, now: int): Bucket {
    if key in s then s[key] else NewBucket(conf, now)
  }

  /** The refill-then-consume work a request does on the bucket it starts from. */
  function Serve(conf: Config, b: Bucket, now: int): Consumed
    requires Validate(conf) == None
  {
    Consume(Refill(conf, b, now))
  }

  /** One request for `key` at instant `now`. An empty key takes the missing-key path and
      never reaches the store. Otherwise the key's bucket (stored, or created at `now`) is
      refilled and charged one token, and only that key's entry is written back. */
  function Step(conf: Config, s: Store, key: string, now: int): (r: Reply)
    requires Validate(conf) == None
    ensures key == "" ==> r.store == s && r.event == EventIPNotFound
    ensures key == "" ==> (r.outcome == Pass <==> conf.weakRejectionMode)
    ensures key == "" ==> r.outcome != RateLimited
    ensures key != "" ==> r.outcome != BadRequest && r.event != EventIPNotFound
    ensures key != "" ==> (r.outcome == Pass <==> r.event == EventPass)
    ensures key != "" ==>
              var c := Serve(conf, Current(conf, s, key, now), now);
              && r.store == s[key := c.bucket]
              && (r.outcome == Pass <==> c.decision == Admitted)
  {
    if key == "" then
      Reply(if conf.weakRejectionMode then Pass else BadRequest, EventIPNotFound, s)
    else
      var got := GetOrCreate(s, key, NewBucket(conf, now));
      var consumed := Serve(conf, got.bucket, now);
      var store := got.store[key := consumed.bucket];
      assert store == s[key := consumed.bucket];
      if consumed.decision == Admitted then Reply(Pass, EventPass, store)
      else Reply(RateLimited, EventRejected, store)
  }

  /** The decision of a request for a non-empty key: it passes exactly when the refilled
      bucket holds a token, and then that bucket is stored with one token less; a
      rate-limited request stores the refilled bucket with its count restored. The key is
      in the store afterwards and no other key's entry changes. */
  lemma StepDecision(conf: Config, s: Store, key: string, now: int)
    requires Validate(conf) == None
    requires key != ""
    ensures var r := Step(conf, s, key, now);
            var refilled := Refill(conf, Current(conf, s, key, now), now);
            && key in r.store
            && r.store.Keys == s.Keys + {key}
            && (r.outcome == Pass <==> 1 <= refilled.token)
            && (r.outcome == Pass ==> r.store[key] == refilled.(token := refilled.token - 1))
            && (r.outcome == RateLimited ==> r.store[key] == refilled)
            && (forall k :: k in s && k != key ==> r.store[k] == s[k])
  {
  }

  /** Every bucket in the store is within its capacity range. */
  predicate StoreInRange(conf: Config, s: Store) {
    forall k :: k in s ==> InRange(conf, s[k])
  }

  /** The capacity invariant: if every bucket holds between zero and `TokenNumber` tokens
      before a request, the same holds after it; with the empty store as the start, it holds
      at every step. */
  lemma StepPreservesRange(conf: Config, s: Store, key: string, now: int)
    requires Validate(conf) == None
    requires StoreInRange(conf, s)
    ensures StoreInRange(conf, Step(conf, s, key, now).store)
  {
    if key != "" {
      var b := Current(conf, s, key, now);
      assert InRange(conf, b);
      ConsumeKeepsRange(conf, Refill(conf, b, now));
    }
  }

  /** One incoming request: the client key and the clock reading when it is handled. */
  datatype Request = Request(key: string, now: int)

  /** The store after handling `reqs` one after another. */
  function Run(conf: Config, s: Store, reqs: seq<Request>): Store
    requires Validate(conf) == None
    decreases |reqs|
  {
    if |reqs| == 0 then s
    else Run(conf, Step(conf, s, reqs[0].key, reqs[0].now).store, reqs[1..])
  }

  /** The capacity invariant over any sequence of requests, for any keys and clock readings:
      starting from a store whose buckets are all in range (the empty store, for one), every
      bucket still holds between zero and `TokenNumber` tokens at the end. */
  lemma {:induction false} RunPreservesRange(conf: Config, s: Store, reqs: seq<Request>)
    requires Validate(conf) == None
    requires StoreInRange(conf, s)
    ensures StoreInRange(conf, Run(conf, s, reqs))
    decreases |reqs|
  {
    if |reqs| > 0 {
      StepPreservesRange(conf, s, reqs[0].key, reqs[0].now);
      RunPreservesRange(conf, Step(conf, s, reqs[0].key, reqs[0].now).store, reqs[1..]);
    }
  }

  /** The refill stamp of a bucket never moves backwards, whatever `now` the step is given. */
  lemma StepNeverRewindsStamp(conf: Config, s: Store, key: string, now: int)
    requires Validate(conf) == None
    requires key in s
    ensures key in Step(conf, s, key, now).store
    ensures s[key].updatedAt <= Step(conf, s, key, now).store[key].updatedAt
  {
  }

  /** The missing-key policy: an empty key leaves every bucket alone, passes only in weak
      mode, and is otherwise a client error (400), never the rate-limit status (429). */
  lemma MissingKeyPolicy(conf: Config, s: Store, now: int)
    requires Validate(conf) == None
    ensures Step(conf, s, "", now).store == s
    ensures Step(conf, s, "", now).event == EventIPNotFound
    ensures conf.weakRejectionMode ==> Step(conf, s, "", now).outcome == Pass
    ensures !conf.weakRejectionMode ==>
              AbortStatus(Step(conf, s, "", now).outcome) == Some(StatusBadRequest)
    ensures AbortStatus(Step(conf, s, "", now).outcome) != Some(StatusTooManyRequests)
  {
  }

  /** Requests for two different keys commute: the final store and both outcomes are the
      same in either order, so no key can influence another key's bucket or decision. */
  lemma DistinctKeysCommute(conf: Config, s: Store, a: string, ta: int, b: string, tb: int)
    requires Validate(conf) == None
    requires a != b
    ensures var ra := Step(conf, s, a, ta);
            var rab := Step(conf, ra.store, b, tb);
            var rb := Step(conf, s, b, tb);
            var rba := Step(conf, rb.store, a, ta);
            && rab.store == rba.store
            && ra.outcome == rba.outcome
            && rab.outcome == rb.outcome
  {
    if a == "" || b == "" {
      MissingKeyCommutes(conf, s, a, ta, b, tb);
    } else {
      PresentKeysCommute(conf, s, a, ta, b, tb);
    }
  }

  lemma MissingKeyCommutes(conf: Config, s: Store, a: string, ta: int, b: string, tb: int)
    requires Validate(conf) == None
    requires a != b && (a == "" || b == "")
    ensures var ra := Step(conf, s, a, ta);
            var rab := Step(conf, ra.store, b, tb);
            var rb := Step(conf, s, b, tb);
            var rba := Step(conf, rb.store, a, ta);
            && rab.store == rba.store
            && ra.outcome == rba.outcome
            && rab.outcome == rb.outcome
  {
  }

  lemma PresentKeysCommute(conf: Config, s: Store, a: string, ta: int, b: string, tb: int)
    requires Validate(conf) == None
    requires a != b && a != "" && b != ""
    ensures var ra := Step(conf, s, a, ta);
            var rab := Step(conf, ra.store, b, tb);
            var rb := Step(conf, s, b, tb);
            var rba := Step(conf, rb.store, a, ta);
            && rab.store == rba.store
            && ra.outcome == rba.outcome
            && rab.outcome == rb.outcome
  {
    var A := Serve(conf, Current(conf, s, a, ta), ta);
    var B := Serve(conf, Current(conf, s, b, tb), tb);
    var sa := s[a := A.bucket];
    var sb := s[b := B.bucket];
    assert Current(conf, sa, b, tb) == Current(conf, s, b, tb);
    assert Current(conf, sb, a, ta) == Current(conf, s, a, ta);
    var ra := Step(conf, s, a, ta);
    var rb := Step(conf, s, b, tb);
    assert ra.store == sa;
    assert rb.store == sb;
    var rab := Step(conf, sa, b, tb);
    var rba := Step(conf, sb, a, ta);
    assert rab.store == sa[b := B.bucket];
    assert rba.store == sb[a := A.bucket];
    UpdatesCommute(s, a, A.bucket, b, B.bucket);
  }

  lemma UpdatesCommute(m: Store, a: string, x: Bucket, b: string, y: Bucket)
    requires a != b
    ensures m[a := x][b := y] == m[b := y][a := x]
  {
  }

  /** The outcomes of `n` consecutive requests for one key at one instant, and the store
      they leave behind. */
  datatype Trace = Trace(outcomes: seq<Outcome>, store: Store)

  function Replay(conf: Config, s: Store, key: string, now: int, n: nat): (t: Trace)
    requires Validate(conf) == None
    ensures |t.outcomes| == n
    decreases n
  {
    if n == 0 then Trace([], s)
    else
      var r := Step(conf, s, key, now);
      var rest := Replay(conf, r.store, key, now, n - 1);
      Trace([r.outcome] + rest.outcomes, rest.store)
  }

  /** Replaying `n > 0` requests is the first request followed by the other `n - 1`. */
  lemma ReplayFirst(conf: Config, s: Store, key: string, now: int, n: nat)
    requires Validate(conf) == None && 0 < n
    ensures var r := Step(conf, s, key, now);
            var tr := Replay(conf, s, key, now, n);
            var rest := Replay(conf, r.store, key, now, n - 1);
            && tr.outcomes[0] == r.outcome
            && (forall i :: 1 <= i < n ==> tr.outcomes[i] == rest.outcomes[i - 1])
            && tr.store == rest.store
  {
  }

  /** A request that finds its bucket stamped with the current instant gets no refill: it
      passes exactly when a token is left, and spends it. */
  lemma StepAtSameInstant(conf: Config, s: Store, key: string, now: int, t: int)
    requires Validate(conf) == None
    requires key != "" && Current(conf, s, key, now) == Bucket(t, now) && 0 <= t
    ensures Step(conf, s, key, now).outcome == (if 1 <= t then Pass else RateLimited)
    ensures key in Step(conf, s, key, now).store
    ensures Step(conf, s, key, now).store[key] == Bucket(if 1 <= t then t - 1 else 0, now)
  {
    assert TokensToAdd(conf, Bucket(t, now), now) == 0;
  }

  /** With no time advance, a bucket holding `t` tokens admits the next `t` requests and
      rejects every one after them, ending empty (or with what is left). */
  lemma {:induction false} DrainWithoutRefill(conf: Config, s: Store, key: string, now: int, n: nat, t: int)
    requires Validate(conf) == None
    requires key != "" && key in s && s[key] == Bucket(t, now) && 0 <= t
    ensures var tr := Replay(conf, s, key, now, n);
            && (forall i :: 0 <= i < n ==> tr.outcomes[i] == (if i < t then Pass else RateLimited))
            && key in tr.store
            && tr.store[key] == Bucket(if n <= t then t - n else 0, now)
    decreases n
  {
    if n == 0 {
    } else {
      var r := Step(conf, s, key, now);
      StepAtSameInstant(conf, s, key, now, t);
      var t' := if 1 <= t then t - 1 else 0;
      DrainWithoutRefill(conf, r.store, key, now, n - 1, t');
      ReplayFirst(conf, s, key, now, n);
      var tr := Replay(conf, s, key, now, n);
      var rest := Replay(conf, r.store, key, now, n - 1);
      forall i | 1 <= i < n
        ensures tr.outcomes[i] == (if i < t then Pass else RateLimited)
      {
        assert tr.outcomes[i] == rest.outcomes[i - 1];
      }
    }
  }

  /** Exact-N admits: for a key not yet in the store and no time advance, the first
      `TokenNumber` requests pass and the next one is rate-limited, leaving the bucket empty. */
  lemma {:induction false} ExactCapacityAdmits(conf: Config, s: Store, key: string, now: int)
    requires Validate(conf) == None
    requires key != "" && key !in s
    ensures var tr := Replay(conf, s, key, now, conf.tokenNumber + 1);
            && tr.outcomes == seq(conf.tokenNumber, _ => Pass) + [RateLimited]
            && key in tr.store
            && tr.store[key] == Bucket(0, now)
  {
    var n := conf.tokenNumber;
    var r := Step(conf, s, key, now);
    StepAtSameInstant(conf, s, key, now, n);
    DrainWithoutRefill(conf, r.store, key, now, n, n - 1);
    ReplayFirst(conf, s, key, now, n + 1);
    var tr := Replay(conf, s, key, now, n + 1);
    var expected := seq(n, _ => Pass) + [RateLimited];
    assert forall i :: 0 <= i < n + 1 ==> tr.outcomes[i] == expected[i];
  }

  /** Refill recovery: an empty bucket last refilled at `t0`, asked again after `k` whole
      intervals (plus less than one more), admits the request exactly when `k >= 1`, and then
      holds `min(TokenNumber, k) - 1` tokens stamped with the new instant. */
  lemma RefillRecovery(conf: Config, s: Store, key: string, t0: int, k: nat, extra: int)
    requires Validate(conf) == None
    requires key != "" && key in s && s[key] == Bucket(0, t0)
    requires 0 <= extra < RefillNanos(conf)
    ensures var now := t0 + k * RefillNanos(conf) + extra;
            var r := Step(conf, s, key, now);
            && (r.outcome == Pass <==> 1 <= k)
            && (1 <= k ==> r.store[key] == Bucket(Min(conf.tokenNumber, k) - 1, now))
            && (k == 0 ==> r.store[key] == Bucket(0, t0))
  {
    var now := t0 + k * RefillNanos(conf) + extra;
    RefillAfterWholeIntervals(conf, s[key], k, extra, now);
  }

  /** An example: capacity 10, one token per 100 microseconds. Ten requests at one
      instant pass, the eleventh is rate-limited; 250 microseconds later two tokens have been
      refilled, the next request passes and one token remains. */
  lemma CapacityTenExample(t0: int)
    ensures var conf := Config(10, 100, false);
            var tr := Replay(conf, map[], "1.1.1.1", t0, 11);
            var later := Step(conf, tr.store, "1.1.1.1", t0 + 250_000);
            && tr.outcomes == seq(10, _ => Pass) + [RateLimited]
            && later.outcome == Pass
            && later.store["1.1.1.1"] == Bucket(1, t0 + 250_000)
  {
    var conf := Config(10, 100, false);
    ExactCapacityAdmits(conf, map[], "1.1.1.1", t0);
    var tr := Replay(conf, map[], "1.1.1.1", t0, 11);
    RefillRecovery(conf, tr.store, "1.1.1.1", t0, 2, 50_000);
  }
}
