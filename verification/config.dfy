/** Limiter configuration and its validation (bucket.go: Config, NewDefaultConfig, Config.Valid). */
module Configuration {
  import opened Optional

  /** Smallest refill interval, in microseconds, that validation accepts. */
  const MinRefillMicrosecond: int := 10

  /** The handler converts the configured microseconds to nanoseconds with this factor. */
  const NanosPerMicrosecond: int := 1000

  /** The configuration fields the admission step reads. `Storage` and `EventHook` are
      collaborators and are not part of the record. */
  datatype Config = Config(tokenNumber: int, refillMicrosecond: int, weakRejectionMode: bool)

  /** The two errors `Valid` can return, and the one the corrected check in `Int64Bounds`
      adds for an interval whose length in nanoseconds does not fit in 64 bits. */
  datatype ConfigError = InvalidTokenNumber | RefillIntervalTooSmall | RefillIntervalTooLarge

  /** A bucket must hold at least one token. */
  predicate CapacityAcceptable(conf: Config) {
    1 <= conf.tokenNumber
  }

  /** A token must take at least the minimum granularity to regenerate. */
  predicate IntervalAcceptable(conf: Config) {
    MinRefillMicrosecond <= conf.refillMicrosecond
  }

  /** Validation: the capacity check is made first, then the interval check; `None` means valid. */
  function Validate(conf: Config): (r: Option<ConfigError>)
    ensures r == None <==> CapacityAcceptable(conf) && IntervalAcceptable(conf)
    ensures r == Some(InvalidTokenNumber) <==> !CapacityAcceptable(conf)
    ensures r == Some(RefillIntervalTooSmall) <==> CapacityAcceptable(conf) && !IntervalAcceptable(conf)
  {
    if conf.tokenNumber < 1 then Some(InvalidTokenNumber)
    else if conf.refillMicrosecond < MinRefillMicrosecond then Some(RefillIntervalTooSmall)
    else None
  }

  /** The length of one refill interval in nanoseconds, in unbounded arithmetic (the Go code
      multiplies in signed 64-bit integers; see `Int64Bounds`). An acceptable interval is at
      least ten thousand nanoseconds long. */
  function RefillNanos(conf: Config): (n: int)
    ensures IntervalAcceptable(conf) ==> MinRefillMicrosecond * NanosPerMicrosecond <= n
  {
    conf.refillMicrosecond * NanosPerMicrosecond
  }

  /** What the handler relies on from a configuration that passed validation, read in
      unbounded arithmetic: a non-empty bucket and a refill interval of at least ten thousand
      nanoseconds, so the refill division is by a positive number. */
  lemma ValidConfigGivesPositiveInterval(conf: Config)
    requires Validate(conf) == None
    ensures 1 <= conf.tokenNumber
    ensures MinRefillMicrosecond * NanosPerMicrosecond <= RefillNanos(conf)
  {
  }

  /** The configuration the library ships: 10000 tokens, one token every 100 microseconds,
      strict rejection of requests without a client key. */
  function DefaultConfig(): (c: Config)
    ensures Validate(c) == None
    ensures c.tokenNumber == 10000 && c.refillMicrosecond == 100
    ensures RefillNanos(c) == 100_000
    ensures !c.weakRejectionMode
  {
    Config(10000, 100, false)
  }
}
