/** The per-key bucket record (bucket.go: AtomicBucket, newBucket). */
module Buckets {
  import opened Configuration

  /** A token count and the instant, in Unix nanoseconds, of the last refill. */
  datatype Bucket = Bucket(token: int, updatedAt: int)

  /** The at-rest invariant: the token count lies between zero and the capacity. */
  predicate InRange(conf: Config, b: Bucket) {
    0 <= b.token <= conf.tokenNumber
  }

  /** A bucket created at `now` starts full and stamped with `now`. */
  function NewBucket(conf: Config, now: int): (b: Bucket)
    ensures b.token == conf.tokenNumber && b.updatedAt == now
    ensures CapacityAcceptable(conf) ==> InRange(conf, b) && 1 <= b.token
  {
    Bucket(conf.tokenNumber, now)
  }
}
