/** The decrement-and-rollback decision of one request (bucket.go:125-133), read sequentially. */
module Decrement {
  import opened Buckets

  datatype Decision = Admitted | Rejected

  /** The decision and the bucket left behind. */
  datatype Consumed = Consumed(decision: Decision, bucket: Bucket)

  /** Take one token; if the decremented count is negative, add the token back and reject.
      The request is admitted exactly when a whole token was available, an admission costs
      exactly one token, and a rejection leaves the bucket as it found it. */
  function Consume(b: Bucket): (r: Consumed)
    ensures r.decision == Admitted <==> 1 <= b.token
    ensures r.decision == Admitted ==> r.bucket == Bucket(b.token - 1, b.updatedAt)
    ensures r.decision == Rejected ==> r.bucket == b
  {
    var decremented := b.token - 1;
    if decremented < 0 then
      Consumed(Rejected, b.(token := decremented + 1))
    else
      Consumed(Admitted, b.(token := decremented))
  }

  /** Consuming never leaves the at-rest range and never raises the count. */
  lemma ConsumeKeepsRange(conf: Configuration.Config, b: Bucket)
    requires InRange(conf, b)
    ensures InRange(conf, Consume(b).bucket)
    ensures Consume(b).bucket.token <= b.token
    ensures Consume(b).bucket.updatedAt == b.updatedAt
  {
  }
}
