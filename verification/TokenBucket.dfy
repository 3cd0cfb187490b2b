/** One token bucket (backend/rate_limiter/token_bucket.py), over exact reals. */
module TokenBucket {

  datatype Bucket = Bucket(capacity: real, refillRate: real, tokens: real, lastRefill: real)

  function Max(x: real, y: real): real { if x >= y then x else y }

  function Min(x: real, y: real): real { if x <= y then x else y }

  function Step(b: Bucket, now: real, cost: real): (bool, Bucket) {
    var elapsed := Max(0.0, now - b.lastRefill);
    var refilled := Min(b.capacity, b.tokens + elapsed * b.refillRate);
    if refilled < cost then
      (false, b.(tokens := refilled, lastRefill := now))
    else
      (true, b.(tokens := refilled - cost, lastRefill := now))
  }

  /** The bucket after a step of cost 0: refilled up to `now`, nothing taken. */
  function Refill(b: Bucket, now: real): Bucket { Step(b, now, 0.0).1 }

  /** What every bucket the limiter stores satisfies. */
  ghost predicate Sound(b: Bucket) {
    1.0 <= b.capacity && 0.0 < b.refillRate && 0.0 <= b.tokens <= b.capacity
  }

  lemma MulDistributes(x: real, y: real, r: real)
    ensures x * r + y * r == (x + y) * r
  {
  }

  lemma MulMonotone(x: real, y: real, r: real)
    requires x <= y && 0.0 <= r
    ensures x * r <= y * r
  {
    MulDistributes(x, y - x, r);
    assert 0.0 <= (y - x) * r;
  }

  /** Splitting one wait into two refills changes nothing. */
  lemma RefillComposes(b: Bucket, t1: real, t2: real)
    requires 0.0 <= b.refillRate && b.lastRefill <= t1 <= t2
    ensures Refill(Refill(b, t1), t2) == Refill(b, t2)
  {
    MulDistributes(t1 - b.lastRefill, t2 - t1, b.refillRate);
    MulMonotone(0.0, t2 - t1, b.refillRate);
  }

  /** A sound bucket idle long enough to earn its whole capacity is full. */
  lemma RefillFills(b: Bucket, now: real, wait: real)
    requires Sound(b) && wait * b.refillRate == b.capacity && wait <= now - b.lastRefill
    ensures Refill(b, now) == b.(tokens := b.capacity, lastRefill := now)
  {
    MulMonotone(wait, Max(0.0, now - b.lastRefill), b.refillRate);
  }

  lemma RefillValue(b: Bucket, now: real)
    requires b.lastRefill <= now
    ensures Refill(b, now).tokens == Min(b.capacity, b.tokens + (now - b.lastRefill) * b.refillRate)
  {
  }

  lemma RefillSound(b: Bucket, now: real)
    requires Sound(b) && b.lastRefill <= now
    ensures Sound(Refill(b, now))
    ensures b.tokens <= Refill(b, now).tokens <= b.tokens + (now - b.lastRefill) * b.refillRate
  {
    MulMonotone(0.0, now - b.lastRefill, b.refillRate);
  }
}
