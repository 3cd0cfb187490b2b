/** Retry-After is sound and tight: wait that long and the bucket that denied no longer does;
    come back more than a second sooner and the answer is still no. */
module LimiterRetry {
  import opened Common
  import opened TokenBucket
  import opened LimiterSpec
  import opened LimiterRuns
  import opened LimiterQuota

  /** No check of `ip` in the run from index `from` on got through. */
  ghost predicate NoneAllowedSince(cfg: Config, evs: seq<Event>, ip: string, from: nat) {
    forall i :: from <= i < |evs| ==> !AllowedAt(cfg, evs, i, ip)
  }

  /** One more event that lets nothing of `ip` through keeps its state the same. */
  lemma NoneAllowedStep(cfg: Config, run: seq<Event>, ip: string, s0: Ideal, later: real)
    requires Positive(cfg) && run != [] && Monotone(run, later) && s0.Some?
    requires !AllowedAt(cfg, run, |run| - 1, ip)
    requires SameFrom(cfg, IdealAfter(cfg, History(Front(run), ip)), s0, Last(run).now)
    ensures SameFrom(cfg, IdealAfter(cfg, History(run, ip)), s0, later)
  {
    var before, e := Front(run), Last(run);
    if e.Check? && e.ip == ip {
      assert Front(History(run, ip)) == History(before, ip);
      PruningInvisible(cfg, before, ip, e.now);
      Tracks(cfg, before, ip, e.now);
      RefilledSame(cfg, IdealAfter(cfg, History(before, ip)), s0, e.now, later);
    }
  }

  lemma {:induction false} NoneAllowedKeeps(cfg: Config, evs: seq<Event>, more: seq<Event>, ip: string, later: real)
    requires Positive(cfg) && Monotone(evs + more, later) && History(evs, ip) != []
    requires NoneAllowedSince(cfg, evs + more, ip, |evs|)
    ensures SameFrom(cfg, IdealAfter(cfg, History(evs + more, ip)), IdealAfter(cfg, History(evs, ip)), later)
  {
    var run := evs + more;
    if more == [] {
      assert run == evs;
    } else {
      var before, e := evs + Front(more), Last(more);
      assert Front(run) == before && Last(run) == e;
      forall i | |evs| <= i < |before| ensures !AllowedAt(cfg, before, i, ip) {
        assert run[..i] == before[..i];
        assert !AllowedAt(cfg, run, i, ip);
      }
      NoneAllowedKeeps(cfg, evs, Front(more), ip, e.now);
      NoneAllowedStep(cfg, run, ip, IdealAfter(cfg, History(evs, ip)), later);
    }
  }

  /** The state a denial at `now` leaves, and that lasts until something is allowed. */
  lemma DenialState(cfg: Config, evs: seq<Event>, ip: string, now: real) returns (bs: Buckets)
    requires Positive(cfg) && Monotone(evs, now) && !Answer(cfg, evs, ip, now).allowed
    ensures IdealAfter(cfg, History(evs + [Check(ip, now)], ip)) == Some(bs)
    ensures SoundAt(cfg, bs, now) && Monotone(evs + [Check(ip, now)], now)
    ensures var res := Answer(cfg, evs, ip, now);
      if bs.hourly.tokens < 1.0 then
        res.denyBucket == Hourly && res.retryAfterSeconds == RetryAfter(HourlyWindow(cfg), bs.hourly.tokens)
      else
        bs.daily.tokens < 1.0 &&
        res.denyBucket == Daily && res.retryAfterSeconds == RetryAfter(DailyWindow(cfg), bs.daily.tokens)
  {
    AfterCheck(cfg, evs, ip, now);
    bs := IdealAfter(cfg, History(evs + [Check(ip, now)], ip)).value;
  }

  lemma DivideMeans(need: real, rate: real, wait: real)
    requires rate > 0.0
    ensures wait >= need / rate ==> wait * rate >= need
    ensures wait <= need / rate ==> wait * rate <= need
  {
    var q := need / rate;
    assert q * rate == need;
    if wait >= q { MulMonotone(q, wait, rate); }
    if wait <= q { MulMonotone(wait, q, rate); }
  }

  lemma DivideStrict(need: real, rate: real, wait: real)
    requires rate > 0.0 && wait < need / rate
    ensures wait * rate < need
  {
    var q := need / rate;
    assert q * rate == need;
    assert (q - wait) * rate > 0.0;
    MulDistributes(wait, q - wait, rate);
  }

  lemma DivideLess(q: real, next: real, rate: real)
    requires rate > 0.0 && q < next
    ensures q * rate < next * rate
  {
    assert (next - q) * rate > 0.0;
    MulDistributes(q, next - q, rate);
  }

  /** `wait` is the least whole number of seconds in which a rate earns more than `need`. */
  ghost predicate LeastWait(wait: int, need: real, rate: real) {
    (wait - 1) as real * rate <= need < wait as real * rate
  }

  lemma WholeWait(need: real, rate: real, q: real)
    requires rate > 0.0 && q >= 0.0 && q * rate == need
    ensures LeastWait(Trunc(q) + 1, need, rate)
  {
    TruncExact(q);
    MulMonotone(Trunc(q) as real, q, rate);
    DivideLess(q, (Trunc(q) + 1) as real, rate);
  }

  lemma QuotientSign(need: real, rate: real)
    requires rate > 0.0 && need >= 0.0
    ensures need / rate >= 0.0 && (need / rate) * rate == need
  {
    DivideMeans(need, rate, 0.0);
  }

  lemma PositiveRate(w: Window)
    requires w.limit > 0 && w.periodSeconds > 0
    ensures w.RefillRate() > 0.0
  {
    SecondsPerToken(w.limit as real, w.periodSeconds as real);
  }

  lemma WaitExact(w: Window, tokens: real)
    requires w.limit > 0 && w.periodSeconds > 0 && tokens <= 1.0
    ensures LeastWait(RetryAfter(w, tokens), 1.0 - tokens, w.limit as real / w.periodSeconds as real)
  {
    var need, rate := 1.0 - tokens, w.RefillRate();
    PositiveRate(w);
    QuotientSign(need, rate);
    WholeWait(need, rate, need / rate);
  }

  lemma DecideWait(cfg: Config, bs: Buckets, now: real, h: real, d: real)
    requires HasTokens(bs.hourly, now, h) && HasTokens(bs.daily, now, d)
    ensures Decide(cfg, bs, now).1.retryAfterSeconds ==
      if h < 1.0 then RetryAfter(HourlyWindow(cfg), h)
      else if d < 1.0 then RetryAfter(DailyWindow(cfg), d) else 0
  {
    RefilledStep(bs.hourly, now, h);
    RefilledStep(bs.daily, now, d);
  }

  /** Retry-After of a denial, from the limits and what the buckets hold: the least whole number
      of seconds after which the named bucket has more than one token. */
  lemma RetryAfterExact(cfg: Config, bs: Buckets, now: real, h: real, d: real)
    requires Positive(cfg) && HasTokens(bs.hourly, now, h) && HasTokens(bs.daily, now, d)
    ensures var wait := Decide(cfg, bs, now).1.retryAfterSeconds;
      if h < 1.0 then LeastWait(wait, 1.0 - h, cfg.hourlyLimit as real / 3600.0)
      else if d < 1.0 then LeastWait(wait, 1.0 - d, cfg.dailyLimit as real / 86400.0)
      else wait == 0
  {
    DecideWait(cfg, bs, now, h, d);
    if h < 1.0 {
      WaitExact(HourlyWindow(cfg), h);
    } else if d < 1.0 {
      WaitExact(DailyWindow(cfg), d);
    }
  }

  lemma WaitedLongEnough(w: Window, b: Bucket, later: real)
    requires w.periodSeconds > 0 && SoundFor(w, b) && b.tokens < 1.0
    requires later >= b.lastRefill + RetryAfter(w, b.tokens) as real
    ensures Refill(b, later).tokens >= 1.0
  {
    var need := 1.0 - b.tokens;
    assert need / b.refillRate > 0.0 by { DivideMeans(need, b.refillRate, 0.0); }
    RefillValue(b, later);
    DivideMeans(need, b.refillRate, later - b.lastRefill);
  }

  lemma TooSoon(w: Window, b: Bucket, later: real)
    requires w.periodSeconds > 0 && SoundFor(w, b) && b.tokens < 1.0 && b.lastRefill <= later
    requires later < b.lastRefill + RetryAfter(w, b.tokens) as real - 1.0
    ensures Refill(b, later).tokens < 1.0
  {
    var need := 1.0 - b.tokens;
    assert need / b.refillRate > 0.0 by { DivideMeans(need, b.refillRate, 0.0); }
    RefillValue(b, later);
    DivideStrict(need, b.refillRate, later - b.lastRefill);
  }

  lemma PositiveRetry(w: Window, b: Bucket)
    requires w.periodSeconds > 0 && SoundFor(w, b) && b.tokens < 1.0
    ensures RetryAfter(w, b.tokens) >= 1
  {
    DivideMeans(1.0 - b.tokens, b.refillRate, 0.0);
  }

  /** Waiting Retry-After seconds with no further success: the triggering bucket no longer
      denies, and if that was the daily bucket the whole check is allowed. */
  lemma RetryAfterSound(cfg: Config, evs: seq<Event>, ip: string, now: real, more: seq<Event>, later: real)
    requires Positive(cfg) && Monotone(evs, now) && !Answer(cfg, evs, ip, now).allowed
    requires Monotone(evs + [Check(ip, now)] + more, later)
    requires NoneAllowedSince(cfg, evs + [Check(ip, now)] + more, ip, |evs| + 1)
    requires later >= now + Answer(cfg, evs, ip, now).retryAfterSeconds as real
    ensures var first, next := Answer(cfg, evs, ip, now), Answer(cfg, evs + [Check(ip, now)] + more, ip, later);
      next.denyBucket != first.denyBucket && (first.denyBucket == Daily ==> next.allowed)
  {
    var bs := DenialState(cfg, evs, ip, now);
    var run := evs + [Check(ip, now)] + more;
    NoneAllowedKeeps(cfg, evs + [Check(ip, now)], more, ip, later);
    PruningInvisible(cfg, run, ip, later);
    SameFromStep(cfg, IdealAfter(cfg, History(run, ip)), Some(bs), later);
    var w, b := if bs.hourly.tokens < 1.0 then HourlyWindow(cfg) else DailyWindow(cfg),
                if bs.hourly.tokens < 1.0 then bs.hourly else bs.daily;
    WaitedLongEnough(w, b, later);
    PositiveRetry(w, b);
    RefillSound(bs.hourly, later);
  }

  /** The buckets of a denial deny every check up to a second before Retry-After. */
  lemma StillDenied(cfg: Config, bs: Buckets, now: real, retry: int, later: real)
    requires SoundAt(cfg, bs, now) && now <= later < now + retry as real - 1.0
    requires if bs.hourly.tokens < 1.0 then retry == RetryAfter(HourlyWindow(cfg), bs.hourly.tokens)
      else bs.daily.tokens < 1.0 && retry == RetryAfter(DailyWindow(cfg), bs.daily.tokens)
    ensures !IdealCheck(cfg, Some(bs), later).1.allowed
  {
    if bs.hourly.tokens < 1.0 {
      TooSoon(HourlyWindow(cfg), bs.hourly, later);
    } else {
      TooSoon(DailyWindow(cfg), bs.daily, later);
    }
  }

  /** As long as the buckets `bs` deny, the run's last event lets nothing of `ip` through. */
  lemma DeniedStep(cfg: Config, run: seq<Event>, ip: string, bs: Buckets, later: real)
    requires Positive(cfg) && run != [] && Monotone(run, later)
    requires SameFrom(cfg, IdealAfter(cfg, History(Front(run), ip)), Some(bs), Last(run).now)
    requires !IdealCheck(cfg, Some(bs), Last(run).now).1.allowed
    ensures SameFrom(cfg, IdealAfter(cfg, History(run, ip)), Some(bs), later)
  {
    var before, e := Front(run), Last(run);
    PruningInvisible(cfg, before, ip, e.now);
    SameFromStep(cfg, IdealAfter(cfg, History(before, ip)), Some(bs), e.now);
    assert run[..|run| - 1] == before;
    NoneAllowedStep(cfg, run, ip, Some(bs), later);
  }

  /** The two buckets deny from `now` until `until`. */
  ghost predicate DeniesUntil(cfg: Config, bs: Buckets, now: real, until: real) {
    forall t :: now <= t < until ==> !IdealCheck(cfg, Some(bs), t).1.allowed
  }

  lemma FrontOfRun(start: seq<Event>, more: seq<Event>)
    requires more != []
    ensures Front(start + more) == start + Front(more) && Last(start + more) == Last(more) && start + more != []
  {
  }

  lemma LaterEvents(start: seq<Event>, more: seq<Event>, later: real)
    requires Monotone(start + more, later) && more != []
    ensures more[0].now <= Last(more).now <= later
  {
    var run := start + more;
    assert run[|start|] == more[0] && Last(run) == Last(more);
  }

  lemma {:induction false} DeniedKeeps(
      cfg: Config, start: seq<Event>, more: seq<Event>, ip: string, bs: Buckets, now: real, until: real, later: real)
    requires Positive(cfg) && Monotone(start + more, later) && now <= later < until
    requires more != [] ==> now <= more[0].now
    requires IdealAfter(cfg, History(start, ip)) == Some(bs) && DeniesUntil(cfg, bs, now, until)
    ensures SameFrom(cfg, IdealAfter(cfg, History(start + more, ip)), Some(bs), later)
  {
    if more == [] {
      assert start + more == start;
    } else {
      var run, e := start + more, Last(more);
      FrontOfRun(start, more);
      assert now <= e.now by { LaterEvents(start, more, later); }
      DeniedKeeps(cfg, start, Front(more), ip, bs, now, until, e.now);
      DeniedStep(cfg, run, ip, bs, later);
    }
  }

  lemma DeniedUntilRetry(cfg: Config, bs: Buckets, now: real, retry: int)
    requires SoundAt(cfg, bs, now)
    requires if bs.hourly.tokens < 1.0 then retry == RetryAfter(HourlyWindow(cfg), bs.hourly.tokens)
      else bs.daily.tokens < 1.0 && retry == RetryAfter(DailyWindow(cfg), bs.daily.tokens)
    ensures DeniesUntil(cfg, bs, now, now + retry as real - 1.0)
  {
    forall t | now <= t < now + retry as real - 1.0 ensures !IdealCheck(cfg, Some(bs), t).1.allowed {
      StillDenied(cfg, bs, now, retry, t);
    }
  }

  lemma AfterTheCheck(evs: seq<Event>, e: Event, more: seq<Event>, later: real)
    requires Monotone(evs + [e] + more, later)
    ensures more != [] ==> e.now <= more[0].now
  {
    var run := evs + [e] + more;
    assert run[|evs|] == e && (more != [] ==> run[|evs| + 1] == more[0]);
  }

  lemma DeniedLater(
      cfg: Config, start: seq<Event>, more: seq<Event>, ip: string, bs: Buckets, now: real, until: real, later: real)
    requires Positive(cfg) && Monotone(start + more, later) && now <= later < until
    requires more != [] ==> now <= more[0].now
    requires IdealAfter(cfg, History(start, ip)) == Some(bs) && DeniesUntil(cfg, bs, now, until)
    ensures !Answer(cfg, start + more, ip, later).allowed
  {
    DeniedKeeps(cfg, start, more, ip, bs, now, until, later);
    PruningInvisible(cfg, start + more, ip, later);
    SameFromStep(cfg, IdealAfter(cfg, History(start + more, ip)), Some(bs), later);
  }

  /** Coming back more than a second before Retry-After is always denied, whatever
      happened in between. */
  lemma RetryAfterTight(cfg: Config, evs: seq<Event>, ip: string, now: real, more: seq<Event>, later: real)
    requires Positive(cfg) && Monotone(evs, now) && !Answer(cfg, evs, ip, now).allowed
    requires Monotone(evs + [Check(ip, now)] + more, later) && now <= later
    requires later < now + Answer(cfg, evs, ip, now).retryAfterSeconds as real - 1.0
    ensures !Answer(cfg, evs + [Check(ip, now)] + more, ip, later).allowed
  {
    var bs := DenialState(cfg, evs, ip, now);
    var retry := Answer(cfg, evs, ip, now).retryAfterSeconds;
    DeniedUntilRetry(cfg, bs, now, retry);
    AfterTheCheck(evs, Check(ip, now), more, later);
    DeniedLater(cfg, evs + [Check(ip, now)], more, ip, bs, now, now + retry as real - 1.0, later);
  }
}
