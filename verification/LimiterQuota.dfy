/** Quantitative theorems about limiter runs: the hard bound on allowed checks, spaced
    callers, and the exactness of `remaining` and `Retry-After`. */
module LimiterQuota {
  import opened Common
  import opened TokenBucket
  import opened LimiterSpec
  import opened LimiterRuns

  // ---- how many checks get through ----

  predicate AllowedAt(cfg: Config, evs: seq<Event>, i: nat, ip: string)
    requires i < |evs|
  {
    evs[i].Check? && evs[i].ip == ip && Answer(cfg, evs[..i], ip, evs[i].now).allowed
  }

  /** Allowed checks of `ip` whose clock reading lies in [from, to]. */
  function AllowedIn(cfg: Config, evs: seq<Event>, ip: string, from: real, to: real): nat {
    if evs == [] then 0 else
      AllowedIn(cfg, Front(evs), ip, from, to) +
      if from <= Last(evs).now <= to && AllowedAt(cfg, evs, |evs| - 1, ip) then 1 else 0
  }

  /** What one window has let through since `from`, plus what it still holds, never
      outgrows its capacity plus what it earned since. */
  ghost predicate Budget(b: Bucket, allowed: nat, from: real) {
    if b.lastRefill < from then allowed == 0
    else allowed as real + b.tokens <= b.capacity + (b.lastRefill - from) * b.refillRate
  }

  lemma BudgetStep(b: Bucket, allowed: nat, from: real, now: real)
    requires Sound(b) && b.lastRefill <= now && Budget(b, allowed, from)
    ensures Budget(Refill(b, now), allowed, from)
  {
    RefillSound(b, now);
    if from <= b.lastRefill {
      MulDistributes(b.lastRefill - from, now - b.lastRefill, b.refillRate);
    } else if from <= now {
      MulMonotone(0.0, now - from, b.refillRate);
    }
  }

  lemma BudgetTake(r: Bucket, c: Bucket, allowed: nat, from: real, now: real)
    requires r.lastRefill == now && Budget(r, allowed, from)
    requires c == r.(tokens := r.tokens - 1.0)
    ensures Budget(c, allowed + if from <= now then 1 else 0, from)
  {
  }

  lemma BudgetDecide(cfg: Config, bs: Buckets, last: real, allowed: nat, from: real, now: real)
    requires SoundAt(cfg, bs, last) && last <= now
    requires Budget(bs.hourly, allowed, from) && Budget(bs.daily, allowed, from)
    ensures var (c, res) := Decide(cfg, bs, now);
      var n := allowed + if from <= now && res.allowed then 1 else 0;
      Budget(c.hourly, n, from) && Budget(c.daily, n, from)
  {
    var r, c := RefillAll(bs, now), Decide(cfg, bs, now).0;
    DecideSound(cfg, bs, last, now);
    BudgetStep(bs.hourly, allowed, from, now);
    BudgetStep(bs.daily, allowed, from, now);
    if Decide(cfg, bs, now).1.allowed {
      BudgetTake(r.hourly, c.hourly, allowed, from, now);
      BudgetTake(r.daily, c.daily, allowed, from, now);
    }
  }

  /** Both windows of one key respect their budget; an unseen key has let nothing through. */
  ghost predicate BudgetOf(s: Ideal, allowed: nat, from: real) {
    if s.None? then allowed == 0
    else Budget(s.value.hourly, allowed, from) && Budget(s.value.daily, allowed, from)
  }

  lemma BudgetCheck(cfg: Config, s: Ideal, allowed: nat, from: real, now: real)
    requires Positive(cfg) && BudgetOf(s, allowed, from)
    requires s.Some? ==> s.value.hourly.lastRefill <= now && SoundAt(cfg, s.value, s.value.hourly.lastRefill)
    ensures var (bs, res) := IdealCheck(cfg, s, now);
      BudgetOf(Some(bs), allowed + if from <= now && res.allowed then 1 else 0, from)
  {
    FreshSound(cfg, now);
    var held := Held(cfg, s, now);
    if s.None? && from <= now {
      MulMonotone(0.0, now - from, held.hourly.refillRate);
      MulMonotone(0.0, now - from, held.daily.refillRate);
    }
    BudgetDecide(cfg, held, held.hourly.lastRefill, allowed, from, now);
  }

  /** One more event of the run, in terms of the reference limiter. */
  lemma AllowedInAppend(cfg: Config, evs: seq<Event>, ip: string, from: real, to: real)
    requires Positive(cfg) && evs != [] && Monotone(evs, to)
    ensures var before, e := Front(evs), Last(evs);
      var s, n := IdealAfter(cfg, History(before, ip)), AllowedIn(cfg, before, ip, from, to);
      if e.Check? && e.ip == ip then
        var (bs, res) := IdealCheck(cfg, s, e.now);
        IdealAfter(cfg, History(evs, ip)) == Some(bs) &&
        AllowedIn(cfg, evs, ip, from, to) == n + if from <= e.now && res.allowed then 1 else 0
      else IdealAfter(cfg, History(evs, ip)) == s && AllowedIn(cfg, evs, ip, from, to) == n
  {
    var before, e := Front(evs), Last(evs);
    assert evs[..|evs| - 1] == before;
    if e.Check? && e.ip == ip {
      assert Front(History(evs, ip)) == History(before, ip);
      PruningInvisible(cfg, before, ip, e.now);
    }
  }

  lemma BudgetAppend(cfg: Config, evs: seq<Event>, ip: string, from: real, to: real)
    requires Positive(cfg) && evs != [] && Monotone(evs, to)
    requires BudgetOf(IdealAfter(cfg, History(Front(evs), ip)), AllowedIn(cfg, Front(evs), ip, from, to), from)
    ensures BudgetOf(IdealAfter(cfg, History(evs, ip)), AllowedIn(cfg, evs, ip, from, to), from)
  {
    var before, e := Front(evs), Last(evs);
    AllowedInAppend(cfg, evs, ip, from, to);
    if e.Check? && e.ip == ip {
      Tracks(cfg, before, ip, e.now);
      BudgetCheck(cfg, IdealAfter(cfg, History(before, ip)), AllowedIn(cfg, before, ip, from, to), from, e.now);
    }
  }

  lemma {:induction false} BudgetKept(cfg: Config, evs: seq<Event>, ip: string, from: real, to: real)
    requires Positive(cfg) && Monotone(evs, to)
    ensures BudgetOf(IdealAfter(cfg, History(evs, ip)), AllowedIn(cfg, evs, ip, from, to), from)
  {
    if evs != [] {
      BudgetKept(cfg, Front(evs), ip, from, to);
      BudgetAppend(cfg, evs, ip, from, to);
    }
  }

  lemma ScaleSwap(l: real, p: real, d: real)
    requires p > 0.0
    ensures d * (l / p) + l == l * (1.0 + d / p)
  {
    assert d * (l / p) == l * (d / p);
  }

  lemma BudgetBounds(w: Window, b: Bucket, allowed: nat, from: real, to: real)
    requires w.periodSeconds > 0 && SoundFor(w, b) && from <= to && b.lastRefill <= to && Budget(b, allowed, from)
    ensures allowed as real <= w.limit as real * (1.0 + (to - from) / w.periodSeconds as real)
  {
    ScaleSwap(w.limit as real, w.periodSeconds as real, to - from);
    MulMonotone(0.0, to - from, b.refillRate);
    if b.lastRefill >= from {
      MulMonotone(b.lastRefill - from, to - from, b.refillRate);
    }
  }

  lemma BudgetOfBounds(cfg: Config, s: Ideal, allowed: nat, from: real, to: real)
    requires Positive(cfg) && from <= to && BudgetOf(s, allowed, from)
    requires s.Some? ==> s.value.hourly.lastRefill <= to && SoundAt(cfg, s.value, s.value.hourly.lastRefill)
    ensures allowed as real <= cfg.hourlyLimit as real * (1.0 + (to - from) / 3600.0)
    ensures allowed as real <= cfg.dailyLimit as real * (1.0 + (to - from) / 86400.0)
  {
    FreshSound(cfg, from - 1.0);
    var held := Held(cfg, s, from - 1.0);
    BudgetBounds(HourlyWindow(cfg), held.hourly, allowed, from, to);
    BudgetBounds(DailyWindow(cfg), held.daily, allowed, from, to);
  }

  /** The hard bound: in every run, in every interval, for both windows at once. */
  lemma {:induction false} RateBound(cfg: Config, evs: seq<Event>, ip: string, from: real, to: real, end: real)
    requires Positive(cfg) && Monotone(evs, end) && from <= to
    ensures AllowedIn(cfg, evs, ip, from, to) as real <= cfg.hourlyLimit as real * (1.0 + (to - from) / 3600.0)
    ensures AllowedIn(cfg, evs, ip, from, to) as real <= cfg.dailyLimit as real * (1.0 + (to - from) / 86400.0)
  {
    if evs != [] && Last(evs).now > to {
      RateBound(cfg, Front(evs), ip, from, to, Last(evs).now);
    } else {
      BudgetKept(cfg, evs, ip, from, to);
      Tracks(cfg, evs, ip, to);
      BudgetOfBounds(cfg, IdealAfter(cfg, History(evs, ip)), AllowedIn(cfg, evs, ip, from, to), from, to);
    }
  }

  // ---- a spaced caller is never denied ----

  ghost predicate Spaced(history: seq<real>, gap: real) {
    forall i :: 0 < i < |history| ==> history[i] - history[i - 1] >= gap
  }

  lemma Reciprocal(l: real, p: real)
    requires l > 0.0 && p > 0.0
    ensures p / l > 0.0 && (p / l) * (l / p) == 1.0
  {
    var q := l / p;
    assert q * p == l;
    assert p / l == 1.0 / q;
  }

  lemma EarnedTokens(l: real, p: real, rate: real, wait: real)
    requires l > 0.0 && p > 0.0 && rate == l / p && wait >= p / l
    ensures wait * rate >= 1.0
  {
    Reciprocal(l, p);
    MulMonotone(p / l, wait, rate);
  }

  lemma EarnsOne(w: Window, b: Bucket, now: real)
    requires w.periodSeconds > 0 && SoundFor(w, b)
    requires now - b.lastRefill >= w.periodSeconds as real / w.limit as real
    ensures Refill(b, now).tokens >= 1.0
  {
    var wait := now - b.lastRefill;
    Reciprocal(w.limit as real, w.periodSeconds as real);
    EarnedTokens(w.limit as real, w.periodSeconds as real, b.refillRate, wait);
    RefillValue(b, now);
    assert Refill(b, now).tokens == Min(b.capacity, b.tokens + wait * b.refillRate);
  }

  lemma LastRefillIsLastCheck(cfg: Config, h: seq<real>)
    requires h != []
    ensures var s := IdealAfter(cfg, h);
      s.Some? && s.value.hourly.lastRefill == Last(h) && s.value.daily.lastRefill == Last(h)
  {
  }

  lemma BothEarned(cfg: Config, bs: Buckets, last: real, now: real, gap: real)
    requires Positive(cfg) && SoundAt(cfg, bs, last) && now - last >= gap
    requires gap >= 3600.0 / cfg.hourlyLimit as real && gap >= 86400.0 / cfg.dailyLimit as real
    ensures IdealCheck(cfg, Some(bs), now).1.allowed
  {
    EarnsOne(HourlyWindow(cfg), bs.hourly, now);
    EarnsOne(DailyWindow(cfg), bs.daily, now);
  }

  /** Calls at least the larger period/limit apart always get through. */
  lemma SpacedNeverDenied(cfg: Config, evs: seq<Event>, ip: string, now: real, gap: real)
    requires Positive(cfg) && Monotone(evs, now)
    requires gap >= 3600.0 / cfg.hourlyLimit as real && gap >= 86400.0 / cfg.dailyLimit as real
    requires Spaced(History(evs, ip) + [now], gap)
    ensures Answer(cfg, evs, ip, now).allowed
  {
    var h := History(evs, ip);
    PruningInvisible(cfg, evs, ip, now);
    if h == [] {
      FirstCheckAllowed(cfg, now);
    } else {
      assert (h + [now])[|h|] - (h + [now])[|h| - 1] >= gap;
      LastRefillIsLastCheck(cfg, h);
      Tracks(cfg, evs, ip, now);
      BothEarned(cfg, IdealAfter(cfg, h).value, Last(h), now, gap);
    }
  }

  // ---- the other figures of an answer ----

  lemma MulCancel(x: real, y: real, q: real)
    requires q != 0.0 && x * q == y * q
    ensures x == y
  {
    assert (x - y) * q == 0.0;
  }

  lemma SecondsPerToken(l: real, p: real)
    requires l > 0.0 && p > 0.0
    ensures l / p > 0.0 && 1.0 / (l / p) == p / l
  {
    Reciprocal(l, p);
    var q := l / p;
    assert (1.0 / q) * q == 1.0;
    MulCancel(1.0 / q, p / l, q);
  }

  lemma ResetRounds(cfg: Config)
    requires Positive(cfg)
    ensures -0.5 <= 3600.0 / cfg.hourlyLimit as real - ResetSeconds(cfg) as real < 0.5
  {
    SecondsPerToken(cfg.hourlyLimit as real, 3600.0);
  }

  /** The fields a caller sees: a denial names its bucket and repeats its wait as the reset; an
      allowed check's reset is the time one hourly token takes, rounded to the nearest second. */
  lemma AnswerFields(cfg: Config, evs: seq<Event>, ip: string, now: real)
    requires Positive(cfg)
    ensures var res := Answer(cfg, evs, ip, now);
      res.limit == cfg.hourlyLimit &&
      if res.allowed then
        res.denyBucket == NoBucket && res.retryAfterSeconds == 0 && res.remaining >= 0 &&
        -0.5 <= 3600.0 / cfg.hourlyLimit as real - res.resetSeconds as real < 0.5
      else res.denyBucket != NoBucket && res.resetSeconds == res.retryAfterSeconds && res.remaining == 0
  {
    ResetRounds(cfg);
  }

  // ---- `remaining` is exact ----

  /** `n` checks of `ip`, all at the same instant. */
  function Burst(ip: string, now: real, n: nat): seq<Event> { seq(n, _ => Check(ip, now)) }

  /** The run extended by one check, seen through the reference limiter. */
  lemma AfterCheck(cfg: Config, evs: seq<Event>, ip: string, now: real)
    requires Positive(cfg) && Monotone(evs, now)
    ensures Monotone(evs + [Check(ip, now)], now)
    ensures var s := IdealAfter(cfg, History(evs, ip));
      var (bs, res) := IdealCheck(cfg, s, now);
      Answer(cfg, evs, ip, now) == res && IdealAfter(cfg, History(evs + [Check(ip, now)], ip)) == Some(bs) &&
      SoundAt(cfg, bs, now)
  {
    var evs' := evs + [Check(ip, now)];
    assert Front(evs') == evs;
    assert Front(History(evs', ip)) == History(evs, ip);
    PruningInvisible(cfg, evs, ip, now);
    Tracks(cfg, evs', ip, now);
    LastRefillIsLastCheck(cfg, History(evs', ip));
  }

  lemma {:induction false} NoHistory(evs: seq<Event>, ip: string)
    requires forall e :: e in evs ==> !(e.Check? && e.ip == ip)
    ensures History(evs, ip) == []
  {
    if evs != [] {
      assert Last(evs) in evs;
      NoHistory(Front(evs), ip);
    }
  }

  lemma FullQuota(cfg: Config, now: real)
    requires Positive(cfg)
    ensures var (_, res) := Decide(cfg, MakeFresh(cfg, now), now);
      res.allowed &&
      res.remaining == (if cfg.hourlyLimit <= cfg.dailyLimit then cfg.hourlyLimit else cfg.dailyLimit) - 1
  {
    FreshSound(cfg, now);
    var left := ConsumeAll(MakeFresh(cfg, now), now);
    assert left.hourly.tokens == (cfg.hourlyLimit - 1) as real && left.daily.tokens == (cfg.dailyLimit - 1) as real;
  }

  /** A key that was never checked has the whole of both quotas: after its first check one less
      than the smaller limit remains. */
  lemma FirstRemaining(cfg: Config, evs: seq<Event>, ip: string, now: real)
    requires Positive(cfg) && Monotone(evs, now) && forall e :: e in evs ==> !(e.Check? && e.ip == ip)
    ensures Answer(cfg, evs, ip, now).allowed
    ensures Answer(cfg, evs, ip, now).remaining ==
      (if cfg.hourlyLimit <= cfg.dailyLimit then cfg.hourlyLimit else cfg.dailyLimit) - 1
  {
    NoHistory(evs, ip);
    PruningInvisible(cfg, evs, ip, now);
    FullQuota(cfg, now);
  }

  /** At the instant of the last refill, each check takes one off `remaining` until none is left. */
  lemma DecideAtOnce(cfg: Config, bs: Buckets, now: real)
    requires SoundAt(cfg, bs, now)
    ensures RefillAll(bs, now) == bs
    ensures var (c, res) := Decide(cfg, bs, now);
      res.allowed == (Remaining(bs) >= 1) &&
      (res.allowed ==> Remaining(c) == res.remaining == Remaining(bs) - 1)
  {
    assert RefillAll(bs, now) == bs;
    if Remaining(bs) >= 1 {
      var c := Decide(cfg, bs, now).0;
      DecideSound(cfg, bs, now, now);
      assert c.hourly.tokens == bs.hourly.tokens - 1.0 && c.daily.tokens == bs.daily.tokens - 1.0;
    }
  }

  /** The key's last check was at `now` and left it with `left` more at that instant. */
  ghost predicate HasLeft(cfg: Config, run: seq<Event>, ip: string, now: real, left: int) {
    var s := IdealAfter(cfg, History(run, ip));
    s.Some? && SoundAt(cfg, s.value, now) && Remaining(s.value) == left
  }

  lemma OneMoreAtOnce(cfg: Config, run: seq<Event>, ip: string, now: real, left: int)
    requires Positive(cfg) && Monotone(run, now) && HasLeft(cfg, run, ip, now, left)
    ensures Answer(cfg, run, ip, now).allowed == (left >= 1)
    ensures left >= 1 ==> Answer(cfg, run, ip, now).remaining == left - 1
    ensures left >= 1 ==> HasLeft(cfg, run + [Check(ip, now)], ip, now, left - 1)
    ensures Monotone(run + [Check(ip, now)], now)
  {
    AfterCheck(cfg, run, ip, now);
    DecideAtOnce(cfg, IdealAfter(cfg, History(run, ip)).value, now);
  }

  lemma AllowedLeaves(cfg: Config, evs: seq<Event>, ip: string, now: real)
    requires Positive(cfg) && Monotone(evs, now) && Answer(cfg, evs, ip, now).allowed
    ensures Monotone(evs + [Check(ip, now)], now)
    ensures HasLeft(cfg, evs + [Check(ip, now)], ip, now, Answer(cfg, evs, ip, now).remaining)
  {
    AfterCheck(cfg, evs, ip, now);
  }

  lemma BurstLonger(start: seq<Event>, ip: string, now: real, k: nat)
    requires k > 0
    ensures start + Burst(ip, now, k) == start + Burst(ip, now, k - 1) + [Check(ip, now)]
  {
  }

  lemma {:induction false} AfterBurst(cfg: Config, start: seq<Event>, ip: string, now: real, r: int, k: nat)
    requires Positive(cfg) && Monotone(start, now) && HasLeft(cfg, start, ip, now, r) && k <= r
    ensures Monotone(start + Burst(ip, now, k), now) && HasLeft(cfg, start + Burst(ip, now, k), ip, now, r - k)
  {
    if k == 0 {
      assert start + Burst(ip, now, 0) == start;
    } else {
      AfterBurst(cfg, start, ip, now, r, k - 1);
      BurstLonger(start, ip, now, k);
      OneMoreAtOnce(cfg, start + Burst(ip, now, k - 1), ip, now, r - k + 1);
    }
  }

  /** After an allowed check reporting r, a burst at the same instant gets exactly r more
      through: the first r are allowed, counting down, and the next is denied. */
  lemma RemainingExactNow(cfg: Config, evs: seq<Event>, ip: string, now: real, k: nat)
    requires Positive(cfg) && Monotone(evs, now) && Answer(cfg, evs, ip, now).allowed
    requires k <= Answer(cfg, evs, ip, now).remaining
    ensures var r := Answer(cfg, evs, ip, now).remaining;
      var next := Answer(cfg, evs + [Check(ip, now)] + Burst(ip, now, k), ip, now);
      next.allowed == (k < r) && (k < r ==> next.remaining == r - k - 1)
  {
    var start, r := evs + [Check(ip, now)], Answer(cfg, evs, ip, now).remaining;
    AllowedLeaves(cfg, evs, ip, now);
    AfterBurst(cfg, start, ip, now, r, k);
    OneMoreAtOnce(cfg, start + Burst(ip, now, k), ip, now, r - k);
  }

  /** The key's buckets are sound, and each still holds at least `left` tokens. */
  ghost predicate Holds(cfg: Config, s: Ideal, left: int, now: real) {
    s.Some? && s.value.hourly.lastRefill <= now && SoundAt(cfg, s.value, s.value.hourly.lastRefill) &&
    s.value.hourly.tokens >= left as real && s.value.daily.tokens >= left as real
  }

  /** One later check of the key takes at most one token. */
  lemma HoldsAfterCheck(cfg: Config, s: Ideal, left: int, now: real)
    requires Holds(cfg, s, left, now) && left >= 1
    ensures IdealCheck(cfg, s, now).1.allowed
    ensures Holds(cfg, Some(IdealCheck(cfg, s, now).0), left - 1, now)
  {
    RefillSound(s.value.hourly, now);
    RefillSound(s.value.daily, now);
    DecideSound(cfg, s.value, s.value.hourly.lastRefill, now);
  }

  lemma AllowedHolds(cfg: Config, evs: seq<Event>, ip: string, now: real)
    requires Positive(cfg) && Monotone(evs, now) && Answer(cfg, evs, ip, now).allowed
    ensures Holds(cfg, IdealAfter(cfg, History(evs + [Check(ip, now)], ip)), Answer(cfg, evs, ip, now).remaining, now)
  {
    AfterCheck(cfg, evs, ip, now);
    var bs := IdealAfter(cfg, History(evs + [Check(ip, now)], ip)).value;
    assert bs.hourly.tokens >= Trunc(bs.hourly.tokens) as real;
    assert bs.daily.tokens >= Trunc(bs.daily.tokens) as real;
  }

  lemma {:induction false} HoldsRemaining(
      cfg: Config, evs: seq<Event>, more: seq<Event>, ip: string, left: int, at: real, later: real)
    requires Positive(cfg) && Monotone(evs + more, later) && at <= later && (more != [] ==> at <= more[0].now)
    requires Holds(cfg, IdealAfter(cfg, History(evs, ip)), left, at) && |History(more, ip)| <= left
    ensures Holds(cfg, IdealAfter(cfg, History(evs + more, ip)), left - |History(more, ip)|, later)
  {
    if more == [] {
      assert evs + more == evs;
    } else {
      var run, before, e := evs + more, evs + Front(more), Last(more);
      assert Front(run) == before && Last(run) == e;
      assert more[0].now <= e.now by {
        assert run[|evs|] == more[0];
      }
      HoldsRemaining(cfg, evs, Front(more), ip, left, at, e.now);
      if e.Check? && e.ip == ip {
        assert Front(History(run, ip)) == History(before, ip);
        HoldsAfterCheck(cfg, IdealAfter(cfg, History(before, ip)), left - |History(Front(more), ip)|, e.now);
      }
    }
  }

  /** After an allowed check reporting r, and however other keys interleave, at any later
      times at least r more checks of that key succeed: `more` already holds fewer than r. */
  lemma RemainingLater(cfg: Config, evs: seq<Event>, ip: string, now: real, more: seq<Event>, later: real)
    requires Positive(cfg) && Answer(cfg, evs, ip, now).allowed
    requires Monotone(evs + [Check(ip, now)] + more, later)
    requires |History(more, ip)| < Answer(cfg, evs, ip, now).remaining
    ensures Answer(cfg, evs + [Check(ip, now)] + more, ip, later).allowed
  {
    var start := evs + [Check(ip, now)];
    var run := start + more;
    assert run[|evs|] == Check(ip, now) && run[..|evs|] == evs && (more != [] ==> run[|start|] == more[0]);
    AllowedHolds(cfg, evs, ip, now);
    var r := Answer(cfg, evs, ip, now).remaining;
    HoldsRemaining(cfg, start, more, ip, r, now, later);
    PruningInvisible(cfg, run, ip, later);
    HoldsAfterCheck(cfg, IdealAfter(cfg, History(run, ip)), r - |History(more, ip)|, later);
  }
}
