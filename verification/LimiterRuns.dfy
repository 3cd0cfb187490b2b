/** Whole-run theorems about the limiter. A run is any sequence of checks and deny-logs,
    by any keys, read against a monotone clock; `After` is the table it leaves behind. */
module LimiterRuns {
  import opened Common
  import opened TokenBucket
  import opened LimiterSpec

  datatype Event = Check(ip: string, now: real) | Log(ip: string, now: real)

  function Apply(cfg: Config, t: Table, e: Event): Table {
    match e
    case Check(ip, now) => CheckTable(cfg, t, ip, now).0
    case Log(ip, now) => LogTable(t, ip, now)
  }

  function After(cfg: Config, evs: seq<Event>): Table {
    if evs == [] then Table([], map[]) else Apply(cfg, After(cfg, Front(evs)), Last(evs))
  }

  /** What a check by `ip` at `now` answers after the run `evs`. */
  function Answer(cfg: Config, evs: seq<Event>, ip: string, now: real): CheckResult {
    CheckTable(cfg, After(cfg, evs), ip, now).1
  }

  ghost predicate Monotone(evs: seq<Event>, now: real) {
    (forall i, j :: 0 <= i < j < |evs| ==> evs[i].now <= evs[j].now) &&
    (evs != [] ==> Last(evs).now <= now)
  }

  /** Limits are validated at startup to be positive. */
  ghost predicate Positive(cfg: Config) { cfg.hourlyLimit >= 1 && cfg.dailyLimit >= 1 }

  // ---- the reference limiter: one key, no table, nothing ever pruned ----

  /** The instants at which `ip` was checked. */
  function History(evs: seq<Event>, ip: string): seq<real> {
    if evs == [] then [] else
      var h := History(Front(evs), ip);
      if Last(evs).Check? && Last(evs).ip == ip then h + [Last(evs).now] else h
  }

  /** A key that was never checked has no buckets. */
  type Ideal = Option<Buckets>

  function Held(cfg: Config, s: Ideal, now: real): Buckets {
    if s.Some? then s.value else MakeFresh(cfg, now)
  }

  function IdealCheck(cfg: Config, s: Ideal, now: real): (Buckets, CheckResult) {
    Decide(cfg, Held(cfg, s, now), now)
  }

  function IdealAfter(cfg: Config, history: seq<real>): Ideal {
    if history == [] then None
    else Some(IdealCheck(cfg, IdealAfter(cfg, Front(history)), Last(history)).0)
  }

  // ---- invariants of one key's buckets ----

  ghost predicate SoundFor(w: Window, b: Bucket)
    requires w.periodSeconds != 0
  {
    Sound(b) && b.capacity == w.limit as real && b.refillRate == w.RefillRate()
  }

  ghost predicate SoundAt(cfg: Config, bs: Buckets, last: real) {
    SoundFor(HourlyWindow(cfg), bs.hourly) && SoundFor(DailyWindow(cfg), bs.daily) &&
    bs.hourly.lastRefill == last && bs.daily.lastRefill == last
  }

  lemma FreshSound(cfg: Config, now: real)
    requires Positive(cfg)
    ensures SoundAt(cfg, MakeFresh(cfg, now), now)
    ensures RefillAll(MakeFresh(cfg, now), now) == MakeFresh(cfg, now)
  {
  }

  lemma DecideSound(cfg: Config, bs: Buckets, last: real, now: real)
    requires SoundAt(cfg, bs, last) && last <= now
    ensures SoundAt(cfg, RefillAll(bs, now), now)
    ensures SoundAt(cfg, Decide(cfg, bs, now).0, now)
    ensures Decide(cfg, bs, now).1.allowed ==>
      var r, c := RefillAll(bs, now), Decide(cfg, bs, now).0;
      c.hourly.tokens == r.hourly.tokens - 1.0 && c.daily.tokens == r.daily.tokens - 1.0
  {
    RefillSound(bs.hourly, now);
    RefillSound(bs.daily, now);
  }

  /** Idle past the TTL, a key's buckets are exactly what fresh ones would be. */
  lemma IdleIsFresh(cfg: Config, bs: Buckets, last: real, now: real)
    requires SoundAt(cfg, bs, last) && now - last > TTL
    ensures RefillAll(bs, now) == MakeFresh(cfg, now)
    ensures Decide(cfg, bs, now) == Decide(cfg, MakeFresh(cfg, now), now)
  {
    RefillFills(bs.hourly, now, HOUR as real);
    RefillFills(bs.daily, now, DAY as real);
    assert Positive(cfg);
    FreshSound(cfg, now);
  }

  // ---- pruning is invisible and keys are independent ----

  /** How the table's view of a key relates to the reference limiter's, as of instant `now`. */
  ghost predicate Tracking(cfg: Config, t: Table, ip: string, s: Ideal, now: real) {
    (s.Some? ==> s.value.hourly.lastRefill <= now && SoundAt(cfg, s.value, s.value.hourly.lastRefill)) &&
    (ip in t.rows ==> s == Some(t.rows[ip].buckets) && t.rows[ip].lastAccess == s.value.hourly.lastRefill) &&
    (ip !in t.rows && s.Some? ==> now - s.value.hourly.lastRefill > TTL)
  }

  lemma CleanedKeepsTracking(cfg: Config, t: Table, ip: string, other: string, s: Ideal, last: real, now: real)
    requires Tracking(cfg, t, ip, s, last) && last <= now
    ensures Tracking(cfg, Cleaned(t, other, now), ip, s, now)
    ensures var c := Cleaned(t, ip, now); ip in c.rows ==> !Expired(c.rows[ip], now)
  {
  }

  lemma CheckTracks(cfg: Config, t: Table, ip: string, s: Ideal, last: real, now: real)
    requires Positive(cfg) && Tracking(cfg, t, ip, s, last) && last <= now
    ensures CheckTable(cfg, t, ip, now).1 == IdealCheck(cfg, s, now).1
    ensures Tracking(cfg, CheckTable(cfg, t, ip, now).0, ip, Some(IdealCheck(cfg, s, now).0), now)
    ensures ip in CheckTable(cfg, t, ip, now).0.rows
  {
    CleanedKeepsTracking(cfg, t, ip, ip, s, last, now);
    if s.Some? {
      DecideSound(cfg, s.value, s.value.hourly.lastRefill, now);
      if ip !in Cleaned(t, ip, now).rows {
        IdleIsFresh(cfg, s.value, s.value.hourly.lastRefill, now);
      }
    } else {
      FreshSound(cfg, now);
      DecideSound(cfg, MakeFresh(cfg, now), now, now);
    }
  }

  lemma {:induction false} Tracks(cfg: Config, evs: seq<Event>, ip: string, now: real)
    requires Positive(cfg) && Monotone(evs, now)
    ensures Tracking(cfg, After(cfg, evs), ip, IdealAfter(cfg, History(evs, ip)), now)
  {
    if evs != [] {
      var e, t := Last(evs), After(cfg, Front(evs));
      var s := IdealAfter(cfg, History(Front(evs), ip));
      Tracks(cfg, Front(evs), ip, e.now);
      if e.Check? {
        if e.ip == ip {
          assert Front(History(evs, ip)) == History(Front(evs), ip);
          CheckTracks(cfg, t, ip, s, e.now, e.now);
        } else {
          CleanedKeepsTracking(cfg, t, ip, e.ip, s, e.now, e.now);
        }
      }
    }
  }

  /** Pruning, sweeping and the other keys never show: every answer is the one a limiter
      that never drops an entry and hears only this key's own checks would give. */
  lemma PruningInvisible(cfg: Config, evs: seq<Event>, ip: string, now: real)
    requires Positive(cfg) && Monotone(evs, now)
    ensures Answer(cfg, evs, ip, now) == IdealCheck(cfg, IdealAfter(cfg, History(evs, ip)), now).1
  {
    Tracks(cfg, evs, ip, now);
    CheckTracks(cfg, After(cfg, evs), ip, IdealAfter(cfg, History(evs, ip)), now, now);
  }

  // ---- a denied check is a no-op for the future ----

  /** Event `i` of the run is a check, and it was denied. */
  predicate DeniedAt(cfg: Config, evs: seq<Event>, i: nat)
    requires i < |evs|
  {
    evs[i].Check? && !Answer(cfg, evs[..i], evs[i].ip, evs[i].now).allowed
  }

  /** The run without the events whose index is in `dropped`. */
  function Without(evs: seq<Event>, dropped: set<nat>): seq<Event> {
    if evs == [] then [] else
      var rest := Without(Front(evs), dropped);
      if |evs| - 1 in dropped then rest else rest + [Last(evs)]
  }

  /** The two states refill to the same buckets from `now` on. */
  ghost predicate SameFrom(cfg: Config, s: Ideal, s': Ideal, now: real) {
    s.Some? == s'.Some? &&
    (s.Some? ==> forall t :: now <= t ==> RefillAll(s.value, t) == RefillAll(s'.value, t))
  }

  lemma MonotoneAppend(run: seq<Event>, e: Event, now: real)
    requires Monotone(run, now) && now <= e.now
    ensures Monotone(run + [e], e.now)
  {
  }

  lemma MonotoneLater(run: seq<Event>, now: real, later: real)
    requires Monotone(run, now) && now <= later
    ensures Monotone(run, later)
  {
  }

  lemma {:induction false} WithoutMonotone(evs: seq<Event>, dropped: set<nat>, now: real)
    requires Monotone(evs, now)
    ensures Monotone(Without(evs, dropped), now)
  {
    if evs != [] {
      var rest, e := Without(Front(evs), dropped), Last(evs);
      WithoutMonotone(Front(evs), dropped, e.now);
      MonotoneLater(rest, e.now, now);
      MonotoneAppend(rest, e, e.now);
      MonotoneLater(rest + [e], e.now, now);
    }
  }

  lemma RefillAllComposes(cfg: Config, bs: Buckets, last: real, t1: real, t2: real)
    requires SoundAt(cfg, bs, last) && last <= t1 <= t2
    ensures RefillAll(RefillAll(bs, t1), t2) == RefillAll(bs, t2)
  {
    RefillComposes(bs.hourly, t1, t2);
    RefillComposes(bs.daily, t1, t2);
  }

  /** A key with no history is never denied. */
  lemma FirstCheckAllowed(cfg: Config, now: real)
    requires Positive(cfg)
    ensures IdealCheck(cfg, None, now).1.allowed
  {
  }

  lemma SameFromStep(cfg: Config, s: Ideal, s': Ideal, now: real)
    requires SameFrom(cfg, s, s', now)
    ensures IdealCheck(cfg, s, now) == IdealCheck(cfg, s', now)
  {
    if s.Some? {
      assert RefillAll(s.value, now) == RefillAll(s'.value, now);
    }
  }

  /** A refill without consumption leaves a state that is the same from then on. */
  lemma RefilledSame(cfg: Config, s: Ideal, s': Ideal, now: real, later: real)
    requires s.Some? && s.value.hourly.lastRefill <= now <= later
    requires SoundAt(cfg, s.value, s.value.hourly.lastRefill) && SameFrom(cfg, s, s', now)
    ensures SameFrom(cfg, Some(RefillAll(s.value, now)), s', later)
  {
    forall t | later <= t
      ensures RefillAll(RefillAll(s.value, now), t) == RefillAll(s'.value, t)
    {
      RefillAllComposes(cfg, s.value, s.value.hourly.lastRefill, now, t);
    }
  }

  /** The last event is a denied check: the state is the same without it. */
  lemma DroppedLast(cfg: Config, evs: seq<Event>, ip: string, s': Ideal, now: real)
    requires Positive(cfg) && evs != [] && Monotone(evs, now) && Last(evs).Check?
    requires !Answer(cfg, Front(evs), Last(evs).ip, Last(evs).now).allowed
    requires SameFrom(cfg, IdealAfter(cfg, History(Front(evs), ip)), s', Last(evs).now)
    ensures SameFrom(cfg, IdealAfter(cfg, History(evs, ip)), s', now)
  {
    var before, e := Front(evs), Last(evs);
    if e.ip == ip {
      var s := IdealAfter(cfg, History(before, ip));
      assert Front(History(evs, ip)) == History(before, ip);
      PruningInvisible(cfg, before, ip, e.now);
      FirstCheckAllowed(cfg, e.now);
      Tracks(cfg, before, ip, e.now);
      RefilledSame(cfg, s, s', e.now, now);
    }
  }

  /** The last event is kept in both runs. */
  lemma KeptLast(cfg: Config, evs: seq<Event>, kept: seq<Event>, ip: string, now: real)
    requires evs != [] && kept != [] && Last(kept) == Last(evs) && Last(evs).now <= now
    requires SameFrom(cfg, IdealAfter(cfg, History(Front(evs), ip)), IdealAfter(cfg, History(Front(kept), ip)),
                      Last(evs).now)
    ensures SameFrom(cfg, IdealAfter(cfg, History(evs, ip)), IdealAfter(cfg, History(kept, ip)), now)
  {
    var e := Last(evs);
    if e.Check? && e.ip == ip {
      assert Front(History(evs, ip)) == History(Front(evs), ip);
      assert Front(History(kept, ip)) == History(Front(kept), ip);
      SameFromStep(cfg, IdealAfter(cfg, History(Front(evs), ip)), IdealAfter(cfg, History(Front(kept), ip)), e.now);
    }
  }

  lemma {:induction false} DroppedTracks(cfg: Config, evs: seq<Event>, dropped: set<nat>, ip: string, now: real)
    requires Positive(cfg) && Monotone(evs, now)
    requires forall i :: i in dropped && i < |evs| ==> DeniedAt(cfg, evs, i)
    ensures SameFrom(cfg, IdealAfter(cfg, History(evs, ip)), IdealAfter(cfg, History(Without(evs, dropped), ip)), now)
  {
    if evs != [] {
      var before, e := Front(evs), Last(evs);
      forall i | i in dropped && i < |before| ensures DeniedAt(cfg, before, i) {
        assert evs[..i] == before[..i];
      }
      DroppedTracks(cfg, before, dropped, ip, e.now);
      if |evs| - 1 in dropped {
        assert DeniedAt(cfg, evs, |evs| - 1) && evs[..|evs| - 1] == before;
        DroppedLast(cfg, evs, ip, IdealAfter(cfg, History(Without(before, dropped), ip)), now);
      } else {
        KeptLast(cfg, evs, Without(evs, dropped), ip, now);
      }
    }
  }

  /** Removing any set of denied checks from a run changes no later answer to anyone. */
  lemma DenialIsNoOp(cfg: Config, evs: seq<Event>, dropped: set<nat>, ip: string, now: real)
    requires Positive(cfg) && Monotone(evs, now)
    requires forall i :: i in dropped && i < |evs| ==> DeniedAt(cfg, evs, i)
    ensures Answer(cfg, evs, ip, now) == Answer(cfg, Without(evs, dropped), ip, now)
  {
    WithoutMonotone(evs, dropped, now);
    PruningInvisible(cfg, evs, ip, now);
    PruningInvisible(cfg, Without(evs, dropped), ip, now);
    DroppedTracks(cfg, evs, dropped, ip, now);
    SameFromStep(cfg, IdealAfter(cfg, History(evs, ip)), IdealAfter(cfg, History(Without(evs, dropped), ip)), now);
  }
}
