/** The limiter's table as a value, and what each operation does to it
    (backend/rate_limiter/limiter.py). The clock reading is a parameter. */
module LimiterSpec {
  import opened Common
  import opened TokenBucket

  const SWEEP_SIZE: nat := 10
  const LOG_CAP_PER_SECOND: nat := 10
  const HOUR: int := 3600
  const DAY: int := 86400
  const TTL: real := 172800.0 // twice the longest window

  datatype Label = NoBucket | Hourly | Daily

  datatype Config = Config(hourlyLimit: int, dailyLimit: int)

  datatype Window = Window(name: Label, periodSeconds: int, limit: int) {
    function RefillRate(): real
      requires periodSeconds != 0
    {
      limit as real / periodSeconds as real
    }
  }

  function HourlyWindow(cfg: Config): Window { Window(Hourly, HOUR, cfg.hourlyLimit) }

  function DailyWindow(cfg: Config): Window { Window(Daily, DAY, cfg.dailyLimit) }

  /** The source's two-element bucket list, in window order. */
  datatype Buckets = Buckets(hourly: Bucket, daily: Bucket)

  datatype Entry = Entry(buckets: Buckets, lastAccess: real, denyCount: int, denySecond: int)

  /** A Python dict: `order` lists the keys of `rows` in insertion order. */
  datatype Table = Table(order: seq<string>, rows: map<string, Entry>)

  datatype CheckResult = CheckResult(
    allowed: bool, remaining: int, retryAfterSeconds: int,
    limit: int, resetSeconds: int, denyBucket: Label)

  function FreshBucket(w: Window, now: real): Bucket
    requires w.periodSeconds != 0
  {
    Bucket(w.limit as real, w.RefillRate(), w.limit as real, now)
  }

  function MakeFresh(cfg: Config, now: real): Buckets {
    Buckets(FreshBucket(HourlyWindow(cfg), now), FreshBucket(DailyWindow(cfg), now))
  }

  function RefillAll(bs: Buckets, now: real): Buckets {
    Buckets(Refill(bs.hourly, now), Refill(bs.daily, now))
  }

  function ConsumeAll(bs: Buckets, now: real): Buckets {
    Buckets(Step(bs.hourly, now, 1.0).1, Step(bs.daily, now, 1.0).1)
  }

  function RetryAfter(w: Window, tokens: real): int
    requires w.periodSeconds != 0
  {
    if w.RefillRate() > 0.0 then Trunc((1.0 - tokens) / w.RefillRate()) + 1 else w.periodSeconds
  }

  function ResetSeconds(cfg: Config): int {
    var rate := HourlyWindow(cfg).RefillRate();
    if rate > 0.0 then Trunc(1.0 / rate + 0.5) else HOUR
  }

  function Remaining(bs: Buckets): int {
    var h, d := Trunc(bs.hourly.tokens), Trunc(bs.daily.tokens);
    var least := if h <= d then h else d;
    if least >= 0 then least else 0
  }

  function Denial(cfg: Config, w: Window, tokens: real): CheckResult
    requires w.periodSeconds != 0
  {
    var retry := RetryAfter(w, tokens);
    CheckResult(false, 0, retry, cfg.hourlyLimit, retry, w.name)
  }

  /** The verdict on a caller holding `bs`, and the buckets it is left with. */
  function Decide(cfg: Config, bs: Buckets, now: real): (Buckets, CheckResult) {
    var refilled := RefillAll(bs, now);
    if refilled.hourly.tokens < 1.0 then
      (refilled, Denial(cfg, HourlyWindow(cfg), refilled.hourly.tokens))
    else if refilled.daily.tokens < 1.0 then
      (refilled, Denial(cfg, DailyWindow(cfg), refilled.daily.tokens))
    else
      var consumed := ConsumeAll(refilled, now);
      (consumed, CheckResult(true, Remaining(consumed), 0, cfg.hourlyLimit, ResetSeconds(cfg), NoBucket))
  }

  // ---- the table ----

  predicate Expired(e: Entry, now: real) { now - e.lastAccess > TTL }

  function Without(order: seq<string>, gone: set<string>): (r: seq<string>)
    ensures forall k :: k in r <==> k in order && k !in gone
  {
    if order == [] then [] else
      var rest := Without(order[1..], gone);
      if order[0] in gone then rest else [order[0]] + rest
  }

  function Remove(t: Table, gone: set<string>): Table {
    Table(Without(t.order, gone), t.rows - gone)
  }

  function Prune(t: Table, ip: string, now: real): Table {
    if ip in t.rows && Expired(t.rows[ip], now) then Remove(t, {ip}) else t
  }

  function FirstKeys(order: seq<string>): seq<string> {
    if |order| <= SWEEP_SIZE then order else order[..SWEEP_SIZE]
  }

  /** The expired keys among the ten oldest insertions. */
  function Victims(t: Table, now: real): set<string> {
    set k | k in FirstKeys(t.order) && k in t.rows && Expired(t.rows[k], now)
  }

  function Sweep(t: Table, now: real): Table { Remove(t, Victims(t, now)) }

  function Upsert(t: Table, ip: string, bs: Buckets, now: real): Table {
    if ip in t.rows then
      t.(rows := t.rows[ip := t.rows[ip].(buckets := bs, lastAccess := now)])
    else
      Table(t.order + [ip], t.rows[ip := Entry(bs, now, 0, -1)])
  }

  function Cleaned(t: Table, ip: string, now: real): Table { Sweep(Prune(t, ip, now), now) }

  function BucketsOf(cfg: Config, t: Table, ip: string, now: real): Buckets {
    if ip in t.rows then t.rows[ip].buckets else MakeFresh(cfg, now)
  }

  function CheckTable(cfg: Config, t: Table, ip: string, now: real): (Table, CheckResult) {
    var cleaned := Cleaned(t, ip, now);
    var (bs, res) := Decide(cfg, BucketsOf(cfg, cleaned, ip, now), now);
    (Upsert(cleaned, ip, bs, now), res)
  }

  /** The deny counter after one more denial at `now`. */
  function Counted(e: Entry, now: real): Entry {
    if e.denySecond == Trunc(now) then e.(denyCount := e.denyCount + 1)
    else e.(denyCount := 1, denySecond := Trunc(now))
  }

  function LogTable(t: Table, ip: string, now: real): Table {
    if ip in t.rows then t.(rows := t.rows[ip := Counted(t.rows[ip], now)]) else t
  }

  /** Does this denial go out as a warning (rather than a debug line)? */
  predicate Warns(t: Table, ip: string, now: real) {
    (if ip in t.rows then Counted(t.rows[ip], now).denyCount else 1) <= LOG_CAP_PER_SECOND
  }

  /** One of the first ten keys in insertion order. */
  ghost predicate AmongTen(order: seq<string>, k: string) {
    exists i :: 0 <= i < 10 && i < |order| && order[i] == k
  }

  ghost predicate Idle(t: Table, k: string, now: real)
    requires k in t.rows
  {
    now - t.rows[k].lastAccess > 172800.0
  }

  /** The sweep removes a key exactly when it is one of the ten oldest and idle past two days. */
  lemma SweepExact(t: Table, now: real, k: string)
    ensures var swept := Sweep(t, now);
      (k in swept.rows <==> k in t.rows && !(AmongTen(t.order, k) && Idle(t, k, now))) &&
      (k in swept.rows ==> swept.rows[k] == t.rows[k])
  {
    assert k in FirstKeys(t.order) <==> AmongTen(t.order, k);
  }

  lemma PruneExact(t: Table, ip: string, now: real, k: string)
    ensures var pruned := Prune(t, ip, now);
      (k in pruned.rows <==> k in t.rows && !(k == ip && Idle(t, k, now))) &&
      (k in pruned.rows ==> pruned.rows[k] == t.rows[k])
  {
  }

  /** Removing keys is a filter: it decides on each key alone and keeps the order. */
  lemma WithoutCons(k: string, order: seq<string>, gone: set<string>)
    ensures Without([], gone) == []
    ensures Without([k] + order, gone) == (if k in gone then [] else [k]) + Without(order, gone)
  {
    assert ([k] + order)[1..] == order;
  }

  /** What a check leaves of any other key, in a table whose order lists its rows: it is gone
      exactly when idle past two days and among the ten oldest once the caller's own idle entry is. */
  lemma CheckOthers(cfg: Config, t: Table, ip: string, now: real, k: string)
    requires k != ip
    ensures var after := CheckTable(cfg, t, ip, now).0;
      var order := if ip in t.rows && Idle(t, ip, now) then Without(t.order, {ip}) else t.order;
      (k in after.rows <==> k in t.rows && !(AmongTen(order, k) && Idle(t, k, now))) &&
      (k in after.rows ==> after.rows[k] == t.rows[k])
  {
    PruneExact(t, ip, now, k);
    SweepExact(Prune(t, ip, now), now, k);
  }

  /** And of the caller's: accessed now, with its deny counter, or a new one if it was idle. */
  lemma CheckOwn(cfg: Config, t: Table, ip: string, now: real)
    ensures var after := CheckTable(cfg, t, ip, now).0;
      ip in after.rows && after.rows[ip].lastAccess == now &&
      if ip in t.rows && !Idle(t, ip, now) then
        after.rows[ip].denyCount == t.rows[ip].denyCount && after.rows[ip].denySecond == t.rows[ip].denySecond
      else after.rows[ip].denyCount == 0 && after.rows[ip].denySecond == -1
  {
    PruneExact(t, ip, now, ip);
    SweepExact(Prune(t, ip, now), now, ip);
  }

  /** The tokens a bucket holds at `now`: what it earned since the last refill, up to its capacity. */
  ghost predicate HasTokens(b: Bucket, now: real, tokens: real) {
    var earned := b.tokens + (if now <= b.lastRefill then 0.0 else (now - b.lastRefill) * b.refillRate);
    tokens == if earned <= b.capacity then earned else b.capacity
  }

  lemma RefilledStep(b: Bucket, now: real, tokens: real)
    requires HasTokens(b, now, tokens)
    ensures Refill(b, now) == b.(tokens := tokens, lastRefill := now)
    ensures tokens >= 1.0 ==> Step(Refill(b, now), now, 1.0).1 == b.(tokens := tokens - 1.0, lastRefill := now)
  {
  }

  /** Both buckets need a whole token, and then each loses one; otherwise none loses anything and
      the first one short of a token, the hourly one before the daily, is named. */
  lemma DecideExact(cfg: Config, bs: Buckets, now: real, h: real, d: real)
    requires HasTokens(bs.hourly, now, h) && HasTokens(bs.daily, now, d)
    ensures var (left, res) := Decide(cfg, bs, now);
      (res.allowed <==> h >= 1.0 && d >= 1.0) &&
      res.denyBucket == (if h < 1.0 then Hourly else if d < 1.0 then Daily else NoBucket) &&
      left == (if res.allowed then
          Buckets(bs.hourly.(tokens := h - 1.0, lastRefill := now), bs.daily.(tokens := d - 1.0, lastRefill := now))
        else
          Buckets(bs.hourly.(tokens := h, lastRefill := now), bs.daily.(tokens := d, lastRefill := now)))
  {
    var refilled := RefillAll(bs, now);
    assert refilled.hourly.tokens == h && refilled.daily.tokens == d;
    assert Refill(bs.hourly, now).lastRefill == now;
    RefilledStep(bs.hourly, now, h);
    RefilledStep(bs.daily, now, d);
  }

  /** A denial of a key without an entry is a warning, and changes nothing. */
  lemma LogUnknown(t: Table, ip: string, now: real)
    requires ip !in t.rows
    ensures LogTable(t, ip, now) == t && Warns(t, ip, now)
  {
  }

  ghost predicate NoDuplicates(order: seq<string>) {
    forall i, j :: 0 <= i < j < |order| ==> order[i] != order[j]
  }

  lemma WithoutNoDuplicates(order: seq<string>, gone: set<string>)
    requires NoDuplicates(order)
    ensures NoDuplicates(Without(order, gone))
  {
    if order != [] {
      WithoutNoDuplicates(order[1..], gone);
      assert order[0] !in order[1..];
    }
  }

  lemma WithoutTwice(order: seq<string>, a: set<string>, b: set<string>)
    ensures Without(Without(order, a), b) == Without(order, a + b)
  {
    if order != [] {
      WithoutTwice(order[1..], a, b);
    }
  }

  lemma RemoveTwice(t: Table, a: set<string>, b: set<string>)
    ensures Remove(Remove(t, a), b) == Remove(t, a + b)
  {
    WithoutTwice(t.order, a, b);
    assert (t.rows - a) - b == t.rows - (a + b);
  }

  lemma WithoutNone(order: seq<string>)
    ensures Without(order, {}) == order
  {
    if order != [] {
      WithoutNone(order[1..]);
    }
  }

  lemma {:induction false} WithoutSame(order: seq<string>, a: set<string>, b: set<string>)
    requires forall k :: k in order ==> (k in a <==> k in b)
    ensures Without(order, a) == Without(order, b)
  {
    if order != [] {
      WithoutSame(order[1..], a, b);
    }
  }

  lemma CleanedOrder(t: Table, ip: string, now: real) returns (gone: set<string>)
    ensures Cleaned(t, ip, now) == Remove(t, gone)
  {
    var own: set<string> := if ip in t.rows && Expired(t.rows[ip], now) then {ip} else {};
    if own == {} {
      WithoutNone(t.order);
      assert t.rows - {} == t.rows;
    }
    var pruned := Remove(t, own);
    assert pruned == Prune(t, ip, now);
    gone := own + Victims(pruned, now);
    RemoveTwice(t, own, Victims(pruned, now));
  }

  /** The insertion order a check leaves: without the removed keys, and with the caller at the
      end only if it had no entry or an idle one. */
  lemma CheckOrder(cfg: Config, t: Table, ip: string, now: real)
    requires forall k :: k in t.order <==> k in t.rows
    ensures var after := CheckTable(cfg, t, ip, now).0;
      var again := ip !in t.rows || Idle(t, ip, now);
      var gone := (set k | k in t.rows && k !in after.rows) + if again then {ip} else {};
      after.order == Without(t.order, gone) + if again then [ip] else []
  {
    var removed := CleanedOrder(t, ip, now);
    var after := CheckTable(cfg, t, ip, now).0;
    var again := ip !in t.rows || Idle(t, ip, now);
    CheckOwn(cfg, t, ip, now);
    PruneExact(t, ip, now, ip);
    SweepExact(Prune(t, ip, now), now, ip);
    var gone := (set k | k in t.rows && k !in after.rows) + if again then {ip} else {};
    WithoutSame(t.order, removed, gone);
    assert Without(t.order, gone) + [] == Without(t.order, gone);
  }
}

/** The limiter object itself: a dict of mutable entries updated in place. */
module Limiter {
  import opened Common
  import opened LimiterSpec

  class IpEntry {
    var buckets: Buckets
    var lastAccess: real
    var denyCount: int
    var denySecond: int

    constructor (buckets: Buckets, lastAccess: real)
      ensures View() == Entry(buckets, lastAccess, 0, -1)
    {
      this.buckets, this.lastAccess := buckets, lastAccess;
      denyCount, denySecond := 0, -1;
    }

    function View(): Entry
      reads this
    {
      Entry(buckets, lastAccess, denyCount, denySecond)
    }
  }

  /** The values of a dict of entries. */
  function Rows(entries: map<string, IpEntry>): map<string, Entry>
    reads entries.Values
  {
    map k | k in entries :: entries[k].View()
  }

  /** No two keys share an entry object. */
  ghost predicate Unshared(entries: map<string, IpEntry>) {
    forall j, k :: j in entries && k in entries && j != k ==> entries[j] != entries[k]
  }

  lemma RowsWithout(entries: map<string, IpEntry>, gone: set<string>)
    ensures Rows(entries - gone) == Rows(entries) - gone
    ensures Unshared(entries) ==> Unshared(entries - gone)
  {
  }

  lemma RowsWith(entries: map<string, IpEntry>, ip: string, entry: IpEntry)
    requires Unshared(entries) && entry !in entries.Values
    ensures Rows(entries[ip := entry]) == Rows(entries)[ip := entry.View()] && Unshared(entries[ip := entry])
  {
  }

  class RateLimiter {
    const cfg: Config
    var order: seq<string>
    var entries: map<string, IpEntry>

    constructor (hourlyLimit: int, dailyLimit: int)
      ensures Valid() && cfg == Config(hourlyLimit, dailyLimit)
      ensures View() == Table([], map[]) && entries.Values == {}
    {
      cfg := Config(hourlyLimit, dailyLimit);
      order, entries := [], map[];
    }

    function View(): Table
      reads this, entries.Values
    {
      Table(order, Rows(entries))
    }

    /** Insertion order and dict agree, and no two keys share an entry object. */
    ghost predicate Valid()
      reads this, entries.Values
    {
      (forall k :: k in order <==> k in entries) && NoDuplicates(order) && Unshared(entries)
    }

    method Pop(ip: string)
      requires Valid()
      modifies this
      ensures Valid() && entries == old(entries) - {ip}
      ensures View() == Remove(old(View()), {ip})
    {
      WithoutNoDuplicates(order, {ip});
      RowsWithout(entries, {ip});
      order, entries := Without(order, {ip}), entries - {ip};
    }

    method PruneEntry(ip: string, now: real)
      requires Valid()
      modifies this
      ensures Valid() && entries.Values <= old(entries.Values)
      ensures View() == Prune(old(View()), ip, now)
    {
      if ip in entries {
        var entry := entries[ip];
        if now - entry.lastAccess > TTL {
          Pop(ip);
        }
      }
    }

    /** The sweep's list comprehension over the first ten dict items. */
    method ExpiredKeys(now: real) returns (expired: seq<string>)
      requires Valid()
      ensures (set k | k in expired) == Victims(View(), now)
    {
      expired := [];
      var first := FirstKeys(order);
      for i := 0 to |first|
        invariant forall k :: k in expired <==> k in first[..i] && k in entries && Expired(entries[k].View(), now)
      {
        assert first[i] in order;
        if now - entries[first[i]].lastAccess > TTL {
          expired := expired + [first[i]];
        }
      }
      assert first[..|first|] == first;
    }

    method Sweep(now: real)
      requires Valid()
      modifies this
      ensures Valid() && entries.Values <= old(entries.Values)
      ensures View() == LimiterSpec.Sweep(old(View()), now)
    {
      var expired := ExpiredKeys(now);
      ghost var before := View();
      ghost var popped: set<string> := {};
      WithoutNone(order);
      assert before.rows - {} == before.rows;
      for i := 0 to |expired|
        invariant Valid() && entries.Values <= old(entries.Values)
        invariant popped == set k | k in expired[..i]
        invariant View() == Remove(before, popped)
      {
        RemoveTwice(before, popped, {expired[i]});
        Pop(expired[i]);
        popped := popped + {expired[i]};
      }
      assert expired[..|expired|] == expired;
    }

    method Upsert(ip: string, buckets: Buckets, now: real)
      requires Valid()
      modifies this, entries.Values
      ensures Valid() && fresh(entries.Values - old(entries.Values))
      ensures View() == LimiterSpec.Upsert(old(View()), ip, buckets, now)
    {
      ghost var before := Rows(entries);
      if ip !in entries {
        var entry := new IpEntry(buckets, now);
        RowsWith(entries, ip, entry);
        order, entries := order + [ip], entries[ip := entry];
      } else {
        var entry := entries[ip];
        entry.buckets := buckets;
        entry.lastAccess := now;
        assert Rows(entries) == before[ip := entry.View()];
      }
    }

    method Check(ip: string, now: real) returns (res: CheckResult)
      requires Valid()
      modifies this, entries.Values
      ensures Valid() && fresh(entries.Values - old(entries.Values))
      ensures (View(), res) == CheckTable(cfg, old(View()), ip, now)
    {
      PruneEntry(ip, now);
      Sweep(now);
      var buckets := if ip in entries then entries[ip].buckets else MakeFresh(cfg, now);
      var refilled := RefillAll(buckets, now);
      if refilled.hourly.tokens >= 1.0 && refilled.daily.tokens >= 1.0 {
        var consumed := ConsumeAll(refilled, now);
        Upsert(ip, consumed, now);
        return CheckResult(true, Remaining(consumed), 0, cfg.hourlyLimit, ResetSeconds(cfg), NoBucket);
      }
      // the first bucket that denies
      var triggering, tokens :=
        if refilled.hourly.tokens < 1.0 then HourlyWindow(cfg) else DailyWindow(cfg),
        if refilled.hourly.tokens < 1.0 then refilled.hourly.tokens else refilled.daily.tokens;
      Upsert(ip, refilled, now);
      var retry := RetryAfter(triggering, tokens);
      return CheckResult(false, 0, retry, cfg.hourlyLimit, retry, triggering.name);
    }

    /** Counts the denial; the result says whether it is logged as a warning. */
    method LogDenied(ip: string, now: real) returns (warned: bool)
      requires Valid()
      modifies entries.Values
      ensures Valid()
      ensures View() == LogTable(old(View()), ip, now)
      ensures warned == Warns(old(View()), ip, now)
    {
      ghost var before := Rows(entries);
      var count := 1;
      if ip in entries {
        var entry := entries[ip];
        if entry.denySecond == Trunc(now) {
          entry.denyCount := entry.denyCount + 1;
        } else {
          entry.denyCount := 1;
          entry.denySecond := Trunc(now);
        }
        assert Rows(entries) == before[ip := entry.View()];
        count := entry.denyCount;
      }
      warned := count <= LOG_CAP_PER_SECOND;
    }
  }
}
