/** The anti-spam cap on deny warnings: ten per key per clock second, over whole runs. */
module DenyLog {
  import opened Common
  import opened LimiterSpec
  import opened LimiterRuns
  import opened LimiterQuota

  predicate LogIn(e: Event, ip: string, second: int) {
    e.Log? && e.ip == ip && Trunc(e.now) == second
  }

  function Logs(evs: seq<Event>, ip: string, second: int): nat {
    if evs == [] then 0 else
      Logs(Front(evs), ip, second) + if LogIn(Last(evs), ip, second) then 1 else 0
  }

  /** The logs of `ip` in that clock second that went out as warnings. */
  function Warnings(cfg: Config, evs: seq<Event>, ip: string, second: int): nat {
    if evs == [] then 0 else
      Warnings(cfg, Front(evs), ip, second) +
      if LogIn(Last(evs), ip, second) && Warns(After(cfg, Front(evs)), ip, Last(evs).now) then 1 else 0
  }

  predicate FollowsCheck(evs: seq<Event>, log: Event, lag: real) {
    var h := History(evs, log.ip);
    h != [] && log.now - Last(h) <= lag
  }

  /** Every log comes at most `lag` seconds after a check of the same key. */
  ghost predicate Disciplined(evs: seq<Event>, lag: real) {
    forall i :: 0 <= i < |evs| && evs[i].Log? ==> FollowsCheck(evs[..i], evs[i], lag)
  }

  /** Positive limits, a monotone non-negative clock, and logs that keep the discipline. */
  ghost predicate ValidRun(cfg: Config, evs: seq<Event>, lag: real, now: real) {
    Positive(cfg) && Monotone(evs, now) && Disciplined(evs, lag) && (evs != [] ==> evs[0].now >= 0.0)
  }

  function Capped(n: nat): nat { if n <= LOG_CAP_PER_SECOND then n else LOG_CAP_PER_SECOND }

  /** As of `now`: the warnings so far, and, while the second lasts, a live counter that
      equals the logs so far and cannot be pruned before the second is over. */
  ghost predicate Counting(cfg: Config, evs: seq<Event>, ip: string, second: int, now: real) {
    var n, t, h := Logs(evs, ip, second), After(cfg, evs), History(evs, ip);
    Warnings(cfg, evs, ip, second) == Capped(n) &&
    (n == 0 && second >= 0 && ip in t.rows ==> t.rows[ip].denySecond != second) &&
    (n > 0 ==> now >= second as real) &&
    (n > 0 && now < second as real + 1.0 ==>
      h != [] && Last(h) >= second as real - (TTL - 1.0) &&
      ip in t.rows && t.rows[ip].denySecond == second && t.rows[ip].denyCount == n)
  }

  lemma LiveEntry(cfg: Config, evs: seq<Event>, ip: string, now: real)
    requires Positive(cfg) && Monotone(evs, now)
    ensures var t, h := After(cfg, evs), History(evs, ip);
      (ip in t.rows ==> h != [] && t.rows[ip].lastAccess == Last(h)) &&
      (ip !in t.rows && h != [] ==> now - Last(h) > TTL) && (h != [] ==> Last(h) <= now)
  {
    Tracks(cfg, evs, ip, now);
    if History(evs, ip) != [] {
      LastRefillIsLastCheck(cfg, History(evs, ip));
    }
  }

  /** Checks, by anyone, keep the deny counter of an entry that is not yet idle. */
  lemma CheckKeepsCounter(cfg: Config, t: Table, other: string, ip: string, now: real)
    ensures var rows := CheckTable(cfg, t, other, now).0.rows;
      (ip in t.rows && !Expired(t.rows[ip], now) ==> ip in rows) &&
      (ip in rows ==>
        (rows[ip].denyCount, rows[ip].denySecond) == (0, -1) ||
        (ip in t.rows && (rows[ip].denyCount, rows[ip].denySecond) == (t.rows[ip].denyCount, t.rows[ip].denySecond))) &&
      (ip in t.rows && !Expired(t.rows[ip], now) ==>
        (rows[ip].denyCount, rows[ip].denySecond) == (t.rows[ip].denyCount, t.rows[ip].denySecond))
  {
  }

  lemma CountingCheck(cfg: Config, evs: seq<Event>, other: string, ip: string, second: int, now: real)
    requires Positive(cfg) && Monotone(evs, now) && Counting(cfg, evs, ip, second, now)
    ensures Counting(cfg, evs + [Check(other, now)], ip, second, now)
  {
    var run := evs + [Check(other, now)];
    assert Front(run) == evs && Last(run) == Check(other, now);
    LiveEntry(cfg, evs, ip, now);
    CheckKeepsCounter(cfg, After(cfg, evs), other, ip, now);
  }

  /** One log in its own second moves the counter from n to n + 1. */
  lemma LogCounts(t: Table, ip: string, now: real, n: nat)
    requires ip in t.rows
    requires if n == 0 then t.rows[ip].denySecond != Trunc(now)
      else t.rows[ip].denySecond == Trunc(now) && t.rows[ip].denyCount == n
    ensures var e := LogTable(t, ip, now).rows[ip];
      e == t.rows[ip].(denySecond := Trunc(now), denyCount := n + 1)
    ensures Capped(n) + (if Warns(t, ip, now) then 1 else 0) == Capped(n + 1)
  {
  }

  lemma CountingLog(cfg: Config, evs: seq<Event>, other: string, ip: string, second: int, now: real)
    requires Positive(cfg) && Monotone(evs, now) && Counting(cfg, evs, ip, second, now)
    requires now >= 0.0 && FollowsCheck(evs, Log(other, now), TTL - 1.0)
    ensures Counting(cfg, evs + [Log(other, now)], ip, second, now)
  {
    var run, t := evs + [Log(other, now)], After(cfg, evs);
    assert Front(run) == evs && Last(run) == Log(other, now);
    LiveEntry(cfg, evs, other, now);
    assert Trunc(now) as real <= now < Trunc(now) as real + 1.0;
    if other == ip && Trunc(now) == second {
      LogCounts(t, ip, now, Logs(evs, ip, second));
    }
  }

  lemma CountingLater(cfg: Config, evs: seq<Event>, ip: string, second: int, now: real, later: real)
    requires Counting(cfg, evs, ip, second, now) && now <= later
    ensures Counting(cfg, evs, ip, second, later)
  {
  }

  lemma DisciplinedPrefix(evs: seq<Event>, e: Event, lag: real)
    ensures Disciplined(evs + [e], lag) <==> Disciplined(evs, lag) && (e.Log? ==> FollowsCheck(evs, e, lag))
  {
    var run := evs + [e];
    assert run[..|evs|] == evs;
    forall i | 0 <= i < |evs| ensures run[..i] == evs[..i] {
    }
  }

  lemma {:induction false} CountingKept(cfg: Config, evs: seq<Event>, ip: string, second: int, now: real)
    requires ValidRun(cfg, evs, TTL - 1.0, now)
    ensures Counting(cfg, evs, ip, second, now)
  {
    if evs != [] {
      var before, e := Front(evs), Last(evs);
      assert evs == before + [e];
      DisciplinedPrefix(before, e, TTL - 1.0);
      assert e.now >= 0.0;
      CountingKept(cfg, before, ip, second, e.now);
      if e.Check? {
        CountingCheck(cfg, before, e.ip, ip, second, e.now);
      } else {
        CountingLog(cfg, before, e.ip, ip, second, e.now);
      }
      CountingLater(cfg, evs, ip, second, e.now, now);
    }
  }

  /** The cap: with n denials of a key logged in one clock second, exactly the first
      min(n, 10) are warnings. */
  lemma DenyLogCap(cfg: Config, evs: seq<Event>, ip: string, second: int, now: real)
    requires ValidRun(cfg, evs, TTL - 1.0, now)
    ensures Warnings(cfg, evs, ip, second) == Capped(Logs(evs, ip, second))
    ensures Warnings(cfg, evs, ip, second) <= 10
  {
    CountingKept(cfg, evs, ip, second, now);
  }

  // ---- the middleware keeps that discipline ----

  /** One rate-limited request: the clock as read by `check`, then by `log_denied`. */
  datatype Request = Request(key: string, checkedAt: real, loggedAt: real)

  /** A check, followed by a log exactly when the check denied. */
  function Dispatch(cfg: Config, evs: seq<Event>, r: Request): seq<Event> {
    var checked := evs + [Check(r.key, r.checkedAt)];
    if Answer(cfg, evs, r.key, r.checkedAt).allowed then checked else checked + [Log(r.key, r.loggedAt)]
  }

  function Dispatched(cfg: Config, reqs: seq<Request>): seq<Event> {
    if reqs == [] then [] else Dispatch(cfg, Dispatched(cfg, Front(reqs)), Last(reqs))
  }

  ghost predicate Served(reqs: seq<Request>, lag: real, end: real) {
    (forall i :: 0 <= i < |reqs| ==> 0.0 <= reqs[i].checkedAt <= reqs[i].loggedAt <= reqs[i].checkedAt + lag) &&
    (forall i, j :: 0 <= i < j < |reqs| ==> reqs[i].loggedAt <= reqs[j].checkedAt) &&
    (reqs != [] ==> Last(reqs).loggedAt <= end)
  }

  /** A check emits no warning. */
  lemma OtherEventsNoWarning(cfg: Config, evs: seq<Event>, ip: string, at: real, second: int)
    ensures Warnings(cfg, evs + [Check(ip, at)], ip, second) == Warnings(cfg, evs, ip, second)
    ensures History(evs + [Check(ip, at)], ip) == History(evs, ip) + [at]
  {
    var run := evs + [Check(ip, at)];
    assert Front(run) == evs && Last(run) == Check(ip, at);
  }

  lemma ExtendRun(cfg: Config, evs: seq<Event>, e: Event, lag: real)
    requires ValidRun(cfg, evs, lag, e.now) && e.now >= 0.0
    requires e.Log? ==> FollowsCheck(evs, e, lag)
    ensures ValidRun(cfg, evs + [e], lag, e.now)
  {
    DisciplinedPrefix(evs, e, lag);
  }

  lemma DispatchStep(cfg: Config, before: seq<Event>, r: Request, lag: real)
    requires ValidRun(cfg, before, lag, r.checkedAt)
    requires 0.0 <= r.checkedAt <= r.loggedAt <= r.checkedAt + lag
    ensures ValidRun(cfg, Dispatch(cfg, before, r), lag, r.loggedAt)
  {
    var checked := before + [Check(r.key, r.checkedAt)];
    OtherEventsNoWarning(cfg, before, r.key, r.checkedAt, 0);
    ExtendRun(cfg, before, Check(r.key, r.checkedAt), lag);
    assert ValidRun(cfg, checked, lag, r.loggedAt);
    ExtendRun(cfg, checked, Log(r.key, r.loggedAt), lag);
  }

  lemma {:induction false} DispatchDisciplined(cfg: Config, reqs: seq<Request>, lag: real, end: real)
    requires Positive(cfg) && Served(reqs, lag, end)
    ensures ValidRun(cfg, Dispatched(cfg, reqs), lag, end)
  {
    if reqs != [] {
      var r, before := Last(reqs), Dispatched(cfg, Front(reqs));
      DispatchDisciplined(cfg, Front(reqs), lag, r.checkedAt);
      DispatchStep(cfg, before, r, lag);
    }
  }

  /** What the middleware logs stays under the cap, as long as it logs a denial within
      the TTL minus one second of making it. */
  lemma MiddlewareLogCap(cfg: Config, reqs: seq<Request>, end: real, ip: string, second: int)
    requires Positive(cfg) && Served(reqs, TTL - 1.0, end)
    ensures Warnings(cfg, Dispatched(cfg, reqs), ip, second) <= 10
  {
    DispatchDisciplined(cfg, reqs, TTL - 1.0, end);
    DenyLogCap(cfg, Dispatched(cfg, reqs), ip, second, end);
  }

  // ---- the lag bound is exactly what the cap needs ----

  const ONE_EACH: Config := Config(1, 1)

  predicate CountsTo(e: Entry, second: int, n: nat) {
    if n == 0 then e.denySecond != second else e.denySecond == second && e.denyCount == n
  }

  /** With limits of one check each: the key's last check was at `now`, it has none left, and
      `n` of its denials have been counted in that clock second. */
  ghost predicate Drained(run: seq<Event>, ip: string, now: real, second: int, n: nat) {
    Monotone(run, now) && HasLeft(ONE_EACH, run, ip, now, 0) &&
    var rows := After(ONE_EACH, run).rows;
    ip in rows && rows[ip].lastAccess == now && CountsTo(rows[ip], second, n)
  }

  lemma AfterCheckEntry(cfg: Config, evs: seq<Event>, ip: string, now: real)
    ensures var t, rows := After(cfg, evs), After(cfg, evs + [Check(ip, now)]).rows;
      ip in rows && rows[ip].lastAccess == now &&
      if ip in t.rows && !Expired(t.rows[ip], now) then
        (rows[ip].denyCount, rows[ip].denySecond) == (t.rows[ip].denyCount, t.rows[ip].denySecond)
      else rows[ip].denySecond == -1
  {
    var run := evs + [Check(ip, now)];
    assert Front(run) == evs && Last(run) == Check(ip, now);
  }

  /** A key that is unseen, or idle past the TTL, gets its one check through. */
  lemma FirstAllowed(evs: seq<Event>, ip: string, now: real)
    requires Monotone(evs, now)
    requires History(evs, ip) == [] || now - Last(History(evs, ip)) > TTL
    ensures Answer(ONE_EACH, evs, ip, now).allowed && Answer(ONE_EACH, evs, ip, now).remaining == 0
  {
    PruningInvisible(ONE_EACH, evs, ip, now);
    Tracks(ONE_EACH, evs, ip, now);
    var s := IdealAfter(ONE_EACH, History(evs, ip));
    if s.Some? {
      LastRefillIsLastCheck(ONE_EACH, History(evs, ip));
      IdleIsFresh(ONE_EACH, s.value, s.value.hourly.lastRefill, now);
    }
    FreshSound(ONE_EACH, now);
  }

  /** Such a request leaves the key drained, with a counter that starts afresh. */
  lemma FirstRequest(evs: seq<Event>, r: Request, second: nat)
    requires Monotone(evs, r.checkedAt)
    requires History(evs, r.key) == [] || r.checkedAt - Last(History(evs, r.key)) > TTL
    ensures var run := Dispatch(ONE_EACH, evs, r);
      Drained(run, r.key, r.checkedAt, second, 0) &&
      Warnings(ONE_EACH, run, r.key, second) == Warnings(ONE_EACH, evs, r.key, second)
  {
    FirstAllowed(evs, r.key, r.checkedAt);
    AllowedLeaves(ONE_EACH, evs, r.key, r.checkedAt);
    LiveEntry(ONE_EACH, evs, r.key, r.checkedAt);
    AfterCheckEntry(ONE_EACH, evs, r.key, r.checkedAt);
    OtherEventsNoWarning(ONE_EACH, evs, r.key, r.checkedAt, second);
  }

  /** A check of a drained key is denied and leaves it drained. */
  lemma DrainedCheck(run: seq<Event>, ip: string, now: real, second: int, n: nat)
    requires Drained(run, ip, now, second, n)
    ensures !Answer(ONE_EACH, run, ip, now).allowed
    ensures Drained(run + [Check(ip, now)], ip, now, second, n)
    ensures Warnings(ONE_EACH, run + [Check(ip, now)], ip, second) == Warnings(ONE_EACH, run, ip, second)
  {
    OneMoreAtOnce(ONE_EACH, run, ip, now, 0);
    AfterCheck(ONE_EACH, run, ip, now);
    DecideAtOnce(ONE_EACH, IdealAfter(ONE_EACH, History(run, ip)).value, now);
    AfterCheckEntry(ONE_EACH, run, ip, now);
    OtherEventsNoWarning(ONE_EACH, run, ip, now, second);
  }

  lemma AppendLog(cfg: Config, run: seq<Event>, ip: string, now: real, n: nat)
    requires ip in After(cfg, run).rows && CountsTo(After(cfg, run).rows[ip], Trunc(now), n)
    ensures var rows, rows' := After(cfg, run).rows, After(cfg, run + [Log(ip, now)]).rows;
      ip in rows' && CountsTo(rows'[ip], Trunc(now), n + 1) && rows'[ip].lastAccess == rows[ip].lastAccess
    ensures Warnings(cfg, run + [Log(ip, now)], ip, Trunc(now)) + Capped(n) ==
      Warnings(cfg, run, ip, Trunc(now)) + Capped(n + 1)
    ensures History(run + [Log(ip, now)], ip) == History(run, ip)
  {
    assert Front(run + [Log(ip, now)]) == run && Last(run + [Log(ip, now)]) == Log(ip, now);
    LogCounts(After(cfg, run), ip, now, n);
  }

  lemma DrainedLogged(run: seq<Event>, ip: string, now: real, second: int, n: nat)
    requires Drained(run, ip, now, second, n) && Trunc(now) == second
    ensures Drained(run + [Log(ip, now)], ip, now, second, n + 1)
  {
    AppendLog(ONE_EACH, run, ip, now, n);
  }

  /** One more request of a drained key: denied, logged, and a warning if under the cap. */
  lemma DrainedRequest(run: seq<Event>, r: Request, second: int, n: nat)
    requires Drained(run, r.key, r.checkedAt, second, n) && Trunc(r.loggedAt) == second
    ensures var checked := run + [Check(r.key, r.checkedAt)];
      Dispatch(ONE_EACH, run, r) == checked + [Log(r.key, r.loggedAt)] &&
      Drained(checked, r.key, r.checkedAt, second, n)
    ensures var next := Dispatch(ONE_EACH, run, r);
      Warnings(ONE_EACH, next, r.key, second) + Capped(n) == Warnings(ONE_EACH, run, r.key, second) + Capped(n + 1) &&
      History(next, r.key) == History(run, r.key) + [r.checkedAt]
  {
    var checked := run + [Check(r.key, r.checkedAt)];
    DrainedCheck(run, r.key, r.checkedAt, second, n);
    OtherEventsNoWarning(ONE_EACH, run, r.key, r.checkedAt, second);
    AppendLog(ONE_EACH, checked, r.key, r.loggedAt, n);
  }

  /** The same, logged at once: the key is drained again. */
  lemma DrainedAgain(run: seq<Event>, r: Request, second: int, n: nat)
    requires Drained(run, r.key, r.checkedAt, second, n) && r.loggedAt == r.checkedAt && Trunc(r.checkedAt) == second
    requires Warnings(ONE_EACH, run, r.key, second) == 1 + Capped(n)
    ensures Drained(Dispatch(ONE_EACH, run, r), r.key, r.checkedAt, second, n + 1)
    ensures Warnings(ONE_EACH, Dispatch(ONE_EACH, run, r), r.key, second) == 1 + Capped(n + 1)
  {
    DrainedRequest(run, r, second, n);
    DrainedLogged(run + [Check(r.key, r.checkedAt)], r.key, r.checkedAt, second, n);
  }

  lemma DispatchedAppend(cfg: Config, reqs: seq<Request>, r: Request)
    ensures Dispatched(cfg, reqs + [r]) == Dispatch(cfg, Dispatched(cfg, reqs), r)
  {
    assert Front(reqs + [r]) == reqs && Last(reqs + [r]) == r;
  }

  lemma ServedAppend(reqs: seq<Request>, r: Request, lag: real)
    requires Served(reqs, lag, r.checkedAt) && 0.0 <= r.checkedAt <= r.loggedAt <= r.checkedAt + lag
    ensures Served(reqs + [r], lag, r.loggedAt)
  {
    forall i | 0 <= i < |reqs| ensures reqs[i].loggedAt <= r.checkedAt {
      assert i < |reqs| - 1 ==> reqs[i].loggedAt <= Last(reqs).checkedAt <= Last(reqs).loggedAt;
    }
  }

  ghost predicate Late(lag: real, start: real, end: real) {
    TTL - 1.0 < lag <= TTL && start == TTL - lag && end == TTL + (1.0 + start) / 2.0
  }

  lemma FirstLate(r: Request, lag: real, second: nat) returns (one: seq<Request>)
    requires 0.0 <= r.checkedAt == r.loggedAt && 0.0 <= lag
    ensures |one| == 1 && Served(one, lag, r.checkedAt)
    ensures var run := Dispatched(ONE_EACH, one);
      Drained(run, r.key, r.checkedAt, second, 0) && Warnings(ONE_EACH, run, r.key, second) == 0
  {
    ServedAppend([], r, lag);
    DispatchedAppend(ONE_EACH, [], r);
    FirstRequest([], r, second);
    one := [] + [r];
  }

  /** Two requests at `start`, the second logged at the TTL: the second's first warning. */
  lemma LateLog(ip: string, lag: real, start: real, end: real) returns (two: seq<Request>)
    requires Late(lag, start, end)
    ensures |two| == 2 && Served(two, lag, TTL)
    ensures var run := Dispatched(ONE_EACH, two);
      Monotone(run, TTL) && History(run, ip) != [] && Last(History(run, ip)) == start &&
      Warnings(ONE_EACH, run, ip, 172800) == 1
  {
    var one := FirstLate(Request(ip, start, start), lag, 172800);
    var late := Request(ip, start, TTL);
    ServedAppend(one, late, lag);
    DispatchedAppend(ONE_EACH, one, late);
    DrainedRequest(Dispatched(ONE_EACH, one), late, 172800, 0);
    MonotoneAppend(Dispatched(ONE_EACH, one) + [Check(ip, start)], Log(ip, TTL), start);
    two := one + [late];
  }

  /** The requests have drained the key, `n` denials after one late warning in that second. */
  ghost predicate LateState(reqs: seq<Request>, ip: string, end: real, second: int, n: nat) {
    var run := Dispatched(ONE_EACH, reqs);
    Drained(run, ip, end, second, n) && Warnings(ONE_EACH, run, ip, second) == 1 + Capped(n)
  }

  /** At `end` the entry has been pruned, and the counter starts afresh in the same second. */
  lemma LateStart(ip: string, lag: real, start: real, end: real) returns (three: seq<Request>)
    requires Late(lag, start, end)
    ensures |three| == 3 && Served(three, lag, end) && LateState(three, ip, end, 172800, 0)
  {
    var two := LateLog(ip, lag, start, end);
    var last := Request(ip, end, end);
    ServedAppend(two, last, lag);
    DispatchedAppend(ONE_EACH, two, last);
    FirstRequest(Dispatched(ONE_EACH, two), last, 172800);
    three := two + [last];
  }

  lemma LateStep(reqs: seq<Request>, r: Request, lag: real, second: int, n: nat)
    requires Served(reqs, lag, r.checkedAt) && LateState(reqs, r.key, r.checkedAt, second, n)
    requires r.loggedAt == r.checkedAt && 0.0 <= r.checkedAt && 0.0 <= lag && Trunc(r.checkedAt) == second
    ensures Served(reqs + [r], lag, r.checkedAt) && LateState(reqs + [r], r.key, r.checkedAt, second, n + 1)
  {
    ServedAppend(reqs, r, lag);
    DispatchedAppend(ONE_EACH, reqs, r);
    DrainedAgain(Dispatched(ONE_EACH, reqs), r, second, n);
  }

  /** `k` more requests like `r`. */
  lemma {:induction false} LateMore(reqs: seq<Request>, r: Request, lag: real, second: int, k: nat)
      returns (more: seq<Request>)
    requires Served(reqs, lag, r.checkedAt) && LateState(reqs, r.key, r.checkedAt, second, 0)
    requires r.loggedAt == r.checkedAt && 0.0 <= r.checkedAt && 0.0 <= lag && Trunc(r.checkedAt) == second
    ensures |more| == |reqs| + k && Served(more, lag, r.checkedAt) && LateState(more, r.key, r.checkedAt, second, k)
  {
    if k == 0 {
      more := reqs;
    } else {
      var fewer := LateMore(reqs, r, lag, second, k - 1);
      LateStep(fewer, r, lag, second, k - 1);
      more := fewer + [r];
    }
  }

  /** With any longer lag, thirteen requests to the middleware emit eleven warnings in one second. */
  lemma LateLogsBreakTheCap(ip: string, lag: real) returns (reqs: seq<Request>, end: real)
    requires TTL - 1.0 < lag <= TTL
    ensures Served(reqs, lag, end) && |reqs| == 13
    ensures Warnings(ONE_EACH, Dispatched(ONE_EACH, reqs), ip, 172800) == 11
  {
    var start := TTL - lag;
    end := TTL + (1.0 + start) / 2.0;
    var three := LateStart(ip, lag, start, end);
    reqs := LateMore(three, Request(ip, end, end), lag, 172800, 10);
  }

  /** The cap holds for all requests that are logged at most `lag` seconds after their check. */
  ghost predicate MiddlewareCapHolds(lag: real) {
    forall cfg, reqs, end, ip, second ::
      Positive(cfg) && Served(reqs, lag, end) ==> Warnings(cfg, Dispatched(cfg, reqs), ip, second) <= 10
  }

  lemma ServedLonger(reqs: seq<Request>, lag: real, longer: real, end: real)
    requires Served(reqs, lag, end) && lag <= longer
    ensures Served(reqs, longer, end)
  {
  }

  /** The TTL minus one second is exactly the lag between a check and its log that the
      middleware's cap tolerates. */
  lemma MiddlewareLagExact(lag: real)
    ensures MiddlewareCapHolds(lag) <==> lag <= TTL - 1.0
  {
    if lag <= TTL - 1.0 {
      forall cfg, reqs, end, ip, second | Positive(cfg) && Served(reqs, lag, end)
        ensures Warnings(cfg, Dispatched(cfg, reqs), ip, second) <= 10
      {
        ServedLonger(reqs, lag, TTL - 1.0, end);
        MiddlewareLogCap(cfg, reqs, end, ip, second);
      }
    } else {
      var lag' := if lag <= TTL then lag else TTL;
      var reqs, end := LateLogsBreakTheCap("k", lag');
      ServedLonger(reqs, lag', lag, end);
    }
  }

  /** The cap holds in every run whose logs lag by at most `lag`. */
  ghost predicate CapHolds(lag: real) {
    forall cfg, evs, ip, second, now ::
      ValidRun(cfg, evs, lag, now) ==> Warnings(cfg, evs, ip, second) <= 10
  }

  /** The same bound is exact for any callers that check before they log. */
  lemma LagBoundExact(lag: real)
    ensures CapHolds(lag) <==> lag <= TTL - 1.0
  {
    if lag <= TTL - 1.0 {
      forall cfg, evs, ip, second, now | ValidRun(cfg, evs, lag, now)
        ensures Warnings(cfg, evs, ip, second) <= 10
      {
        assert ValidRun(cfg, evs, TTL - 1.0, now);
        DenyLogCap(cfg, evs, ip, second, now);
      }
    } else {
      var lag' := if lag <= TTL then lag else TTL;
      var reqs, end := LateLogsBreakTheCap("k", lag');
      ServedLonger(reqs, lag', lag, end);
      DispatchDisciplined(ONE_EACH, reqs, lag, end);
    }
  }
}
