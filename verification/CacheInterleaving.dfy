/** The read-cache under concurrency: any number of readers and writers, interleaved at the
    grain of the source's locked sections and commits. A reader looks up under the lock, loads
    outside it, then inserts or adopts under it; a writer commits and evicts later. */
module CacheInterleaving {
  import opened Common
  import opened Links
  import opened RedirectCache

  datatype Commit = Commit(token: string, snapshot: Snapshot, at: real)

  /** A cached snapshot, with how many commits the load had seen and when it read them. */
  datatype Entry = Entry(snapshot: Snapshot, insertedAt: real, seen: nat, loadedAt: real)

  /** A thread inside `get_or_load`, past a miss: it looked up at step `start`, when `floor`
      commits were already published for its token. */
  datatype Reader =
    | Missed(token: string, start: nat, floor: nat)
    | Loaded(token: string, start: nat, floor: nat, snapshot: Snapshot, seen: nat, loadedAt: real)

  /** What one `get_or_load` gave its caller (None: no such link). */
  datatype Return = Return(
    token: string, result: Option<Snapshot>, start: nat, floor: nat, seen: nat, loadedAt: real, at: real)

  /** `count` is the number of steps taken. */
  datatype State = State(
    count: nat, now: real, log: seq<Commit>, cache: map<string, Entry>, readers: map<nat, Reader>,
    writers: map<nat, nat>, published: map<string, nat>, answers: seq<Return>)

  datatype Step =
    | Tick(elapsed: real)
    | Lookup(reader: nat, token: string)
    | Load(reader: nat)
    | Insert(reader: nat)
    | CommitRow(writer: nat, token: string, snapshot: Snapshot)
    | Evict(writer: nat)
    | DropEntries(tokens: set<string>)

  const INIT: State := State(0, 0.0, [], map[], map[], map[], map[], [])

  /** The database's value for a token after a number of commits. */
  function ValueAt(log: seq<Commit>, token: string): Option<Snapshot> {
    if log == [] then None
    else if Last(log).token == token then Some(Last(log).snapshot)
    else ValueAt(Front(log), token)
  }

  /** The commits a lookup of the token starting now is owed: a new link's from its creation,
      a changed link's from its eviction. */
  function Published(published: map<string, nat>, token: string): nat {
    if token in published then published[token] else 0
  }

  function Publish(published: map<string, nat>, token: string, commits: nat): map<string, nat> {
    if commits > Published(published, token) then published[token := commits] else published
  }

  predicate IsLive(s: State, token: string) {
    token in s.cache && s.now < s.cache[token].insertedAt + TTL_SECONDS
  }

  function Answered(s: State, token: string, start: nat, floor: nat): State
    requires token in s.cache
  {
    var e := s.cache[token];
    s.(answers := s.answers + [Return(token, Some(e.snapshot), start, floor, e.seen, e.loadedAt, s.now)])
  }

  function LookupStep(s: State, reader: nat, token: string): State {
    if reader in s.readers then s
    else if IsLive(s, token) then Answered(s, token, s.count, Published(s.published, token))
    else s.(readers := s.readers[reader := Missed(token, s.count, Published(s.published, token))])
  }

  function LoadStep(s: State, reader: nat): State {
    if reader !in s.readers || !s.readers[reader].Missed? then s
    else
      var r := s.readers[reader];
      var value := ValueAt(s.log, r.token);
      if value.None? then
        s.(readers := s.readers - {reader},
           answers := s.answers + [Return(r.token, None, r.start, r.floor, |s.log|, s.now, s.now)])
      else
        s.(readers := s.readers[reader := Reader.Loaded(r.token, r.start, r.floor, value.value, |s.log|, s.now)])
  }

  function InsertStep(s: State, reader: nat): State {
    if reader !in s.readers || !s.readers[reader].Loaded? then s
    else
      var r := s.readers[reader];
      var s' := s.(readers := s.readers - {reader});
      if IsLive(s, r.token) then Answered(s', r.token, r.start, r.floor)
      else
        var filled := s'.(cache := s.cache[r.token := Entry(r.snapshot, s.now, r.seen, r.loadedAt)]);
        Answered(filled, r.token, r.start, r.floor)
  }

  /** A commit; the first one of a token is its creation, which nobody needs to evict. */
  function CommitStep(s: State, writer: nat, token: string, snapshot: Snapshot): State {
    if writer in s.writers then s
    else
      var s' := s.(log := s.log + [Commit(token, snapshot, s.now)]);
      if ValueAt(s.log, token).None? then s'.(published := Publish(s.published, token, |s.log| + 1))
      else s'.(writers := s.writers[writer := |s.log|])
  }

  function EvictStep(s: State, writer: nat): State {
    if writer !in s.writers || s.writers[writer] >= |s.log| then s
    else
      var token := s.log[s.writers[writer]].token;
      s.(cache := s.cache - {token}, writers := s.writers - {writer},
         published := Publish(s.published, token, s.writers[writer] + 1))
  }

  function Effect(s: State, step: Step): State {
    match step
    case Tick(elapsed) => if elapsed >= 0.0 then s.(now := s.now + elapsed) else s
    case Lookup(reader, token) => LookupStep(s, reader, token)
    case Load(reader) => LoadStep(s, reader)
    case Insert(reader) => InsertStep(s, reader)
    case CommitRow(writer, token, snapshot) => CommitStep(s, writer, token, snapshot)
    case Evict(writer) => EvictStep(s, writer)
    case DropEntries(tokens) => s.(cache := s.cache - tokens)
  }

  function Next(s: State, step: Step): State { Effect(s, step).(count := s.count + 1) }

  function Run(steps: seq<Step>): State {
    if steps == [] then INIT else Next(Run(Front(steps)), Last(steps))
  }

  // ---- the steps are the cache's own operations ----

  function Plain(c: map<string, Entry>): Cache {
    map t | t in c :: CacheEntry(c[t].snapshot, c[t].insertedAt)
  }

  /** A lookup answers and changes nothing in the cache, an insert updates and answers, an eviction
      removes its token, and a loss its tokens, just as the cache object's operations do. */
  lemma StepsAreTheCacheOperations(s: State, reader: nat, token: string, writer: nat, tokens: set<string>)
    ensures reader !in s.readers ==>
      var hit, s' := Live(Plain(s.cache), token, s.now), LookupStep(s, reader, token);
      Plain(s'.cache) == Plain(s.cache) &&
      if hit.Some? then s'.answers != [] && Last(s'.answers).result == hit && s'.readers == s.readers
      else s'.answers == s.answers && reader in s'.readers
    ensures reader in s.readers && s.readers[reader].Loaded? ==>
      var r, s' := s.readers[reader], InsertStep(s, reader);
      var (c, result) := InsertOrAdopt(Plain(s.cache), r.token, r.snapshot, s.now);
      Plain(s'.cache) == c && s'.answers != [] && Last(s'.answers).result == Some(result)
    ensures writer in s.writers && s.writers[writer] < |s.log| ==>
      Plain(EvictStep(s, writer).cache) == Plain(s.cache) - {s.log[s.writers[writer]].token}
    ensures Plain(Next(s, DropEntries(tokens)).cache) == Plain(s.cache) - tokens
  {
  }

  /** As time passes, an entry is what lookups answer with until 300 seconds after its insert,
      and from then on a lookup has to load. */
  lemma HitsForTtl(s: State, reader: nat, token: string, elapsed: real)
    requires reader !in s.readers && token in s.cache && elapsed >= 0.0
    ensures var s' := Next(Next(s, Tick(elapsed)), Lookup(reader, token));
      s'.now == s.now + elapsed && s'.cache == s.cache && s'.log == s.log &&
      if s.now + elapsed < s.cache[token].insertedAt + 300.0 then
        s'.readers == s.readers && |s'.answers| == |s.answers| + 1 && Last(s'.answers).token == token &&
        Last(s'.answers).result == Some(s.cache[token].snapshot) && Last(s'.answers).at == s.now + elapsed
      else s'.answers == s.answers && reader in s'.readers && s'.readers[reader].Missed?
  {
  }

  /** A reader that missed, with no other thread in between: its load finds what the database
      holds; nothing is answered as nothing, and not cached, */
  lemma MissFindsNothing(s: State, reader: nat)
    requires reader in s.readers && s.readers[reader].Missed? && ValueAt(s.log, s.readers[reader].token).None?
    ensures var s' := Next(s, Load(reader));
      |s'.answers| == |s.answers| + 1 && Last(s'.answers).token == s.readers[reader].token &&
      Last(s'.answers).result == None && s'.readers == s.readers - {reader} && s'.cache == s.cache
  {
  }

  /** and a row is cached as of now and answered. */
  lemma MissFills(s: State, reader: nat)
    requires reader in s.readers && s.readers[reader].Missed? && !IsLive(s, s.readers[reader].token)
    requires ValueAt(s.log, s.readers[reader].token).Some?
    ensures var s', token := Next(Next(s, Load(reader)), Insert(reader)), s.readers[reader].token;
      var value := ValueAt(s.log, token);
      |s'.answers| == |s.answers| + 1 && Last(s'.answers).token == token && Last(s'.answers).result == value &&
      reader !in s'.readers && s'.cache == s.cache[token := Entry(value.value, s.now, |s.log|, s.now)]
  {
  }

  /** A commit is what the database holds from then on; the cache is left to its eviction, which
      the first commit of a token does not need. */
  lemma CommitLogged(s: State, writer: nat, token: string, snapshot: Snapshot)
    requires writer !in s.writers
    ensures var s' := Next(s, CommitRow(writer, token, snapshot));
      s'.log == s.log + [Commit(token, snapshot, s.now)] && s'.cache == s.cache && s'.answers == s.answers &&
      s'.writers == if ValueAt(s.log, token).None? then s.writers else s.writers[writer := |s.log|]
  {
  }

  lemma ValueAfter(log: seq<Commit>, commit: Commit, token: string)
    ensures ValueAt(log + [commit], token) ==
      if token == commit.token then Some(commit.snapshot) else ValueAt(log, token)
  {
    assert Front(log + [commit]) == log;
  }

  // ---- every value returned was the database's, and recently enough ----

  /** Having seen the first `seen` commits at instant `at` is what the database looked like then. */
  ghost predicate SawAt(log: seq<Commit>, seen: nat, at: real) {
    seen <= |log| &&
    (forall i :: 0 <= i < seen ==> log[i].at <= at) &&
    (forall i :: seen <= i < |log| ==> at <= log[i].at)
  }

  ghost function ValueAtSeen(log: seq<Commit>, seen: nat, token: string): Option<Snapshot> {
    if seen <= |log| then ValueAt(log[..seen], token) else None
  }

  /** `value` is what the database held for the token at instant `at`. */
  ghost predicate WasValue(log: seq<Commit>, token: string, value: Option<Snapshot>, seen: nat, at: real) {
    SawAt(log, seen, at) && value == ValueAtSeen(log, seen, token)
  }

  ghost predicate TrueEntry(log: seq<Commit>, token: string, e: Entry, now: real, slowest: real) {
    WasValue(log, token, Some(e.snapshot), e.seen, e.loadedAt) &&
    e.loadedAt <= e.insertedAt <= e.loadedAt + slowest && e.insertedAt <= now
  }

  ghost predicate TrueReader(log: seq<Commit>, r: Reader, now: real) {
    r.Loaded? ==> WasValue(log, r.token, Some(r.snapshot), r.seen, r.loadedAt) && r.loadedAt <= now
  }

  /** The answer was the database's value at `loadedAt`, less than the TTL plus the slowest
      load before it was given. */
  ghost predicate TrueReturn(log: seq<Commit>, ret: Return, slowest: real) {
    WasValue(log, ret.token, ret.result, ret.seen, ret.loadedAt) &&
    ret.loadedAt <= ret.at < ret.loadedAt + TTL_SECONDS + slowest
  }

  ghost predicate Truthful(s: State, slowest: real) {
    (forall i :: 0 <= i < |s.log| ==> s.log[i].at <= s.now) &&
    (forall t :: t in s.cache ==> TrueEntry(s.log, t, s.cache[t], s.now, slowest)) &&
    (forall r :: r in s.readers ==> TrueReader(s.log, s.readers[r], s.now)) &&
    (forall i :: 0 <= i < |s.answers| ==> TrueReturn(s.log, s.answers[i], slowest) && s.answers[i].at <= s.now)
  }

  ghost predicate PromptInsert(s: State, step: Step, slowest: real) {
    step.Insert? && step.reader in s.readers && s.readers[step.reader].Loaded? ==>
      s.now - s.readers[step.reader].loadedAt <= slowest
  }

  /** In this run no thread takes longer than `slowest` from its load to its insert. */
  ghost predicate PromptLoads(steps: seq<Step>, slowest: real) {
    forall i :: 0 <= i < |steps| ==> PromptInsert(Run(steps[..i]), steps[i], slowest)
  }

  /** What was the database's value stays so as later commits arrive. */
  lemma WasValueKept(log: seq<Commit>, c: Commit, token: string, value: Option<Snapshot>, seen: nat, at: real)
    requires WasValue(log, token, value, seen, at) && at <= c.at
    ensures WasValue(log + [c], token, value, seen, at)
  {
    assert (log + [c])[..seen] == log[..seen];
  }

  lemma EntryKept(log: seq<Commit>, c: Commit, token: string, e: Entry, now: real, slowest: real)
    requires TrueEntry(log, token, e, now, slowest) && c.at == now
    ensures TrueEntry(log + [c], token, e, now, slowest)
  {
    WasValueKept(log, c, token, Some(e.snapshot), e.seen, e.loadedAt);
  }

  lemma ReaderKept(log: seq<Commit>, c: Commit, r: Reader, now: real)
    requires TrueReader(log, r, now) && c.at == now
    ensures TrueReader(log + [c], r, now)
  {
    if r.Loaded? {
      WasValueKept(log, c, r.token, Some(r.snapshot), r.seen, r.loadedAt);
    }
  }

  lemma ReturnKept(log: seq<Commit>, c: Commit, ret: Return, slowest: real)
    requires TrueReturn(log, ret, slowest) && ret.at <= c.at
    ensures TrueReturn(log + [c], ret, slowest)
  {
    WasValueKept(log, c, ret.token, ret.result, ret.seen, ret.loadedAt);
  }

  lemma TruthfulLog(s: State, c: Commit, s': State, slowest: real)
    requires Truthful(s, slowest) && c.at == s.now && s'.log == s.log + [c] && s'.now == s.now
    requires s'.cache == s.cache && s'.readers == s.readers && s'.answers == s.answers
    ensures Truthful(s', slowest)
  {
    forall t | t in s'.cache ensures TrueEntry(s'.log, t, s'.cache[t], s'.now, slowest) {
      EntryKept(s.log, c, t, s.cache[t], s.now, slowest);
    }
    forall r | r in s'.readers ensures TrueReader(s'.log, s'.readers[r], s'.now) {
      ReaderKept(s.log, c, s.readers[r], s.now);
    }
    forall i | 0 <= i < |s'.answers| ensures TrueReturn(s'.log, s'.answers[i], slowest) {
      ReturnKept(s.log, c, s.answers[i], slowest);
    }
  }

  lemma TruthfulCommit(s: State, writer: nat, token: string, snapshot: Snapshot, slowest: real)
    requires Truthful(s, slowest)
    ensures Truthful(CommitStep(s, writer, token, snapshot), slowest)
  {
    if writer !in s.writers {
      TruthfulLog(s, Commit(token, snapshot, s.now), CommitStep(s, writer, token, snapshot), slowest);
    }
  }

  lemma SeesAll(s: State, token: string, slowest: real)
    requires Truthful(s, slowest)
    ensures WasValue(s.log, token, ValueAt(s.log, token), |s.log|, s.now)
  {
    assert s.log[..|s.log|] == s.log;
  }

  lemma TruthfulLoad(s: State, reader: nat, slowest: real)
    requires Truthful(s, slowest) && slowest >= 0.0
    ensures Truthful(LoadStep(s, reader), slowest)
  {
    if reader in s.readers {
      SeesAll(s, s.readers[reader].token, slowest);
    }
  }

  lemma TruthfulAnswered(s: State, token: string, start: nat, floor: nat, slowest: real)
    requires Truthful(s, slowest) && IsLive(s, token)
    ensures Truthful(Answered(s, token, start, floor), slowest)
  {
    assert TrueEntry(s.log, token, s.cache[token], s.now, slowest);
  }

  lemma TruthfulFill(s: State, token: string, e: Entry, slowest: real)
    requires Truthful(s, slowest) && TrueEntry(s.log, token, e, s.now, slowest)
    ensures Truthful(s.(cache := s.cache[token := e]), slowest)
  {
  }

  lemma TruthfulDone(s: State, reader: nat, slowest: real)
    requires Truthful(s, slowest)
    ensures Truthful(s.(readers := s.readers - {reader}), slowest)
  {
  }

  lemma TruthfulInsert(s: State, reader: nat, slowest: real)
    requires Truthful(s, slowest) && PromptInsert(s, Insert(reader), slowest)
    ensures Truthful(InsertStep(s, reader), slowest)
  {
    if reader in s.readers && s.readers[reader].Loaded? {
      var r, s' := s.readers[reader], s.(readers := s.readers - {reader});
      assert TrueReader(s.log, r, s.now);
      TruthfulDone(s, reader, slowest);
      if IsLive(s, r.token) {
        TruthfulAnswered(s', r.token, r.start, r.floor, slowest);
      } else {
        var e := Entry(r.snapshot, s.now, r.seen, r.loadedAt);
        TruthfulFill(s', r.token, e, slowest);
        TruthfulAnswered(s'.(cache := s.cache[r.token := e]), r.token, r.start, r.floor, slowest);
      }
    }
  }

  lemma TruthfulLookup(s: State, reader: nat, token: string, slowest: real)
    requires Truthful(s, slowest)
    ensures Truthful(LookupStep(s, reader, token), slowest)
  {
    if reader !in s.readers && IsLive(s, token) {
      TruthfulAnswered(s, token, s.count, Published(s.published, token), slowest);
    }
  }

  lemma TruthfulTick(s: State, elapsed: real, slowest: real)
    requires Truthful(s, slowest) && elapsed >= 0.0
    ensures Truthful(s.(now := s.now + elapsed), slowest)
  {
  }

  lemma TruthfulOther(s: State, s': State, slowest: real)
    requires Truthful(s, slowest) && s'.log == s.log && s'.now == s.now && s'.answers == s.answers
    requires s'.readers == s.readers && forall t :: t in s'.cache ==> t in s.cache && s'.cache[t] == s.cache[t]
    ensures Truthful(s', slowest)
  {
  }

  lemma TruthfulEffect(s: State, step: Step, slowest: real)
    requires Truthful(s, slowest) && slowest >= 0.0 && PromptInsert(s, step, slowest)
    ensures Truthful(Effect(s, step), slowest)
  {
    match step
    case Tick(elapsed) =>
      if elapsed >= 0.0 {
        TruthfulTick(s, elapsed, slowest);
      }
    case CommitRow(writer, token, snapshot) => TruthfulCommit(s, writer, token, snapshot, slowest);
    case Lookup(reader, token) => TruthfulLookup(s, reader, token, slowest);
    case Load(reader) => TruthfulLoad(s, reader, slowest);
    case Insert(reader) => TruthfulInsert(s, reader, slowest);
    case Evict(writer) => TruthfulOther(s, EvictStep(s, writer), slowest);
    case DropEntries(tokens) => TruthfulOther(s, s.(cache := s.cache - tokens), slowest);
  }

  lemma PromptPrefix(steps: seq<Step>, slowest: real)
    requires PromptLoads(steps, slowest) && steps != []
    ensures PromptLoads(Front(steps), slowest) && PromptInsert(Run(Front(steps)), Last(steps), slowest)
  {
    var before := Front(steps);
    assert steps[..|steps| - 1] == before;
    assert PromptInsert(Run(steps[..|before|]), steps[|before|], slowest);
    forall i | 0 <= i < |before| ensures PromptInsert(Run(before[..i]), before[i], slowest) {
      assert before[..i] == steps[..i];
      assert PromptInsert(Run(steps[..i]), steps[i], slowest);
    }
  }

  lemma {:induction false} TruthfulRun(steps: seq<Step>, slowest: real)
    requires slowest >= 0.0 && PromptLoads(steps, slowest)
    ensures Truthful(Run(steps), slowest)
  {
    if steps != [] {
      PromptPrefix(steps, slowest);
      TruthfulRun(Front(steps), slowest);
      TruthfulEffect(Run(Front(steps)), Last(steps), slowest);
      TruthfulOther(Effect(Run(Front(steps)), Last(steps)), Run(steps), slowest);
    }
  }

  /** In every interleaving, everything any lookup answers was the database's value at some
      moment less than 300 seconds plus the slowest load before it returned. */
  lemma StalenessBound(steps: seq<Step>, slowest: real, i: nat)
    requires slowest >= 0.0 && PromptLoads(steps, slowest) && i < |Run(steps).answers|
    ensures var s := Run(steps);
      var ret := s.answers[i];
      TrueReturn(s.log, ret, slowest) && ret.at - ret.loadedAt < 300.0 + slowest
  {
    TruthfulRun(steps, slowest);
    assert TrueReturn(Run(steps).log, Run(steps).answers[i], slowest);
  }

  // ---- freshness: the very next lookup after an eviction ----

  /** This step caches a snapshot read before a commit that has been published since. */
  predicate Straddles(s: State, step: Step) {
    step.Insert? && step.reader in s.readers && s.readers[step.reader].Loaded? &&
    var r := s.readers[step.reader];
    !IsLive(s, r.token) && r.seen < Published(s.published, r.token)
  }

  ghost predicate NoStraddle(steps: seq<Step>) {
    forall i :: 0 <= i < |steps| ==> !Straddles(Run(steps[..i]), steps[i])
  }

  /** Every lookup so far saw all the commits published for its token before it started. */
  ghost predicate Fresh(s: State) {
    forall i :: 0 <= i < |s.answers| ==> s.answers[i].floor <= s.answers[i].seen
  }

  ghost predicate FreshReader(s: State, r: Reader) {
    r.floor <= Published(s.published, r.token) &&
    (r.Loaded? ==> r.floor <= r.seen && ValueAt(s.log, r.token).Some?)
  }

  ghost predicate FreshReaders(s: State) { forall r :: r in s.readers ==> FreshReader(s, s.readers[r]) }

  ghost predicate FreshEntry(s: State, token: string, e: Entry) {
    Published(s.published, token) <= e.seen && ValueAt(s.log, token).Some?
  }

  ghost predicate FreshEntries(s: State) { forall t :: t in s.cache ==> FreshEntry(s, t, s.cache[t]) }

  ghost predicate LogBounds(s: State) {
    (forall t :: Published(s.published, t) <= |s.log|) && (forall w :: w in s.writers ==> s.writers[w] < |s.log|)
  }

  ghost predicate FreshCache(s: State) {
    LogBounds(s) && FreshEntries(s) && FreshReaders(s) && Fresh(s)
  }

  /** A commit hides no earlier value, and publishes for its own token only. */
  lemma CommitShape(s: State, writer: nat, token: string, snapshot: Snapshot)
    ensures var s' := CommitStep(s, writer, token, snapshot);
      |s.log| <= |s'.log| && (forall t :: ValueAt(s.log, t).Some? ==> ValueAt(s'.log, t).Some?) &&
      (forall t :: Published(s'.published, t) == Published(s.published, t) ||
        (t == token && ValueAt(s.log, t).None? && Published(s'.published, t) == |s'.log|))
  {
    var s' := CommitStep(s, writer, token, snapshot);
    if s' != s {
      assert Front(s'.log) == s.log;
    }
  }

  lemma PublishBounds(published: map<string, nat>, token: string, commits: nat, length: nat)
    requires commits <= length && forall t :: Published(published, t) <= length
    ensures forall t :: Published(published, t) <= Published(Publish(published, token, commits), t) <= length
    ensures commits <= Published(Publish(published, token, commits), token)
  {
    forall t ensures Published(published, t) <= Published(Publish(published, token, commits), t) <= length {
      assert Published(published, t) <= length;
    }
  }

  lemma LogBoundCommit(s: State, writer: nat, token: string, snapshot: Snapshot)
    requires LogBounds(s)
    ensures var s' := CommitStep(s, writer, token, snapshot);
      LogBounds(s') && forall t :: Published(s.published, t) <= Published(s'.published, t)
  {
    if writer !in s.writers {
      assert forall t :: Published(s.published, t) <= |s.log| + 1;
      PublishBounds(s.published, token, |s.log| + 1, |s.log| + 1);
    }
  }

  lemma LogBoundEvict(s: State, writer: nat)
    requires LogBounds(s)
    ensures var s' := EvictStep(s, writer);
      LogBounds(s') && (forall t :: Published(s.published, t) <= Published(s'.published, t)) &&
      (writer in s.writers ==> Published(s'.published, s.log[s.writers[writer]].token) > s.writers[writer])
  {
    if writer in s.writers {
      PublishBounds(s.published, s.log[s.writers[writer]].token, s.writers[writer] + 1, |s.log|);
    }
  }

  /** Entries and readers stay fresh when values are only added and nothing is published for them. */
  lemma FreshGrows(s: State, s': State)
    requires FreshCache(s) && s'.cache == s.cache && s'.readers == s.readers && s'.answers == s.answers
    requires forall t :: ValueAt(s.log, t).Some? ==>
      ValueAt(s'.log, t).Some? && Published(s'.published, t) == Published(s.published, t)
    requires forall t :: Published(s.published, t) <= Published(s'.published, t)
    requires LogBounds(s')
    ensures FreshCache(s')
  {
    forall t | t in s'.cache ensures FreshEntry(s', t, s'.cache[t]) {
      assert FreshEntry(s, t, s.cache[t]);
    }
    forall r | r in s'.readers ensures FreshReader(s', s'.readers[r]) {
      assert FreshReader(s, s.readers[r]);
    }
  }

  lemma FreshCommit(s: State, writer: nat, token: string, snapshot: Snapshot)
    requires FreshCache(s)
    ensures FreshCache(CommitStep(s, writer, token, snapshot))
  {
    if writer !in s.writers {
      CommitShape(s, writer, token, snapshot);
      LogBoundCommit(s, writer, token, snapshot);
      FreshGrows(s, CommitStep(s, writer, token, snapshot));
    }
  }

  lemma FreshEvict(s: State, writer: nat)
    requires FreshCache(s)
    ensures FreshCache(EvictStep(s, writer))
  {
    var s' := EvictStep(s, writer);
    LogBoundEvict(s, writer);
    forall t | t in s'.cache ensures FreshEntry(s', t, s'.cache[t]) {
      assert FreshEntry(s, t, s.cache[t]);
    }
    forall r | r in s'.readers ensures FreshReader(s', s'.readers[r]) {
      assert FreshReader(s, s.readers[r]);
    }
  }

  /** Time passing, entries lost, and the step counter do not matter. */
  lemma FreshOther(s: State, s': State)
    requires FreshCache(s) && s'.log == s.log && s'.answers == s.answers && s'.readers == s.readers
    requires s'.writers == s.writers && s'.published == s.published
    requires forall t :: t in s'.cache ==> t in s.cache && s'.cache[t] == s.cache[t]
    ensures FreshCache(s')
  {
    forall t | t in s'.cache ensures FreshEntry(s', t, s'.cache[t]) {
      assert FreshEntry(s, t, s.cache[t]);
    }
    forall r | r in s'.readers ensures FreshReader(s', s'.readers[r]) {
      assert FreshReader(s, s.readers[r]);
    }
  }

  lemma FreshPending(s: State, reader: nat, r: Reader)
    requires FreshCache(s) && FreshReader(s, r)
    ensures FreshCache(s.(readers := s.readers[reader := r]))
  {
    var s' := s.(readers := s.readers[reader := r]);
    forall k | k in s'.readers ensures FreshReader(s', s'.readers[k]) {
      assert k != reader ==> FreshReader(s, s.readers[k]);
      assert FreshReader(s', r);
    }
    forall t | t in s'.cache ensures FreshEntry(s', t, s'.cache[t]) {
      assert FreshEntry(s, t, s.cache[t]);
    }
  }

  lemma FreshDone(s: State, reader: nat)
    requires FreshCache(s)
    ensures FreshCache(s.(readers := s.readers - {reader}))
  {
    var s' := s.(readers := s.readers - {reader});
    forall k | k in s'.readers ensures FreshReader(s', s'.readers[k]) {
      assert FreshReader(s, s.readers[k]);
    }
    forall t | t in s'.cache ensures FreshEntry(s', t, s'.cache[t]) {
      assert FreshEntry(s, t, s.cache[t]);
    }
  }

  lemma FreshFill(s: State, token: string, e: Entry)
    requires FreshCache(s) && FreshEntry(s, token, e)
    ensures FreshCache(s.(cache := s.cache[token := e]))
  {
    var s' := s.(cache := s.cache[token := e]);
    forall k | k in s'.readers ensures FreshReader(s', s'.readers[k]) {
      assert FreshReader(s, s.readers[k]);
    }
    forall t | t in s'.cache ensures FreshEntry(s', t, s'.cache[t]) {
      assert t != token ==> FreshEntry(s, t, s.cache[t]);
      assert FreshEntry(s', token, e);
    }
  }

  lemma FreshAnswer(s: State, ret: Return)
    requires FreshCache(s) && ret.floor <= ret.seen
    ensures FreshCache(s.(answers := s.answers + [ret]))
  {
    var s' := s.(answers := s.answers + [ret]);
    forall k | k in s'.readers ensures FreshReader(s', s'.readers[k]) {
      assert FreshReader(s, s.readers[k]);
    }
    forall t | t in s'.cache ensures FreshEntry(s', t, s'.cache[t]) {
      assert FreshEntry(s, t, s.cache[t]);
    }
  }

  lemma FreshAnswered(s: State, token: string, start: nat, floor: nat)
    requires FreshCache(s) && token in s.cache && floor <= Published(s.published, token)
    ensures FreshCache(Answered(s, token, start, floor))
  {
    var e := s.cache[token];
    assert FreshEntry(s, token, e);
    FreshAnswer(s, Return(token, Some(e.snapshot), start, floor, e.seen, e.loadedAt, s.now));
  }

  lemma FreshLookup(s: State, reader: nat, token: string)
    requires FreshCache(s)
    ensures FreshCache(LookupStep(s, reader, token))
  {
    if reader !in s.readers {
      if IsLive(s, token) {
        FreshAnswered(s, token, s.count, Published(s.published, token));
      } else {
        FreshPending(s, reader, Missed(token, s.count, Published(s.published, token)));
      }
    }
  }

  lemma FreshLoad(s: State, reader: nat)
    requires FreshCache(s)
    ensures FreshCache(LoadStep(s, reader))
  {
    if reader in s.readers && s.readers[reader].Missed? {
      var r := s.readers[reader];
      var value := ValueAt(s.log, r.token);
      assert FreshReader(s, r) && Published(s.published, r.token) <= |s.log|;
      if value.None? {
        FreshDone(s, reader);
        var ret := Return(r.token, None, r.start, r.floor, |s.log|, s.now, s.now);
        FreshAnswer(s.(readers := s.readers - {reader}), ret);
      } else {
        FreshPending(s, reader, Reader.Loaded(r.token, r.start, r.floor, value.value, |s.log|, s.now));
      }
    }
  }

  lemma FreshInsert(s: State, reader: nat)
    requires FreshCache(s) && !Straddles(s, Insert(reader))
    ensures FreshCache(InsertStep(s, reader))
  {
    if reader in s.readers && s.readers[reader].Loaded? {
      var r, s' := s.readers[reader], s.(readers := s.readers - {reader});
      assert FreshReader(s, r);
      FreshDone(s, reader);
      if IsLive(s, r.token) {
        FreshAnswered(s', r.token, r.start, r.floor);
      } else {
        var e := Entry(r.snapshot, s.now, r.seen, r.loadedAt);
        FreshFill(s', r.token, e);
        FreshAnswered(s'.(cache := s.cache[r.token := e]), r.token, r.start, r.floor);
      }
    }
  }

  lemma FreshEffect(s: State, step: Step)
    requires FreshCache(s) && !Straddles(s, step)
    ensures FreshCache(Effect(s, step))
  {
    match step
    case Tick(_) => FreshOther(s, Effect(s, step));
    case Lookup(reader, token) => FreshLookup(s, reader, token);
    case Load(reader) => FreshLoad(s, reader);
    case Insert(reader) => FreshInsert(s, reader);
    case CommitRow(writer, token, snapshot) => FreshCommit(s, writer, token, snapshot);
    case Evict(writer) => FreshEvict(s, writer);
    case DropEntries(_) => FreshOther(s, Effect(s, step));
  }

  lemma FreshStep(s: State, step: Step)
    requires FreshCache(s) && !Straddles(s, step)
    ensures FreshCache(Next(s, step))
  {
    FreshEffect(s, step);
    FreshOther(Effect(s, step), Next(s, step));
  }

  lemma NoStraddlePrefix(steps: seq<Step>, n: nat)
    requires NoStraddle(steps) && n <= |steps|
    ensures NoStraddle(steps[..n])
  {
    forall i | 0 <= i < n ensures !Straddles(Run(steps[..n][..i]), steps[..n][i]) {
      assert steps[..n][..i] == steps[..i];
      assert !Straddles(Run(steps[..i]), steps[i]);
    }
  }

  lemma {:induction false} FreshRun(steps: seq<Step>)
    requires NoStraddle(steps)
    ensures FreshCache(Run(steps))
  {
    if steps != [] {
      var before, step := Front(steps), Last(steps);
      NoStraddlePrefix(steps, |before|);
      FreshRun(before);
      assert !Straddles(Run(steps[..|before|]), step);
      FreshStep(Run(before), step);
    }
  }

  lemma LookupPublishes(s: State, reader: nat, token: string)
    ensures var s' := LookupStep(s, reader, token);
      s'.published == s.published && s'.log == s.log && s'.writers == s.writers
  {
  }

  lemma OthersPublish(s: State, step: Step)
    requires !step.CommitRow? && !step.Evict?
    ensures var s' := Next(s, step); s'.published == s.published && s'.log == s.log && s'.writers == s.writers
  {
    if step.Lookup? {
      LookupPublishes(s, step.reader, step.token);
    }
  }

  /** What a lookup is owed only grows. */
  lemma LogBoundStep(s: State, step: Step)
    requires LogBounds(s)
    ensures LogBounds(Next(s, step))
    ensures forall t :: Published(s.published, t) <= Published(Next(s, step).published, t)
  {
    match step
    case CommitRow(writer, token, snapshot) => LogBoundCommit(s, writer, token, snapshot);
    case Evict(writer) => LogBoundEvict(s, writer);
    case _ => OthersPublish(s, step);
  }

  lemma {:induction false} LogBound(steps: seq<Step>)
    ensures LogBounds(Run(steps))
  {
    if steps != [] {
      LogBound(Front(steps));
      LogBoundStep(Run(Front(steps)), Last(steps));
    }
  }

  lemma {:induction false} PublishedGrows(steps: seq<Step>, n: nat, token: string)
    requires n <= |steps|
    ensures Published(Run(steps[..n]).published, token) <= Published(Run(steps).published, token)
  {
    if n == |steps| {
      assert steps[..n] == steps;
    } else {
      assert Front(steps)[..n] == steps[..n];
      PublishedGrows(Front(steps), n, token);
      LogBound(Front(steps));
      LogBoundStep(Run(Front(steps)), Last(steps));
    }
  }

  /** From an eviction on, every lookup of the token is owed the evicted commit. */
  lemma EvictionIsOwed(steps: seq<Step>, n: nat, writer: nat)
    requires n < |steps| && steps[n] == Evict(writer)
    requires var s := Run(steps[..n]); writer in s.writers && s.writers[writer] < |s.log|
    ensures var s := Run(steps[..n]);
      Published(Run(steps).published, s.log[s.writers[writer]].token) > s.writers[writer]
  {
    var s := Run(steps[..n]);
    LogBound(steps[..n]);
    LogBoundEvict(s, writer);
    assert Front(steps[..n + 1]) == steps[..n];
    PublishedGrows(steps, n + 1, s.log[s.writers[writer]].token);
  }

  lemma {:induction false} SlowestLoad(steps: seq<Step>) returns (slowest: real)
    ensures slowest >= 0.0 && PromptLoads(steps, slowest)
  {
    if steps == [] {
      slowest := 0.0;
    } else {
      var before, step := Front(steps), Last(steps);
      var sofar := SlowestLoad(before);
      var s := Run(before);
      slowest := if PromptInsert(s, step, sofar) then sofar else s.now - s.readers[step.reader].loadedAt;
      forall i | 0 <= i < |steps| ensures PromptInsert(Run(steps[..i]), steps[i], slowest) {
        if i < |before| {
          assert steps[..i] == before[..i];
          assert PromptInsert(Run(before[..i]), before[i], sofar);
        } else {
          assert steps[..i] == before;
        }
      }
    }
  }

  /** If no load straddles a commit and its eviction, every lookup returns the value after at
      least all the commits whose evictions (or creations) preceded its start. */
  lemma FreshnessWithoutStraddling(steps: seq<Step>, i: nat)
    requires NoStraddle(steps) && i < |Run(steps).answers|
    ensures var s := Run(steps);
      var ret := s.answers[i];
      ret.floor <= ret.seen <= |s.log| && ret.result == ValueAt(s.log[..ret.seen], ret.token)
  {
    FreshRun(steps);
    var slowest := SlowestLoad(steps);
    TruthfulRun(steps, slowest);
    assert Fresh(Run(steps));
    assert TrueReturn(Run(steps).log, Run(steps).answers[i], slowest);
  }

  // ---- which lookup an answer belongs to ----

  /** Step `start` was a lookup of the token, and `floor` is what it was owed. */
  ghost predicate StartedAt(steps: seq<Step>, start: nat, token: string, floor: nat) {
    start < |steps| && steps[start].Lookup? && steps[start].token == token &&
    floor == Published(Run(steps[..start]).published, token)
  }

  ghost predicate Started(steps: seq<Step>, s: State) {
    s.count == |steps| &&
    (forall r :: r in s.readers ==> StartedAt(steps, s.readers[r].start, s.readers[r].token, s.readers[r].floor)) &&
    (forall i :: 0 <= i < |s.answers| ==> StartedAt(steps, s.answers[i].start, s.answers[i].token, s.answers[i].floor))
  }

  lemma StartedLonger(steps: seq<Step>, start: nat, token: string, floor: nat)
    requires steps != [] && StartedAt(Front(steps), start, token, floor)
    ensures StartedAt(steps, start, token, floor)
  {
    assert Front(steps)[..start] == steps[..start];
  }

  /** A reader's, an answer's, or that of the lookup made now. */
  ghost predicate Known(s: State, step: Step, start: nat, token: string, floor: nat) {
    (exists r :: r in s.readers &&
      (s.readers[r].start, s.readers[r].token, s.readers[r].floor) == (start, token, floor)) ||
    (exists i :: 0 <= i < |s.answers| &&
      (s.answers[i].start, s.answers[i].token, s.answers[i].floor) == (start, token, floor)) ||
    (step.Lookup? && step.token == token && start == s.count && floor == Published(s.published, token))
  }

  ghost predicate AllKnown(s: State, step: Step, s': State) {
    (forall r :: r in s'.readers ==> Known(s, step, s'.readers[r].start, s'.readers[r].token, s'.readers[r].floor)) &&
    (forall i :: 0 <= i < |s'.answers| ==>
      Known(s, step, s'.answers[i].start, s'.answers[i].token, s'.answers[i].floor))
  }

  lemma LookupKnown(s: State, reader: nat, token: string)
    ensures AllKnown(s, Lookup(reader, token), LookupStep(s, reader, token))
  {
  }

  lemma LoadKnown(s: State, reader: nat)
    ensures AllKnown(s, Load(reader), LoadStep(s, reader))
  {
  }

  lemma InsertKnown(s: State, reader: nat)
    ensures AllKnown(s, Insert(reader), InsertStep(s, reader))
  {
  }

  lemma SameKnown(s: State, step: Step, s': State)
    requires s'.readers == s.readers && s'.answers == s.answers
    ensures AllKnown(s, step, s')
  {
  }

  lemma OthersKnown(s: State, step: Step)
    requires !step.Lookup? && !step.Load? && !step.Insert?
    ensures Effect(s, step).readers == s.readers && Effect(s, step).answers == s.answers
  {
  }

  /** A step starts at most its own lookup, and hands every other start on. */
  lemma StartsKept(s: State, step: Step)
    ensures AllKnown(s, step, Next(s, step))
  {
    match step
    case Lookup(reader, token) => LookupKnown(s, reader, token);
    case Load(reader) => LoadKnown(s, reader);
    case Insert(reader) => InsertKnown(s, reader);
    case _ =>
      OthersKnown(s, step);
      SameKnown(s, step, Next(s, step));
  }

  lemma KnownStarted(steps: seq<Step>, start: nat, token: string, floor: nat)
    requires steps != [] && Started(Front(steps), Run(Front(steps)))
    requires Known(Run(Front(steps)), Last(steps), start, token, floor)
    ensures StartedAt(steps, start, token, floor)
  {
    if StartedAt(Front(steps), start, token, floor) {
      StartedLonger(steps, start, token, floor);
    } else {
      assert steps[..start] == Front(steps);
    }
  }

  lemma {:induction false} StartedRun(steps: seq<Step>)
    ensures Started(steps, Run(steps))
  {
    if steps != [] {
      var s, s' := Run(Front(steps)), Run(steps);
      StartedRun(Front(steps));
      StartsKept(s, Last(steps));
      forall r | r in s'.readers
        ensures StartedAt(steps, s'.readers[r].start, s'.readers[r].token, s'.readers[r].floor)
      {
        KnownStarted(steps, s'.readers[r].start, s'.readers[r].token, s'.readers[r].floor);
      }
      forall i | 0 <= i < |s'.answers|
        ensures StartedAt(steps, s'.answers[i].start, s'.answers[i].token, s'.answers[i].floor)
      {
        KnownStarted(steps, s'.answers[i].start, s'.answers[i].token, s'.answers[i].floor);
      }
    }
  }

  lemma OwedAtStart(steps: seq<Step>, n: nat, start: nat, writer: nat)
    requires n < start <= |steps| && steps[n] == Evict(writer)
    requires var s := Run(steps[..n]); writer in s.writers && s.writers[writer] < |s.log|
    ensures var s := Run(steps[..n]);
      Published(Run(steps[..start]).published, s.log[s.writers[writer]].token) > s.writers[writer]
  {
    assert steps[..start][..n] == steps[..n];
    EvictionIsOwed(steps[..start], n, writer);
  }

  /** The eviction's promise: if no load straddles a commit and its eviction, every answer whose
      lookup came after an eviction of its token holds the evicted commit's value or a later one. */
  lemma LookupAfterEvictSees(steps: seq<Step>, n: nat, writer: nat, i: nat)
    requires NoStraddle(steps) && n < |steps| && steps[n] == Evict(writer) && i < |Run(steps).answers|
    requires var s := Run(steps[..n]); writer in s.writers && s.writers[writer] < |s.log|
    requires var s, ret := Run(steps[..n]), Run(steps).answers[i];
      ret.start > n && ret.token == s.log[s.writers[writer]].token
    ensures var commit, log, ret := Run(steps[..n]).writers[writer], Run(steps).log, Run(steps).answers[i];
      commit < ret.seen <= |log| && ret.result == ValueAt(log[..ret.seen], ret.token)
  {
    var ret := Run(steps).answers[i];
    StartedRun(steps);
    assert StartedAt(steps, ret.start, ret.token, ret.floor);
    OwedAtStart(steps, n, ret.start, writer);
    FreshnessWithoutStraddling(steps, i);
  }

  /** After a straddling insert, the very next lookup of that token returns the stale value. */
  lemma StraddleShowsStale(s: State, reader: nat)
    requires Straddles(s, Insert(reader))
    ensures var r := s.readers[reader];
      var s' := Next(Next(s, Insert(reader)), Lookup(reader, r.token));
      s'.answers != [] && Last(s'.answers).result == Some(r.snapshot) &&
      Last(s'.answers).seen == r.seen < Last(s'.answers).floor && !Fresh(s')
  {
    var s' := Next(Next(s, Insert(reader)), Lookup(reader, s.readers[reader].token));
    assert s'.answers[|s'.answers| - 1].floor > s'.answers[|s'.answers| - 1].seen;
  }

  /** The condition is exact: a run has no straddling load if and only if it is fresh at
      every point and would stay so under any one lookup made there. */
  lemma FreshnessExact(steps: seq<Step>)
    ensures NoStraddle(steps) <==>
      forall n: nat, reader, token :: n <= |steps| ==> Fresh(Run(steps[..n] + [Lookup(reader, token)]))
  {
    if NoStraddle(steps) {
      forall n: nat, reader, token | n <= |steps| ensures Fresh(Run(steps[..n] + [Lookup(reader, token)])) {
        NoStraddlePrefix(steps, n);
        FreshRun(steps[..n]);
        assert Front(steps[..n] + [Lookup(reader, token)]) == steps[..n];
        FreshStep(Run(steps[..n]), Lookup(reader, token));
      }
    } else {
      var i :| 0 <= i < |steps| && Straddles(Run(steps[..i]), steps[i]);
      var s, reader := Run(steps[..i]), steps[i].reader;
      var token := s.readers[reader].token;
      StraddleShowsStale(s, reader);
      var run := steps[..i + 1] + [Lookup(reader, token)];
      assert Front(run) == steps[..i + 1] && Front(steps[..i + 1]) == steps[..i];
      assert Run(run) == Next(Next(s, Insert(reader)), Lookup(reader, token));
    }
  }

  /** Straddling does happen: a reader loads the first value, a writer commits the second and
      evicts, the reader inserts what it loaded, and the next lookup returns the first value. */
  function StraddlingRun(token: string, first: Snapshot, second: Snapshot): seq<Step> {
    [CommitRow(0, token, first), Lookup(1, token), Load(1), CommitRow(0, token, second), Evict(0), Insert(1),
     Lookup(2, token)]
  }

  lemma StraddledLookup(s: State, token: string, first: Snapshot)
    requires 2 !in s.readers && s.now == 0.0 && token in s.cache && s.cache[token] == Entry(first, 0.0, 1, 0.0)
    ensures var s' := Next(s, Lookup(2, token));
      s'.log == s.log && s'.answers != [] && Last(s'.answers).result == Some(first) &&
      Last(s'.answers).floor == Published(s.published, token)
  {
  }

  /** `Run` for any step function. */
  function Fold(next: (State, Step) -> State, s: State, steps: seq<Step>): State {
    if steps == [] then s else next(Fold(next, s, Front(steps)), Last(steps))
  }

  lemma {:induction false} RunIsFold(steps: seq<Step>)
    ensures Run(steps) == Fold(Next, INIT, steps)
  {
    if steps != [] {
      RunIsFold(Front(steps));
    }
  }

  lemma FoldSplit(next: (State, Step) -> State, s: State, run: seq<Step>, n: nat)
    requires 0 < n <= |run|
    ensures Fold(next, s, run[..n]) == next(Fold(next, s, run[..n - 1]), run[n - 1])
  {
    assert Front(run[..n]) == run[..n - 1];
  }

  lemma FoldSeven(next: (State, Step) -> State, s: State, run: seq<Step>)
    requires |run| == 7
    ensures Fold(next, s, run) ==
      next(next(next(next(next(next(next(s, run[0]), run[1]), run[2]), run[3]), run[4]), run[5]), run[6])
  {
    FoldSplit(next, s, run, 1);
    FoldSplit(next, s, run, 2);
    FoldSplit(next, s, run, 3);
    FoldSplit(next, s, run, 4);
    FoldSplit(next, s, run, 5);
    FoldSplit(next, s, run, 6);
    FoldSplit(next, s, run, 7);
    assert run[..0] == [] && run[..7] == run;
  }

  /** The state once the reader has loaded the first value. */
  function FirstLoaded(token: string, first: Snapshot): State {
    State(3, 0.0, [Commit(token, first, 0.0)], map[], map[1 := Reader.Loaded(token, 1, 1, first, 1, 0.0)],
          map[], map[token := 1], [])
  }

  lemma FirstSteps(token: string, first: Snapshot)
    ensures Next(Next(Next(INIT, CommitRow(0, token, first)), Lookup(1, token)), Load(1)) == FirstLoaded(token, first)
  {
    var s1 := Next(INIT, CommitRow(0, token, first));
    assert s1 == INIT.(count := 1, log := [Commit(token, first, 0.0)], published := map[token := 1]);
    var s2 := Next(s1, Lookup(1, token));
    assert s2 == s1.(count := 2, readers := map[1 := Missed(token, 1, 1)]);
  }

  /** The second commit and its eviction. */
  lemma SecondSteps(token: string, first: Snapshot, second: Snapshot, s3: State) returns (s5: State)
    requires s3 == FirstLoaded(token, first)
    ensures s5 == Next(Next(s3, CommitRow(0, token, second)), Evict(0))
    ensures s5.log == [Commit(token, first, 0.0), Commit(token, second, 0.0)] && s5.cache == map[] && s5.now == 0.0
    ensures s5.readers == s3.readers && s5.published == map[token := 2]
  {
    var s4 := Next(s3, CommitRow(0, token, second));
    var both := [Commit(token, first, 0.0), Commit(token, second, 0.0)];
    assert s4 == s3.(count := 4, log := both, writers := map[0 := 1]);
    s5 := Next(s4, Evict(0));
  }

  lemma StraddledInsert(s: State, token: string, first: Snapshot)
    requires s.cache == map[] && s.readers == map[1 := Reader.Loaded(token, 1, 1, first, 1, 0.0)] && s.now == 0.0
    ensures var s' := Next(s, Insert(1));
      2 !in s'.readers && s'.now == 0.0 && s'.log == s.log && s'.published == s.published &&
      token in s'.cache && s'.cache[token] == Entry(first, 0.0, 1, 0.0)
  {
  }

  lemma StraddlingHappens(token: string, first: Snapshot, second: Snapshot)
    ensures var s := Run(StraddlingRun(token, first, second));
      ValueAt(s.log, token) == Some(second) && s.answers != [] && Last(s.answers).result == Some(first) &&
      Last(s.answers).floor == 2
  {
    var run := StraddlingRun(token, first, second);
    RunIsFold(run);
    FoldSeven(Next, INIT, run);
    FirstSteps(token, first);
    var s5 := SecondSteps(token, first, second, FirstLoaded(token, first));
    StraddledInsert(s5, token, first);
    StraddledLookup(Next(s5, Insert(1)), token, first);
  }
}
