/** The server with its read-cache, as a value and as the object with handlers, and the
    proof that nobody can tell it from the server without one. */
module CachedServer {
  import opened Authorization
  import opened Common
  import opened Links
  import opened RedirectCache

  datatype Server = Server(db: Database, cache: Cache)

  /** A request with the cache timer's readings at lookup and at insert, or the loss of
      any cache entries to capacity or expiry. */
  datatype Action =
    | Handle(request: Request, lookupAt: real, insertAt: real)
    | Drop(tokens: set<string>)

  function Loaded(db: Database, token: string): Option<Snapshot> {
    var i := Find(db.rows, token);
    if i.None? then None else Some(SnapshotOf(db.rows[i.value]))
  }

  /** Any request but a redirect; a PATCH or DELETE that commits evicts its token afterwards. */
  function ServeAndEvict(s: Server, r: Request): (Server, Response) {
    var (db, res) := Serve(s.db, r);
    if (r.Patch? && res.Patched?) || (r.Delete? && res.DeletedOk?) then
      (Server(db, s.cache - {r.token}), res)
    else
      (Server(db, s.cache), res)
  }

  function CachedServe(s: Server, r: Request, lookupAt: real, insertAt: real): (Server, Response) {
    if r.Redirect? then
      var (cache, found) := CachedGetOrLoad(s.cache, r.token, Loaded(s.db, r.token), lookupAt, insertAt);
      if found.None? then (Server(s.db, cache), NotFound404)
      else
        var (db, res) := Answer(s.db, r, found.value);
        (Server(db, cache), res)
    else ServeAndEvict(s, r)
  }

  function Act(s: Server, a: Action): Server {
    match a
    case Handle(r, lookupAt, insertAt) => CachedServe(s, r, lookupAt, insertAt).0
    case Drop(tokens) => s.(cache := s.cache - tokens)
  }

  function CachedAfter(s: Server, acts: seq<Action>): Server {
    if acts == [] then s else Act(CachedAfter(s, Front(acts)), Last(acts))
  }

  function RequestsOf(acts: seq<Action>): seq<Request> {
    if acts == [] then [] else
      RequestsOf(Front(acts)) + if Last(acts).Handle? then [Last(acts).request] else []
  }

  /** Every cached snapshot is the stored row's; in particular unknown tokens are not cached. */
  ghost predicate Coherent(s: Server) {
    forall t :: t in s.cache ==> Loaded(s.db, t) == Some(s.cache[t].snapshot)
  }

  lemma RefusalOrRow(db: Database, r: Request)
    requires r.Patch? || r.Delete?
    ensures var rows, rows' := db.rows, Serve(db, r).0.rows;
      |rows| == |rows'| && forall i :: 0 <= i < |rows| && rows[i].token != r.token ==> rows'[i] == rows[i]
  {
  }

  lemma LoadedKeptByCreate(db: Database, r: Request, token: string)
    requires Loaded(db, token).Some? && r.Create?
    ensures Loaded(Serve(db, r).0, token) == Loaded(db, token)
  {
    FindByTokens(db.rows, Serve(db, r).0.rows, token);
  }

  lemma LoadedKeptByMutation(db: Database, r: Request, token: string)
    requires Loaded(db, token).Some? && (r.Patch? || r.Delete?)
    requires r.token != token || Serve(db, r).0.rows == db.rows
    ensures Loaded(Serve(db, r).0, token) == Loaded(db, token)
  {
    var i := MutationShape(db, r);
    FindByTokens(db.rows, Serve(db, r).0.rows, token);
    RefusalOrRow(db, r);
  }

  /** What other requests leave alone: only the row a request names can load differently. */
  lemma LoadedKept(db: Database, r: Request, token: string)
    requires Loaded(db, token).Some?
    requires (r.Patch? || r.Delete?) ==> r.token != token || Serve(db, r).0.rows == db.rows
    ensures Loaded(Serve(db, r).0, token) == Loaded(db, token)
  {
    if r.Create? {
      LoadedKeptByCreate(db, r, token);
    } else if r.Patch? || r.Delete? {
      LoadedKeptByMutation(db, r, token);
    }
  }

  /** `get_or_load` on a coherent cache finds what the table holds, and keeps it coherent. */
  lemma LoadCoherent(s: Server, token: string, lookupAt: real, insertAt: real)
    requires Coherent(s)
    ensures var (cache, found) := CachedGetOrLoad(s.cache, token, Loaded(s.db, token), lookupAt, insertAt);
      found == Loaded(s.db, token) && Coherent(Server(s.db, cache))
  {
  }

  lemma RedirectCoherent(s: Server, r: Request, lookupAt: real, insertAt: real)
    requires Coherent(s) && r.Redirect?
    ensures var (s', res) := CachedServe(s, r, lookupAt, insertAt);
      Coherent(s') && (s'.db, res) == Serve(s.db, r)
  {
    LoadCoherent(s, r.token, lookupAt, insertAt);
    var s' := CachedServe(s, r, lookupAt, insertAt).0;
    assert s'.db.rows == s.db.rows;
    forall t | t in s'.cache ensures Loaded(s'.db, t) == Some(s'.cache[t].snapshot) {
      assert Loaded(s'.db, t) == Loaded(s.db, t);
    }
  }

  lemma MutationCoherent(s: Server, r: Request)
    requires Coherent(s) && !r.Redirect?
    ensures Coherent(ServeAndEvict(s, r).0)
  {
    var s' := ServeAndEvict(s, r).0;
    forall t | t in s'.cache ensures Loaded(s'.db, t) == Some(s'.cache[t].snapshot) {
      LoadedKept(s.db, r, t);
    }
  }

  lemma CoherentStep(s: Server, r: Request, lookupAt: real, insertAt: real)
    requires Coherent(s)
    ensures var (s', res) := CachedServe(s, r, lookupAt, insertAt);
      Coherent(s') && (s'.db, res) == Serve(s.db, r)
  {
    if r.Redirect? {
      RedirectCoherent(s, r, lookupAt, insertAt);
    } else {
      MutationCoherent(s, r);
    }
  }

  /** For every sequence of requests, TTL expiries and capacity evictions, the cached server
      gives each request the answer the stored rows would, and ends with the same database. */
  lemma {:induction false} CacheRefines(s: Server, acts: seq<Action>)
    requires Coherent(s)
    ensures var s' := CachedAfter(s, acts);
      Coherent(s') && s'.db == After(s.db, RequestsOf(acts)) &&
      forall r, lookupAt, insertAt :: CachedServe(s', r, lookupAt, insertAt).1 == Serve(s'.db, r).1
  {
    var s' := CachedAfter(s, acts);
    if acts != [] {
      CacheRefines(s, Front(acts));
      var before, a := CachedAfter(s, Front(acts)), Last(acts);
      if a.Handle? {
        CoherentStep(before, a.request, a.lookupAt, a.insertAt);
        assert Front(RequestsOf(acts)) == RequestsOf(Front(acts));
      } else {
        assert RequestsOf(acts) == RequestsOf(Front(acts));
      }
    }
    forall r, lookupAt, insertAt ensures CachedServe(s', r, lookupAt, insertAt).1 == Serve(s'.db, r).1 {
      CoherentStep(s', r, lookupAt, insertAt);
    }
  }

  /** A token that is found stays found at its place, whatever is served. */
  lemma FindStep(db: Database, r: Request, token: string, i: nat)
    requires Find(db.rows, token) == Some(i)
    ensures Find(Serve(db, r).0.rows, token) == Some(i)
  {
    if r.Patch? || r.Delete? {
      var k := MutationShape(db, r);
    }
    FindByTokens(db.rows, Serve(db, r).0.rows, token);
  }

  lemma {:induction false} FoundIsDeleted(db: Database, reqs: seq<Request>, token: string, i: nat)
    requires i < |db.rows| && Find(db.rows, token) == Some(i) && db.rows[i].deletedAt.Some?
    ensures var rows := After(db, reqs).rows;
      Find(rows, token) == Some(i) && i < |rows| && rows[i] == db.rows[i]
  {
    RowsPersist(db, reqs, i);
    if reqs != [] {
      FoundIsDeleted(db, Front(reqs), token, i);
      FindStep(After(db, Front(reqs)), Last(reqs), token, i);
    }
  }

  lemma DeleteMarks(db: Database, d: Request) returns (i: nat)
    requires d.Delete? && Serve(db, d).1.DeletedOk?
    ensures var rows := Serve(db, d).0.rows;
      Find(rows, d.token) == Some(i) && i < |rows| && rows[i].deletedAt.Some?
  {
    i := Find(db.rows, d.token).value;
    FindByTokens(db.rows, Serve(db, d).0.rows, d.token);
  }

  lemma RedirectOfRow(db: Database, r: Request, i: nat)
    requires r.Redirect? && Find(db.rows, r.token) == Some(i) && i < |db.rows|
    ensures Serve(db, r).1 ==
      if DeriveState(SnapshotOf(db.rows[i]), r.now) == Active then Found302(db.rows[i].originalUrl) else LinkGone410
  {
  }

  lemma DeletedRowGone(s: Server, acts: seq<Action>, i: nat, r: Request, t3: real, t4: real)
    requires Coherent(s) && r.Redirect? && Find(s.db.rows, r.token) == Some(i)
    requires i < |s.db.rows| && s.db.rows[i].deletedAt.Some?
    ensures CachedServe(CachedAfter(s, acts), r, t3, t4).1 == LinkGone410
  {
    CacheRefines(s, acts);
    FoundIsDeleted(s.db, RequestsOf(acts), r.token, i);
    RedirectOfRow(After(s.db, RequestsOf(acts)), r, i);
  }

  /** Once a DELETE has succeeded, every later redirect of that token is 410, whatever
      happens in between and whatever the cache held. */
  lemma DeletedStaysGone(s: Server, d: Request, t1: real, t2: real, acts: seq<Action>, r: Request, t3: real, t4: real)
    requires Coherent(s) && d.Delete? && r.Redirect? && r.token == d.token
    requires CachedServe(s, d, t1, t2).1.DeletedOk?
    ensures CachedServe(CachedAfter(CachedServe(s, d, t1, t2).0, acts), r, t3, t4).1 == LinkGone410
  {
    CoherentStep(s, d, t1, t2);
    var i := DeleteMarks(s.db, d);
    DeletedRowGone(CachedServe(s, d, t1, t2).0, acts, i, r, t3, t4);
  }

  /** After its own non-demo owner has sent a DELETE for a link, every later redirect of it is 410. */
  lemma OwnerDeletes(
      s: Server, d: Request, i: nat, t1: real, t2: real, acts: seq<Action>, r: Request, t3: real, t4: real)
    requires Coherent(s) && WellFormed(s.db.rows) && d.Delete? && i < |s.db.rows| && s.db.rows[i].token == d.token
    requires s.db.rows[i].ownerId == Some(d.user.id) && !d.user.isDemo
    requires r.Redirect? && r.token == d.token
    ensures CachedServe(CachedAfter(CachedServe(s, d, t1, t2).0, acts), r, t3, t4).1 == LinkGone410
  {
    CoherentStep(s, d, t1, t2);
    DeleteExact(s.db, d, i);
    DeletedStaysGone(s, d, t1, t2, acts, r, t3, t4);
  }

  lemma PatchShows(db: Database, p: Request) returns (i: nat)
    requires p.Patch? && Serve(db, p).1.Patched?
    ensures var (db', res) := Serve(db, p);
      Find(db'.rows, p.token) == Some(i) && i < |db'.rows| && db'.rows[i] == res.link
  {
    i := Find(db.rows, p.token).value;
    FindByTokens(db.rows, Serve(db, p).0.rows, p.token);
  }

  /** The very next redirect after a successful PATCH answers from the patched row. */
  lemma NextRedirectSeesPatch(s: Server, p: Request, t1: real, t2: real, r: Request, t3: real, t4: real)
    requires Coherent(s) && p.Patch? && r.Redirect? && r.token == p.token
    requires CachedServe(s, p, t1, t2).1.Patched?
    ensures var (s', res) := CachedServe(s, p, t1, t2);
      CachedServe(s', r, t3, t4).1 ==
        if DeriveState(SnapshotOf(res.link), r.now) == Active then Found302(res.link.originalUrl) else LinkGone410
  {
    CoherentStep(s, p, t1, t2);
    var i := PatchShows(s.db, p);
    CoherentStep(CachedServe(s, p, t1, t2).0, r, t3, t4);
    RedirectOfRow(CachedServe(s, p, t1, t2).0.db, r, i);
  }

  /** A new link redirects to its URL until it expires, with no eviction needed then, for as
      long as its owner leaves it alone and whatever everyone else does. */
  lemma CreatedLinkServed(s: Server, c: Request, t1: real, t2: real, acts: seq<Action>, r: Request, t3: real, t4: real)
    requires Coherent(s) && WellFormed(s.db.rows) && c.Create? && CachedServe(s, c, t1, t2).1.Created?
    requires var l := CachedServe(s, c, t1, t2).1.link;
      r.Redirect? && r.token == l.token &&
      forall k :: 0 <= k < |RequestsOf(acts)| ==> !OwnersRequest(l, RequestsOf(acts)[k])
    ensures CachedServe(CachedAfter(CachedServe(s, c, t1, t2).0, acts), r, t3, t4).1 ==
      if c.expiresAt.Some? && c.expiresAt.value <= r.now then LinkGone410 else Found302(c.url.normalized)
  {
    CoherentStep(s, c, t1, t2);
    CreateExact(s.db, c);
    var (s1, res) := CachedServe(s, c, t1, t2);
    CacheRefines(s1, acts);
    OnlyOwnerChanges(s1.db, RequestsOf(acts), |s.db.rows|);
    ServeWellFormed(s.db, c);
    TokensDistinct(s1.db, RequestsOf(acts));
    RedirectExact(After(s1.db, RequestsOf(acts)), r, |s.db.rows|);
  }

  /** A redirect of a token without a row is 404, and neither records nor caches anything. */
  lemma UnknownRedirect(s: Server, r: Request, lookupAt: real, insertAt: real)
    requires Coherent(s) && r.Redirect? && forall i :: 0 <= i < |s.db.rows| ==> s.db.rows[i].token != r.token
    ensures CachedServe(s, r, lookupAt, insertAt) == (s, NotFound404)
  {
    assert Find(s.db.rows, r.token).None?;
    assert r.token !in s.cache;
  }

  /** A redirect that finds its row leaves a live entry of it, whether it had to load or not. */
  lemma RedirectFills(s: Server, r: Request, lookupAt: real, insertAt: real)
    requires Coherent(s) && r.Redirect? && Loaded(s.db, r.token).Some? && lookupAt <= insertAt
    ensures var s' := CachedServe(s, r, lookupAt, insertAt).0;
      r.token in s'.cache && Some(s'.cache[r.token].snapshot) == Loaded(s.db, r.token) &&
      lookupAt < s'.cache[r.token].insertedAt + 300.0 &&
      forall t :: t != r.token ==> (t in s'.cache <==> t in s.cache) && (t in s.cache ==> s'.cache[t] == s.cache[t])
  {
  }

  /** Any other request leaves the entries of other tokens alone, and its own unless it has
      changed that row's deletion or its fields. */
  lemma OthersStayCached(s: Server, r: Request, lookupAt: real, insertAt: real, token: string)
    requires !r.Redirect? && token in s.cache
    requires (r.Patch? || r.Delete?) && r.token == token ==> !Serve(s.db, r).1.Patched? && !Serve(s.db, r).1.DeletedOk?
    ensures var s' := CachedServe(s, r, lookupAt, insertAt).0;
      token in s'.cache && s'.cache[token] == s.cache[token]
  {
  }

  // ---- the object ----

  class LinkServer {
    var rows: seq<Link>
    var scans: seq<Scan>
    var queue: seq<Task>
    const links: LinkCache

    constructor ()
      ensures View() == Server(EMPTY, map[]) && fresh(links)
    {
      rows, scans, queue := [], [], [];
      links := new LinkCache();
    }

    function Db(): Database
      reads this
    {
      Database(rows, scans, queue)
    }

    function View(): Server
      reads this, links
    {
      Server(Db(), links.cache)
    }

    method GetLink(token: string) returns (found: Option<nat>)
      ensures found == Find(rows, token)
    {
      found := None;
      for i := 0 to |rows|
        invariant found == Find(rows[..i], token)
      {
        assert Front(Tokens(rows[..i + 1])) == Tokens(rows[..i]);
        if found.None? && rows[i].token == token {
          found := Some(i);
        }
      }
      assert rows[..|rows|] == rows;
    }

    /** Up to ten inserts under fresh digests; a conflict moves on to the next. */
    method AllocateToken(draft: Link, digests: Digests) returns (created: Option<Link>, inserts: nat)
      modifies this`rows
      ensures inserts <= MAX_RETRIES
      ensures var token := Allocate(old(rows), digests);
        if token.None? then created.None? && rows == old(rows) && inserts == MAX_RETRIES
        else created == Some(draft.(token := token.value)) && rows == old(rows) + [created.value]
    {
      inserts := 0;
      for k := 0 to MAX_RETRIES
        invariant rows == old(rows) && inserts == k
        invariant Allocate(rows, digests) == Allocate(rows, digests[k..])
      {
        var token := Base62.GenerateToken(digests[k]);
        inserts := inserts + 1;
        var taken := GetLink(token);
        if taken.None? {
          created := Some(draft.(token := token));
          rows := rows + [created.value];
          return;
        }
      }
      created := None;
    }

    method CreateQr(r: Request) returns (res: Response)
      requires r.Create?
      modifies this`rows
      ensures (Db(), res) == Serve(old(Db()), r)
    {
      if r.user.isDemo {
        return DemoReadOnly403;
      }
      if r.url.CrashedUrl? {
        return InternalError500;
      }
      if !r.url.GoodUrl? {
        return Invalid422;
      }
      var draft := Link(|rows|, "", r.url.normalized, Some(r.user.id), r.tag, r.now, r.now, r.expiresAt, None);
      var created, _ := AllocateToken(draft, r.digests);
      res := if created.Some? then Created(created.value) else AllocationFailed500;
    }

    method PatchLink(r: Request) returns (res: Response)
      requires r.Patch?
      modifies this`rows, links
      ensures (View(), res) == ServeAndEvict(old(View()), r)
    {
      var i := GetLink(r.token);
      if i.None? {
        return NotFound404;
      }
      var denial := Authorize(rows[i.value].ownerId, r.user);
      if denial.Some? {
        return if denial.value.NotFound? then NotFound404 else DemoReadOnly403;
      }
      if PatchInvalid(r) {
        return Invalid422;
      }
      if r.newUrl == Given(CrashedUrl) {
        return InternalError500;
      }
      var l := rows[i.value];
      if DeriveState(SnapshotOf(l), r.now) == Deleted {
        return LinkDeleted409;
      }
      if r.newUrl.Given? {
        l := l.(originalUrl := r.newUrl.value.normalized);
      }
      if r.newExpiry.Given? {
        l := l.(expiresAt := r.newExpiry.value);
      }
      if r.newTag.Given? {
        l := l.(tag := r.newTag.value);
      }
      l := l.(updatedAt := r.now);
      rows := rows[i.value := l];
      links.Evict(r.token);
      res := Patched(l);
    }

    method DeleteLink(r: Request) returns (res: Response)
      requires r.Delete?
      modifies this`rows, links
      ensures (View(), res) == ServeAndEvict(old(View()), r)
    {
      var i := GetLink(r.token);
      if i.None? {
        return NotFound404;
      }
      var denial := Authorize(rows[i.value].ownerId, r.user);
      if denial.Some? {
        return if denial.value.NotFound? then NotFound404 else DemoReadOnly403;
      }
      if rows[i.value].deletedAt.None? {
        rows := rows[i.value := rows[i.value].(deletedAt := Some(r.now))];
      } else {
        assert rows == rows[i.value := rows[i.value]];
      }
      links.Evict(r.token);
      res := DeletedOk;
    }

    method Redirect(r: Request, lookupAt: real, insertAt: real) returns (res: Response)
      requires r.Redirect?
      modifies this`scans, this`queue, links
      ensures (View(), res) == CachedServe(old(View()), r, lookupAt, insertAt)
    {
      var snapshot := links.Lookup(r.token, lookupAt);
      if snapshot.None? {
        var i := GetLink(r.token);
        if i.None? {
          return NotFound404;
        }
        var inserted := links.Insert(r.token, SnapshotOf(rows[i.value]), insertAt);
        snapshot := Some(inserted);
      }
      if DeriveState(snapshot.value, r.now) != Active {
        scans := scans + [Scan(r.token, r.now, 410, r.visitor)];
        return LinkGone410;
      }
      queue := queue + [Task(r.token, 302, r.visitor)];
      res := Found302(snapshot.value.originalUrl);
    }

    method RecordScanBackground(r: Request) returns (res: Response)
      requires r.RunTask?
      modifies this`scans, this`queue
      ensures (Db(), res) == Serve(old(Db()), r)
    {
      if r.index < |queue| {
        var t := queue[r.index];
        queue := queue[..r.index] + queue[r.index + 1..];
        scans := scans + [Scan(t.token, r.now, t.statusCode, t.visitor)];
      }
      res := NoResponse;
    }
  }
}
