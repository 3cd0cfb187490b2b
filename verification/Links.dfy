/** The link table, the request handlers that change it, and the scans they record: the
    server with no cache, which answers every redirect from the stored row. */
module Links {
  import opened Authorization
  import opened Common
  import Base62

  const MAX_RETRIES: nat := 10

  /** Naive-UTC datetimes, as counts of microseconds. */
  type Time = int

  datatype State = Active | Expired | Deleted

  datatype Link = Link(
    id: nat, token: string, originalUrl: string, ownerId: Option<int>, tag: Option<string>,
    createdAt: Time, updatedAt: Time, expiresAt: Option<Time>, deletedAt: Option<Time>)

  /** The three fields that decide a redirect. */
  datatype Snapshot = Snapshot(originalUrl: string, expiresAt: Option<Time>, deletedAt: Option<Time>)

  function SnapshotOf(l: Link): Snapshot { Snapshot(l.originalUrl, l.expiresAt, l.deletedAt) }

  function DeriveState(s: Snapshot, now: Time): State {
    if s.deletedAt.Some? then Deleted
    else if s.expiresAt.Some? && s.expiresAt.value <= now then Expired
    else Active
  }

  /** A scanner's derived attributes; the raw address and user agent are never stored. */
  datatype Visitor = Visitor(country: Option<string>, subdivision: Option<string>, deviceClass: Option<string>)

  datatype Scan = Scan(token: string, scannedAt: Time, statusCode: int, visitor: Visitor)

  /** A background scan write that has been handed over but has not run yet. */
  datatype Task = Task(token: string, statusCode: int, visitor: Visitor)

  datatype Database = Database(rows: seq<Link>, scans: seq<Scan>, queue: seq<Task>)

  const EMPTY: Database := Database([], [], [])

  /** A PATCH body field: left out, or given (possibly null). */
  datatype Field<T> = Absent | Given(value: T)

  /** The destination of a request body, after validation: what `UrlValidator.Validate` rejects
      is a BadUrl, and a CrashedUrl is one whose malformed port raises an error nobody expects. */
  datatype Url = NullUrl | BadUrl | CrashedUrl | GoodUrl(normalized: string)

  /** One digest per allocation attempt. */
  type Digests = s: seq<nat> | |s| == MAX_RETRIES witness seq(MAX_RETRIES, _ => 0)

  datatype Request =
    | Create(user: User, url: Url, expiresAt: Option<Time>, tag: Option<string>, digests: Digests, now: Time)
    | Patch(token: string, user: User, newUrl: Field<Url>, newExpiry: Field<Option<Time>>,
            newTag: Field<Option<string>>, now: Time)
    | Delete(token: string, user: User, now: Time)
    | Redirect(token: string, visitor: Visitor, now: Time)
    | RunTask(index: nat, now: Time)

  datatype Response =
    | Found302(url: string)
    | Created(link: Link)
    | Patched(link: Link)
    | DeletedOk
    | DemoReadOnly403
    | NotFound404
    | LinkDeleted409
    | LinkGone410
    | Invalid422
    | AllocationFailed500
    | InternalError500
    | NoResponse

  // ---- the table ----

  function Tokens(rows: seq<Link>): (r: seq<string>)
    ensures |r| == |rows| && forall i :: 0 <= i < |rows| ==> r[i] == rows[i].token
  {
    seq(|rows|, i requires 0 <= i < |rows| => rows[i].token)
  }

  /** `get_link`: the first row with that token. */
  function Find(rows: seq<Link>, token: string): (r: Option<nat>)
    ensures r.Some? ==> r.value < |rows| && rows[r.value].token == token
    ensures r.None? <==> forall i :: 0 <= i < |rows| ==> rows[i].token != token
  {
    var keys := Tokens(rows);
    assert forall i :: 0 <= i < |rows| ==> keys[i] in keys;
    IndexOf(keys, token)
  }

  /** Only the tokens matter, and a row appended later does not hide an earlier one. */
  lemma FindByTokens(rows: seq<Link>, rows': seq<Link>, token: string)
    requires |rows| <= |rows'| && forall i :: 0 <= i < |rows| ==> rows[i].token == rows'[i].token
    requires |rows| == |rows'| || (|rows'| == |rows| + 1 && Find(rows, token).Some?)
    ensures Find(rows', token) == Find(rows, token)
  {
    assert Tokens(rows')[..|rows|] == Tokens(rows);
    assert |rows'| == |rows| ==> Tokens(rows') == Tokens(rows);
    assert |rows'| == |rows| + 1 ==> Front(Tokens(rows')) == Tokens(rows);
  }

  /** `allocate_token`: the first attempt whose insert meets no uniqueness conflict. */
  function Allocate(rows: seq<Link>, digests: seq<nat>): Option<string> {
    if digests == [] then None
    else if Find(rows, Base62.TokenOf(digests[0])).None? then Some(Base62.TokenOf(digests[0]))
    else Allocate(rows, digests[1..])
  }

  function WithRow(db: Database, i: nat, l: Link): Database
    requires i < |db.rows|
  {
    db.(rows := db.rows[i := l])
  }

  // ---- the handlers ----

  /** `get_link`, `authorize_owner` and `forbid_if_demo`, in that order. */
  function Refusal(db: Database, token: string, user: User): Option<Response> {
    var i := Find(db.rows, token);
    if i.None? then Some(NotFound404)
    else
      match Authorize(db.rows[i.value].ownerId, user)
      case None => None
      case Some(NotFound) => Some(NotFound404)
      case Some(DemoReadOnly) => Some(DemoReadOnly403)
  }

  function ApplyPatch(l: Link, r: Request): Link
    requires r.Patch? && (r.newUrl.Given? ==> r.newUrl.value.GoodUrl?)
  {
    l.(originalUrl := if r.newUrl.Given? then r.newUrl.value.normalized else l.originalUrl,
       expiresAt := if r.newExpiry.Given? then r.newExpiry.value else l.expiresAt,
       tag := if r.newTag.Given? then r.newTag.value else l.tag,
       updatedAt := r.now)
  }

  predicate PatchInvalid(r: Request)
    requires r.Patch?
  {
    (r.newUrl.Absent? && r.newExpiry.Absent? && r.newTag.Absent?) || r.newUrl in {Given(NullUrl), Given(BadUrl)}
  }

  function ServePatch(db: Database, r: Request): (Database, Response)
    requires r.Patch?
  {
    var refusal := Refusal(db, r.token, r.user);
    if refusal.Some? then (db, refusal.value)
    else if PatchInvalid(r) then (db, Invalid422)
    else if r.newUrl == Given(CrashedUrl) then (db, InternalError500)
    else
      var i := Find(db.rows, r.token).value;
      if DeriveState(SnapshotOf(db.rows[i]), r.now) == Deleted then (db, LinkDeleted409)
      else
        var l := ApplyPatch(db.rows[i], r);
        (WithRow(db, i, l), Patched(l))
  }

  function MarkDeleted(l: Link, now: Time): Link {
    if l.deletedAt.None? then l.(deletedAt := Some(now)) else l
  }

  function ServeDelete(db: Database, r: Request): (Database, Response)
    requires r.Delete?
  {
    var refusal := Refusal(db, r.token, r.user);
    if refusal.Some? then (db, refusal.value)
    else
      var i := Find(db.rows, r.token).value;
      (WithRow(db, i, MarkDeleted(db.rows[i], r.now)), DeletedOk)
  }

  function ServeCreate(db: Database, r: Request): (Database, Response)
    requires r.Create?
  {
    if r.user.isDemo then (db, DemoReadOnly403)
    else if r.url.CrashedUrl? then (db, InternalError500)
    else if !r.url.GoodUrl? then (db, Invalid422)
    else
      var token := Allocate(db.rows, r.digests);
      if token.None? then (db, AllocationFailed500)
      else
        var l :=
          Link(|db.rows|, token.value, r.url.normalized, Some(r.user.id), r.tag, r.now, r.now, r.expiresAt, None);
        (db.(rows := db.rows + [l]), Created(l))
  }

  /** The answer a redirect gives for a known snapshot, and the scan it records:
      a 410 is written at once, a 302 is handed to a background task. */
  function Answer(db: Database, r: Request, s: Snapshot): (Database, Response)
    requires r.Redirect?
  {
    if DeriveState(s, r.now) != Active then
      (db.(scans := db.scans + [Scan(r.token, r.now, 410, r.visitor)]), LinkGone410)
    else
      (db.(queue := db.queue + [Task(r.token, 302, r.visitor)]), Found302(s.originalUrl))
  }

  function ServeRedirect(db: Database, r: Request): (Database, Response)
    requires r.Redirect?
  {
    var i := Find(db.rows, r.token);
    if i.None? then (db, NotFound404) else Answer(db, r, SnapshotOf(db.rows[i.value]))
  }

  function ServeTask(db: Database, r: Request): (Database, Response)
    requires r.RunTask?
  {
    if r.index >= |db.queue| then (db, NoResponse)
    else
      var t := db.queue[r.index];
      (db.(queue := db.queue[..r.index] + db.queue[r.index + 1..],
           scans := db.scans + [Scan(t.token, r.now, t.statusCode, t.visitor)]), NoResponse)
  }

  function Serve(db: Database, r: Request): (Database, Response) {
    if r.Create? then ServeCreate(db, r)
    else if r.Patch? then ServePatch(db, r)
    else if r.Delete? then ServeDelete(db, r)
    else if r.Redirect? then ServeRedirect(db, r)
    else ServeTask(db, r)
  }

  function After(db: Database, reqs: seq<Request>): Database {
    if reqs == [] then db else Serve(After(db, Front(reqs)), Last(reqs)).0
  }

  // ---- token allocation over runs ----

  /** Tokens are pairwise distinct seven-digit Base62 strings, and ids count the rows. */
  ghost predicate WellFormed(rows: seq<Link>) {
    (forall i, j :: 0 <= i < j < |rows| ==> rows[i].token != rows[j].token) &&
    (forall i :: 0 <= i < |rows| ==> |rows[i].token| == 7 && Base62.AllDigits(rows[i].token) && rows[i].id == i)
  }

  /** Digest `k` is the first whose token is free. */
  ghost predicate FirstFree(rows: seq<Link>, digests: seq<nat>, k: nat) {
    k < |digests| && Find(rows, Base62.TokenOf(digests[k])).None? &&
    forall j :: 0 <= j < k ==> Find(rows, Base62.TokenOf(digests[j])).Some?
  }

  lemma {:induction false} AllocateFrom(rows: seq<Link>, digests: seq<nat>, j: nat, k: nat)
    requires FirstFree(rows, digests, k) && j <= k
    ensures Allocate(rows, digests[j..]) == Some(Base62.TokenOf(digests[k]))
    decreases k - j
  {
    var rest := digests[j..];
    assert rest[0] == digests[j] && rest[1..] == digests[j + 1..];
    if j < k {
      AllocateFrom(rows, digests, j + 1, k);
    }
  }

  /** The token is that of the first digest whose token is free. */
  lemma AllocateFirst(rows: seq<Link>, digests: seq<nat>, k: nat)
    requires FirstFree(rows, digests, k)
    ensures Allocate(rows, digests) == Some(Base62.TokenOf(digests[k]))
  {
    AllocateFrom(rows, digests, 0, k);
    assert digests[0..] == digests;
  }

  lemma {:induction false} AllocateFree(rows: seq<Link>, digests: seq<nat>)
    ensures var t := Allocate(rows, digests);
      (t.Some? ==> Find(rows, t.value).None? && |t.value| == 7 && Base62.AllDigits(t.value)) &&
      (t.None? <==> forall k :: 0 <= k < |digests| ==> Find(rows, Base62.TokenOf(digests[k])).Some?)
  {
    if digests != [] {
      Base62.TokenIsTopDigits(digests[0]);
      AllocateFree(rows, digests[1..]);
    }
  }

  /** What no request ever changes about a row. */
  ghost predicate SameIdentity(l: Link, l': Link) {
    l.id == l'.id && l.token == l'.token && l.ownerId == l'.ownerId && l.createdAt == l'.createdAt &&
    (l.deletedAt.Some? ==> l == l')
  }

  lemma RowReplaced(rows: seq<Link>, i: nat, l: Link)
    requires WellFormed(rows) && i < |rows| && SameIdentity(rows[i], l)
    ensures WellFormed(rows[i := l])
  {
  }

  /** A PATCH or DELETE touches at most one row, and keeps that row's identity. */
  lemma MutationShape(db: Database, r: Request) returns (i: nat)
    requires r.Patch? || r.Delete?
    ensures var rows, rows' := db.rows, Serve(db, r).0.rows;
      rows' == rows || (i < |rows| == |rows'| && rows' == rows[i := rows'[i]] && SameIdentity(rows[i], rows'[i]))
  {
    var found := Find(db.rows, r.token);
    i := if found.Some? then found.value else 0;
  }

  lemma RowAppended(rows: seq<Link>, l: Link)
    requires WellFormed(rows) && Find(rows, l.token).None?
    requires |l.token| == 7 && Base62.AllDigits(l.token) && l.id == |rows|
    ensures WellFormed(rows + [l])
  {
  }

  /** A create appends one row under a free token, or nothing. */
  lemma CreateShape(db: Database, r: Request) returns (l: Option<Link>)
    requires r.Create?
    ensures ServeCreate(db, r).0.rows == if l.None? then db.rows else db.rows + [l.value]
    ensures l.Some? ==>
      Find(db.rows, l.value.token).None? && |l.value.token| == 7 && Base62.AllDigits(l.value.token) &&
      l.value.id == |db.rows|
  {
    AllocateFree(db.rows, r.digests);
    var res := ServeCreate(db, r).1;
    l := if res.Created? then Some(res.link) else None;
  }

  lemma CreateWellFormed(db: Database, r: Request)
    requires r.Create? && WellFormed(db.rows)
    ensures WellFormed(ServeCreate(db, r).0.rows)
  {
    var l := CreateShape(db, r);
    if l.Some? {
      RowAppended(db.rows, l.value);
    }
  }

  lemma ServeWellFormed(db: Database, r: Request)
    requires WellFormed(db.rows)
    ensures WellFormed(Serve(db, r).0.rows)
  {
    if r.Create? {
      CreateWellFormed(db, r);
    } else if r.Patch? || r.Delete? {
      var i := MutationShape(db, r);
      var rows := Serve(db, r).0.rows;
      if rows != db.rows {
        RowReplaced(db.rows, i, rows[i]);
      }
    }
  }

  /** Stored tokens stay distinct and well formed in every run. */
  lemma {:induction false} TokensDistinct(db: Database, reqs: seq<Request>)
    requires WellFormed(db.rows)
    ensures WellFormed(After(db, reqs).rows)
  {
    if reqs != [] {
      TokensDistinct(db, Front(reqs));
      ServeWellFormed(After(db, Front(reqs)), Last(reqs));
    }
  }

  /** A create that succeeds adds exactly one row, the caller's, under the returned token; one
      that fails changes nothing, and fails for want of a token only if all ten were taken. */
  lemma CreateExact(db: Database, r: Request)
    requires r.Create?
    ensures var (db', res) := Serve(db, r);
      if res.Created? then
        db' == db.(rows := db.rows + [res.link]) && Find(db.rows, res.link.token).None? &&
        !r.user.isDemo && res.link.ownerId == Some(r.user.id) &&
        r.url.GoodUrl? && res.link.originalUrl == r.url.normalized && res.link.tag == r.tag &&
        res.link.createdAt == res.link.updatedAt == r.now &&
        res.link.expiresAt == r.expiresAt && res.link.deletedAt.None?
      else db' == db
    ensures Serve(db, r).1 == AllocationFailed500 <==>
      !r.user.isDemo && r.url.GoodUrl? && forall k :: 0 <= k < 10 ==> Find(db.rows, Base62.TokenOf(r.digests[k])).Some?
    ensures Serve(db, r).1 == InternalError500 <==> !r.user.isDemo && r.url.CrashedUrl?
    ensures Serve(db, r).1 == DemoReadOnly403 <==> r.user.isDemo
    ensures Serve(db, r).1 == Invalid422 <==> !r.user.isDemo && r.url in {NullUrl, BadUrl}
  {
    AllocateFree(db.rows, r.digests);
  }

  /** The token a create gives out is that of the first of its ten digests that is free. */
  lemma CreateTakesFirst(db: Database, r: Request, k: nat)
    requires r.Create? && !r.user.isDemo && r.url.GoodUrl? && FirstFree(db.rows, r.digests, k)
    ensures Serve(db, r).1.Created? && Serve(db, r).1.link.token == Base62.TokenOf(r.digests[k])
  {
    AllocateFirst(db.rows, r.digests, k);
  }

  lemma FindOnly(rows: seq<Link>, token: string, i: nat)
    requires WellFormed(rows) && i < |rows| && rows[i].token == token
    ensures Find(rows, token) == Some(i)
  {
    var k := Find(rows, token);
    assert k.Some? && !(k.value < i) && !(i < k.value);
  }

  /** What a redirect answers, in terms of the stored row alone. */
  lemma RedirectExact(db: Database, r: Request, i: nat)
    requires r.Redirect? && WellFormed(db.rows) && i < |db.rows| && db.rows[i].token == r.token
    ensures var l, res := db.rows[i], Serve(db, r).1;
      var over := l.deletedAt.Some? || (l.expiresAt.Some? && l.expiresAt.value <= r.now);
      res == if over then LinkGone410 else Found302(l.originalUrl)
  {
    FindOnly(db.rows, r.token, i);
  }

  /** What a PATCH answers: 404 unless the link is the caller's own, then 403 for a demo account,
      422 for a null or bad URL or no field at all, 500 for a URL that crashes the validator,
      409 if the link is deleted. It succeeds otherwise, and only then changes anything. */
  lemma PatchExact(db: Database, r: Request, i: nat)
    requires r.Patch? && WellFormed(db.rows) && i < |db.rows| && db.rows[i].token == r.token
    ensures var l, (db', res) := db.rows[i], Serve(db, r);
      var own := l.ownerId == Some(r.user.id);
      var invalid :=
        (r.newUrl.Absent? && r.newExpiry.Absent? && r.newTag.Absent?) || r.newUrl in {Given(NullUrl), Given(BadUrl)};
      var crashing := r.newUrl == Given(CrashedUrl);
      (res == NotFound404 <==> !own) &&
      (res == DemoReadOnly403 <==> own && r.user.isDemo) &&
      (res == Invalid422 <==> own && !r.user.isDemo && invalid) &&
      (res == InternalError500 <==> own && !r.user.isDemo && crashing) &&
      (res == LinkDeleted409 <==> own && !r.user.isDemo && !invalid && !crashing && l.deletedAt.Some?) &&
      (res.Patched? <==> own && !r.user.isDemo && !invalid && !crashing && l.deletedAt.None?) &&
      (!res.Patched? ==> db' == db)
  {
    FindOnly(db.rows, r.token, i);
  }

  /** For any token, known or not: 404 exactly when the caller owns no link with it. */
  lemma PatchNotFound(db: Database, r: Request)
    requires r.Patch? && WellFormed(db.rows)
    ensures Serve(db, r).1 == NotFound404 <==>
      forall i :: 0 <= i < |db.rows| && db.rows[i].token == r.token ==> db.rows[i].ownerId != Some(r.user.id)
  {
    var found := Find(db.rows, r.token);
    if found.Some? {
      forall i | 0 <= i < |db.rows| && db.rows[i].token == r.token ensures i == found.value {
        FindOnly(db.rows, r.token, i);
      }
      PatchExact(db, r, found.value);
    }
  }

  /** A PATCH that succeeds sets the given fields of its row and the update time, and nothing
      else anywhere. */
  lemma PatchSets(db: Database, r: Request, i: nat)
    requires r.Patch? && WellFormed(db.rows) && i < |db.rows| && db.rows[i].token == r.token
    ensures var l, (db', res) := db.rows[i], Serve(db, r);
      res.Patched? ==>
        db' == db.(rows := db.rows[i := res.link]) && res.link.updatedAt == r.now &&
        (if r.newUrl.Given? then GoodUrl(res.link.originalUrl) == r.newUrl.value
         else res.link.originalUrl == l.originalUrl) &&
        (if r.newExpiry.Given? then res.link.expiresAt == r.newExpiry.value else res.link.expiresAt == l.expiresAt) &&
        (if r.newTag.Given? then res.link.tag == r.newTag.value else res.link.tag == l.tag) &&
        res.link.deletedAt.None? && SameIdentity(l, res.link)
  {
    FindOnly(db.rows, r.token, i);
  }

  /** What a DELETE answers and does: 404 unless the link is the caller's own, 403 for a demo
      account; otherwise it succeeds, and sets the deletion time of a link that has none. */
  lemma DeleteExact(db: Database, r: Request, i: nat)
    requires r.Delete? && WellFormed(db.rows) && i < |db.rows| && db.rows[i].token == r.token
    ensures var l, (db', res) := db.rows[i], Serve(db, r);
      var own := l.ownerId == Some(r.user.id);
      (res == NotFound404 <==> !own) &&
      (res == DemoReadOnly403 <==> own && r.user.isDemo) &&
      (res == DeletedOk <==> own && !r.user.isDemo) &&
      db' == if own && !r.user.isDemo && l.deletedAt.None? then
               db.(rows := db.rows[i := l.(deletedAt := Some(r.now))])
             else db
  {
    FindOnly(db.rows, r.token, i);
    assert db.rows[i := db.rows[i]] == db.rows;
  }

  /** Without a row of that token, PATCH, DELETE and redirect alike answer 404 and do nothing. */
  lemma UnknownToken(db: Database, r: Request)
    requires r.Patch? || r.Delete? || r.Redirect?
    requires forall i :: 0 <= i < |db.rows| ==> db.rows[i].token != r.token
    ensures Serve(db, r) == (db, NotFound404)
  {
    assert Find(db.rows, r.token).None?;
  }

  // ---- link lifecycle over runs ----

  /** A PATCH or DELETE of that row by its own, non-demo owner. */
  predicate OwnersRequest(l: Link, r: Request) {
    (r.Patch? || r.Delete?) && r.token == l.token && l.ownerId == Some(r.user.id) && !r.user.isDemo
  }

  predicate PatchOf(l: Link, r: Request) { r.Patch? && r.token == l.token }

  /** What one request does to one row. */
  ghost predicate RowStep(l: Link, r: Request, l': Link) {
    SameIdentity(l, l') && (!OwnersRequest(l, r) ==> l' == l) &&
    (!PatchOf(l, r) ==> l'.expiresAt == l.expiresAt && (l.deletedAt.Some? ==> l'.deletedAt.Some?))
  }

  lemma ServeRowStep(db: Database, r: Request, i: nat)
    requires i < |db.rows|
    ensures var rows := Serve(db, r).0.rows; i < |rows| && RowStep(db.rows[i], r, rows[i])
  {
  }

  /** Rows are never removed or reordered, keep their identity, and are frozen once deleted. */
  lemma {:induction false} RowsPersist(db: Database, reqs: seq<Request>, i: nat)
    requires i < |db.rows|
    ensures var rows := After(db, reqs).rows;
      i < |rows| && SameIdentity(db.rows[i], rows[i])
  {
    if reqs != [] {
      RowsPersist(db, Front(reqs), i);
      ServeRowStep(After(db, Front(reqs)), Last(reqs), i);
    }
  }

  /** If a row differs after a run, its owner asked for it during that run. */
  lemma {:induction false} OnlyOwnerChanges(db: Database, reqs: seq<Request>, i: nat)
    requires i < |db.rows|
    requires forall k :: 0 <= k < |reqs| ==> !OwnersRequest(db.rows[i], reqs[k])
    ensures i < |After(db, reqs).rows| && After(db, reqs).rows[i] == db.rows[i]
  {
    if reqs != [] {
      OnlyOwnerChanges(db, Front(reqs), i);
      assert !OwnersRequest(db.rows[i], Last(reqs));
      ServeRowStep(After(db, Front(reqs)), Last(reqs), i);
    }
  }

  function Rank(s: State): nat {
    match s case Active => 0 case Expired => 1 case Deleted => 2
  }

  lemma RankGrows(l: Link, l': Link, now: Time, later: Time)
    requires now <= later && l'.expiresAt == l.expiresAt && (l.deletedAt.Some? ==> l'.deletedAt.Some?)
    ensures Rank(DeriveState(SnapshotOf(l), now)) <= Rank(DeriveState(SnapshotOf(l'), later))
  {
  }

  lemma {:induction false} ExpiryKept(db: Database, reqs: seq<Request>, i: nat)
    requires i < |db.rows| && forall k :: 0 <= k < |reqs| ==> !PatchOf(db.rows[i], reqs[k])
    ensures var rows := After(db, reqs).rows;
      i < |rows| && rows[i].expiresAt == db.rows[i].expiresAt && rows[i].token == db.rows[i].token &&
      (db.rows[i].deletedAt.Some? ==> rows[i].deletedAt.Some?)
  {
    if reqs != [] {
      ExpiryKept(db, Front(reqs), i);
      assert !PatchOf(db.rows[i], Last(reqs));
      ServeRowStep(After(db, Front(reqs)), Last(reqs), i);
    }
  }

  /** With no PATCH of the link, its state only moves forward: active, expired, deleted. */
  lemma StateMovesForward(db: Database, reqs: seq<Request>, i: nat, now: Time, later: Time)
    requires i < |db.rows| && now <= later
    requires forall k :: 0 <= k < |reqs| ==> !PatchOf(db.rows[i], reqs[k])
    ensures i < |After(db, reqs).rows|
    ensures Rank(DeriveState(SnapshotOf(db.rows[i]), now)) <=
      Rank(DeriveState(SnapshotOf(After(db, reqs).rows[i]), later))
    ensures After(db, reqs).rows[i].expiresAt == db.rows[i].expiresAt
  {
    ExpiryKept(db, reqs, i);
    RankGrows(db.rows[i], After(db, reqs).rows[i], now, later);
  }

  // ---- scan conservation over runs ----

  predicate ScanOf(s: Scan, token: string, status: int) { s.token == token && s.statusCode == status }

  predicate TaskOf(t: Task, token: string, status: int) { t.token == token && t.statusCode == status }

  function CountScans(scans: seq<Scan>, token: string, status: int): nat {
    if scans == [] then 0 else
      CountScans(Front(scans), token, status) + if ScanOf(Last(scans), token, status) then 1 else 0
  }

  function CountTasks(queue: seq<Task>, token: string, status: int): nat {
    if queue == [] then 0 else
      CountTasks(Front(queue), token, status) + if TaskOf(Last(queue), token, status) then 1 else 0
  }

  /** The status a redirect that found its token was answered with. */
  function StatusOf(res: Response): int {
    if res.Found302? then 302 else if res == LinkGone410 then 410 else 0
  }

  predicate AnsweredWith(db: Database, r: Request, token: string, status: int) {
    r.Redirect? && r.token == token && StatusOf(Serve(db, r).1) == status
  }

  /** Redirects of `token` in the run that were answered with `status`. */
  function Attempts(db: Database, reqs: seq<Request>, token: string, status: int): nat {
    if reqs == [] then 0 else
      Attempts(db, Front(reqs), token, status) +
      if AnsweredWith(After(db, Front(reqs)), Last(reqs), token, status) then 1 else 0
  }

  lemma {:induction false} CountTasksSplit(a: seq<Task>, b: seq<Task>, token: string, status: int)
    ensures CountTasks(a + b, token, status) == CountTasks(a, token, status) + CountTasks(b, token, status)
  {
    if b == [] {
      assert a + b == a;
    } else {
      assert Front(a + b) == a + Front(b);
      CountTasksSplit(a, Front(b), token, status);
    }
  }

  lemma TaskTaken(queue: seq<Task>, k: nat, token: string, status: int)
    requires k < |queue|
    ensures CountTasks(queue, token, status) ==
      CountTasks(queue[..k] + queue[k + 1..], token, status) + if TaskOf(queue[k], token, status) then 1 else 0
  {
    assert queue == queue[..k] + ([queue[k]] + queue[k + 1..]);
    CountTasksSplit(queue[..k], [queue[k]] + queue[k + 1..], token, status);
    CountTasksSplit([queue[k]], queue[k + 1..], token, status);
    CountTasksSplit(queue[..k], queue[k + 1..], token, status);
    assert Front([queue[k]]) == [];
  }

  /** All the records of such redirects: persisted and still queued. */
  function Recorded(db: Database, token: string, status: int): nat {
    CountScans(db.scans, token, status) + CountTasks(db.queue, token, status)
  }

  lemma RedirectRecorded(db: Database, r: Request, token: string, status: int)
    requires r.Redirect? && (status == 302 || status == 410)
    ensures Recorded(ServeRedirect(db, r).0, token, status) ==
      Recorded(db, token, status) + if AnsweredWith(db, r, token, status) then 1 else 0
  {
    var db' := ServeRedirect(db, r).0;
    if db'.scans != db.scans {
      assert Front(db'.scans) == db.scans;
    }
    if db'.queue != db.queue {
      assert Front(db'.queue) == db.queue;
    }
  }

  lemma TaskRecorded(db: Database, r: Request, token: string, status: int)
    requires r.RunTask?
    ensures Recorded(ServeTask(db, r).0, token, status) == Recorded(db, token, status)
  {
    if r.index < |db.queue| {
      assert Front(ServeTask(db, r).0.scans) == db.scans;
      TaskTaken(db.queue, r.index, token, status);
    }
  }

  lemma RecordedStep(db: Database, r: Request, token: string, status: int)
    requires status == 302 || status == 410
    ensures Recorded(Serve(db, r).0, token, status) ==
      Recorded(db, token, status) + if AnsweredWith(db, r, token, status) then 1 else 0
  {
    if r.Redirect? {
      RedirectRecorded(db, r, token, status);
    } else if r.RunTask? {
      TaskRecorded(db, r, token, status);
    }
  }

  /** Every redirect that found its token is recorded exactly once, with the status it was
      answered with: as a persisted scan or as one still queued. */
  lemma {:induction false} ScansConserved(db: Database, reqs: seq<Request>, token: string, status: int)
    requires status == 302 || status == 410
    ensures Recorded(After(db, reqs), token, status) ==
      Recorded(db, token, status) + Attempts(db, reqs, token, status)
  {
    if reqs != [] {
      ScansConserved(db, Front(reqs), token, status);
      RecordedStep(After(db, Front(reqs)), Last(reqs), token, status);
    }
  }

  // ---- what is recorded ----

  /** What a scan says besides its time. */
  datatype Record = Record(token: string, status: int, visitor: Visitor)

  function ScanRecords(scans: seq<Scan>): (r: seq<Record>)
    ensures |r| == |scans|
    ensures forall i :: 0 <= i < |scans| ==> r[i] == Record(scans[i].token, scans[i].statusCode, scans[i].visitor)
  {
    seq(|scans|, i requires 0 <= i < |scans| => Record(scans[i].token, scans[i].statusCode, scans[i].visitor))
  }

  function TaskRecords(queue: seq<Task>): (r: seq<Record>)
    ensures |r| == |queue|
    ensures forall i :: 0 <= i < |queue| ==> r[i] == Record(queue[i].token, queue[i].statusCode, queue[i].visitor)
  {
    seq(|queue|, i requires 0 <= i < |queue| => Record(queue[i].token, queue[i].statusCode, queue[i].visitor))
  }

  /** All records, persisted and queued. */
  function Records(db: Database): multiset<Record> {
    multiset(ScanRecords(db.scans)) + multiset(TaskRecords(db.queue))
  }

  predicate Over(l: Link, now: Time) {
    l.deletedAt.Some? || (l.expiresAt.Some? && l.expiresAt.value <= now)
  }

  /** A redirect that finds its row adds exactly one record, of its own visitor: a scan with this
      instant and 410 if the link is over, and otherwise a queued task with 302. */
  lemma RedirectRecords(db: Database, r: Request, i: nat)
    requires r.Redirect? && WellFormed(db.rows) && i < |db.rows| && db.rows[i].token == r.token
    ensures Serve(db, r).0 ==
      if Over(db.rows[i], r.now) then db.(scans := db.scans + [Scan(r.token, r.now, 410, r.visitor)])
      else db.(queue := db.queue + [Task(r.token, 302, r.visitor)])
  {
    FindOnly(db.rows, r.token, i);
  }

  /** A task that runs leaves the queue and becomes one scan, made now and otherwise unchanged. */
  lemma TaskPersists(db: Database, r: Request)
    requires r.RunTask?
    ensures Serve(db, r) ==
      if r.index < |db.queue| then
        var t := db.queue[r.index];
        (Database(db.rows, db.scans + [Scan(t.token, r.now, t.statusCode, t.visitor)],
                  db.queue[..r.index] + db.queue[r.index + 1..]), NoResponse)
      else (db, NoResponse)
  {
  }

  /** The record a request leaves: a redirect's, if a row has its token. */
  function RecordOf(rows: seq<Link>, r: Request): multiset<Record> {
    if !r.Redirect? || Find(rows, r.token).None? then multiset{}
    else multiset{Record(r.token, if Over(rows[Find(rows, r.token).value], r.now) then 410 else 302, r.visitor)}
  }

  /** The records a run's redirects should leave. */
  function RedirectsOf(db: Database, reqs: seq<Request>): multiset<Record> {
    if reqs == [] then multiset{}
    else RedirectsOf(db, Front(reqs)) + RecordOf(After(db, Front(reqs)).rows, Last(reqs))
  }

  lemma TaskRecordTaken(queue: seq<Task>, k: nat, record: Record)
    requires k < |queue| && record == Record(queue[k].token, queue[k].statusCode, queue[k].visitor)
    ensures multiset(TaskRecords(queue)) == multiset(TaskRecords(queue[..k] + queue[k + 1..])) + multiset{record}
  {
    var all := TaskRecords(queue);
    assert all == all[..k] + ([record] + all[k + 1..]);
    assert TaskRecords(queue[..k] + queue[k + 1..]) == all[..k] + all[k + 1..];
  }

  lemma ScanAppended(scans: seq<Scan>, s: Scan, record: Record)
    requires record == Record(s.token, s.statusCode, s.visitor)
    ensures multiset(ScanRecords(scans + [s])) == multiset(ScanRecords(scans)) + multiset{record}
  {
    assert ScanRecords(scans + [s]) == ScanRecords(scans) + [record];
  }

  lemma TaskAppended(queue: seq<Task>, t: Task, record: Record)
    requires record == Record(t.token, t.statusCode, t.visitor)
    ensures multiset(TaskRecords(queue + [t])) == multiset(TaskRecords(queue)) + multiset{record}
  {
    assert TaskRecords(queue + [t]) == TaskRecords(queue) + [record];
  }

  lemma RedirectLeaves(db: Database, r: Request)
    requires r.Redirect?
    ensures Records(ServeRedirect(db, r).0) == Records(db) + RecordOf(db.rows, r)
  {
    ScanAppended(db.scans, Scan(r.token, r.now, 410, r.visitor), Record(r.token, 410, r.visitor));
    TaskAppended(db.queue, Task(r.token, 302, r.visitor), Record(r.token, 302, r.visitor));
  }

  lemma TaskLeaves(db: Database, r: Request)
    requires r.RunTask?
    ensures Records(ServeTask(db, r).0) == Records(db)
  {
    if r.index < |db.queue| {
      var t := db.queue[r.index];
      var record := Record(t.token, t.statusCode, t.visitor);
      ScanAppended(db.scans, Scan(t.token, r.now, t.statusCode, t.visitor), record);
      TaskRecordTaken(db.queue, r.index, record);
    }
  }

  lemma OthersLeave(db: Database, r: Request)
    requires !r.Redirect? && !r.RunTask?
    ensures Serve(db, r).0.scans == db.scans && Serve(db, r).0.queue == db.queue
  {
  }

  lemma RequestLeaves(db: Database, r: Request)
    ensures Records(Serve(db, r).0) == Records(db) + RecordOf(db.rows, r)
  {
    if r.Redirect? {
      RedirectLeaves(db, r);
    } else if r.RunTask? {
      TaskLeaves(db, r);
    } else {
      OthersLeave(db, r);
    }
  }

  /** In every run, what is persisted and queued together is exactly the records of the redirects
      that found their token: token, status and visitor, each as often as it happened. */
  lemma {:induction false} RecordsConserved(db: Database, reqs: seq<Request>)
    ensures Records(After(db, reqs)) == Records(db) + RedirectsOf(db, reqs)
  {
    if reqs != [] {
      RecordsConserved(db, Front(reqs));
      RequestLeaves(After(db, Front(reqs)), Last(reqs));
    }
  }
}
