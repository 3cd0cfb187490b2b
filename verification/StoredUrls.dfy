/** What validation stores, taken apart and validated again. */
module StoredUrls {
  import opened Common
  import opened UrlText
  import opened UrlValidator

  // ---- what the libraries are relied on for ----

  /** A name as IDNA gives it. */
  predicate PlainName(s: string) {
    s != "" && forall i :: 0 <= i < |s| ==> 'a' <= s[i] <= 'z' || Digit(s[i]) || s[i] in {'-', '.'}
  }

  /** Case does not matter to addresses, an address in brackets has a colon or is of the "v1."
      form, and IDNA gives names of lower-case letters, digits, hyphens and dots. */
  ghost predicate Sound(lib: Library) {
    (forall h :: lib.isAddress(h) == lib.isAddress(Lower(h)) && lib.isInternal(h) == lib.isInternal(Lower(h))) &&
    (forall h :: lib.bracketHost(h) ==> lib.bracketHost(Lower(h)) && (':' in h || (h != "" && h[0] == 'v'))) &&
    (forall h :: lib.idna(h).Some? ==> PlainName(lib.idna(h).value))
  }

  /** A library that knows no addresses and encodes no names. */
  function NoAddresses(): Library { Library(_ => false, _ => false, _ => false, _ => true, _ => None) }

  lemma NoAddressesSound()
    ensures Sound(NoAddresses())
  {
  }

  /** A stored host that a pass refuses. */
  predicate Refused(lib: Library, host: string) {
    IsLocal(host) || (lib.isAddress(host) && lib.isInternal(host))
  }

  ghost predicate StorableHost(lib: Library, h: string) {
    h != "" && Lower(h) == h && (lib.isAddress(h) || Ascii(h)) && Free(h, DELIMITERS + {'@'}) &&
    if ':' in h then ']' !in h else h[0] != '['
  }

  ghost predicate StorableUser(a: Authority) {
    Free(a.username, DELIMITERS + {':'}) && Free(a.password, DELIMITERS) &&
    (a.username == "" ==> a.password == "")
  }

  predicate StorablePort(port: nat) { port <= MAX_PORT && port != 80 && port != 443 }

  /** What the parts of every stored URL satisfy. */
  ghost predicate Storable(lib: Library, a: Authority, path: string, query: string) {
    StorableUser(a) && StorableHost(lib, a.host) && StorablePort(a.port) &&
    Rooted(path) && Free(path, PATH_ENDS) && Free(query, QUERY_ENDS) && QueryString.Canonical(query) == query
  }

  // ---- a stored authority comes apart into its parts ----

  lemma {:induction false} DecimalNumber(n: nat)
    ensures AllDigits(Decimal(n)) && Number(Decimal(n)) == n && Decimal(n) != ""
  {
    var last := ['0' + (n % 10) as char];
    if n < 10 {
      assert Decimal(n) == last && Front(last) == "";
    } else {
      DecimalNumber(n / 10);
      assert Front(Decimal(n)) == Decimal(n / 10);
    }
  }

  predicate PortChars(s: string) { forall i :: 0 <= i < |s| ==> Digit(s[i]) || s[i] == ':' }

  lemma PortCharsFree(s: string)
    requires PortChars(s)
    ensures Free(s, DELIMITERS + {'@', '[', ']'})
  {
  }

  lemma PortSuffixDigits(port: nat)
    ensures PortChars(PortSuffix(port)) && Free(PortSuffix(port), DELIMITERS + {'@', '[', ']'})
  {
    DecimalNumber(port);
    assert PortChars(PortSuffix(port));
    PortCharsFree(PortSuffix(port));
  }

  lemma PortSuffixFacts(port: nat)
    requires StorablePort(port)
    ensures var text := After(PortSuffix(port), ':');
      !MalformedPort(text) && NormalPort(text) == port
    ensures PortSuffix(port) == "" || PortSuffix(port)[0] == ':'
  {
    DecimalNumber(port);
    if port == 0 {
      NoPartition("", ':');
    } else {
      assert PortSuffix(port) == "" + [':'] + Decimal(port);
      Partition("", ':', Decimal(port));
    }
  }

  /** "[host]" and a port suffix. */
  lemma BracketedApart(host: string, port: string)
    requires ']' !in host
    ensures var h := "[" + host + "]" + port;
      RawHost(h) == host && PortText(h) == After(port, ':')
  {
    var h, rest := "[" + host + "]" + port, host + [']'] + port;
    assert h == "" + ['['] + rest && h[0] == '[';
    Partition("", '[', rest);
    Partition(host, ']', port);
  }

  /** "host" and a port suffix. */
  lemma PlainApart(host: string, port: string)
    requires '[' !in host && ':' !in host && '[' !in port && (port == "" || port[0] == ':')
    ensures RawHost(host + port) == host && PortText(host + port) == After(port, ':')
  {
    if port == "" {
      assert host + port == host;
      NoPartition(host, ':');
      NoPartition("", ':');
    } else {
      assert host + port == host + [':'] + port[1..] && port == "" + [':'] + port[1..];
      Partition(host, ':', port[1..]);
      Partition("", ':', port[1..]);
    }
  }

  lemma UserTextApart(a: Authority, user: string)
    requires ':' !in a.username && user == a.username + if a.password == "" then "" else ":" + a.password
    ensures Before(user, ':') == a.username && After(user, ':') == a.password
  {
    if a.password == "" {
      assert user == a.username;
      NoPartition(a.username, ':');
    } else {
      assert user == a.username + [':'] + a.password;
      Partition(a.username, ':', a.password);
    }
  }

  lemma AtApart(user: string, hostText: string)
    requires '@' !in hostText
    ensures HostInfo(user + "@" + hostText) == hostText && UserInfo(user + "@" + hostText) == user
  {
    var n := user + "@" + hostText;
    SinceLastAt(user + "@", '@', hostText);
    assert n[|n| - |hostText|..] == hostText;
    assert n[..|n| - |hostText| - 1] == user;
  }

  lemma NoAtApart(hostText: string)
    requires '@' !in hostText
    ensures HostInfo(hostText) == hostText && UserInfo(hostText) == ""
  {
    assert "" + hostText == hostText;
    SinceLastAt("", '@', hostText);
    assert hostText[0..] == hostText;
  }

  /** Everything before the last '@' is user information. */
  lemma UserApart(a: Authority, hostText: string)
    requires StorableUser(a) && '@' !in hostText
    ensures HostInfo(UserText(a) + hostText) == hostText
    ensures var user := UserInfo(UserText(a) + hostText);
      Before(user, ':') == a.username && (a.username != "" ==> After(user, ':') == a.password)
  {
    if a.username == "" {
      assert UserText(a) + hostText == hostText;
      NoAtApart(hostText);
      NoPartition("", ':');
    } else {
      var user := a.username + if a.password == "" then "" else ":" + a.password;
      assert UserText(a) == user + "@";
      AtApart(user, hostText);
      UserTextApart(a, user);
    }
  }

  lemma HostTextFree(lib: Library, a: Authority)
    requires StorableHost(lib, a.host)
    ensures Free(HostText(a), DELIMITERS + {'@'})
  {
    PortSuffixDigits(a.port);
    FreeLess(PortSuffix(a.port), DELIMITERS + {'@', '[', ']'}, DELIMITERS + {'@'});
    if ':' in a.host {
      FreeAppend("[", a.host, DELIMITERS + {'@'});
      FreeAppend("[" + a.host, "]", DELIMITERS + {'@'});
      FreeAppend("[" + a.host + "]", PortSuffix(a.port), DELIMITERS + {'@'});
    } else {
      FreeAppend(a.host, PortSuffix(a.port), DELIMITERS + {'@'});
    }
  }

  /** Without a colon, an accepted stored host has no bracket either. */
  lemma NoStrayBracket(lib: Library, a: Authority)
    requires StorableHost(lib, a.host) && ':' !in a.host && HostInfo(Netloc(a)) == HostText(a)
    requires Accepted(lib, Netloc(a)) && '[' !in PortSuffix(a.port)
    ensures '[' !in a.host
  {
    assert HostText(a) == a.host + PortSuffix(a.port);
    assert Netloc(a) == UserText(a) + HostText(a);
    assert HostText(a)[0] == a.host[0];
    assert forall c :: c in a.host ==> c in HostText(a);
    assert forall c :: c in HostText(a) ==> c in Netloc(a);
  }

  lemma HostApart(lib: Library, a: Authority)
    requires StorableHost(lib, a.host) && StorablePort(a.port)
    requires HostInfo(Netloc(a)) == HostText(a) && Accepted(lib, Netloc(a))
    ensures RawHost(HostText(a)) == a.host && PortText(HostText(a)) == After(PortSuffix(a.port), ':')
  {
    PortSuffixFacts(a.port);
    PortSuffixDigits(a.port);
    if ':' in a.host {
      BracketedApart(a.host, PortSuffix(a.port));
    } else {
      NoStrayBracket(lib, a);
      PlainApart(a.host, PortSuffix(a.port));
    }
  }

  lemma LowerFirstOfLower(s: string, n: nat)
    requires Lower(s) == s
    ensures LowerFirst(s, n) == s
  {
    assert forall i :: 0 <= i < |s| ==> LowerFirst(s, n)[i] == Lower(s)[i];
  }

  /** The next pass reads off a stored authority what the last one put into it. */
  lemma NetlocApart(lib: Library, a: Authority)
    requires StorableUser(a) && StorableHost(lib, a.host) && StorablePort(a.port)
    requires Accepted(lib, Netloc(a))
    ensures var netloc := Netloc(a);
      HostName(netloc) == a.host && !MalformedPort(PortText(HostInfo(netloc))) &&
      NormalAuthority(netloc, a.host) == a
  {
    HostTextFree(lib, a);
    UserApart(a, HostText(a));
    HostApart(lib, a);
    PortSuffixFacts(a.port);
    LowerFirstOfLower(a.host, Until(a.host, {'%'}));
  }

  // ---- one pass over a stored URL ----

  lemma StoredHostNormal(lib: Library, h: string)
    requires StorableHost(lib, h)
    ensures NormalHost(lib, h) == if Refused(lib, h) then None else Some(h)
  {
  }

  lemma UserTextFree(a: Authority, stop: set<char>)
    requires Free(a.username, stop) && Free(a.password, stop) && ':' !in stop && '@' !in stop
    ensures Free(UserText(a), stop)
  {
    if a.username != "" {
      var tail := if a.password == "" then "" else ":" + a.password;
      FreeAppend(":", a.password, stop);
      FreeAppend(a.username, tail, stop);
      FreeAppend(a.username + tail, "@", stop);
    }
  }

  lemma NetlocFree(lib: Library, a: Authority)
    requires StorableUser(a) && StorableHost(lib, a.host)
    ensures Free(Netloc(a), DELIMITERS)
  {
    FreeLess(a.username, DELIMITERS + {':'}, DELIMITERS);
    UserTextFree(a, DELIMITERS);
    HostTextFree(lib, a);
    FreeLess(HostText(a), DELIMITERS + {'@'}, DELIMITERS);
    FreeAppend(UserText(a), HostText(a), DELIMITERS);
  }

  lemma PathPartsFree(path: string, stop: set<char>)
    requires Free(path, stop)
    ensures Free(PathOf(path), stop) && Free(ParamsOf(path), stop)
  {
  }

  lemma NormalPathFree(p: string, stop: set<char>)
    requires Free(p, stop) && '/' !in stop
    ensures Free(NormalPath(p), stop)
  {
    if p != "" {
      NormalPathFacts(p);
    }
  }

  lemma GlueFree(p: string, params: string, stop: set<char>)
    requires Free(p, stop) && Free(params, stop) && '/' !in stop && ';' !in stop
    ensures Free(Glue(p, params), stop)
  {
    var tail := if params == "" then "" else ";" + params;
    FreeAppend(";", params, stop);
    FreeAppend(p, tail, stop);
    FreeAppend("/", p + tail, stop);
  }

  lemma RewriteFree(path: string, stop: set<char>)
    requires Free(path, stop) && '/' !in stop && ';' !in stop
    ensures Free(RewritePath(path), stop)
  {
    PathPartsFree(path, stop);
    NormalPathFree(PathOf(path), stop);
    GlueFree(NormalPath(PathOf(path)), ParamsOf(path), stop);
  }

  lemma PathCharacters()
    ensures '/' !in PATH_ENDS && ';' !in PATH_ENDS
  {
  }

  lemma RewriteStorable(lib: Library, a: Authority, path: string, query: string)
    requires Storable(lib, a, path, query)
    ensures Storable(lib, a, RewritePath(path), query)
  {
    RewriteShrinks(path);
    PathCharacters();
    RewriteFree(path, PATH_ENDS);
  }

  lemma JudgeParts(lib: Library, p: Parts, a: Authority)
    requires p.scheme == "https" && QueryString.Canonical(p.query) == p.query
    requires Accepted(lib, p.netloc) ==>
      HostName(p.netloc) == a.host && !MalformedPort(PortText(HostInfo(p.netloc))) &&
      NormalAuthority(p.netloc, a.host) == a
    requires NormalHost(lib, a.host) == if Refused(lib, a.host) then None else Some(a.host)
    ensures Judge(lib, p) ==
      if !Accepted(lib, p.netloc) || Refused(lib, a.host) then Rejected
      else Ok(Stored(a, RewritePath(p.path), p.query))
  {
  }

  lemma ValidateSplit(lib: Library, url: string, p: Parts)
    requires SplitUrl(url) == p
    ensures Validate(lib, url) == if |url| > MAX_URL_LENGTH then Rejected else Judge(lib, p)
  {
  }

  /** A pass over a stored URL refuses it or rewrites its path, and nothing else. */
  lemma PassOnStored(lib: Library, a: Authority, path: string, query: string)
    requires Storable(lib, a, path, query)
    ensures Validate(lib, Stored(a, path, query)) ==
      if |Stored(a, path, query)| > MAX_URL_LENGTH || !Accepted(lib, Netloc(a)) || Refused(lib, a.host) then Rejected
      else Ok(Stored(a, RewritePath(path), query))
  {
    NetlocFree(lib, a);
    SplitUrlOf(Netloc(a), path, query);
    StoredHostNormal(lib, a.host);
    if Accepted(lib, Netloc(a)) {
      NetlocApart(lib, a);
    }
    JudgeParts(lib, Parts("https", Netloc(a), path, query), a);
    ValidateSplit(lib, Stored(a, path, query), Parts("https", Netloc(a), path, query));
  }

  // ---- what a first pass stores ----

  lemma LowerKeepsFree(s: string, stop: set<char>)
    requires Free(s, stop) && forall c :: c in stop ==> !Letter(c)
    ensures Free(Lower(s), stop)
    ensures forall c :: !Letter(c) ==> (c in s <==> c in Lower(s))
  {
    forall i | 0 <= i < |s| ensures Lower(s)[i] == s[i] || Letter(Lower(s)[i]) {
    }
    forall c | !Letter(c) && c in s ensures c in Lower(s) {
      var i :| 0 <= i < |s| && s[i] == c;
      assert Lower(s)[i] == c;
    }
  }

  lemma NoLetters()
    ensures forall c :: c in DELIMITERS + {'@'} ==> !Letter(c)
    ensures !Letter(':') && !Letter('[') && !Letter(']')
  {
  }

  lemma HostInfoFree(netloc: string)
    requires Free(netloc, DELIMITERS)
    ensures Free(HostInfo(netloc), DELIMITERS + {'@'}) && Free(UserInfo(netloc), DELIMITERS)
  {
  }

  lemma RawHostFree(hostInfo: string)
    requires Free(hostInfo, DELIMITERS + {'@'})
    ensures var raw := RawHost(hostInfo);
      Free(raw, DELIMITERS + {'@'}) && (if '[' in hostInfo then ']' !in raw else '[' !in raw && ':' !in raw)
  {
    if '[' in hostInfo {
      FreeBefore(hostInfo, '[', DELIMITERS + {'@'});
      FreeBefore(After(hostInfo, '['), ']', DELIMITERS + {'@'});
    } else {
      FreeBefore(hostInfo, ':', DELIMITERS + {'@'});
    }
  }

  lemma LowerTwice(s: string)
    ensures Lower(Lower(s)) == Lower(s) && (Ascii(s) ==> Ascii(Lower(s)))
  {
  }

  /** A name or address in lower case can be stored. */
  lemma LowerStorable(lib: Library, netloc: string, host: string)
    requires Sound(lib) && Accepted(lib, netloc) && Free(netloc, DELIMITERS)
    requires host != "" && Lower(host) == Lower(RawHost(HostInfo(netloc)))
    requires lib.isAddress(host) || Ascii(host)
    ensures StorableHost(lib, Lower(host))
  {
    var raw, h := RawHost(HostInfo(netloc)), Lower(host);
    HostInfoFree(netloc);
    RawHostFree(HostInfo(netloc));
    NoLetters();
    LowerKeepsFree(raw, DELIMITERS + {'@'});
    LowerTwice(host);
    assert forall c :: c in HostInfo(netloc) ==> c in netloc;
    assert h[0] == LowerChar(raw[0]);
  }

  lemma PlainNameStorable(lib: Library, h: string)
    requires PlainName(h)
    ensures StorableHost(lib, h)
  {
    assert Lower(h) == h;
  }

  lemma LowerFirstSame(s: string, n: nat)
    ensures Lower(LowerFirst(s, n)) == Lower(s)
  {
    assert forall i :: 0 <= i < |s| ==> Lower(LowerFirst(s, n))[i] == Lower(s)[i];
  }

  lemma HostNameLower(netloc: string)
    ensures Lower(HostName(netloc)) == Lower(RawHost(HostInfo(netloc)))
  {
    var raw := RawHost(HostInfo(netloc));
    LowerFirstSame(raw, Until(raw, {'%'}));
  }

  lemma SomeHost(netloc: string)
    requires HostName(netloc) != ""
    ensures netloc != ""
  {
  }

  lemma NormalHostStorable(lib: Library, netloc: string)
    requires Sound(lib) && Accepted(lib, netloc) && Free(netloc, DELIMITERS)
    requires NormalHost(lib, HostName(netloc)).Some?
    ensures StorableHost(lib, NormalHost(lib, HostName(netloc)).value) && netloc != ""
  {
    var host := HostName(netloc);
    HostNameLower(netloc);
    SomeHost(netloc);
    if lib.isAddress(host) || Ascii(host) {
      LowerStorable(lib, netloc, host);
    } else {
      PlainNameStorable(lib, lib.idna(host).value);
    }
  }

  lemma NormalAuthorityStorable(netloc: string, host: string)
    requires Free(netloc, DELIMITERS) && !MalformedPort(PortText(HostInfo(netloc)))
    ensures StorableUser(NormalAuthority(netloc, host)) && StorablePort(NormalAuthority(netloc, host).port)
  {
    HostInfoFree(netloc);
    FreeBefore(UserInfo(netloc), ':', DELIMITERS);
  }

  lemma PlainFree(q: string)
    requires QueryString.Plain(q)
    ensures Free(q, QUERY_ENDS)
  {
  }

  lemma CanonicalStorable(query: string)
    ensures var q := QueryString.Canonical(query);
      Free(q, QUERY_ENDS) && QueryString.Canonical(q) == q
  {
    QueryString.CanonicalPlain(query);
    PlainFree(QueryString.Canonical(query));
    QueryString.CanonicalIdempotent(query);
  }

  /** What the parts `p` of a URL are stored as. */
  ghost predicate StoredAs(lib: Library, p: Parts, a: Authority, path: string, query: string) {
    var host := NormalHost(lib, HostName(p.netloc));
    host.Some? && !MalformedPort(PortText(HostInfo(p.netloc))) && a == NormalAuthority(p.netloc, host.value) &&
    path == RewritePath(p.path) && query == QueryString.Canonical(p.query)
  }

  lemma StoredAsStorable(lib: Library, p: Parts, a: Authority, path: string, query: string)
    requires Sound(lib) && Accepted(lib, p.netloc) && StoredAs(lib, p, a, path, query)
    requires Free(p.netloc, DELIMITERS) && Free(p.path, PATH_ENDS)
    requires p.netloc != "" ==> Rooted(p.path)
    ensures Storable(lib, a, path, query)
  {
    NormalHostStorable(lib, p.netloc);
    NormalAuthorityStorable(p.netloc, a.host);
    RewriteShrinks(p.path);
    PathCharacters();
    RewriteFree(p.path, PATH_ENDS);
    CanonicalStorable(p.query);
  }

  lemma Taken(lib: Library, url: string, p: Parts) returns (a: Authority, path: string, query: string)
    requires Validate(lib, url).Ok? && p == SplitUrl(url)
    ensures Accepted(lib, p.netloc) && StoredAs(lib, p, a, path, query)
    ensures Validate(lib, url) == Ok(Stored(a, path, query))
  {
    a := NormalAuthority(p.netloc, NormalHost(lib, HostName(p.netloc)).value);
    path, query := RewritePath(p.path), QueryString.Canonical(p.query);
  }

  /** The parts a first pass stores. */
  lemma FirstPass(lib: Library, url: string) returns (a: Authority, path: string, query: string)
    requires Sound(lib) && Validate(lib, url).Ok?
    ensures Accepted(lib, SplitUrl(url).netloc) && Free(SplitUrl(url).netloc, DELIMITERS)
    ensures StoredAs(lib, SplitUrl(url), a, path, query) && Storable(lib, a, path, query)
    ensures Validate(lib, url) == Ok(Stored(a, path, query))
  {
    SplitUrlFree(url);
    a, path, query := Taken(lib, url, SplitUrl(url));
    StoredAsStorable(lib, SplitUrl(url), a, path, query);
  }

  /** User information, and the port unless it is a default or 0. */
  ghost predicate KeptAuthority(p: Parts, q: Parts) {
    var user, user' := UserInfo(p.netloc), UserInfo(q.netloc);
    var port, port' := PortText(HostInfo(p.netloc)), PortText(HostInfo(q.netloc));
    Before(user', ':') == Before(user, ':') &&
    (Before(user, ':') != "" ==> After(user', ':') == After(user, ':')) &&
    !MalformedPort(port) && !MalformedPort(port') &&
    NormalPort(port') == if Number(port) in {80, 443} then 0 else Number(port)
  }

  lemma AuthorityKept(lib: Library, p: Parts, a: Authority, q: Parts)
    requires StorableUser(a) && StorableHost(lib, a.host) && StorablePort(a.port) && Accepted(lib, Netloc(a))
    requires !MalformedPort(PortText(HostInfo(p.netloc))) && a == NormalAuthority(p.netloc, a.host)
    requires q.netloc == Netloc(a)
    ensures HostName(q.netloc) == a.host && KeptAuthority(p, q)
  {
    HostTextFree(lib, a);
    UserApart(a, HostText(a));
    NetlocApart(lib, a);
  }

  /** What storing keeps of the parts: the host in lower case, user information, a port unless it
      is a default or 0, and the query's pairs; the scheme is https. */
  ghost predicate KeptParts(p: Parts, q: Parts) {
    q.scheme == "https" && KeptAuthority(p, q) && q.path == RewritePath(p.path) &&
    (Ascii(HostName(p.netloc)) ==> HostName(q.netloc) == Lower(HostName(p.netloc))) &&
    multiset(QueryString.Parse(q.query)) == multiset(QueryString.Parse(p.query))
  }

  lemma NameKept(lib: Library, p: Parts, a: Authority, path: string, query: string)
    requires StoredAs(lib, p, a, path, query) && Ascii(HostName(p.netloc))
    ensures a.host == Lower(HostName(p.netloc))
  {
  }

  lemma PartsKeptFrom(p: Parts, q: Parts, query: string)
    requires q.scheme == "https" && KeptAuthority(p, q) && q.path == RewritePath(p.path)
    requires Ascii(HostName(p.netloc)) ==> HostName(q.netloc) == Lower(HostName(p.netloc))
    requires q.query == query && multiset(QueryString.Parse(query)) == multiset(QueryString.Parse(p.query))
    ensures KeptParts(p, q)
  {
  }

  lemma PartsKept(lib: Library, p: Parts, a: Authority, path: string, query: string, q: Parts)
    requires StoredAs(lib, p, a, path, query) && Storable(lib, a, path, query) && Accepted(lib, Netloc(a))
    requires q == Parts("https", Netloc(a), path, query)
    ensures KeptParts(p, q)
  {
    AuthorityKept(lib, p, a, q);
    QueryString.CanonicalIdempotent(p.query);
    if Ascii(HostName(p.netloc)) {
      NameKept(lib, p, a, path, query);
    }
    PartsKeptFrom(p, q, query);
  }

  lemma StoredSplit(lib: Library, a: Authority, path: string, query: string)
    requires Storable(lib, a, path, query)
    ensures SplitUrl(Stored(a, path, query)) == Parts("https", Netloc(a), path, query)
  {
    NetlocFree(lib, a);
    SplitUrlOf(Netloc(a), path, query);
  }

  /** What one pass keeps, reading its input and its output in the same way. */
  lemma NormaliseKeeps(lib: Library, url: string)
    requires Sound(lib) && Validate(lib, url).Ok?
    requires Accepted(lib, SplitUrl(Validate(lib, url).url).netloc)
    ensures KeptParts(SplitUrl(url), SplitUrl(Validate(lib, url).url))
  {
    var a, path, query := FirstPass(lib, url);
    StoredSplit(lib, a, path, query);
    PartsKept(lib, SplitUrl(url), a, path, query, Parts("https", Netloc(a), path, query));
  }

  /** An international name is stored as IDNA gives it. */
  lemma InternationalKept(lib: Library, url: string)
    requires Sound(lib) && Validate(lib, url).Ok?
    requires Accepted(lib, SplitUrl(Validate(lib, url).url).netloc)
    requires var host := HostName(SplitUrl(url).netloc); !Ascii(host) && !lib.isAddress(host)
    ensures lib.idna(HostName(SplitUrl(url).netloc)) == Some(HostName(SplitUrl(Validate(lib, url).url).netloc))
  {
    var a, path, query := FirstPass(lib, url);
    StoredSplit(lib, a, path, query);
    AuthorityKept(lib, SplitUrl(url), a, Parts("https", Netloc(a), path, query));
  }

  // ---- normalising a normalised URL ----

  lemma StoredLengths(a: Authority, path: string, path': string, query: string)
    ensures |Stored(a, path', query)| - |Stored(a, path, query)| == |path'| - |path|
    ensures Stored(a, path', query) == Stored(a, path, query) ==> path' == path
  {
    var n := |"https://" + Netloc(a)|;
    assert forall t :: t == path || t == path' ==> Stored(a, t, query)[n..] == WithQuery(t, query);
    assert |path| == |path'| ==> WithQuery(path, query)[..|path|] == path && WithQuery(path', query)[..|path|] == path';
  }

  lemma StoredAgain(lib: Library, a: Authority, path: string, query: string)
    requires Storable(lib, a, path, query)
    ensures var text := Stored(a, path, query);
      var p := SplitUrl(text);
      var taken := |text| <= 2048 && Accepted(lib, p.netloc) && !Refused(lib, HostName(p.netloc));
      p == Parts("https", Netloc(a), path, query) &&
      (Validate(lib, text) == Ok(text) <==> taken && Settled(path)) &&
      (Validate(lib, text) == Rejected <==> !taken) && !Validate(lib, text).Crashed?
  {
    NetlocFree(lib, a);
    SplitUrlOf(Netloc(a), path, query);
    PassOnStored(lib, a, path, query);
    RewriteShrinks(path);
    StoredLengths(a, path, RewritePath(path), query);
    if Accepted(lib, Netloc(a)) {
      NetlocApart(lib, a);
    }
  }

  /** A stored URL is its own canonical form exactly when it is within the length cap, its
      authority is one urlsplit takes, its host is not refused and its path is settled; it is
      rejected exactly when one of the first three fails, and never crashes. */
  lemma SecondPass(lib: Library, url: string)
    requires Sound(lib) && Validate(lib, url).Ok?
    ensures var text := Validate(lib, url).url;
      var p := SplitUrl(text);
      var taken := |text| <= 2048 && Accepted(lib, p.netloc) && !Refused(lib, HostName(p.netloc));
      (Validate(lib, text) == Ok(text) <==> taken && Settled(p.path)) &&
      (Validate(lib, text) == Rejected <==> !taken) && !Validate(lib, text).Crashed?
  {
    var a, path, query := FirstPass(lib, url);
    StoredAgain(lib, a, path, query);
  }

  // ---- ordinary URLs: only the path and the length matter ----

  /** An ASCII authority with no brackets but those around its host. */
  ghost predicate Ordinary(netloc: string) {
    Ascii(netloc) && Free(UserInfo(netloc), {'[', ']'}) && Free(RawHost(HostInfo(netloc)), {'[', ']'})
  }

  /** An ASCII host, in brackets if it has a colon, with no bracket of its own. */
  ghost predicate OrdinaryHost(lib: Library, h: string) {
    StorableHost(lib, h) && Ascii(h) && Free(h, {'[', ']'}) && (':' in h ==> lib.bracketHost(h)) && !Refused(lib, h)
  }

  lemma NoBrackets(user: string, host: string, port: string)
    requires Free(user, {'[', ']'}) && Free(host, {'[', ']'}) && '[' !in port && ']' !in port
    ensures '[' !in user + (host + port) && ']' !in user + (host + port)
  {
  }

  lemma PlainAccepted(lib: Library, netloc: string)
    requires '[' !in netloc && ']' !in netloc && Ascii(netloc)
    ensures Accepted(lib, netloc)
  {
  }

  lemma BracketedRest(host: string, port: string)
    requires ']' !in host
    ensures var h := "[" + host + "]" + port;
      h[0] == '[' && After(After(h, '['), ']') == port
  {
    var h, rest := "[" + host + "]" + port, host + [']'] + port;
    assert h == "" + ['['] + rest && h[0] == '[';
    Partition("", '[', rest);
    Partition(host, ']', port);
  }

  lemma BracketedAccepted(lib: Library, netloc: string, host: string, port: string)
    requires Ascii(netloc) && '[' in netloc && ']' in netloc && HostInfo(netloc) == "[" + host + "]" + port
    requires ']' !in host && lib.bracketHost(host) && (port == "" || port[0] == ':')
    ensures Accepted(lib, netloc)
  {
    BracketedApart(host, port);
    BracketedRest(host, port);
  }

  lemma BracketsIn(user: string, host: string, port: string)
    ensures '[' in user + ("[" + host + "]" + port) && ']' in user + ("[" + host + "]" + port)
  {
    var n := user + ("[" + host + "]" + port);
    assert n[|user|] == '[' && n[|user| + 1 + |host|] == ']';
  }

  lemma OrdinaryNetlocAccepted(lib: Library, a: Authority)
    requires StorableUser(a) && OrdinaryHost(lib, a.host) && StorablePort(a.port)
    requires Ascii(Netloc(a)) && Free(UserText(a), {'[', ']'})
    ensures Accepted(lib, Netloc(a))
  {
    PortSuffixDigits(a.port);
    if ':' in a.host {
      HostTextFree(lib, a);
      UserApart(a, HostText(a));
      PortSuffixFacts(a.port);
      BracketsIn(UserText(a), a.host, PortSuffix(a.port));
      BracketedAccepted(lib, Netloc(a), a.host, PortSuffix(a.port));
    } else {
      NoBrackets(UserText(a), a.host, PortSuffix(a.port));
      PlainAccepted(lib, Netloc(a));
    }
  }

  lemma AsciiConcat(a: string, b: string)
    requires Ascii(a) && Ascii(b)
    ensures Ascii(a + b)
  {
  }

  lemma AsciiParts(s: string, sep: char)
    requires Ascii(s)
    ensures Ascii(Before(s, sep)) && Ascii(After(s, sep))
  {
  }

  lemma AsciiUser(a: Authority)
    requires Ascii(a.username) && Ascii(a.password)
    ensures Ascii(UserText(a))
  {
    var tail := if a.password == "" then "" else ":" + a.password;
    AsciiConcat(":", a.password);
    AsciiConcat(a.username, tail);
    AsciiConcat(a.username + tail, "@");
  }

  lemma OrdinaryUser(netloc: string, host: string)
    requires Ordinary(netloc) && !MalformedPort(PortText(HostInfo(netloc)))
    ensures var a := NormalAuthority(netloc, host);
      Free(UserText(a), {'[', ']'}) && Ascii(UserText(a))
  {
    var a, user := NormalAuthority(netloc, host), UserInfo(netloc);
    FreeBefore(user, ':', {'[', ']'});
    FreeLess(a.username, {'[', ']'} + {':'}, {'[', ']'});
    UserTextFree(a, {'[', ']'});
    AsciiParts(user, ':');
    AsciiUser(a);
  }

  lemma AsciiLowerFirst(s: string, n: nat)
    requires Ascii(s)
    ensures Ascii(LowerFirst(s, n))
  {
  }

  lemma OrdinaryRaw(netloc: string)
    requires Ordinary(netloc)
    ensures Ascii(HostName(netloc))
  {
    var hostInfo := HostInfo(netloc);
    AsciiParts(hostInfo, '[');
    AsciiParts(After(hostInfo, '['), ']');
    AsciiParts(hostInfo, ':');
    AsciiLowerFirst(RawHost(hostInfo), Until(RawHost(hostInfo), {'%'}));
  }

  /** An accepted host with a colon stood in brackets. */
  lemma ColonInBrackets(lib: Library, netloc: string)
    requires Sound(lib) && Accepted(lib, netloc) && Free(netloc, DELIMITERS)
    requires ':' in RawHost(HostInfo(netloc))
    ensures lib.bracketHost(Lower(RawHost(HostInfo(netloc))))
  {
    HostInfoFree(netloc);
    RawHostFree(HostInfo(netloc));
    assert forall c :: c in HostInfo(netloc) ==> c in netloc;
  }

  lemma OrdinaryHostNormal(lib: Library, netloc: string)
    requires Sound(lib) && Accepted(lib, netloc) && Free(netloc, DELIMITERS) && Ordinary(netloc)
    requires NormalHost(lib, HostName(netloc)).Some?
    ensures OrdinaryHost(lib, NormalHost(lib, HostName(netloc)).value)
  {
    var host, raw := HostName(netloc), RawHost(HostInfo(netloc));
    NormalHostStorable(lib, netloc);
    HostNameLower(netloc);
    OrdinaryRaw(netloc);
    NoLetters();
    LowerTwice(host);
    LowerKeepsFree(raw, {'[', ']'});
    if ':' in Lower(host) {
      ColonInBrackets(lib, netloc);
    }
  }

  lemma AsciiNetloc(a: Authority)
    requires Ascii(UserText(a)) && Ascii(a.host)
    ensures Ascii(Netloc(a))
  {
    PortSuffixDigits(a.port);
    AsciiConcat(a.host, "]");
    AsciiConcat("[", a.host + "]");
    assert "[" + (a.host + "]") == "[" + a.host + "]";
    AsciiConcat(if ':' in a.host then "[" + a.host + "]" else a.host, PortSuffix(a.port));
    AsciiConcat(UserText(a), HostText(a));
  }

  /** For an ordinary URL the cap on its length and its path decide alone. */
  lemma OrdinarySecondPass(lib: Library, url: string)
    requires Sound(lib) && Validate(lib, url).Ok? && Ordinary(SplitUrl(url).netloc)
    ensures var text := Validate(lib, url).url;
      (Validate(lib, text) == Ok(text) <==> |text| <= 2048 && Settled(SplitUrl(text).path)) &&
      (Validate(lib, text) == Rejected <==> |text| > 2048)
  {
    var p := SplitUrl(url);
    var a, path, query := FirstPass(lib, url);
    OrdinaryHostNormal(lib, p.netloc);
    OrdinaryUser(p.netloc, a.host);
    AsciiNetloc(a);
    OrdinaryNetlocAccepted(lib, a);
    NetlocApart(lib, a);
    StoredAgain(lib, a, path, query);
  }
}
