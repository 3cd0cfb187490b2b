/** Validating again and again, and what particular families of URLs come to. */
module UrlPasses {
  import opened Common
  import opened UrlText
  import opened UrlValidator
  import opened StoredUrls

  // ---- passes converge ----

  function Validator(lib: Library): string -> Outcome { url => Validate(lib, url) }

  /** `n` passes in a row, stopping at the first refusal. */
  function Passes(pass: string -> Outcome, url: string, n: nat): Outcome
    decreases n
  {
    if n == 0 then Ok(url)
    else
      match pass(url)
      case Ok(text) => Passes(pass, text, n - 1)
      case other => other
  }

  /** `n` rewrites in a row. */
  function Repeat(step: string -> string, t: string, n: nat): string
    decreases n
  {
    if n == 0 then t else Repeat(step, step(t), n - 1)
  }

  lemma PassesStep(pass: string -> Outcome, url: string, text: string, n: nat)
    requires n > 0 && pass(url) == Ok(text)
    ensures Passes(pass, url, n) == Passes(pass, text, n - 1)
  {
  }

  /** If a pass rewrites the path and nothing else, so do any number of them. */
  lemma {:induction false} PassesRewrite(
      pass: string -> Outcome, text: string -> string, step: string -> string, holds: string -> bool,
      path: string, n: nat)
    requires holds(path)
    requires forall t {:trigger step(t)} :: holds(t) ==> holds(step(t)) && pass(text(t)) == Ok(text(step(t)))
    ensures Passes(pass, text(path), n) == Ok(text(Repeat(step, path, n))) && holds(Repeat(step, path, n))
    decreases n
  {
    if n > 0 {
      assert pass(text(path)) == Ok(text(step(path)));
      PassesStep(pass, text(path), text(step(path)), n);
      PassesRewrite(pass, text, step, holds, step(path), n - 1);
    }
  }

  /** One more character is spared for an empty path, which becomes "/". */
  predicate Fits(a: Authority, path: string, query: string) {
    |Stored(a, path, query)| + (if path == "" then 1 else 0) <= MAX_URL_LENGTH
  }

  lemma PassKeepsFit(lib: Library, a: Authority, path: string, query: string)
    requires Storable(lib, a, path, query) && Fits(a, path, query)
    ensures Fits(a, RewritePath(path), query)
  {
    RewriteShrinks(path);
    StoredLengths(a, path, RewritePath(path), query);
  }

  lemma PassesStored(lib: Library, a: Authority, path: string, query: string, n: nat)
    requires Storable(lib, a, path, query) && Fits(a, path, query)
    requires Accepted(lib, Netloc(a)) && !Refused(lib, a.host)
    ensures Passes(Validator(lib), Stored(a, path, query), n) == Ok(Stored(a, Repeat(RewritePath, path, n), query))
    ensures Storable(lib, a, Repeat(RewritePath, path, n), query) && Fits(a, Repeat(RewritePath, path, n), query)
  {
    var pass, text := Validator(lib), (t: string) => Stored(a, t, query);
    ghost var holds := (t: string) => Storable(lib, a, t, query) && Fits(a, t, query);
    forall t | holds(t) ensures holds(RewritePath(t)) && pass(text(t)) == Ok(text(RewritePath(t))) {
      PassOnStored(lib, a, t, query);
      RewriteStorable(lib, a, t, query);
      PassKeepsFit(lib, a, t, query);
    }
    PassesRewrite(pass, text, RewritePath, holds, path, n);
  }

  lemma {:induction false} RepeatRests(step: string -> string, t: string, n: nat)
    requires step(t) == t
    ensures Repeat(step, t, n) == t
    decreases n
  {
    if n > 0 {
      RepeatRests(step, t, n - 1);
    }
  }

  /** A rewriting that shrinks what it changes, except for the empty text, comes to rest. */
  lemma {:induction false} RepeatSettles(step: string -> string, rest: string -> bool, t: string, n: nat)
    requires n > |t|
    requires forall s :: rest(s) ==> step(s) == s
    requires forall s :: s != "" && !rest(s) ==> |step(s)| < |s|
    requires rest(step("")) || rest("")
    ensures rest(Repeat(step, t, n))
    decreases n
  {
    if rest(t) {
      RepeatRests(step, t, n);
    } else if t == "" {
      RepeatRests(step, step(""), n - 1);
    } else {
      RepeatSettles(step, rest, step(t), n - 1);
    }
  }

  /** `RewritePath` where it is used, on rooted paths. */
  function RootedRewrite(s: string): string { if s == "" || s[0] == '/' then RewritePath(s) else "" }

  predicate RootedSettled(s: string) { s != "" && s[0] == '/' && Settled(s) }

  lemma RootedRewriteShrinks(s: string)
    ensures RootedSettled(s) ==> RootedRewrite(s) == s
    ensures s != "" && !RootedSettled(s) ==> |RootedRewrite(s)| < |s|
  {
    if s != "" && s[0] == '/' {
      RewriteShrinks(s);
    }
  }

  lemma SlashSettled()
    ensures RootedSettled(RootedRewrite(""))
  {
    RewriteShrinks("");
    RewriteShrinks("/");
    PathParts("/");
  }

  lemma {:induction false} RepeatRooted(t: string, n: nat)
    requires Rooted(t)
    ensures Repeat(RootedRewrite, t, n) == Repeat(RewritePath, t, n)
    decreases n
  {
    if n > 0 {
      RewriteShrinks(t);
      RepeatRooted(RewritePath(t), n - 1);
    }
  }

  lemma PathsSettle(t: string, n: nat)
    requires Rooted(t) && n > |t|
    ensures Settled(Repeat(RewritePath, t, n))
  {
    forall s ensures (RootedSettled(s) ==> RootedRewrite(s) == s) &&
                     (s != "" && !RootedSettled(s) ==> |RootedRewrite(s)| < |s|)
    {
      RootedRewriteShrinks(s);
    }
    SlashSettled();
    RepeatSettles(RootedRewrite, RootedSettled, t, n);
    RepeatRooted(t, n);
  }

  /** A stored URL that is taken again and leaves one character to spare reaches a fixed point
      after at most as many passes as its path has characters, and one. */
  lemma Converges(lib: Library, url: string, n: nat)
    requires Sound(lib) && Validate(lib, url).Ok?
    requires var text := Validate(lib, url).url;
      var p := SplitUrl(text);
      |text| < 2048 && Accepted(lib, p.netloc) && !Refused(lib, HostName(p.netloc)) && n > |p.path|
    ensures var last := Passes(Validator(lib), Validate(lib, url).url, n);
      last.Ok? && Validate(lib, last.url) == last
  {
    var a, path, query := FirstPass(lib, url);
    StoredAgain(lib, a, path, query);
    NetlocApart(lib, a);
    PassesStored(lib, a, path, query, n);
    PathsSettle(path, n);
    PassOnStored(lib, a, Repeat(RewritePath, path, n), query);
    RewriteShrinks(Repeat(RewritePath, path, n));
  }

  // ---- concrete families of URLs ----

  /** A host name that is neither local nor an address. */
  ghost predicate OpenName(lib: Library, host: string) {
    PlainName(host) && !IsLocal(host) && !lib.isAddress(host)
  }

  lemma EmptyQuery()
    ensures QueryString.Canonical("") == ""
  {
    assert [""][1..] == [];
    assert QueryString.Parse("") == [];
  }

  lemma NameAlone(lib: Library, host: string)
    requires OpenName(lib, host)
    ensures var a := Authority("", "", host, 0);
      Netloc(a) == host && ':' !in host && Accepted(lib, host) && !Refused(lib, host) && StorableHost(lib, host)
  {
    PlainNameStorable(lib, host);
    assert forall i :: 0 <= i < |host| ==> host[i] !in {'[', ']', ':'};
  }

  lemma NameStored(host: string, path: string)
    requires ':' !in host
    ensures Stored(Authority("", "", host, 0), path, "") == "https://" + host + path
  {
    assert WithQuery(path, "") == path;
    assert Netloc(Authority("", "", host, 0)) == host;
  }

  /** On a bare name and a path, a pass rewrites the path. */
  lemma PassOnName(lib: Library, host: string, path: string)
    requires OpenName(lib, host) && Rooted(path) && Free(path, PATH_ENDS)
    ensures Validate(lib, "https://" + host + path) ==
      if |host| + |path| + 8 > MAX_URL_LENGTH then Rejected else Ok("https://" + host + RewritePath(path))
  {
    var a := Authority("", "", host, 0);
    NameAlone(lib, host);
    EmptyQuery();
    NameStored(host, path);
    NameStored(host, RewritePath(path));
    PassOnStored(lib, a, path, "");
  }

  lemma RewriteTrailingSlash(t: string)
    requires t != "" && t[0] == '/' && Last(t) != '/'
    ensures RewritePath(t + "/") == t
  {
    var u := t + "/";
    assert u + "" == u;
    SinceLastAt(u, '/', "");
    assert Front(u) == t && PathOf(u) == u;
    assert TrimSlashes(t) == t;
  }

  lemma CutParameters(path: string, params: string)
    requires path != "" && Last(path) == '/' && '/' !in params
    ensures PathOf(path + (";" + params)) == path && ParamsOf(path + (";" + params)) == params
  {
    var t := path + (";" + params);
    SinceLastAt(path, '/', ";" + params);
    assert t[|path|] == ';';
    assert t[|path|..][0] == ';';
    assert Cut(t) == |path|;
  }

  lemma RewriteParameters(t: string, path: string, params: string)
    requires t == path + (";" + params) && path != "" && Last(path) == '/' && '/' !in params
    ensures RewritePath(t) == Glue(NormalPath(path), params)
  {
    CutParameters(path, params);
  }

  lemma OneSlashTrimmed(s: string)
    requires s != "" && s[0] == '/' && Last(s) != '/'
    ensures NormalPath(s + "/") == s
  {
    assert Front(s + "/") == s && TrimSlashes(s) == s;
  }

  /** Of "s/;b/" a pass keeps "s/;b", and of that "s;b". */
  lemma RewriteSlashParameters(s: string, b: string, path: string)
    requires s != "" && s[0] == '/' && Last(s) != '/' && b != "" && '/' !in b && path == s + "/;" + b
    ensures RewritePath(path + "/") == path
    ensures RewritePath(path) == s + ";" + b
  {
    RewriteTrailingSlash(path);
    assert path == s + "/" + (";" + b);
    RewriteParameters(path, s + "/", b);
    OneSlashTrimmed(s);
    GlueFacts(s, b);
  }

  lemma OnePass(lib: Library, host: string, path: string, path': string, url: string, url': string)
    requires OpenName(lib, host) && Rooted(path) && Free(path, PATH_ENDS) && RewritePath(path) == path'
    requires url == "https://" + host + path && url' == "https://" + host + path' && |url| <= MAX_URL_LENGTH
    ensures Validate(lib, url) == Ok(url')
  {
    PassOnName(lib, host, path);
  }

  lemma FreeAppended(a: string, b: string, stop: set<char>)
    requires Free(a + b, stop)
    ensures Free(a, stop)
  {
    assert forall i :: 0 <= i < |a| ==> a[i] == (a + b)[i];
  }

  /** A second pass drops the '/' that a first pass left before parameters. */
  lemma SecondPassDropsSlash(
      lib: Library, host: string, s: string, b: string, path: string, url: string, once: string, twice: string)
    requires OpenName(lib, host) && Free(path + "/", PATH_ENDS) && |url| <= MAX_URL_LENGTH
    requires s != "" && s[0] == '/' && Last(s) != '/' && b != "" && '/' !in b
    requires path == s + "/;" + b && url == "https://" + host + (path + "/")
    requires once == "https://" + host + path && twice == "https://" + host + (s + ";" + b)
    ensures Validate(lib, url) == Ok(once) && Validate(lib, once) == Ok(twice)
  {
    RewriteSlashParameters(s, b, path);
    FreeAppended(path, "/", PATH_ENDS);
    OnePass(lib, host, path + "/", path, url, once);
    OnePass(lib, host, path, s + ";" + b, once, twice);
  }

  /** Two or more slashes with parameters become one. */
  lemma RewriteSlashes(slashes: string, b: string, t: string, path: string)
    requires OnlySlashes(slashes) && slashes != "" && b != "" && '/' !in b
    requires t == slashes + (";" + b) && path == "/" + (";" + b)
    ensures RewritePath(t) == path
  {
    RewriteParameters(t, slashes, b);
    if |slashes| >= 2 {
      PathTwice(slashes);
      assert "" + (";" + b) == ";" + b;
    } else {
      assert slashes == "/";
      GlueFacts(slashes, b);
    }
  }

  lemma SlashesFree(slashes: string, b: string, stop: set<char>)
    requires OnlySlashes(slashes) && Free(b, stop) && '/' !in stop && ';' !in stop
    ensures Free(slashes + (";" + b), stop)
  {
    FreeAppend(";", b, stop);
    FreeAppend(slashes, ";" + b, stop);
  }

  /** A path of slashes only keeps one of them before its parameters. */
  lemma SlashBeforeParameters(lib: Library, host: string, slashes: string, b: string, url: string, once: string)
    requires OpenName(lib, host) && OnlySlashes(slashes) && slashes != "" && |url| <= MAX_URL_LENGTH
    requires b != "" && '/' !in b && Free(b, PATH_ENDS)
    requires url == "https://" + host + (slashes + (";" + b)) && once == "https://" + host + ("/" + (";" + b))
    ensures Validate(lib, url) == Ok(once)
  {
    PathCharacters();
    SlashesFree(slashes, b, PATH_ENDS);
    RewriteSlashes(slashes, b, slashes + (";" + b), "/" + (";" + b));
    OnePass(lib, host, slashes + (";" + b), "/" + (";" + b), url, once);
  }

  /** "https://h/a/;b/" is stored as "https://h/a/;b", and a second pass makes it "https://h/a;b". */
  lemma DropsSlashExample(lib: Library, url: string, once: string, twice: string)
    requires OpenName(lib, "h")
    requires url == "https://h/a/;b/" && once == "https://h/a/;b" && twice == "https://h/a;b"
    ensures Validate(lib, url) == Ok(once) && Validate(lib, once) == Ok(twice)
  {
    SecondPassDropsSlash(lib, "h", "/a", "b", "/a/;b", url, once, twice);
  }

  /** "https://h//;p" is stored as "https://h/;p", and that stays. */
  lemma SlashBeforeExample(lib: Library, slashes: string, url: string, once: string)
    requires OpenName(lib, "h") && OnlySlashes(slashes) && 1 <= |slashes| <= 2
    requires url == "https://h" + (slashes + ";p") && once == "https://h/;p"
    ensures Validate(lib, url) == Ok(once)
  {
    SlashBeforeParameters(lib, "h", slashes, "p", url, once);
  }

  /** "/a" followed by k times "/;". */
  function Semicolons(k: nat): (t: string)
    ensures |t| == 2 * k + 2 && t[0] == '/' && Last(t) == if k == 0 then 'a' else ';'
  {
    if k == 0 then "/a" else Semicolons(k - 1) + "/;"
  }

  lemma SemicolonsStep(k: nat)
    requires k > 0
    ensures RewritePath(Semicolons(k)) == Semicolons(k - 1)
  {
    var t, s := Semicolons(k), Semicolons(k - 1);
    assert t == (s + "/") + ";";
    SinceLastAt(s + "/", '/', ";");
    assert Cut(t) == |s| + 1;
    assert PathOf(t) == s + "/" && ParamsOf(t) == "";
    assert Front(s + "/") == s && Last(s + "/") == '/';
    assert TrimSlashes(s + "/") == TrimSlashes(s) == s;
  }

  /** Only "/a" itself is settled. */
  lemma SemicolonsSettled(k: nat)
    ensures Settled(Semicolons(k)) <==> k == 0
  {
    if k > 0 {
      SemicolonsStep(k);
      RewriteShrinks(Semicolons(k));
    } else {
      assert Cut("/a") == 2;
      assert PathOf("/a") == "/a";
    }
  }

  lemma {:induction false} RepeatDown(step: string -> string, texts: nat -> string, k: nat, n: nat)
    requires n <= k && forall i: nat :: i > 0 ==> step(texts(i)) == texts(i - 1)
    ensures Repeat(step, texts(k), n) == texts(k - n)
    decreases n
  {
    if n > 0 {
      RepeatDown(step, texts, k - 1, n - 1);
    }
  }

  lemma SemicolonsFree(k: nat)
    ensures Free(Semicolons(k), PATH_ENDS)
  {
    if k > 0 {
      SemicolonsFree(k - 1);
      FreeAppend(Semicolons(k - 1), "/;", PATH_ENDS);
    }
  }

  lemma RewriteSemicolons(k: nat, n: nat)
    requires n <= k
    ensures Repeat(RewritePath, Semicolons(k), n) == Semicolons(k - n)
  {
    forall i: nat | i > 0 ensures RewritePath(Semicolons(i)) == Semicolons(i - 1) {
      SemicolonsStep(i);
    }
    RepeatDown(RewritePath, Semicolons, k, n);
  }

  lemma PassesOnName(lib: Library, host: string, path: string, n: nat, path': string)
    requires OpenName(lib, host) && Rooted(path) && path != "" && Free(path, PATH_ENDS)
    requires |host| + |path| + 8 <= MAX_URL_LENGTH && Repeat(RewritePath, path, n) == path'
    ensures Passes(Validator(lib), "https://" + host + path, n) == Ok("https://" + host + path')
  {
    var a := Authority("", "", host, 0);
    NameAlone(lib, host);
    EmptyQuery();
    NameStored(host, path);
    NameStored(host, path');
    PassesStored(lib, a, path, "", n);
  }

  /** Only the length cap bounds how many passes a URL takes: "https://h/a/;/;/;", with k times
      "/;" in its path, takes exactly k, each of which drops one; "/a" is settled then. */
  lemma ManyPasses(lib: Library, host: string, k: nat, n: nat)
    requires OpenName(lib, host) && n <= k && |host| + 2 * k + 10 <= MAX_URL_LENGTH
    ensures Passes(Validator(lib), "https://" + host + Semicolons(k), n) == Ok("https://" + host + Semicolons(k - n))
  {
    SemicolonsFree(k);
    RewriteSemicolons(k, n);
    PassesOnName(lib, host, Semicolons(k), n, Semicolons(k - n));
  }

  // ---- malformed ports ----

  lemma PortNetloc(lib: Library, host: string, port: string)
    requires PlainName(host) && Ascii(port) && Free(port, DELIMITERS + {'@', '[', ']'})
    ensures var netloc := host + ":" + port;
      Free(netloc, DELIMITERS) && Accepted(lib, netloc) &&
      RawHost(HostInfo(netloc)) == host && PortText(HostInfo(netloc)) == port
  {
    var netloc := host + ":" + port;
    assert Free(netloc, DELIMITERS + {'@', '[', ']'}) && Ascii(netloc);
    NoAtApart(netloc);
    Partition(host, ':', port);
  }

  lemma JudgeName(lib: Library, host: string, port: string, p: Parts)
    requires OpenName(lib, host) && p.scheme == "https" && Accepted(lib, p.netloc)
    requires RawHost(HostInfo(p.netloc)) == host && PortText(HostInfo(p.netloc)) == port
    ensures !Judge(lib, p).Rejected? && (Judge(lib, p).Crashed? <==> MalformedPort(port))
  {
    PlainNameStorable(lib, host);
    LowerFirstOfLower(host, Until(host, {'%'}));
    StoredHostNormal(lib, host);
  }

  lemma PortOutcome(lib: Library, url: string, host: string, port: string, p: Parts)
    requires OpenName(lib, host) && Ascii(port) && Free(port, DELIMITERS + {'@', '[', ']'})
    requires p.scheme == "https" && p.netloc == host + ":" + port && SplitUrl(url) == p && |url| <= MAX_URL_LENGTH
    ensures !Validate(lib, url).Rejected? && (Validate(lib, url).Crashed? <==> MalformedPort(port))
  {
    PortNetloc(lib, host, port);
    JudgeName(lib, host, port, p);
    ValidateSplit(lib, url, p);
  }

  /** What follows a name's colon decides between a crash and a stored URL. */
  lemma PortDecides(lib: Library, host: string, port: string, path: string, url: string)
    requires OpenName(lib, host) && Ascii(port) && Free(port, DELIMITERS + {'@', '[', ']'})
    requires Rooted(path) && Free(path, PATH_ENDS)
    requires url == "https://" + (host + ":" + port) + path && |url| <= MAX_URL_LENGTH
    ensures var outcome := Validate(lib, url);
      !outcome.Rejected? &&
      (outcome.Crashed? <==> (exists i :: 0 <= i < |port| && !Digit(port[i])) || Number(port) > 65535)
  {
    var netloc := host + ":" + port;
    PortNetloc(lib, host, port);
    assert WithQuery(path, "") == path;
    SplitUrlOf(netloc, path, "");
    PortOutcome(lib, url, host, port, Parts("https", netloc, path, ""));
  }

  lemma PortExample(lib: Library, url: string)
    requires OpenName(lib, "h") && url == "https://h:x"
    ensures Validate(lib, url).Crashed?
  {
    var host, port := "h", "x";
    assert url == "https://" + (host + ":" + port) + "";
    assert !Digit(port[0]);
    PortDecides(lib, host, port, "", url);
  }
}
