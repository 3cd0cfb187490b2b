/** URL validation and canonicalisation (backend/url_validator.py), from text to text. */
module UrlValidator {
  import opened Common
  import opened UrlText
  import QueryString

  const MAX_URL_LENGTH: nat := 2048
  const MAX_PORT: nat := 65535

  /** `Crashed` is the ValueError `parsed.port` raises for a malformed port, which nobody catches. */
  datatype Outcome = Ok(url: string) | Rejected | Crashed

  /** What other libraries answer: IP-literal recognition and classification, whether a host may
      stand in brackets, whether a non-ASCII authority stays free of delimiters under NFKC, IDNA. */
  datatype Library = Library(
    isAddress: string -> bool, isInternal: string -> bool, bracketHost: string -> bool,
    foldsSafely: string -> bool, idna: string -> Option<string>)

  // ---- the authority ----

  predicate Ascii(s: string) { forall i :: 0 <= i < |s| ==> s[i] < '\U{80}' }

  predicate EndsWith(s: string, suffix: string) {
    |suffix| <= |s| && s[|s| - |suffix|..] == suffix
  }

  /** The authorities urlsplit does not raise on. */
  predicate Accepted(lib: Library, netloc: string) {
    var hostInfo := HostInfo(netloc);
    ('[' in netloc <==> ']' in netloc) &&
    ('[' in netloc ==>
      lib.bracketHost(RawHost(hostInfo)) &&
      ('[' in hostInfo ==>
        var port := After(After(hostInfo, '['), ']');
        hostInfo[0] == '[' && (port == "" || port[0] == ':'))) &&
    (Ascii(netloc) || lib.foldsSafely(netloc))
  }

  /** The first `n` characters in lower case. */
  function LowerFirst(s: string, n: nat): (r: string)
    ensures |r| == |s| && forall i :: 0 <= i < |s| ==> r[i] == if i < n then LowerChar(s[i]) else s[i]
  {
    seq(|s|, i requires 0 <= i < |s| => if i < n then LowerChar(s[i]) else s[i])
  }

  /** `parsed.hostname`: an IPv6 zone after '%' keeps its case. */
  function HostName(netloc: string): string {
    var raw := RawHost(HostInfo(netloc));
    LowerFirst(raw, Until(raw, {'%'}))
  }

  predicate IsLocal(host: string) { Lower(host) == "localhost" || EndsWith(Lower(host), ".localhost") }

  function NormalHost(lib: Library, host: string): Option<string> {
    if host == "" || IsLocal(host) then None
    else if lib.isAddress(host) then (if lib.isInternal(host) then None else Some(Lower(host)))
    else if Ascii(host) then Some(Lower(host))
    else lib.idna(host)
  }

  predicate AllDigits(s: string) { forall i :: 0 <= i < |s| ==> Digit(s[i]) }

  function Number(s: string): nat
    requires AllDigits(s)
  {
    if s == "" then 0 else 10 * Number(Front(s)) + (Last(s) - '0') as nat
  }

  /** No text is no port; otherwise it has to be ASCII digits, for at most 65535. */
  predicate MalformedPort(s: string) { !AllDigits(s) || Number(s) > MAX_PORT }

  /** The port to keep, 0 for none. */
  function NormalPort(s: string): nat
    requires !MalformedPort(s)
  {
    if Number(s) in {80, 443} then 0 else Number(s)
  }

  function Decimal(n: nat): string {
    (if n < 10 then "" else Decimal(n / 10)) + ['0' + (n % 10) as char]
  }

  /** A stored URL's authority: an empty user name, or port 0, is left out. */
  datatype Authority = Authority(username: string, password: string, host: string, port: nat)

  function UserText(a: Authority): string {
    if a.username == "" then "" else a.username + (if a.password == "" then "" else ":" + a.password) + "@"
  }

  function PortSuffix(port: nat): string { if port == 0 then "" else ":" + Decimal(port) }

  function HostText(a: Authority): string {
    (if ':' in a.host then "[" + a.host + "]" else a.host) + PortSuffix(a.port)
  }

  function Netloc(a: Authority): string { UserText(a) + HostText(a) }

  function NormalAuthority(netloc: string, host: string): Authority
    requires !MalformedPort(PortText(HostInfo(netloc)))
  {
    var username := Before(UserInfo(netloc), ':');
    Authority(username, if username == "" then "" else After(UserInfo(netloc), ':'), host,
              NormalPort(PortText(HostInfo(netloc))))
  }

  // ---- the path ----

  function TrimSlashes(s: string): string {
    if s != "" && Last(s) == '/' then TrimSlashes(Front(s)) else s
  }

  function NormalPath(path: string): string {
    if path == "" then "/"
    else if path != "/" && Last(path) == '/' then TrimSlashes(path)
    else path
  }

  /** Path and parameters as urlunparse writes them after an authority. */
  function Glue(path: string, params: string): string {
    var t := path + if params == "" then "" else ";" + params;
    if t != "" && t[0] != '/' then "/" + t else t
  }

  /** What one pass makes of a path with its parameters. */
  function RewritePath(t: string): string { Glue(NormalPath(PathOf(t)), ParamsOf(t)) }

  // ---- the whole ----

  /** The stored URL, as urlunparse writes it. */
  function Stored(a: Authority, path: string, query: string): string {
    "https://" + Netloc(a) + WithQuery(path, query)
  }

  /** What becomes of the parts of a URL that is not too long. */
  function Judge(lib: Library, p: Parts): Outcome {
    if !Accepted(lib, p.netloc) || (p.scheme != "http" && p.scheme != "https") then Rejected
    else
      var host := NormalHost(lib, HostName(p.netloc));
      if host.None? then Rejected
      else if MalformedPort(PortText(HostInfo(p.netloc))) then Crashed
      else Ok(Stored(NormalAuthority(p.netloc, host.value), RewritePath(p.path), QueryString.Canonical(p.query)))
  }

  function Validate(lib: Library, url: string): Outcome {
    if |url| > MAX_URL_LENGTH then Rejected else Judge(lib, SplitUrl(url))
  }

  // ---- paths ----

  ghost predicate OnlySlashes(s: string) { forall i :: 0 <= i < |s| ==> s[i] == '/' }

  lemma {:induction false} TrimSlashesFacts(s: string)
    ensures TrimSlashes(s) <= s && (TrimSlashes(s) == s <==> s == "" || Last(s) != '/')
    ensures TrimSlashes(s) == "" <==> OnlySlashes(s)
    ensures TrimSlashes(s) != "" ==> Last(TrimSlashes(s)) != '/'
  {
    if s != "" && Last(s) == '/' {
      TrimSlashesFacts(Front(s));
      assert s == Front(s) + ['/'];
      assert OnlySlashes(Front(s)) ==> OnlySlashes(s);
    }
  }

  /** A normalised path stays as it is, unless two or more slashes were trimmed to nothing. */
  lemma PathTwice(path: string)
    ensures NormalPath(path) == "" <==> OnlySlashes(path) && |path| >= 2
    ensures NormalPath(NormalPath(path)) == if NormalPath(path) == "" then "/" else NormalPath(path)
  {
    TrimSlashesFacts(path);
    TrimSlashesFacts(TrimSlashes(path));
    assert OnlySlashes(path) && |path| == 1 ==> path == "/";
  }

  ghost predicate Rooted(t: string) { t == "" || t[0] == '/' }

  /** The path text a pass leaves as it is: it is not empty, no ';' is left without parameters,
      and what comes before the parameters is "/" or does not end in '/'. */
  predicate Settled(t: string) {
    t != "" && (Cut(t) < |t| ==> ParamsOf(t) != "") && (EndsWith(PathOf(t), "/") ==> PathOf(t) == "/")
  }

  lemma CutParts(t: string, n: nat)
    requires n < |t| && t[n] == ';'
    ensures t == t[..n] + (";" + t[n + 1..])
  {
  }

  lemma PathParts(t: string)
    requires Rooted(t) && t != ""
    ensures t == PathOf(t) + if Cut(t) == |t| then "" else ";" + ParamsOf(t)
    ensures PathOf(t) != "" && PathOf(t)[0] == '/'
    ensures Cut(t) == |t| ==> ParamsOf(t) == ""
  {
    if Cut(t) < |t| {
      CutParts(t, Cut(t));
    } else {
      assert t[..|t|] + "" == t;
    }
  }

  lemma NormalPathFacts(p: string)
    requires p != ""
    ensures NormalPath(p) <= p && (NormalPath(p) == p <==> (EndsWith(p, "/") ==> p == "/"))
    ensures NormalPath(p) != p ==> |NormalPath(p)| < |p| && 2 <= |p|
  {
    TrimSlashesFacts(p);
    assert p[|p| - 1..] == [Last(p)];
    assert p != "/" && Last(p) == '/' ==> 2 <= |p|;
  }

  lemma GlueFacts(p: string, params: string)
    requires p != "" ==> p[0] == '/'
    ensures Rooted(Glue(p, params))
    ensures p != "" ==> Glue(p, params) == p + if params == "" then "" else ";" + params
    ensures p == "" ==> |Glue(p, params)| == if params == "" then 0 else |params| + 2
  {
  }

  /** A pass over a path: a fixed point exactly when the path is settled, and otherwise shorter,
      except that an empty path becomes "/". */
  lemma RewriteShrinks(t: string)
    requires Rooted(t)
    ensures Rooted(RewritePath(t))
    ensures RewritePath(t) == t <==> Settled(t)
    ensures t != "" && !Settled(t) ==> |RewritePath(t)| < |t|
    ensures t == "" ==> RewritePath(t) == "/"
  {
    if t != "" {
      PathParts(t);
      NormalPathFacts(PathOf(t));
      GlueFacts(NormalPath(PathOf(t)), ParamsOf(t));
    }
  }

  /** A malformed port crashes the validator exactly when nothing earlier rejects the URL. */
  lemma CrashExact(lib: Library, url: string)
    ensures var p := SplitUrl(url);
      Validate(lib, url) == Crashed <==>
        |url| <= 2048 && Accepted(lib, p.netloc) && p.scheme in {"http", "https"} &&
        NormalHost(lib, HostName(p.netloc)).Some? && MalformedPort(PortText(HostInfo(p.netloc)))
  {
  }
}
