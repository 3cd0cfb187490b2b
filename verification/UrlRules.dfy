/** The rules of URL validation (backend/url_validator.py), spelled out on the text. */
module UrlRules {
  import opened Common
  import opened UrlText
  import opened UrlValidator
  import opened StoredUrls

  const LOWER := "abcdefghijklmnopqrstuvwxyz"
  const UPPER := "ABCDEFGHIJKLMNOPQRSTUVWXYZ"
  const DIGITS := "0123456789"

  // ---- spellings ----

  /** `c` is `d`, or the upper case of the letter `d`. */
  ghost predicate CaseOf(c: char, d: char) {
    c == d || exists k :: 0 <= k < 26 && LOWER[k] == d && UPPER[k] == c
  }

  /** `s` is `name`, up to case. */
  ghost predicate Spells(s: string, name: string) {
    |s| == |name| && forall i :: 0 <= i < |s| ==> CaseOf(s[i], name[i])
  }

  lemma LettersInOrder(k: nat)
    requires k < 26
    ensures LOWER[k] as int == 'a' as int + k && UPPER[k] as int == 'A' as int + k
  {
  }

  lemma CaseExact(c: char, d: char)
    requires LowerChar(d) == d
    ensures CaseOf(c, d) <==> LowerChar(c) == d
  {
    if 'A' <= c <= 'Z' {
      LettersInOrder((c - 'A') as nat);
    }
    if k :| 0 <= k < 26 && LOWER[k] == d && UPPER[k] == c {
      LettersInOrder(k);
    }
  }

  lemma SpellsExact(s: string, name: string)
    requires Lower(name) == name
    ensures Spells(s, name) <==> Lower(s) == name
  {
    forall i | 0 <= i < |s| && |s| == |name| ensures CaseOf(s[i], name[i]) <==> Lower(s)[i] == name[i] {
      assert Lower(name)[i] == LowerChar(name[i]);
      CaseExact(s[i], name[i]);
    }
  }

  // ---- what is rejected ----

  /** "localhost" or a name that ends in ".localhost", in any case. */
  ghost predicate Loopback(host: string) {
    Spells(host, "localhost") ||
    (|host| >= 10 && host[|host| - 10] == '.' && Spells(host[|host| - 9..], "localhost"))
  }

  lemma LowerSuffix(host: string, n: nat)
    requires n <= |host|
    ensures Lower(host)[n..] == Lower(host[n..])
  {
  }

  lemma DotName(s: string, name: string)
    requires name == "localhost"
    ensures s == ".localhost" <==> s != "" && s[0] == '.' && s[1..] == name
  {
    if s != "" && s[0] == '.' && s[1..] == name {
      assert s == ['.'] + s[1..] == ['.'] + name;
    }
  }

  lemma LoopbackExact(host: string)
    ensures IsLocal(host) <==> Loopback(host)
  {
    var name := "localhost";
    assert Lower(name) == name;
    SpellsExact(host, name);
    if |host| >= 10 {
      var n: nat := |host| - 10;
      LowerSuffix(host, n);
      LowerSuffix(host, n + 1);
      SpellsExact(host[n + 1..], name);
      DotName(Lower(host)[n..], name);
      assert Lower(host)[n..][1..] == Lower(host)[n + 1..];
      assert LowerChar(host[n]) == '.' <==> host[n] == '.';
    }
  }

  lemma AsciiExact(s: string)
    ensures !Ascii(s) <==> exists c :: c in s && c as int > 127
  {
    if i :| 0 <= i < |s| && s[i] >= '\U{80}' {
      assert s[i] in s;
    }
  }

  // ---- the authorities that are taken ----

  /** ASCII, or without a delimiter under NFKC. */
  ghost predicate FoldsSafely(lib: Library, netloc: string) {
    (forall c :: c in netloc ==> c as int <= 127) || lib.foldsSafely(netloc)
  }

  ghost predicate HostAfterUser(netloc: string, user: string, hostInfo: string) {
    netloc == user + hostInfo && '@' !in hostInfo && (user == "" || Last(user) == '@')
  }

  lemma HostAfterUserApart(netloc: string, user: string, hostInfo: string)
    requires HostAfterUser(netloc, user, hostInfo)
    ensures HostInfo(netloc) == hostInfo
  {
    SinceLastAt(user, '@', hostInfo);
    assert netloc[|netloc| - |hostInfo|..] == hostInfo;
  }

  /** Without brackets only the fold matters; a bracket without its counterpart is refused; and
      brackets in the user information alone put the host itself to the test for bracketed ones. */
  lemma UnbracketedExact(lib: Library, netloc: string, user: string, host: string, port: string)
    requires HostAfterUser(netloc, user, host + port) && '[' !in host + port
    requires ':' !in host && (port == "" || port[0] == ':')
    ensures Accepted(lib, netloc) <==>
      FoldsSafely(lib, netloc) && ('[' in netloc <==> ']' in netloc) && ('[' in netloc ==> lib.bracketHost(host))
  {
    AsciiExact(netloc);
    HostAfterUserApart(netloc, user, host + port);
    PlainApart(host, port);
  }

  lemma BracketParts(host: string, port: string, hostInfo: string)
    requires ']' !in host && hostInfo == "[" + host + "]" + port
    ensures hostInfo[0] == '[' && ']' in hostInfo && RawHost(hostInfo) == host
    ensures After(After(hostInfo, '['), ']') == port
  {
    var rest := host + [']'] + port;
    assert hostInfo == "" + ['['] + rest && hostInfo[|host| + 1] == ']';
    BracketedApart(host, port);
    Partition("", '[', rest);
    Partition(host, ']', port);
  }

  lemma AcceptedIf(lib: Library, netloc: string, hostInfo: string, host: string, port: string)
    requires '[' in netloc && ']' in netloc && HostInfo(netloc) == hostInfo && hostInfo != "" && hostInfo[0] == '['
    requires RawHost(hostInfo) == host && After(After(hostInfo, '['), ']') == port
    ensures Accepted(lib, netloc) <==>
      (Ascii(netloc) || lib.foldsSafely(netloc)) && lib.bracketHost(host) && (port == "" || port[0] == ':')
  {
  }

  /** "[host]" has to hold what may stand in brackets, and at most a port may follow it. */
  lemma BracketedExact(lib: Library, netloc: string, user: string, host: string, port: string)
    requires HostAfterUser(netloc, user, "[" + host + "]" + port) && ']' !in host
    ensures Accepted(lib, netloc) <==>
      FoldsSafely(lib, netloc) && lib.bracketHost(host) && (port == "" || port[0] == ':')
  {
    var hostInfo := "[" + host + "]" + port;
    AsciiExact(netloc);
    HostAfterUserApart(netloc, user, hostInfo);
    BracketParts(host, port, hostInfo);
    assert forall c :: c in hostInfo ==> c in netloc;
    AcceptedIf(lib, netloc, hostInfo, host, port);
  }

  /** Nothing may come before the bracket. */
  lemma BracketFirst(lib: Library, netloc: string, user: string, before: string, rest: string)
    requires HostAfterUser(netloc, user, before + "[" + rest) && before != "" && '[' !in before
    ensures !Accepted(lib, netloc)
  {
    var hostInfo := before + "[" + rest;
    HostAfterUserApart(netloc, user, hostInfo);
    assert hostInfo[|before|] == '[' && hostInfo[0] == before[0];
    assert '[' in hostInfo && '[' in netloc;
  }

  // ---- the hosts that are taken ----

  /** The hosts that are refused: none, this machine, an internal address, a name IDNA rejects. */
  ghost predicate NoHost(lib: Library, host: string) {
    host == "" || Loopback(host) ||
    if lib.isAddress(host) then lib.isInternal(host)
    else (exists c :: c in host && c as int > 127) && lib.idna(host).None?
  }

  lemma NoHostExact(lib: Library, host: string)
    ensures NormalHost(lib, host).None? <==> NoHost(lib, host)
  {
    LoopbackExact(host);
    AsciiExact(host);
  }

  lemma JudgeExact(lib: Library, p: Parts)
    ensures Judge(lib, p) == Rejected <==>
      !Accepted(lib, p.netloc) || (p.scheme != "http" && p.scheme != "https") ||
      NormalHost(lib, HostName(p.netloc)).None?
  {
  }

  /** Exactly what validation rejects: by length, authority, scheme, host. */
  lemma RejectExact(lib: Library, url: string)
    ensures var p := SplitUrl(url);
      Validate(lib, url) == Rejected <==>
        |url| > 2048 || !Accepted(lib, p.netloc) || (p.scheme != "http" && p.scheme != "https") ||
        NoHost(lib, HostName(p.netloc))
  {
    NoHostExact(lib, HostName(SplitUrl(url).netloc));
    JudgeExact(lib, SplitUrl(url));
  }

  /** A scheme of letters, digits, '+', '-' and '.' after a letter. */
  ghost predicate WrittenScheme(s: string) {
    s != "" && s[0] in LOWER + UPPER && forall c :: c in s ==> c in LOWER + UPPER + DIGITS + "+-."
  }

  ghost predicate WebScheme(s: string) { Spells(s, "http") || Spells(s, "https") }

  lemma LowerIn(c: char)
    ensures c in LOWER <==> 'a' <= c <= 'z'
  {
    if 'a' <= c <= 'z' {
      LettersInOrder((c - 'a') as nat);
      assert c == LOWER[(c - 'a') as nat];
    }
    if k :| 0 <= k < 26 && LOWER[k] == c {
      LettersInOrder(k);
    }
  }

  lemma UpperIn(c: char)
    ensures c in UPPER <==> 'A' <= c <= 'Z'
  {
    if 'A' <= c <= 'Z' {
      LettersInOrder((c - 'A') as nat);
      assert c == UPPER[(c - 'A') as nat];
    }
    if k :| 0 <= k < 26 && UPPER[k] == c {
      LettersInOrder(k);
    }
  }

  lemma DigitIn(c: char)
    ensures c in DIGITS <==> Digit(c)
  {
    if Digit(c) {
      assert c == DIGITS[(c - '0') as nat];
    }
  }

  lemma LetterExact(c: char)
    ensures c in LOWER + UPPER <==> Letter(c)
    ensures c in LOWER + UPPER + DIGITS <==> Letter(c) || Digit(c)
  {
    LowerIn(c);
    UpperIn(c);
    DigitIn(c);
  }

  lemma WrittenSchemeIsName(s: string)
    requires WrittenScheme(s)
    ensures SchemeName(s)
  {
    LetterExact(s[0]);
    forall i | 0 <= i < |s| ensures SchemeChar(s[i]) {
      LetterExact(s[i]);
      assert s[i] in s;
    }
  }

  lemma WebSchemeExact(s: string, http: string, https: string)
    requires http == "http" && https == "https"
    ensures WebScheme(s) <==> Lower(s) == http || Lower(s) == https
  {
    assert Lower(http) == http && Lower(https) == https;
    SpellsExact(s, http);
    SpellsExact(s, https);
  }

  /** Only http and https are taken, in any case. */
  lemma OtherSchemesRejected(lib: Library, scheme: string, rest: string)
    requires WrittenScheme(scheme) && !WebScheme(scheme)
    ensures Validate(lib, scheme + ":" + rest) == Rejected
  {
    WrittenSchemeIsName(scheme);
    SchemeApart(scheme, rest);
    WebSchemeExact(scheme, "http", "https");
  }

  lemma SameRest(scheme: string, other: string, rest: string)
    ensures SplitRest(other, rest) == SplitRest(scheme, rest).(scheme := other)
  {
  }

  lemma JudgedAlike(lib: Library, p: Parts, q: Parts)
    requires (p.scheme == "http" || p.scheme == "https") && (q.scheme == "http" || q.scheme == "https")
    requires q == p.(scheme := q.scheme)
    ensures Judge(lib, p) == Judge(lib, q)
  {
  }

  /** And it makes no difference which of them it is. */
  lemma SchemesAlike(lib: Library, scheme: string, other: string, rest: string)
    requires WrittenScheme(scheme) && WrittenScheme(other) && WebScheme(scheme) && WebScheme(other)
    requires |scheme + ":" + rest| <= 2048 && |other + ":" + rest| <= 2048
    ensures Validate(lib, scheme + ":" + rest) == Validate(lib, other + ":" + rest)
  {
    var cleaned := RemoveBreaks(rest);
    WrittenSchemeIsName(scheme);
    WrittenSchemeIsName(other);
    SchemeApart(scheme, rest);
    SchemeApart(other, rest);
    WebSchemeExact(scheme, "http", "https");
    WebSchemeExact(other, "http", "https");
    SameRest(Lower(scheme), Lower(other), cleaned);
    JudgedAlike(lib, SplitRest(Lower(scheme), cleaned), SplitRest(Lower(other), cleaned));
  }

  // ---- what a path becomes ----

  /** A path apart from its parameters: folders ending in '/', a last segment, and the
      parameters with their ';', if any. */
  ghost predicate WrittenPath(folders: string, segment: string, params: string) {
    folders != "" && folders[0] == '/' && Last(folders) == '/' &&
    '/' !in segment && ';' !in segment && '/' !in params && (params == "" || params[0] == ';')
  }

  lemma LastSlash(folders: string, segment: string, params: string)
    requires WrittenPath(folders, segment, params)
    ensures SinceLast(folders + (segment + params), '/') == |segment + params|
  {
    SinceLastAt(folders, '/', segment + params);
  }

  lemma CutAfter(folders: string, segment: string, params: string, t: string)
    requires WrittenPath(folders, segment, params) && t == folders + (segment + params)
    ensures Cut(t) == |folders| + |segment|
  {
    LastSlash(folders, segment, params);
    assert t[|folders|..] == segment + params;
    UntilAt(segment, params, {';'});
  }

  lemma PathApart(folders: string, segment: string, params: string)
    requires WrittenPath(folders, segment, params)
    ensures var t := folders + segment + params;
      PathOf(t) == folders + segment && ParamsOf(t) == if params == "" then "" else params[1..]
  {
    var t := folders + segment + params;
    assert t == folders + (segment + params);
    CutAfter(folders, segment, params, t);
    assert params != "" ==> t[|folders + segment| + 1..] == params[1..];
  }

  /** What is left of a path with its parameters, when "a" is what is left of the path alone. */
  lemma RewriteTo(folders: string, segment: string, params: string, a: string)
    requires WrittenPath(folders, segment, params) && NormalPath(folders + segment) == a && a != "" && a[0] == '/'
    ensures RewritePath(folders + segment + params) == a + if params == ";" then "" else params
  {
    PathApart(folders, segment, params);
    assert params != "" && params != ";" ==> params[1..] != "" && params == ";" + params[1..];
  }

  /** A last segment is kept, and so are its parameters unless there is only the ';'. */
  lemma SegmentKept(folders: string, segment: string, params: string)
    requires WrittenPath(folders, segment, params) && segment != ""
    ensures RewritePath(folders + segment + params) == folders + segment + if params == ";" then "" else params
  {
    assert Last(folders + segment) == Last(segment);
    RewriteTo(folders, segment, params, folders + segment);
  }

  /** Without one the root stays "/", */
  lemma RootKept(params: string)
    requires WrittenPath("/", "", params)
    ensures RewritePath("/" + params) == "/" + if params == ";" then "" else params
  {
    assert "/" + "" == "/" && "/" + "" + params == "/" + params;
    RewriteTo("/", "", params, "/");
  }

  lemma {:induction false} SlashesTrimmed(a: string, slashes: string)
    requires OnlySlashes(slashes) && (a == "" || Last(a) != '/')
    ensures TrimSlashes(a + slashes) == a
  {
    if slashes == "" {
      assert a + slashes == a;
    } else {
      assert Front(a + slashes) == a + Front(slashes);
      SlashesTrimmed(a, Front(slashes));
    }
  }

  /** and other folders lose the slashes they end in. */
  lemma FoldersTrimmed(a: string, slashes: string, params: string)
    requires OnlySlashes(slashes) && slashes != "" && a != "" && Last(a) != '/'
    requires WrittenPath(a + slashes, "", params)
    ensures RewritePath(a + slashes + params) == a + if params == ";" then "" else params
  {
    var folders := a + slashes;
    assert folders + "" == folders && folders[0] == a[0] && Last(folders) == '/' && folders != "/";
    SlashesTrimmed(a, slashes);
    RewriteTo(folders, "", params, a);
  }

  /** Several slashes and nothing else leave no path, or "/" before parameters. */
  lemma SlashesDropped(slashes: string, params: string)
    requires OnlySlashes(slashes) && |slashes| >= 2 && WrittenPath(slashes, "", params)
    ensures RewritePath(slashes + params) == if params == "" || params == ";" then "" else "/" + params
  {
    PathApart(slashes, "", params);
    assert slashes + "" == slashes && slashes + "" + params == slashes + params;
    SlashesTrimmed("", slashes);
    assert "" + slashes == slashes;
    assert params != "" && params != ";" ==> params[1..] != "" && "" + (";" + params[1..]) == params;
  }

  // ---- an ordinary URL, from text to text ----

  /** A URL as written, with a host name; an absent part is empty. */
  datatype Written = Written(
    scheme: string, username: string, password: string, host: string, port: string,
    path: string, query: string, fragment: string)

  function UserPart(username: string, password: string): string {
    if username == "" then "" else username + (if password == "" then "" else ":" + password) + "@"
  }

  function Text(w: Written): string {
    w.scheme + "://" + UserPart(w.username, w.password) + w.host + (if w.port == "" then "" else ":" + w.port) +
    w.path + (if w.query == "" then "" else "?" + w.query) + (if w.fragment == "" then "" else "#" + w.fragment)
  }

  ghost predicate Without(s: string, chars: string) { forall c :: c in s ==> c !in chars && c as int <= 127 }

  predicate NameChar(c: char) { c in LOWER + UPPER + DIGITS || c == '-' || c == '.' }

  /** The characters of each part, where a fragment may be anything. */
  ghost predicate Ordinary(w: Written) {
    WrittenScheme(w.scheme) && WebScheme(w.scheme) &&
    Without(w.username, "\t\r\n/?#@[]:") && Without(w.password, "\t\r\n/?#@[]") &&
    (w.username == "" ==> w.password == "") &&
    w.host != "" && (forall c :: c in w.host ==> NameChar(c)) &&
    (forall c :: c in w.port ==> c in DIGITS) &&
    (w.path == "" || w.path[0] == '/') && Free(w.path, PATH_ENDS) && Free(w.query, QUERY_ENDS)
  }

  lemma NoBracketsAccepted(lib: Library, netloc: string)
    requires Free(netloc, {'[', ']'}) && Ascii(netloc)
    ensures Accepted(lib, netloc)
  {
  }

  lemma WithoutFree(s: string)
    requires Without(s, "\t\r\n/?#@[]")
    ensures Free(s, DELIMITERS + {'@', '[', ']'}) && Ascii(s)
  {
    forall i | 0 <= i < |s| ensures s[i] !in DELIMITERS + {'@', '[', ']'} && s[i] < '\U{80}' {
      assert s[i] in s;
    }
  }

  lemma HostChar(c: char)
    requires NameChar(c)
    ensures c !in DELIMITERS + {'@', '[', ']', ':', '%'} && c < '\U{80}'
  {
    LetterExact(c);
  }

  lemma HostChars(host: string)
    requires forall c :: c in host ==> NameChar(c)
    ensures Free(host, DELIMITERS + {'@', '[', ']', ':', '%'}) && Ascii(host)
  {
    forall i | 0 <= i < |host| ensures host[i] !in DELIMITERS + {'@', '[', ']', ':', '%'} && host[i] < '\U{80}' {
      assert host[i] in host;
      HostChar(host[i]);
    }
  }

  lemma PortDigits(port: string)
    requires forall c :: c in port ==> c in DIGITS
    ensures AllDigits(port) && PortChars(port)
  {
    forall i | 0 <= i < |port| ensures Digit(port[i]) {
      assert port[i] in port;
      DigitIn(port[i]);
    }
  }

  function HostPart(host: string, port: string): string { host + if port == "" then "" else ":" + port }

  lemma HostPartFree(host: string, suffix: string)
    requires (forall c :: c in host ==> NameChar(c)) && PortChars(suffix)
    ensures Free(host + suffix, DELIMITERS + {'@', '[', ']'}) && Ascii(host + suffix)
  {
    HostChars(host);
    PortCharsFree(suffix);
    FreeAppend(host, suffix, DELIMITERS + {'@', '[', ']'});
  }

  lemma SuffixApart(port: string, suffix: string)
    requires suffix == (if port == "" then "" else ":" + port) && AllDigits(port)
    ensures PortChars(suffix) && '[' !in suffix && After(suffix, ':') == port
  {
    if port == "" {
      NoPartition("", ':');
    } else {
      assert suffix == "" + [':'] + port;
      Partition("", ':', port);
    }
  }

  lemma HostPartApart(host: string, port: string)
    requires (forall c :: c in host ==> NameChar(c)) && (forall c :: c in port ==> c in DIGITS)
    ensures var h := HostPart(host, port);
      Free(h, DELIMITERS + {'@', '[', ']'}) && Ascii(h) && RawHost(h) == host && PortText(h) == port
  {
    var suffix := if port == "" then "" else ":" + port;
    PortDigits(port);
    SuffixApart(port, suffix);
    HostPartFree(host, suffix);
    HostChars(host);
    PlainApart(host, suffix);
  }

  lemma UserChars(username: string)
    requires Without(username, "\t\r\n/?#@[]:")
    ensures Without(username, "\t\r\n/?#@[]") && ':' !in username
  {
    assert forall c :: c in "\t\r\n/?#@[]" ==> c in "\t\r\n/?#@[]:";
    assert ':' in "\t\r\n/?#@[]:";
  }

  lemma UserPartFree(username: string, password: string)
    requires Free(username, DELIMITERS + {'@', '[', ']'}) && Ascii(username)
    requires Free(password, DELIMITERS + {'@', '[', ']'}) && Ascii(password)
    ensures Free(UserPart(username, password), DELIMITERS + {'[', ']'}) && Ascii(UserPart(username, password))
  {
  }

  lemma UserPartApart(username: string, password: string, hostPart: string)
    requires Without(username, "\t\r\n/?#@[]:") && Without(password, "\t\r\n/?#@[]")
    requires username == "" ==> password == ""
    requires '@' !in hostPart
    ensures var netloc := UserPart(username, password) + hostPart;
      HostInfo(netloc) == hostPart &&
      Before(UserInfo(netloc), ':') == username && (username != "" ==> After(UserInfo(netloc), ':') == password)
  {
    UserChars(username);
    WithoutFree(username);
    WithoutFree(password);
    var a := Authority(username, password, "", 0);
    assert UserText(a) == UserPart(username, password);
    UserApart(a, hostPart);
  }

  /** The authority of an ordinary URL, put together and taken apart again. */
  function NetlocText(w: Written): string { UserPart(w.username, w.password) + HostPart(w.host, w.port) }

  lemma NetlocChars(lib: Library, w: Written)
    requires Ordinary(w)
    ensures Free(NetlocText(w), DELIMITERS) && Accepted(lib, NetlocText(w))
  {
    UserChars(w.username);
    WithoutFree(w.username);
    WithoutFree(w.password);
    UserPartFree(w.username, w.password);
    HostPartApart(w.host, w.port);
    FreeLess(HostPart(w.host, w.port), DELIMITERS + {'@', '[', ']'}, DELIMITERS + {'[', ']'});
    FreeAppend(UserPart(w.username, w.password), HostPart(w.host, w.port), DELIMITERS + {'[', ']'});
    NoBracketsAccepted(lib, NetlocText(w));
  }

  lemma NetlocParts(w: Written)
    requires Ordinary(w)
    ensures var netloc := NetlocText(w);
      RawHost(HostInfo(netloc)) == w.host && PortText(HostInfo(netloc)) == w.port &&
      Before(UserInfo(netloc), ':') == w.username && (w.username != "" ==> After(UserInfo(netloc), ':') == w.password)
  {
    HostPartApart(w.host, w.port);
    UserPartApart(w.username, w.password, HostPart(w.host, w.port));
  }

  lemma LowerAll(host: string, n: nat)
    requires n == |host|
    ensures LowerFirst(host, n) == Lower(host)
  {
  }

  /** Only the part of a host before a zone is read in lower case. */
  lemma ZoneKeepsCase(netloc: string, address: string, zone: string)
    requires RawHost(HostInfo(netloc)) == address + "%" + zone && '%' !in address
    ensures HostName(netloc) == Lower(address) + "%" + zone
  {
    var raw := address + "%" + zone;
    assert raw == address + ("%" + zone);
    UntilAt(address, "%" + zone, {'%'});
  }

  lemma NameOf(w: Written, netloc: string)
    requires Ordinary(w) && RawHost(HostInfo(netloc)) == w.host
    ensures HostName(netloc) == Lower(w.host)
  {
    HostChars(w.host);
    assert w.host + "" == w.host;
    UntilAt(w.host, "", {'%'});
    LowerAll(w.host, |w.host|);
  }

  lemma OrdinaryHost(lib: Library, host: string, name: string)
    requires name == Lower(host) && name != "" && Ascii(host) && !Loopback(name) && !lib.isAddress(name)
    ensures NormalHost(lib, name) == Some(name)
  {
    LoopbackExact(name);
    assert Lower(name) == name;
    assert Ascii(name);
  }

  /** A stored URL: "https", the user information, the host, a port that is not a default, the
      path and the query. */
  function StoredText(w: Written, name: string, port: nat, path: string, query: string): string {
    "https://" + UserPart(w.username, w.password) + name +
    (if port == 0 || port == 80 || port == 443 then "" else ":" + Decimal(port)) +
    path + (if query == "" then "" else "?" + query)
  }

  lemma StoredIs(w: Written, a: Authority, name: string, port: nat, path: string, query: string)
    requires a == Authority(w.username, w.password, name, if port in {80, 443} then 0 else port) && ':' !in name
    ensures Stored(a, path, query) == StoredText(w, name, port, path, query)
  {
    var user, suffix := UserPart(w.username, w.password), PortSuffix(a.port);
    var q := if query == "" then "" else "?" + query;
    assert Netloc(a) == user + (name + suffix);
    assert "https://" + (user + (name + suffix)) + (path + q) == "https://" + user + name + suffix + path + q;
  }

  lemma AuthorityRead(w: Written, netloc: string, name: string)
    requires PortText(HostInfo(netloc)) == w.port && !MalformedPort(w.port)
    requires w.username == "" ==> w.password == ""
    requires Before(UserInfo(netloc), ':') == w.username
    requires w.username != "" ==> After(UserInfo(netloc), ':') == w.password
    ensures NormalAuthority(netloc, name) ==
      Authority(w.username, w.password, name, if Number(w.port) in {80, 443} then 0 else Number(w.port))
  {
  }

  lemma JudgeHost(lib: Library, p: Parts, host: string, name: string, port: string)
    requires Accepted(lib, p.netloc) && (p.scheme == "http" || p.scheme == "https")
    requires HostName(p.netloc) == host && NormalHost(lib, host) == Some(name)
    requires PortText(HostInfo(p.netloc)) == port
    ensures MalformedPort(port) ==> Judge(lib, p) == Crashed
    ensures !MalformedPort(port) ==>
      Judge(lib, p) == Ok(Stored(NormalAuthority(p.netloc, name), RewritePath(p.path), QueryString.Canonical(p.query)))
  {
  }

  /** What a pass reads off an authority. */
  ghost predicate ReadsAs(lib: Library, w: Written, name: string, netloc: string) {
    Accepted(lib, netloc) && HostName(netloc) == name && NormalHost(lib, name) == Some(name) && ':' !in name &&
    PortText(HostInfo(netloc)) == w.port && Before(UserInfo(netloc), ':') == w.username &&
    (if w.username == "" then w.password == "" else After(UserInfo(netloc), ':') == w.password)
  }

  lemma LowerNoColon(host: string)
    requires ':' !in host
    ensures ':' !in Lower(host)
  {
    forall i | 0 <= i < |host| ensures Lower(host)[i] != ':' {
      assert host[i] != ':';
    }
  }

  lemma OrdinaryName(lib: Library, w: Written, name: string)
    requires Ordinary(w) && Lower(w.host) == name && !Loopback(name) && !lib.isAddress(name)
    ensures NormalHost(lib, name) == Some(name) && ':' !in name
  {
    HostChars(w.host);
    LowerNoColon(w.host);
    OrdinaryHost(lib, w.host, name);
  }

  lemma OrdinaryPort(w: Written)
    requires Ordinary(w)
    ensures AllDigits(w.port) && (w.username == "" ==> w.password == "")
  {
    PortDigits(w.port);
  }

  lemma OrdinaryReads(lib: Library, w: Written, name: string)
    requires Ordinary(w) && Lower(w.host) == name && NormalHost(lib, name) == Some(name) && ':' !in name
    ensures ReadsAs(lib, w, name, NetlocText(w))
  {
    NetlocChars(lib, w);
    NetlocParts(w);
    NameOf(w, NetlocText(w));
    OrdinaryPort(w);
  }

  /** What is stored for a URL with that authority, or that it crashes. */
  function OutcomeOf(w: Written, name: string, port: nat, path: string, query: string): Outcome {
    if port > 65535 then Crashed else Ok(StoredText(w, name, port, path, query))
  }

  lemma JudgeRead(lib: Library, w: Written, name: string, p: Parts)
    requires ReadsAs(lib, w, name, p.netloc) && AllDigits(w.port)
    requires (p.scheme == "http" || p.scheme == "https") && p.path == w.path && p.query == w.query
    ensures Judge(lib, p) ==
      OutcomeOf(w, name, Number(w.port), RewritePath(w.path), QueryString.Canonical(w.query))
  {
    var path, query := RewritePath(w.path), QueryString.Canonical(w.query);
    JudgeHost(lib, p, name, name, w.port);
    if Number(w.port) <= 65535 {
      AuthorityRead(w, p.netloc, name);
      StoredIs(w, NormalAuthority(p.netloc, name), name, Number(w.port), path, query);
    }
  }

  lemma PiecesJoined(scheme: string, user: string, host: string, suffix: string, path: string, query: string)
    ensures scheme + ":" + ("//" + (user + (host + suffix)) + (path + query)) ==
      scheme + "://" + user + host + suffix + path + query
  {
  }

  lemma TextIs(w: Written, base: string)
    requires base == w.scheme + ":" + ("//" + NetlocText(w) + WithQuery(w.path, w.query))
    ensures Text(w) == if w.fragment == "" then base else base + "#" + w.fragment
  {
    PiecesJoined(w.scheme, UserPart(w.username, w.password), w.host, if w.port == "" then "" else ":" + w.port,
                 w.path, if w.query == "" then "" else "?" + w.query);
    assert base + "" == base;
  }

  lemma TextApart(w: Written, lib: Library)
    requires Ordinary(w)
    ensures SplitUrl(Text(w)) == Parts(Lower(w.scheme), NetlocText(w), w.path, w.query)
  {
    var base := w.scheme + ":" + ("//" + NetlocText(w) + WithQuery(w.path, w.query));
    WrittenSchemeIsName(w.scheme);
    NetlocChars(lib, w);
    UrlApart(w.scheme, NetlocText(w), w.path, w.query, base);
    TextIs(w, base);
    if w.fragment != "" {
      FragmentDropped(base, w.fragment);
    }
  }

  lemma LowerSpells(host: string, name: string)
    requires Spells(host, name) && forall c :: c in name ==> c !in UPPER
    ensures Lower(host) == name && (Loopback(name) <==> Loopback(host))
  {
    forall i | 0 <= i < |name| ensures Lower(name)[i] == name[i] {
      assert name[i] in name;
      UpperIn(name[i]);
    }
    assert Lower(name) == name;
    SpellsExact(host, name);
    LoopbackExact(host);
    LoopbackExact(name);
  }

  lemma ValidateParts(lib: Library, url: string, p: Parts)
    requires SplitUrl(url) == p
    ensures Validate(lib, url) == if |url| > 2048 then Rejected else Judge(lib, p)
  {
  }

  /** An ordinary URL of a named host, from text to text: too long, it is rejected; with a port
      above 65535 it crashes; otherwise this is the text that is stored. */
  lemma OrdinaryExact(lib: Library, w: Written, name: string)
    requires Ordinary(w) && Spells(w.host, name) && (forall c :: c in name ==> c !in UPPER)
    requires !Loopback(w.host) && !lib.isAddress(name)
    ensures AllDigits(w.port)
    ensures Validate(lib, Text(w)) == if |Text(w)| > 2048 then Rejected
      else OutcomeOf(w, name, Number(w.port), RewritePath(w.path), QueryString.Canonical(w.query))
  {
    var p := Parts(Lower(w.scheme), NetlocText(w), w.path, w.query);
    LowerSpells(w.host, name);
    OrdinaryPort(w);
    OrdinaryName(lib, w, name);
    OrdinaryReads(lib, w, name);
    WebSchemeExact(w.scheme, "http", "https");
    JudgeRead(lib, w, name, p);
    TextApart(w, lib);
    ValidateParts(lib, Text(w), p);
  }

  lemma LoopbackRefused(lib: Library, host: string)
    requires Loopback(host)
    ensures NormalHost(lib, Lower(host)).None?
  {
    LoopbackExact(host);
    assert Lower(Lower(host)) == Lower(host);
  }

  /** And one of this machine is rejected. */
  lemma LoopbackRejected(lib: Library, w: Written)
    requires Ordinary(w) && Loopback(w.host)
    ensures Validate(lib, Text(w)) == Rejected
  {
    var p := Parts(Lower(w.scheme), NetlocText(w), w.path, w.query);
    NetlocParts(w);
    NameOf(w, NetlocText(w));
    LoopbackRefused(lib, w.host);
    JudgeExact(lib, p);
    TextApart(w, lib);
    ValidateParts(lib, Text(w), p);
  }

  lemma DecimalStep(n: nat, d: nat)
    requires d < 10
    ensures Decimal(10 * n + d) == (if n == 0 then "" else Decimal(n)) + ['0' + d as char]
  {
  }

  lemma LastDigit(port: string) returns (d: nat)
    requires AllDigits(port) && port != ""
    ensures d < 10 && port == Front(port) + ['0' + d as char] && AllDigits(Front(port))
    ensures Number(port) == 10 * Number(Front(port)) + d
  {
    d := (Last(port) - '0') as nat;
  }

  /** A port written without leading zeros is stored as it was. */
  lemma {:induction false} DecimalOfNumber(port: string)
    requires AllDigits(port) && port != "" && (|port| == 1 || port[0] != '0')
    ensures Decimal(Number(port)) == port && (port[0] != '0' ==> Number(port) > 0)
  {
    var d := LastDigit(port);
    if |port| == 1 {
      assert Front(port) == "" && Number(Front(port)) == 0;
    } else {
      DecimalOfNumber(Front(port));
    }
    DecimalStep(Number(Front(port)), d);
  }
}
