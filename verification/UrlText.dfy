/** Taking URL text apart as Python's urllib.parse does (CPython 3.12.9), after sections 3 and
    3.2 of RFC 3986. */
module UrlText {
  import opened Common

  const BREAKS: set<char> := {'\t', '\r', '\n'}
  const DELIMITERS: set<char> := BREAKS + {'/', '?', '#'} // what ends an authority
  const QUERY_ENDS: set<char> := BREAKS + {'#'}
  const PATH_ENDS: set<char> := QUERY_ENDS + {'?'}

  ghost predicate Free(s: string, stop: set<char>) { forall i :: 0 <= i < |s| ==> s[i] !in stop }

  lemma FreeAppend(a: string, b: string, stop: set<char>)
    requires Free(a, stop) && Free(b, stop)
    ensures Free(a + b, stop)
  {
  }

  lemma FreeLess(s: string, stop: set<char>, less: set<char>)
    requires Free(s, stop) && less <= stop
    ensures Free(s, less)
  {
  }

  // ---- finding separators ----

  /** How many characters come before the first one in `stop`. */
  function Until(s: string, stop: set<char>): (n: nat)
    ensures n <= |s| && forall i :: 0 <= i < n ==> s[i] !in stop
    ensures n < |s| ==> s[n] in stop
  {
    if s == "" || s[0] in stop then 0 else 1 + Until(s[1..], stop)
  }

  /** How many characters come after the last `sep`: all of them, if there is none. */
  function SinceLast(s: string, sep: char): (n: nat)
    ensures n <= |s| && forall i :: |s| - n <= i < |s| ==> s[i] != sep
    ensures n < |s| ==> s[|s| - n - 1] == sep
  {
    if s == "" || Last(s) == sep then 0 else 1 + SinceLast(Front(s), sep)
  }

  /** The two sides of Python's `s.partition(sep)`. */
  function Before(s: string, sep: char): string { s[..Until(s, {sep})] }

  function After(s: string, sep: char): string {
    var n := Until(s, {sep});
    if n < |s| then s[n + 1..] else ""
  }

  lemma UntilAt(a: string, b: string, stop: set<char>)
    requires Free(a, stop) && (b == "" || b[0] in stop)
    ensures Until(a + b, stop) == |a|
  {
    assert b != "" ==> (a + b)[|a|] == b[0];
    assert forall i :: 0 <= i < |a| ==> (a + b)[i] == a[i];
  }

  lemma Partition(a: string, sep: char, b: string)
    requires sep !in a
    ensures Before(a + [sep] + b, sep) == a && After(a + [sep] + b, sep) == b
  {
    assert a + [sep] + b == a + ([sep] + b);
    UntilAt(a, [sep] + b, {sep});
  }

  lemma NoPartition(a: string, sep: char)
    requires sep !in a
    ensures Before(a, sep) == a && After(a, sep) == ""
  {
    assert a + "" == a;
    UntilAt(a, "", {sep});
  }

  lemma SinceLastAt(a: string, sep: char, b: string)
    requires sep !in b && (a == "" || Last(a) == sep)
    ensures SinceLast(a + b, sep) == |b|
  {
    var s := a + b;
    assert a != "" ==> s[|a| - 1] == sep;
    assert forall i :: |a| <= i < |s| ==> s[i] == b[i - |a|];
  }

  // ---- urlsplit ----

  function LowerChar(c: char): char { if 'A' <= c <= 'Z' then c - 'A' + 'a' else c }

  function Lower(s: string): (r: string)
    ensures |r| == |s| && forall i :: 0 <= i < |s| ==> r[i] == LowerChar(s[i])
  {
    seq(|s|, i requires 0 <= i < |s| => LowerChar(s[i]))
  }

  predicate Letter(c: char) { 'a' <= LowerChar(c) <= 'z' }

  predicate Digit(c: char) { '0' <= c <= '9' }

  predicate SchemeChar(c: char) { Letter(c) || Digit(c) || c in {'+', '-', '.'} }

  /** Leading spaces and control characters go. */
  function SkipControls(s: string): string {
    if s != "" && s[0] <= ' ' then SkipControls(s[1..]) else s
  }

  /** So do tabs and line breaks anywhere. */
  function RemoveBreaks(s: string): (r: string)
    ensures Free(r, BREAKS)
  {
    if s == "" then "" else (if s[0] in BREAKS then "" else [s[0]]) + RemoveBreaks(s[1..])
  }

  /** What urlsplit makes of a URL, without its fragment; an absent part is empty. */
  datatype Parts = Parts(scheme: string, netloc: string, path: string, query: string)

  predicate HasScheme(s: string) {
    var n := Until(s, {':'});
    0 < n < |s| && Letter(s[0]) && forall i :: 0 <= i < n ==> SchemeChar(s[i])
  }

  /** The text after the scheme: an authority if it starts with "//", then path and query. */
  function SplitRest(scheme: string, s: string): Parts {
    var slashes := |s| >= 2 && s[0] == '/' && s[1] == '/';
    var n := if slashes then 2 + Until(s[2..], {'/', '?', '#'}) else 0;
    var noFragment := Before(s[n..], '#');
    Parts(scheme, if slashes then s[2..n] else "", Before(noFragment, '?'), After(noFragment, '?'))
  }

  function SplitClean(s: string): Parts {
    if HasScheme(s) then SplitRest(Lower(Before(s, ':')), After(s, ':')) else SplitRest("", s)
  }

  function SplitUrl(url: string): Parts {
    SplitClean(RemoveBreaks(SkipControls(url)))
  }

  // ---- the parts of an authority ----

  function HostInfo(netloc: string): string { netloc[|netloc| - SinceLast(netloc, '@')..] }

  function UserInfo(netloc: string): string {
    var n := SinceLast(netloc, '@');
    if n == |netloc| then "" else netloc[..|netloc| - n - 1]
  }

  /** Host and port of "host:port" or "[host]:port". */
  function RawHost(hostInfo: string): string {
    if '[' in hostInfo then Before(After(hostInfo, '['), ']') else Before(hostInfo, ':')
  }

  function PortText(hostInfo: string): string {
    if '[' in hostInfo then After(After(After(hostInfo, '['), ']'), ':') else After(hostInfo, ':')
  }

  // ---- path and parameters ----

  /** Where the parameters' ';' stands: the first one after the last '/'. */
  function Cut(path: string): (n: nat)
    ensures n <= |path| && (n < |path| ==> path[n] == ';')
    ensures path != "" && path[0] == '/' ==> 0 < n
  {
    var start := |path| - SinceLast(path, '/');
    assert path != "" && path[0] == '/' && start == 0 ==> path[start..][0] == '/';
    start + Until(path[start..], {';'})
  }

  function PathOf(path: string): string { path[..Cut(path)] }

  function ParamsOf(path: string): string { if Cut(path) < |path| then path[Cut(path) + 1..] else "" }

  // ---- what can occur in the parts ----

  lemma FreeBefore(s: string, sep: char, stop: set<char>)
    requires Free(s, stop)
    ensures Free(Before(s, sep), stop + {sep}) && Free(After(s, sep), stop)
  {
  }

  lemma FreeSplitRest(scheme: string, s: string)
    requires Free(s, BREAKS)
    ensures var p := SplitRest(scheme, s);
      Free(p.netloc, DELIMITERS) && Free(p.path, PATH_ENDS) && Free(p.query, QUERY_ENDS)
    ensures var p := SplitRest(scheme, s);
      p.netloc != "" && p.path != "" ==> p.path[0] == '/'
  {
    var slashes := |s| >= 2 && s[0] == '/' && s[1] == '/';
    var n := if slashes then 2 + Until(s[2..], {'/', '?', '#'}) else 0;
    if slashes {
      assert s[2..n] == s[2..][..n - 2];
      assert n < |s| ==> s[n] == s[2..][n - 2];
    }
    FreeBefore(s[n..], '#', BREAKS);
    FreeBefore(Before(s[n..], '#'), '?', QUERY_ENDS);
  }

  /** The parts contain none of the characters that delimit them, and a path is rooted. */
  lemma SplitUrlFree(url: string)
    ensures var p := SplitUrl(url);
      Free(p.netloc, DELIMITERS) && Free(p.path, PATH_ENDS) && Free(p.query, QUERY_ENDS)
    ensures var p := SplitUrl(url);
      p.netloc != "" && p.path != "" ==> p.path[0] == '/'
  {
    var s := RemoveBreaks(SkipControls(url));
    if HasScheme(s) {
      FreeSplitRest(Lower(Before(s, ':')), After(s, ':'));
    } else {
      FreeSplitRest("", s);
    }
  }

  lemma {:induction false} RemoveNoBreaks(s: string)
    requires Free(s, BREAKS)
    ensures RemoveBreaks(s) == s
  {
    if s != "" {
      RemoveNoBreaks(s[1..]);
      assert s[0] !in BREAKS && s == [s[0]] + s[1..];
    }
  }

  /** A query after its path, and the two apart again. */
  function WithQuery(path: string, query: string): string {
    path + if query == "" then "" else "?" + query
  }

  lemma FreeQuery(path: string, query: string)
    requires Free(path, PATH_ENDS) && Free(query, QUERY_ENDS)
    ensures Free(WithQuery(path, query), QUERY_ENDS) && '?' !in path && '#' !in WithQuery(path, query)
  {
    FreeLess(path, PATH_ENDS, QUERY_ENDS);
    FreeAppend("?", query, QUERY_ENDS);
    FreeAppend(path, if query == "" then "" else "?" + query, QUERY_ENDS);
  }

  lemma QueryApart(path: string, query: string)
    requires Free(path, PATH_ENDS) && Free(query, QUERY_ENDS)
    ensures var tail := WithQuery(path, query);
      Free(tail, QUERY_ENDS) && Before(tail, '#') == tail && Before(tail, '?') == path && After(tail, '?') == query
  {
    var tail := WithQuery(path, query);
    FreeQuery(path, query);
    NoPartition(tail, '#');
    if query == "" {
      assert tail == path;
      NoPartition(path, '?');
    } else {
      assert tail == path + ['?'] + query;
      Partition(path, '?', query);
    }
  }

  lemma AuthorityApart(scheme: string, netloc: string, tail: string)
    requires Free(netloc, DELIMITERS) && (tail == "" || tail[0] in {'/', '?', '#'})
    requires Before(tail, '#') == tail
    ensures SplitRest(scheme, "//" + netloc + tail) == Parts(scheme, netloc, Before(tail, '?'), After(tail, '?'))
  {
    var s := "//" + netloc + tail;
    assert s[2..] == netloc + tail;
    UntilAt(netloc, tail, {'/', '?', '#'});
    assert s[2..2 + |netloc|] == netloc && s[2 + |netloc|..] == tail;
  }

  lemma {:induction false} RemoveBreaksConcat(a: string, b: string)
    ensures RemoveBreaks(a + b) == RemoveBreaks(a) + RemoveBreaks(b)
  {
    if a == "" {
      assert a + b == b;
    } else {
      assert (a + b)[1..] == a[1..] + b;
      RemoveBreaksConcat(a[1..], b);
    }
  }

  ghost predicate SchemeName(s: string) { s != "" && Letter(s[0]) && forall i :: 0 <= i < |s| ==> SchemeChar(s[i]) }

  lemma SchemeNameFree(name: string)
    requires SchemeName(name)
    ensures Free(name, BREAKS) && ':' !in name && name[0] > ' '
  {
  }

  lemma SchemeFound(name: string, s: string, rest: string)
    requires SchemeName(name) && s == name + ":" + rest
    ensures HasScheme(s) && Before(s, ':') == name && After(s, ':') == rest
  {
    SchemeNameFree(name);
    assert s == name + [':'] + rest;
    Partition(name, ':', rest);
    assert Until(s, {':'}) == |Before(s, ':')| == |name|;
    assert forall i :: 0 <= i < |name| ==> s[i] == name[i] && SchemeChar(s[i]);
  }

  lemma SchemeKept(name: string, url: string, rest: string)
    requires SchemeName(name) && url == name + ":" + rest
    ensures RemoveBreaks(SkipControls(url)) == name + ":" + RemoveBreaks(rest)
  {
    SchemeNameFree(name);
    assert SkipControls(url) == url;
    assert Free(name + ":", BREAKS);
    RemoveNoBreaks(name + ":");
    RemoveBreaksConcat(name + ":", rest);
  }

  /** A scheme is what comes before the first colon, in lower case. */
  lemma SchemeApart(name: string, rest: string)
    requires SchemeName(name)
    ensures SplitUrl(name + ":" + rest) == SplitRest(Lower(name), RemoveBreaks(rest))
  {
    SchemeKept(name, name + ":" + rest, rest);
    SchemeFound(name, name + ":" + RemoveBreaks(rest), RemoveBreaks(rest));
  }

  lemma AuthorityFree(netloc: string, tail: string)
    requires Free(netloc, DELIMITERS) && Free(tail, QUERY_ENDS)
    ensures Free("//" + netloc + tail, BREAKS)
    ensures "https://" + netloc + tail == "https:" + ("//" + netloc + tail)
  {
  }

  /** A URL put together from a scheme, an authority, a path and a query comes apart into them. */
  lemma UrlApart(name: string, netloc: string, path: string, query: string, url: string)
    requires SchemeName(name)
    requires Free(netloc, DELIMITERS) && Free(path, PATH_ENDS) && Free(query, QUERY_ENDS)
    requires path == "" || path[0] == '/'
    requires url == name + ":" + ("//" + netloc + WithQuery(path, query))
    ensures SplitUrl(url) == Parts(Lower(name), netloc, path, query)
  {
    QueryApart(path, query);
    AuthorityApart(Lower(name), netloc, WithQuery(path, query));
    AuthorityFree(netloc, WithQuery(path, query));
    RemoveNoBreaks("//" + netloc + WithQuery(path, query));
    SchemeApart(name, "//" + netloc + WithQuery(path, query));
  }

  lemma HttpsIsName(name: string)
    requires name == "https"
    ensures SchemeName(name) && Lower(name) == name
  {
  }

  lemma HttpsApart(netloc: string, path: string, query: string, name: string, url: string)
    requires Free(netloc, DELIMITERS) && Free(path, PATH_ENDS) && Free(query, QUERY_ENDS)
    requires path == "" || path[0] == '/'
    requires SchemeName(name) && Lower(name) == name
    requires url == name + "://" + netloc + WithQuery(path, query)
    ensures SplitUrl(url) == Parts(name, netloc, path, query)
  {
    assert name + "://" + netloc + WithQuery(path, query) == name + ":" + ("//" + netloc + WithQuery(path, query));
    UrlApart(name, netloc, path, query, url);
  }

  /** An https URL put together from such parts comes apart into the same parts. */
  lemma SplitUrlOf(netloc: string, path: string, query: string)
    requires Free(netloc, DELIMITERS) && Free(path, PATH_ENDS) && Free(query, QUERY_ENDS)
    requires path == "" || path[0] == '/'
    ensures SplitUrl("https://" + netloc + WithQuery(path, query)) == Parts("https", netloc, path, query)
  {
    var name := "https";
    HttpsIsName(name);
    assert name + "://" == "https://";
    HttpsApart(netloc, path, query, name, name + "://" + netloc + WithQuery(path, query));
  }

  // ---- what a browser would ignore ----

  /** A leading space or control character makes no difference. */
  lemma ControlSkipped(c: char, url: string)
    requires c as int <= 0x20
    ensures SplitUrl([c] + url) == SplitUrl(url)
  {
    assert ([c] + url)[1..] == url;
  }

  lemma {:induction false} SkipControlsConcat(a: string, b: string)
    ensures SkipControls(a + b) == if SkipControls(a) == "" then SkipControls(b) else SkipControls(a) + b
  {
    if a == "" {
      assert a + b == b;
    } else if a[0] <= ' ' {
      assert (a + b)[1..] == a[1..] + b;
      SkipControlsConcat(a[1..], b);
    }
  }

  lemma SplitsAlike(u: string, v: string)
    requires RemoveBreaks(SkipControls(u)) == RemoveBreaks(SkipControls(v))
    ensures SplitUrl(u) == SplitUrl(v)
  {
  }

  lemma BreakStep(c: char, b: string)
    requires c in {'\t', '\n', '\r'}
    ensures SkipControls([c] + b) == SkipControls(b) && RemoveBreaks([c] + b) == RemoveBreaks(b)
  {
    assert ([c] + b)[1..] == b;
  }

  /** Neither does a tab or a line break, wherever it stands. */
  lemma BreakIgnored(a: string, c: char, b: string)
    requires c in {'\t', '\n', '\r'}
    ensures SplitUrl(a + [c] + b) == SplitUrl(a + b)
  {
    var kept := SkipControls(a);
    SkipControlsConcat(a, b);
    SkipControlsConcat(a, [c] + b);
    assert a + [c] + b == a + ([c] + b);
    BreakStep(c, b);
    RemoveBreaksConcat(kept, b);
    RemoveBreaksConcat(kept, [c] + b);
    SplitsAlike(a + [c] + b, a + b);
  }

  lemma UntilConcat(a: string, b: string, stop: set<char>)
    requires b != "" && b[0] in stop
    ensures Until(a + b, stop) == Until(a, stop)
  {
    if a != "" && a[0] !in stop {
      assert (a + b)[1..] == a[1..] + b;
      UntilConcat(a[1..], b, stop);
    } else {
      assert a == "" ==> a + b == b;
    }
  }

  lemma UntilBeyond(a: string, b: string, stop: set<char>)
    requires Free(a, stop)
    ensures Until(a + b, stop) == |a| + Until(b, stop)
  {
    if a == "" {
      assert a + b == b;
    } else {
      assert (a + b)[1..] == a[1..] + b;
      UntilBeyond(a[1..], b, stop);
    }
  }

  lemma BeforeHash(s: string, fragment: string)
    ensures Before(s + "#" + fragment, '#') == Before(s, '#')
  {
    assert s + "#" + fragment == s + ("#" + fragment);
    UntilConcat(s, "#" + fragment, {'#'});
  }

  lemma FragmentKeepsSlashes(s: string, t: string, n: nat, fragment: string)
    requires t == s + "#" + fragment && |s| >= 2 && s[0] == '/' && s[1] == '/'
    requires n == 2 + Until(s[2..], {'/', '?', '#'})
    ensures n == 2 + Until(t[2..], {'/', '?', '#'}) && n <= |s| && t[2..n] == s[2..n]
  {
    assert t[2..] == s[2..] + ("#" + fragment);
    UntilConcat(s[2..], "#" + fragment, {'/', '?', '#'});
  }

  lemma RestWithFragment(scheme: string, s: string, fragment: string)
    ensures SplitRest(scheme, s + "#" + fragment) == SplitRest(scheme, s)
  {
    var t := s + "#" + fragment;
    var slashes := |s| >= 2 && s[0] == '/' && s[1] == '/';
    assert slashes <==> |t| >= 2 && t[0] == '/' && t[1] == '/';
    var n := if slashes then 2 + Until(s[2..], {'/', '?', '#'}) else 0;
    if slashes {
      FragmentKeepsSlashes(s, t, n, fragment);
    }
    assert t[n..] == s[n..] + "#" + fragment;
    BeforeHash(s[n..], fragment);
  }

  lemma UntilKept(s: string, more: string, stop: set<char>)
    requires Until(s, stop) < |s|
    ensures Until(s + more, stop) == Until(s, stop)
  {
    var n := Until(s, stop);
    assert s + more == s[..n] + (s[n..] + more);
    UntilAt(s[..n], s[n..] + more, stop);
  }

  lemma UntilPast(s: string, more: string, stop: set<char>)
    requires Free(s, stop) && more != "" && more[0] !in stop
    ensures Until(s + more, stop) > |s|
  {
    UntilBeyond(s, more, stop);
  }

  lemma ColonWithFragment(s: string, t: string, fragment: string)
    requires t == s + ("#" + fragment)
    ensures ':' in s ==> Until(t, {':'}) == Until(s, {':'})
    ensures ':' !in s ==> Until(t, {':'}) > |s|
  {
    if ':' in s {
      UntilKept(s, "#" + fragment, {':'});
    } else {
      UntilPast(s, "#" + fragment, {':'});
    }
  }

  lemma NoSchemeWithFragment(s: string, t: string, fragment: string)
    requires t == s + ("#" + fragment) && ':' !in s
    ensures !HasScheme(t) && !HasScheme(s)
  {
    ColonWithFragment(s, t, fragment);
    assert t[|s|] == '#' && !SchemeChar(t[|s|]);
  }

  lemma SchemeWithFragment(s: string, t: string, fragment: string)
    requires t == s + ("#" + fragment) && ':' in s
    ensures HasScheme(t) == HasScheme(s)
    ensures Before(t, ':') == Before(s, ':') && After(t, ':') == After(s, ':') + "#" + fragment
  {
    var n := Until(s, {':'});
    ColonWithFragment(s, t, fragment);
    assert t[..n] == s[..n] && t[n + 1..] == s[n + 1..] + "#" + fragment;
    assert n > 0 ==> t[0] == s[..n][0];
    assert forall i :: 0 <= i < n ==> t[i] == s[i];
  }

  lemma CleanedWithFragment(url: string, fragment: string)
    ensures RemoveBreaks(SkipControls(url + "#" + fragment)) ==
      RemoveBreaks(SkipControls(url)) + ("#" + RemoveBreaks(fragment))
  {
    SkipControlsConcat(url, "#" + fragment);
    assert url + "#" + fragment == url + ("#" + fragment);
    RemoveBreaksConcat(SkipControls(url), "#" + fragment);
    RemoveBreaksConcat("#", fragment);
    RemoveNoBreaks("#");
  }

  lemma CleanWithFragment(s: string, t: string, fragment: string)
    requires t == s + ("#" + fragment)
    ensures SplitClean(t) == SplitClean(s)
  {
    assert t == s + "#" + fragment;
    if ':' in s {
      SchemeWithFragment(s, t, fragment);
    } else {
      NoSchemeWithFragment(s, t, fragment);
    }
    if HasScheme(s) {
      RestWithFragment(Lower(Before(s, ':')), After(s, ':'), fragment);
    } else {
      RestWithFragment("", s, fragment);
    }
  }

  /** And neither does a fragment. */
  lemma FragmentDropped(url: string, fragment: string)
    ensures SplitUrl(url + "#" + fragment) == SplitUrl(url)
  {
    var s := RemoveBreaks(SkipControls(url));
    CleanedWithFragment(url, fragment);
    CleanWithFragment(s, s + ("#" + RemoveBreaks(fragment)), RemoveBreaks(fragment));
  }
}
