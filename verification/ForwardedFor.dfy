/** Which address counts as the client's (backend/rate_limiter/ip_extraction.py). */
module ForwardedFor {
  import opened Common
  import opened Text

  /** The Latin-1 characters Python's `str.strip` removes. */
  predicate IsSpace(c: char) {
    '\t' <= c <= '\r' || '\U{1c}' <= c <= ' ' || c == '\U{85}' || c == '\U{a0}'
  }

  function TrimLeft(s: string): string {
    if s != "" && IsSpace(s[0]) then TrimLeft(s[1..]) else s
  }

  function TrimRight(s: string): string {
    if s != "" && IsSpace(Last(s)) then TrimRight(Front(s)) else s
  }

  function Trim(s: string): string { TrimRight(TrimLeft(s)) }

  /** The trimmed fields, without the empty ones. */
  function NonEmpty(fields: seq<string>): seq<string> {
    if fields == [] then []
    else NonEmpty(Front(fields)) + if Trim(Last(fields)) != "" then [Trim(Last(fields))] else []
  }

  function Entries(xff: string): seq<string> { NonEmpty(Split(xff, ',')) }

  function ExtractClientIp(xff: Option<string>, peer: Option<string>, trustedProxies: nat): Option<string> {
    if trustedProxies == 0 then peer
    else if xff.None? || xff.value == "" then peer
    else
      var entries := Entries(xff.value);
      if |entries| >= trustedProxies then Some(entries[|entries| - trustedProxies]) else peer
  }

  /** A peer address as a proxy writes it. */
  ghost predicate Clean(a: string) {
    a != "" && ',' !in a && !IsSpace(a[0]) && !IsSpace(Last(a))
  }

  ghost predicate Padding(s: string) { forall i :: 0 <= i < |s| ==> IsSpace(s[i]) }

  /** One proxy: it appends its upstream's address after a comma and perhaps spaces,
      or starts the header if there is none. */
  function Append(xff: Option<string>, padding: string, address: string): Option<string> {
    if xff.None? then Some(address) else Some(xff.value + "," + padding + address)
  }

  /** A chain of proxies, each with its own padding. */
  function Forward(xff: Option<string>, hops: seq<(string, string)>): Option<string> {
    if hops == [] then xff else Append(Forward(xff, Front(hops)), Last(hops).0, Last(hops).1)
  }

  lemma {:induction false} NonEmptyConcat(a: seq<string>, b: seq<string>)
    ensures NonEmpty(a + b) == NonEmpty(a) + NonEmpty(b)
  {
    if b == [] {
      assert a + b == a;
    } else {
      NonEmptyConcat(a, Front(b));
      assert Front(a + b) == a + Front(b) && Last(a + b) == Last(b);
    }
  }

  lemma {:induction false} TrimPadded(padding: string, a: string)
    requires Padding(padding) && Clean(a)
    ensures Trim(padding + a) == a
  {
    if padding == "" {
      assert padding + a == a;
    } else {
      assert (padding + a)[1..] == padding[1..] + a;
      TrimPadded(padding[1..], a);
    }
  }

  lemma {:induction false} TrimRightPadded(a: string, padding: string)
    requires Padding(padding) && (a == "" || !IsSpace(Last(a)))
    ensures TrimRight(a + padding) == a
  {
    if padding == "" {
      assert a + padding == a;
    } else {
      assert Front(a + padding) == a + Front(padding);
      TrimRightPadded(a, Front(padding));
    }
  }

  lemma {:induction false} TrimLeftPadded(padding: string, rest: string)
    requires Padding(padding) && (rest == "" || !IsSpace(rest[0]))
    ensures TrimLeft(padding + rest) == rest
  {
    if padding == "" {
      assert padding + rest == rest;
    } else {
      assert (padding + rest)[1..] == padding[1..] + rest;
      TrimLeftPadded(padding[1..], rest);
    }
  }

  lemma PaddingNoComma(padding: string)
    requires Padding(padding)
    ensures ',' !in padding
  {
  }

  lemma EntriesOfAddress(padding: string, a: string)
    requires Padding(padding) && Clean(a)
    ensures Entries(padding + a) == [a]
  {
    PaddingNoComma(padding);
    assert ',' !in padding + a;
    SplitNone(padding + a, ',');
    TrimPadded(padding, a);
    assert NonEmpty(Front([padding + a])) == [];
  }

  // ---- the entries of any header ----

  /** The white space of Latin-1, character by character. */
  const BLANKS: seq<char> :=
    ['\t', '\n', '\U{b}', '\U{c}', '\r', '\U{1c}', '\U{1d}', '\U{1e}', '\U{1f}', ' ', '\U{85}', '\U{a0}']

  lemma BlankExact(c: char)
    ensures IsSpace(c) <==> c in BLANKS
  {
    var i := c as int;
    assert i == 0xb ==> c == BLANKS[2];
    assert i == 0xc ==> c == BLANKS[3];
  }

  ghost predicate Blank(s: string) { forall c :: c in s ==> c in BLANKS }

  lemma BlankIsPadding(s: string)
    requires Blank(s)
    ensures Padding(s) && ',' !in s
  {
    forall i | 0 <= i < |s| ensures IsSpace(s[i]) {
      BlankExact(s[i]);
    }
  }

  lemma BlankTrimmed(left: string, right: string)
    requires Blank(left) && Blank(right)
    ensures Trim(left + right) == ""
  {
    BlankIsPadding(left + right);
    assert left + right + "" == left + right;
    TrimLeftPadded(left + right, "");
  }

  lemma FieldTrimmed(left: string, a: string, right: string)
    requires Blank(left) && Blank(right) && a != "" && a[0] !in BLANKS && Last(a) !in BLANKS
    ensures Trim(left + (a + right)) == a
  {
    BlankIsPadding(left);
    BlankIsPadding(right);
    BlankExact(a[0]);
    BlankExact(Last(a));
    TrimLeftPadded(left, a + right);
    TrimRightPadded(a, right);
  }

  lemma FieldTrims(left: string, a: string, right: string)
    requires Blank(left) && Blank(right)
    requires a != "" ==> a[0] !in BLANKS && Last(a) !in BLANKS
    ensures Trim(left + a + right) == a
  {
    if a == "" {
      assert left + a + right == left + right;
      BlankTrimmed(left, right);
    } else {
      assert left + a + right == left + (a + right);
      FieldTrimmed(left, a, right);
    }
  }

  lemma OneField(field: string, a: string)
    requires ',' !in field && Trim(field) == a
    ensures Entries(field) == if a != "" then [a] else []
  {
    SplitNone(field, ',');
    assert NonEmpty(Front([field])) == [];
  }

  /** A field gives the text between its outer white space, or nothing if that is all it has. */
  lemma FieldEntries(left: string, a: string, right: string)
    requires Blank(left) && Blank(right) && ',' !in a
    requires a != "" ==> a[0] !in BLANKS && Last(a) !in BLANKS
    ensures Entries(left + a + right) == if a == "" then [] else [a]
  {
    BlankIsPadding(left);
    BlankIsPadding(right);
    FieldTrims(left, a, right);
    OneField(left + a + right, a);
  }

  /** And the fields are what commas separate, in order. */
  lemma EntriesJoined(x: string, y: string)
    ensures Entries(x + "," + y) == Entries(x) + Entries(y)
  {
    SplitAt(x, y, ',');
    NonEmptyConcat(Split(x, ','), Split(y, ','));
  }

  // ---- what a proxy adds ----

  function EntriesOf(xff: Option<string>): seq<string> {
    if xff.None? then [] else Entries(xff.value)
  }

  lemma EntriesAppended(xff: string, padding: string, a: string)
    requires Padding(padding) && Clean(a)
    ensures Entries(xff + "," + padding + a) == Entries(xff) + [a]
  {
    EntriesOfAddress(padding, a);
    SplitAt(xff, padding + a, ',');
    NonEmptyConcat(Split(xff, ','), Split(padding + a, ','));
    assert xff + "," + padding + a == xff + [','] + (padding + a);
  }

  /** Each proxy adds exactly its own address to the entries, whatever came before. */
  lemma AppendAddsEntry(xff: Option<string>, padding: string, a: string)
    requires Padding(padding) && Clean(a)
    ensures var after := Append(xff, padding, a);
      after.Some? && after.value != "" &&
      EntriesOf(after) == EntriesOf(xff) + [a]
  {
    if xff.None? {
      EntriesOfAddress("", a);
      assert "" + a == a;
    } else {
      EntriesAppended(xff.value, padding, a);
    }
  }

  ghost predicate CleanHops(hops: seq<(string, string)>) {
    forall i :: 0 <= i < |hops| ==> Padding(hops[i].0) && Clean(hops[i].1)
  }

  function Addresses(hops: seq<(string, string)>): (r: seq<string>)
    ensures |r| == |hops| && forall i :: 0 <= i < |hops| ==> r[i] == hops[i].1
  {
    if hops == [] then [] else Addresses(Front(hops)) + [Last(hops).1]
  }

  lemma AddressesAppended(before: seq<string>, hops: seq<(string, string)>)
    requires hops != []
    ensures before + Addresses(hops) == before + Addresses(Front(hops)) + [Last(hops).1]
  {
  }

  lemma ForwardNone(xff: Option<string>)
    ensures EntriesOf(Forward(xff, [])) == EntriesOf(xff) + Addresses([])
  {
  }

  /** After the chain, the entries are the client's own followed by the proxies', in order. */
  lemma {:induction false} ForwardEntries(xff: Option<string>, hops: seq<(string, string)>)
    requires CleanHops(hops)
    ensures EntriesOf(Forward(xff, hops)) == EntriesOf(xff) + Addresses(hops)
    ensures hops != [] ==> Forward(xff, hops).Some? && Forward(xff, hops).value != ""
  {
    if hops == [] {
      ForwardNone(xff);
    } else {
      ForwardEntries(xff, Front(hops));
      AppendAddsEntry(Forward(xff, Front(hops)), Last(hops).0, Last(hops).1);
      AddressesAppended(EntriesOf(xff), hops);
    }
  }

  lemma NthFromRight(a: seq<string>, b: seq<string>, n: nat)
    requires 1 <= n <= |b|
    ensures (a + b)[|a + b| - n] == b[|b| - n]
  {
  }

  /** With no trusted proxy, or too few entries, it is the socket peer; otherwise an entry. */
  lemma PeerExactlyWhen(xff: Option<string>, peer: Option<string>, n: nat)
    ensures var e := EntriesOf(xff);
      ExtractClientIp(xff, peer, n) == if 1 <= n <= |e| then Some(e[|e| - n]) else peer
  {
    assert Split("", ',') == [""] && Front([""]) == [];
    assert Entries("") == [];
  }

  lemma EntryDecides(xff: Option<string>, own: seq<string>, seen: seq<string>, peer: Option<string>, n: nat)
    requires 1 <= n <= |seen| && EntriesOf(xff) == own + seen
    ensures ExtractClientIp(xff, peer, n) == Some(seen[|seen| - n])
  {
    PeerExactlyWhen(xff, peer, n);
    NthFromRight(own, seen, n);
  }

  /** Behind N >= 1 trusted proxies the client is the address the outermost of them saw,
      no matter what the client itself wrote into the header; proxies further out than the
      N trusted ones do not change that. */
  lemma TrustedHopDecides(xff: Option<string>, hops: seq<(string, string)>, peer: Option<string>, n: nat)
    requires 1 <= n <= |hops| && CleanHops(hops)
    ensures ExtractClientIp(Forward(xff, hops), peer, n) == Some(hops[|hops| - n].1)
  {
    ForwardEntries(xff, hops);
    EntryDecides(Forward(xff, hops), EntriesOf(xff), Addresses(hops), peer, n);
  }

  const ADDRESS: string := "0123456789abcdefABCDEF.:"

  lemma AddressIsClean(a: string)
    requires a != "" && forall c :: c in a ==> c in ADDRESS
    ensures Clean(a)
  {
    forall c | c in a ensures !IsSpace(c) && c != ',' {
      assert c in ADDRESS;
    }
    assert a[0] in a && Last(a) in a;
  }

  /** Proxies that write ", " and an IP address, as they do in practice. */
  function CommaSpace(seen: seq<string>): (r: seq<(string, string)>)
    ensures |r| == |seen| && forall i :: 0 <= i < |seen| ==> r[i] == (" ", seen[i])
  {
    seq(|seen|, i requires 0 <= i < |seen| => (" ", seen[i]))
  }

  lemma CommaSpaceDecides(xff: Option<string>, seen: seq<string>, peer: Option<string>, n: nat)
    requires 1 <= n <= |seen|
    requires forall a :: a in seen ==> a != "" && forall c :: c in a ==> c in ADDRESS
    ensures ExtractClientIp(Forward(xff, CommaSpace(seen)), peer, n) == Some(seen[|seen| - n])
  {
    forall i | 0 <= i < |seen| ensures Clean(seen[i]) {
      assert seen[i] in seen;
      AddressIsClean(seen[i]);
    }
    TrustedHopDecides(xff, CommaSpace(seen), peer, n);
  }
}
