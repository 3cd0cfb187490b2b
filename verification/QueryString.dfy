/** Query canonicalisation (backend/url_validator.py): decode the pairs, sort them, encode
    them again, as application/x-www-form-urlencoded (section 5 of the WHATWG URL Standard). */
module QueryString {
  import opened Common
  import opened Text
  import Utf8

  type Pair = (string, string)

  // ---- percent-encoding ----

  /** The bytes `urlencode` leaves as they are. */
  predicate Unreserved(b: byte) {
    0x30 <= b <= 0x39 || 0x41 <= b <= 0x5A || 0x61 <= b <= 0x7A || b == 0x2D || b == 0x2E || b == 0x5F || b == 0x7E
  }

  function Hex(d: int): char
    requires 0 <= d < 16
  {
    if d < 10 then '0' + d as char else 'A' + (d - 10) as char
  }

  function UnHex(c: char): (d: int)
    ensures -1 <= d < 16
  {
    if '0' <= c <= '9' then (c - '0') as int
    else if 'A' <= c <= 'F' then (c - 'A') as int + 10
    else if 'a' <= c <= 'f' then (c - 'a') as int + 10
    else -1
  }

  /** What encoded text never holds: the two separators, the fragment's '#', spaces and controls. */
  predicate Quoted(s: string) { forall i :: 0 <= i < |s| ==> ' ' < s[i] && s[i] !in {'&', '=', '#'} }

  function QuoteByte(b: byte): (r: string)
    ensures r != "" && Quoted(r)
  {
    if Unreserved(b) then [b as char]
    else if b == 0x20 then "+"
    else ['%', Hex(b as int / 16), Hex(b as int % 16)]
  }

  function QuoteBytes(s: Bytes): (r: string)
    ensures Quoted(r)
  {
    if s == [] then "" else QuoteByte(s[0]) + QuoteBytes(s[1..])
  }

  function Quote(s: string): string { QuoteBytes(Utf8.Encode(s)) }

  function PlusToSpace(s: string): string {
    if s == "" then "" else [if s[0] == '+' then ' ' else s[0]] + PlusToSpace(s[1..])
  }

  predicate IsEscape(s: string) { |s| >= 3 && s[0] == '%' && UnHex(s[1]) >= 0 && UnHex(s[2]) >= 0 }

  /** Percent-decoding, one run of ASCII at a time; `run` is the bytes of the current run. */
  function Unquote(s: string, run: Bytes): string
    decreases |s|
  {
    if s == "" then Utf8.Decode(run)
    else if IsEscape(s) then Unquote(s[3..], run + [(UnHex(s[1]) * 16 + UnHex(s[2])) as byte])
    else if s[0] < '\U{80}' then Unquote(s[1..], run + [s[0] as byte])
    else Utf8.Decode(run) + [s[0]] + Unquote(s[1..], [])
  }

  function UnquotePlus(s: string): string { Unquote(PlusToSpace(s), []) }

  // ---- pairs ----

  /** The text before the first '=', and the text after it (empty if there is none). */
  function SplitFirst(s: string): Pair {
    if s == "" then ("", "")
    else if s[0] == '=' then ("", s[1..])
    else
      var (name, value) := SplitFirst(s[1..]);
      ([s[0]] + name, value)
  }

  function PairOf(field: string): Pair {
    var (name, value) := SplitFirst(field);
    (UnquotePlus(name), UnquotePlus(value))
  }

  function Pairs(fields: seq<string>): seq<Pair> {
    if fields == [] then []
    else (if fields[0] == "" then [] else [PairOf(fields[0])]) + Pairs(fields[1..])
  }

  /** `parse_qsl(query, keep_blank_values=True)`. */
  function Parse(query: string): seq<Pair> { Pairs(Split(query, '&')) }

  /** No '&', no '#', no space and no control character. */
  predicate FieldText(s: string) { forall i :: 0 <= i < |s| ==> ' ' < s[i] && s[i] !in {'&', '#'} }

  function FieldOf(p: Pair): (r: string)
    ensures r != "" && FieldText(r)
  {
    Quote(p.0) + "=" + Quote(p.1)
  }

  function Fields(pairs: seq<Pair>): (r: seq<string>)
    ensures |r| == |pairs| && forall f :: f in r ==> f != "" && FieldText(f)
  {
    if pairs == [] then [] else [FieldOf(pairs[0])] + Fields(pairs[1..])
  }

  /** `urlencode(pairs)`. */
  function Encode(pairs: seq<Pair>): string { Join(Fields(pairs), '&') }

  // ---- the order Python sorts pairs in ----

  predicate Leq(a: string, b: string) {
    a == "" || (b != "" && (a[0] < b[0] || (a[0] == b[0] && Leq(a[1..], b[1..]))))
  }

  predicate PairLeq(p: Pair, q: Pair) {
    if p.0 == q.0 then Leq(p.1, q.1) else Leq(p.0, q.0)
  }

  function Insert(p: Pair, sorted: seq<Pair>): seq<Pair> {
    if sorted == [] || PairLeq(p, sorted[0]) then [p] + sorted
    else [sorted[0]] + Insert(p, sorted[1..])
  }

  function Sort(pairs: seq<Pair>): seq<Pair> {
    if pairs == [] then [] else Insert(pairs[0], Sort(pairs[1..]))
  }

  function Canonical(query: string): string { Encode(Sort(Parse(query))) }

  // ---- decoding undoes encoding ----

  lemma PlusToSpaceConcat(a: string, b: string)
    ensures PlusToSpace(a + b) == PlusToSpace(a) + PlusToSpace(b)
  {
    if a == "" {
      assert a + b == b;
    } else {
      assert (a + b)[1..] == a[1..] + b;
      PlusToSpaceConcat(a[1..], b);
    }
  }

  lemma {:induction false} PlusToSpaceNoPlus(s: string)
    requires '+' !in s
    ensures PlusToSpace(s) == s
  {
    if s != "" {
      PlusToSpaceNoPlus(s[1..]);
    }
  }

  lemma UnquoteByte(b: byte, rest: string, run: Bytes)
    ensures Unquote(PlusToSpace(QuoteByte(b)) + rest, run) == Unquote(rest, run + [b])
  {
    var q := PlusToSpace(QuoteByte(b));
    if Unreserved(b) {
      assert q == [b as char];
      assert (q + rest)[1..] == rest;
    } else if b == 0x20 {
      assert QuoteByte(b) == "+" && "+"[1..] == "";
      assert q == " ";
      assert (q + rest)[1..] == rest;
    } else {
      var h, l := Hex(b as int / 16), Hex(b as int % 16);
      PlusToSpaceNoPlus(QuoteByte(b));
      assert q == ['%', h, l];
      assert (q + rest)[3..] == rest;
      assert UnHex(h) * 16 + UnHex(l) == b as int;
    }
  }

  lemma UnquoteCons(text: string, b: byte, rest: string, run: Bytes, run': Bytes)
    requires text == QuoteByte(b) + rest && run' == run + [b]
    ensures Unquote(PlusToSpace(text), run) == Unquote(PlusToSpace(rest), run')
  {
    PlusToSpaceConcat(QuoteByte(b), rest);
    UnquoteByte(b, PlusToSpace(rest), run);
  }

  lemma Regroup(run: Bytes, s: Bytes)
    requires s != []
    ensures run + [s[0]] + s[1..] == run + s
  {
  }

  lemma UnquoteEnd(run: Bytes)
    ensures Unquote(PlusToSpace(QuoteBytes([])), run) == Utf8.Decode(run + [])
  {
    assert run + [] == run;
  }

  lemma {:induction false} UnquoteBytes(s: Bytes, run: Bytes)
    ensures Unquote(PlusToSpace(QuoteBytes(s)), run) == Utf8.Decode(run + s)
  {
    if s == [] {
      UnquoteEnd(run);
    } else {
      UnquoteCons(QuoteBytes(s), s[0], QuoteBytes(s[1..]), run, run + [s[0]]);
      UnquoteBytes(s[1..], run + [s[0]]);
      Regroup(run, s);
    }
  }

  /** Every text survives quoting and unquoting. */
  lemma UnquoteQuote(s: string)
    ensures UnquotePlus(Quote(s)) == s
  {
    UnquoteBytes(Utf8.Encode(s), []);
    assert [] + Utf8.Encode(s) == Utf8.Encode(s);
    Utf8.RoundTrip(s);
  }

  // ---- decoding text the encoder did not write ----

  const LOWER_HEX := "0123456789abcdef"
  const UPPER_HEX := "0123456789ABCDEF"

  /** `c` is one of the two ways to write the hex digit `d`. */
  predicate Writes(c: char, d: nat) { d < 16 && (c == LOWER_HEX[d] || c == UPPER_HEX[d]) }

  lemma LowerHexAt(d: nat)
    requires d < 16
    ensures LOWER_HEX[d] as int == if d < 10 then '0' as int + d else 'a' as int + (d - 10)
  {
  }

  lemma UpperHexAt(d: nat)
    requires d < 16
    ensures UPPER_HEX[d] as int == if d < 10 then '0' as int + d else 'A' as int + (d - 10)
  {
  }

  lemma WrittenDigit(c: char, d: nat)
    requires Writes(c, d)
    ensures UnHex(c) == d && c !in {'%', '+', '&', '='} && c < '\U{80}'
  {
    LowerHexAt(d);
    UpperHexAt(d);
  }

  lemma OnlyWritten(c: char)
    requires UnHex(c) >= 0
    ensures Writes(c, UnHex(c))
  {
    LowerHexAt(UnHex(c));
    UpperHexAt(UnHex(c));
  }

  /** "%hl", with either case for each hex digit, decodes as the byte it names. */
  lemma EscapeDecodes(h: char, l: char, i: nat, j: nat, rest: string, run: Bytes)
    requires Writes(h, i) && Writes(l, j)
    ensures Unquote(['%', h, l] + rest, run) == Unquote(rest, run + [(16 * i + j) as byte])
  {
    WrittenDigit(h, i);
    WrittenDigit(l, j);
    var s := ['%', h, l] + rest;
    assert s[3..] == rest && s[0] == '%' && s[1] == h && s[2] == l;
  }

  /** A '%' that two hex digits do not follow stands for itself. */
  lemma PercentStays(s: string, run: Bytes)
    requires s != "" && s[0] == '%'
    requires |s| < 3 || (forall d: nat :: !Writes(s[1], d)) || (forall d: nat :: !Writes(s[2], d))
    ensures Unquote(s, run) == Unquote(s[1..], run + [0x25])
  {
    if IsEscape(s) {
      OnlyWritten(s[1]);
      OnlyWritten(s[2]);
    }
  }

  /** Two ways to write one byte. */
  ghost predicate SameByte(e: string, e': string) {
    |e| == |e'| == 3 && e[0] == e'[0] == '%' &&
    exists i: nat, j: nat :: Writes(e[1], i) && Writes(e'[1], i) && Writes(e[2], j) && Writes(e'[2], j)
  }

  lemma SameByteDecodes(e: string, e': string, rest: string, run: Bytes)
    requires SameByte(e, e')
    ensures Unquote(e + rest, run) == Unquote(e' + rest, run)
  {
    var i: nat, j: nat :| Writes(e[1], i) && Writes(e'[1], i) && Writes(e[2], j) && Writes(e'[2], j);
    EscapeDecodes(e[1], e[2], i, j, rest, run);
    EscapeDecodes(e'[1], e'[2], i, j, rest, run);
    assert e == ['%', e[1], e[2]] && e' == ['%', e'[1], e'[2]];
  }

  /** Nothing before an escape can swallow its '%'. */
  lemma EscapeStartsAfresh(pre: string, e: string, e': string, rest: string)
    requires pre != "" && SameByte(e, e')
    ensures var s, s' := pre + e + rest, pre + e' + rest;
      s[0] == s'[0] && IsEscape(s) == IsEscape(s') && (IsEscape(s) ==> |pre| >= 3 && s[1..3] == s'[1..3] == pre[1..3])
  {
  }

  lemma {:induction false} SameByteAnywhere(pre: string, e: string, e': string, rest: string, run: Bytes)
    requires SameByte(e, e')
    ensures Unquote(pre + e + rest, run) == Unquote(pre + e' + rest, run)
    decreases |pre|
  {
    var s, s' := pre + e + rest, pre + e' + rest;
    if pre == "" {
      assert s == e + rest && s' == e' + rest;
      SameByteDecodes(e, e', rest, run);
    } else {
      EscapeStartsAfresh(pre, e, e', rest);
      assert s[1..] == pre[1..] + e + rest && s'[1..] == pre[1..] + e' + rest;
      if IsEscape(s) {
        assert s[3..] == pre[3..] + e + rest && s'[3..] == pre[3..] + e' + rest;
        assert s[1] == s[1..3][0] == s'[1] && s[2] == s[1..3][1] == s'[2];
        SameByteAnywhere(pre[3..], e, e', rest, run + [(UnHex(s[1]) * 16 + UnHex(s[2])) as byte]);
      } else if s[0] < '\U{80}' {
        SameByteAnywhere(pre[1..], e, e', rest, run + [s[0] as byte]);
      } else {
        SameByteAnywhere(pre[1..], e, e', rest, []);
      }
    }
  }

  lemma {:induction false} SplitFirstAt(name: string, value: string)
    requires '=' !in name
    ensures SplitFirst(name + "=" + value) == (name, value)
  {
    var s := name + "=" + value;
    if name == "" {
      assert s[1..] == value;
    } else {
      assert s[1..] == name[1..] + "=" + value && s[0] == name[0] != '=';
      SplitFirstAt(name[1..], value);
      assert name == [name[0]] + name[1..];
    }
  }

  lemma PairOfField(p: Pair)
    ensures PairOf(FieldOf(p)) == p
  {
    SplitFirstAt(Quote(p.0), Quote(p.1));
    UnquoteQuote(p.0);
    UnquoteQuote(p.1);
  }

  lemma {:induction false} PairsOfFields(pairs: seq<Pair>)
    ensures Pairs(Fields(pairs)) == pairs
  {
    if pairs != [] {
      PairOfField(pairs[0]);
      PairsOfFields(pairs[1..]);
      assert Fields(pairs)[1..] == Fields(pairs[1..]);
    }
  }

  /** Parsing an encoded list of pairs gives back exactly that list. */
  lemma ParseEncode(pairs: seq<Pair>)
    ensures Parse(Encode(pairs)) == pairs
  {
    if pairs == [] {
      assert Split("", '&') == [""];
      assert [""][1..] == [];
    } else {
      SplitJoin(Fields(pairs), '&');
      PairsOfFields(pairs);
    }
  }

  // ---- what encoding writes, and other text ----

  /** Letters, digits and "-._~" are written as they are, a space as '+', and any other byte as '%'
      and its two hex digits in upper case. */
  lemma QuoteByteExact(b: byte)
    ensures QuoteByte(b) ==
      if '0' as int <= b as int <= '9' as int || 'A' as int <= b as int <= 'Z' as int ||
         'a' as int <= b as int <= 'z' as int || b as int in {'-' as int, '.' as int, '_' as int, '~' as int} then
        [b as char]
      else if b as int == ' ' as int then "+"
      else ['%', UPPER_HEX[b as int / 16], UPPER_HEX[b as int % 16]]
  {
    UpperHexAt(b as int / 16);
    UpperHexAt(b as int % 16);
  }

  lemma EncodeSnoc(t: string, c: char)
    ensures Utf8.Encode(t + [c]) == Utf8.Encode(t) + Utf8.EncodeChar(c)
  {
    if t == "" {
      assert [] + [c] == [c] && [c][1..] == "";
      assert Utf8.EncodeChar(c) + [] == Utf8.EncodeChar(c);
    } else {
      assert (t + [c])[1..] == t[1..] + [c];
      EncodeSnoc(t[1..], c);
    }
  }

  lemma UnquoteAscii(s: string, run: Bytes)
    requires s != "" && s[0] < '\U{80}' && s[0] != '%'
    ensures Unquote(s, run) == Unquote(s[1..], run + [s[0] as byte])
  {
  }

  lemma UnquoteOther(s: string, t: string)
    requires s != "" && s[0] >= '\U{80}'
    ensures Unquote(s, Utf8.Encode(t)) == t + [s[0]] + Unquote(s[1..], [])
  {
    Utf8.RoundTrip(t);
  }

  lemma {:induction false} UnquotePlain(s: string, t: string, run: Bytes)
    requires '%' !in s && run == Utf8.Encode(t)
    ensures Unquote(s, run) == t + s
  {
    if s == "" {
      Utf8.RoundTrip(t);
      assert t + s == t;
    } else {
      assert s == [s[0]] + s[1..];
      if s[0] < '\U{80}' {
        UnquoteAscii(s, run);
        EncodeSnoc(t, s[0]);
        UnquotePlain(s[1..], t + [s[0]], run + [s[0] as byte]);
        assert t + [s[0]] + s[1..] == t + s;
      } else {
        UnquoteOther(s, t);
        UnquotePlain(s[1..], "", []);
        assert t + [s[0]] + ("" + s[1..]) == t + s;
      }
    }
  }

  /** Text with neither '%' nor '+' decodes as itself, ASCII or not. */
  lemma PlainTextDecodes(s: string)
    requires '%' !in s && '+' !in s
    ensures UnquotePlus(s) == s
  {
    PlusToSpaceNoPlus(s);
    UnquotePlain(s, "", []);
    assert "" + s == s;
  }

  /** A '+' decodes as a space, wherever it stands. */
  lemma PlusDecodes(a: string, b: string)
    ensures UnquotePlus(a + "+" + b) == UnquotePlus(a + " " + b)
  {
    PlusToSpaceConcat(a + "+", b);
    PlusToSpaceConcat(a, "+");
    PlusToSpaceConcat(a + " ", b);
    PlusToSpaceConcat(a, " ");
    assert "+"[1..] == "" && " "[1..] == "";
    assert PlusToSpace("+") == " " == PlusToSpace(" ");
  }

  // ---- sorting ----

  lemma {:induction false} LeqTotal(a: string, b: string)
    ensures Leq(a, b) || Leq(b, a)
    ensures Leq(a, b) && Leq(b, a) ==> a == b
    ensures Leq(a, a)
  {
    if a != "" && b != "" {
      LeqTotal(a[1..], b[1..]);
      assert a == [a[0]] + a[1..] && b == [b[0]] + b[1..];
    }
    if a != "" {
      LeqTotal(a[1..], a[1..]);
    }
  }

  lemma {:induction false} LeqTransitive(a: string, b: string, c: string)
    requires Leq(a, b) && Leq(b, c)
    ensures Leq(a, c)
  {
    if a != "" && b != "" && c != "" && a[0] == b[0] == c[0] {
      LeqTransitive(a[1..], b[1..], c[1..]);
    }
  }

  lemma PairLeqTotal(p: Pair, q: Pair)
    ensures PairLeq(p, q) || PairLeq(q, p)
    ensures PairLeq(p, q) && PairLeq(q, p) ==> p == q
  {
    LeqTotal(p.0, q.0);
    LeqTotal(p.1, q.1);
  }

  lemma PairLeqTransitive(p: Pair, q: Pair, r: Pair)
    requires PairLeq(p, q) && PairLeq(q, r)
    ensures PairLeq(p, r)
  {
    if p.0 == q.0 == r.0 {
      LeqTransitive(p.1, q.1, r.1);
    } else if p.0 != q.0 && q.0 != r.0 {
      LeqTransitive(p.0, q.0, r.0);
      LeqTotal(p.0, q.0);
    }
  }

  ghost predicate Ordered(pairs: seq<Pair>) {
    forall i, j :: 0 <= i < j < |pairs| ==> PairLeq(pairs[i], pairs[j])
  }

  lemma WithoutFirst<T>(a: seq<T>)
    requires a != []
    ensures a == [a[0]] + a[1..] && multiset(a[1..]) == multiset(a) - multiset{a[0]}
  {
    assert a == [a[0]] + a[1..];
  }

  lemma OrderedRest(a: seq<Pair>)
    requires Ordered(a) && a != []
    ensures Ordered(a[1..])
  {
  }

  lemma BelowFirst(p: Pair, sorted: seq<Pair>)
    requires Ordered(sorted) && sorted != [] && PairLeq(p, sorted[0])
    ensures forall j :: 0 <= j < |sorted| ==> PairLeq(p, sorted[j])
  {
    forall j | 0 < j < |sorted| ensures PairLeq(p, sorted[j]) {
      PairLeqTransitive(p, sorted[0], sorted[j]);
    }
  }

  lemma OrderedCons(p: Pair, sorted: seq<Pair>)
    requires Ordered(sorted) && forall j :: 0 <= j < |sorted| ==> PairLeq(p, sorted[j])
    ensures Ordered([p] + sorted)
  {
  }

  /** Whatever is inserted, and whatever was there, lies above the first pair. */
  lemma AboveFirst(p: Pair, sorted: seq<Pair>, rest: seq<Pair>)
    requires Ordered(sorted) && sorted != [] && PairLeq(sorted[0], p)
    requires multiset(rest) == multiset{p} + multiset(sorted[1..])
    ensures forall j :: 0 <= j < |rest| ==> PairLeq(sorted[0], rest[j])
  {
    forall j | 0 <= j < |rest| ensures PairLeq(sorted[0], rest[j]) {
      assert rest[j] in multiset(rest);
      assert rest[j] == p || rest[j] in sorted[1..];
    }
  }

  lemma {:induction false} InsertOrdered(p: Pair, sorted: seq<Pair>)
    requires Ordered(sorted)
    ensures Ordered(Insert(p, sorted)) && multiset(Insert(p, sorted)) == multiset{p} + multiset(sorted)
  {
    if sorted == [] {
    } else if PairLeq(p, sorted[0]) {
      BelowFirst(p, sorted);
      OrderedCons(p, sorted);
    } else {
      OrderedRest(sorted);
      InsertOrdered(p, sorted[1..]);
      PairLeqTotal(p, sorted[0]);
      AboveFirst(p, sorted, Insert(p, sorted[1..]));
      OrderedCons(sorted[0], Insert(p, sorted[1..]));
      WithoutFirst(sorted);
    }
  }

  /** `a` is a prefix of `b`, or has the lower character where they first differ. */
  ghost predicate Precedes(a: string, b: string) {
    a <= b || exists i :: 0 <= i < |a| && i < |b| && a[..i] == b[..i] && a[i] < b[i]
  }

  lemma PrecedesRest(a: string, b: string)
    requires a != "" && b != "" && a[0] == b[0]
    ensures Precedes(a, b) <==> Precedes(a[1..], b[1..])
  {
    var a', b' := a[1..], b[1..];
    assert a == [a[0]] + a' && b == [b[0]] + b';
    if i :| 0 <= i < |a| && i < |b| && a[..i] == b[..i] && a[i] < b[i] {
      assert a'[..i - 1] == a[..i][1..] == b[..i][1..] == b'[..i - 1];
      assert a'[i - 1] < b'[i - 1];
    }
    if i :| 0 <= i < |a'| && i < |b'| && a'[..i] == b'[..i] && a'[i] < b'[i] {
      assert a[..i + 1] == [a[0]] + a'[..i] == [b[0]] + b'[..i] == b[..i + 1];
      assert a[i + 1] < b[i + 1];
    }
  }

  lemma {:induction false} LeqExact(a: string, b: string)
    ensures Leq(a, b) <==> Precedes(a, b)
  {
    if a != "" && b != "" {
      if a[0] == b[0] {
        LeqExact(a[1..], b[1..]);
        PrecedesRest(a, b);
      } else if a[0] < b[0] {
        assert a[..0] == b[..0];
      } else {
        assert forall i :: 0 < i < |a| && i < |b| ==> a[..i][0] != b[..i][0];
      }
    }
  }

  /** Sorting orders the pairs and keeps exactly the same ones. */
  lemma {:induction false} SortOrders(pairs: seq<Pair>)
    ensures Ordered(Sort(pairs)) && multiset(Sort(pairs)) == multiset(pairs)
  {
    if pairs != [] {
      SortOrders(pairs[1..]);
      InsertOrdered(pairs[0], Sort(pairs[1..]));
      assert pairs == [pairs[0]] + pairs[1..];
    }
  }

  lemma LeastIsFirst(a: seq<Pair>, p: Pair)
    requires Ordered(a) && p in multiset(a)
    ensures a != [] && PairLeq(a[0], p)
  {
    var i :| 0 <= i < |a| && a[i] == p;
    PairLeqTotal(p, p);
  }

  lemma SameFirst(a: seq<Pair>, b: seq<Pair>)
    requires Ordered(a) && Ordered(b) && multiset(a) == multiset(b) && a != []
    ensures b != [] && a[0] == b[0]
  {
    assert a[0] in multiset(a);
    LeastIsFirst(b, a[0]);
    assert b[0] in multiset(b);
    LeastIsFirst(a, b[0]);
    PairLeqTotal(a[0], b[0]);
  }

  /** Only one ordering of the same pairs is sorted. */
  lemma {:induction false} OrderedUnique(a: seq<Pair>, b: seq<Pair>)
    requires Ordered(a) && Ordered(b) && multiset(a) == multiset(b)
    ensures a == b
  {
    if a == [] {
      assert |multiset(b)| == 0;
    } else {
      SameFirst(a, b);
      WithoutFirst(a);
      WithoutFirst(b);
      OrderedRest(a);
      OrderedRest(b);
      OrderedUnique(a[1..], b[1..]);
    }
  }

  // ---- reordering the text ----

  lemma {:induction false} PairsConcat(a: seq<string>, b: seq<string>)
    ensures Pairs(a + b) == Pairs(a) + Pairs(b)
  {
    if a == [] {
      assert a + b == b;
    } else {
      assert (a + b)[1..] == a[1..] + b;
      PairsConcat(a[1..], b);
    }
  }

  lemma RemovedAt(a: seq<string>, b: seq<string>, i: nat)
    requires a != [] && i < |b| && b[i] == a[0] && multiset(a) == multiset(b)
    ensures multiset(a[1..]) == multiset(b[..i] + b[i + 1..])
  {
    WithoutFirst(a);
    assert b == b[..i] + ([b[i]] + b[i + 1..]);
  }

  lemma PairsMiddle(a: seq<string>, m: seq<string>, c: seq<string>)
    ensures multiset(Pairs(a + (m + c))) == multiset(Pairs(m)) + multiset(Pairs(a + c))
  {
    PairsConcat(a, m + c);
    PairsConcat(m, c);
    PairsConcat(a, c);
  }

  /** Reordered fields decode to reordered pairs. */
  lemma {:induction false} PairsPermute(a: seq<string>, b: seq<string>)
    requires multiset(a) == multiset(b)
    ensures multiset(Pairs(a)) == multiset(Pairs(b))
  {
    if a == [] {
      assert |multiset(b)| == 0;
    } else {
      assert a[0] in multiset(b);
      var i :| 0 <= i < |b| && b[i] == a[0];
      var left, mid, right := b[..i], [b[i]], b[i + 1..];
      assert b == left + (mid + right) && a == mid + a[1..];
      RemovedAt(a, b, i);
      PairsPermute(a[1..], left + right);
      PairsMiddle(left, mid, right);
      PairsConcat(mid, a[1..]);
    }
  }

  // ---- spelling of escapes ----

  lemma EscapeChars(e: string, i: nat, j: nat)
    requires |e| == 3 && e[0] == '%' && Writes(e[1], i) && Writes(e[2], j)
    ensures '=' !in e && '&' !in e && '+' !in e
  {
    WrittenDigit(e[1], i);
    WrittenDigit(e[2], j);
  }

  lemma NoSeparators(e: string, e': string)
    requires SameByte(e, e')
    ensures '=' !in e && '&' !in e && '+' !in e && '=' !in e' && '&' !in e' && '+' !in e'
  {
    var i: nat, j: nat :| Writes(e[1], i) && Writes(e'[1], i) && Writes(e[2], j) && Writes(e'[2], j);
    EscapeChars(e, i, j);
    EscapeChars(e', i, j);
  }

  lemma PlusToSpaceAround(pre: string, e: string, rest: string)
    requires '+' !in e
    ensures PlusToSpace(pre + e + rest) == PlusToSpace(pre) + e + PlusToSpace(rest)
  {
    PlusToSpaceNoPlus(e);
    PlusToSpaceConcat(pre + e, rest);
    PlusToSpaceConcat(pre, e);
  }

  lemma UnquotePlusAnywhere(pre: string, e: string, e': string, rest: string)
    requires SameByte(e, e')
    ensures UnquotePlus(pre + e + rest) == UnquotePlus(pre + e' + rest)
  {
    NoSeparators(e, e');
    PlusToSpaceAround(pre, e, rest);
    PlusToSpaceAround(pre, e', rest);
    SameByteAnywhere(PlusToSpace(pre), e, e', PlusToSpace(rest), []);
  }

  /** Around the first '=', or all of it if there is none. */
  lemma {:induction false} SplitFirstExact(s: string)
    ensures var (name, value) := SplitFirst(s);
      '=' !in name && if '=' in s then s == name + "=" + value else (name, value) == (s, "")
  {
    if s != "" && s[0] != '=' {
      SplitFirstExact(s[1..]);
      assert s == [s[0]] + s[1..];
    } else if s != "" {
      assert s == "" + "=" + s[1..];
    }
  }

  lemma SameFieldBefore(pre: string, e: string, e': string, rest: string)
    requires SameByte(e, e') && '=' in pre
    ensures PairOf(pre + e + rest) == PairOf(pre + e' + rest)
  {
    var (name, value) := SplitFirst(pre);
    SplitFirstExact(pre);
    assert pre + e + rest == name + "=" + (value + e + rest) && pre + e' + rest == name + "=" + (value + e' + rest);
    SplitFirstAt(name, value + e + rest);
    SplitFirstAt(name, value + e' + rest);
    UnquotePlusAnywhere(value, e, e', rest);
  }

  lemma SameFieldAfter(pre: string, e: string, e': string, rest: string)
    requires SameByte(e, e') && '=' !in pre
    ensures PairOf(pre + e + rest) == PairOf(pre + e' + rest)
  {
    NoSeparators(e, e');
    SplitFirstExact(rest);
    var (name, value) := SplitFirst(rest);
    UnquotePlusAnywhere(pre, e, e', name);
    if '=' in rest {
      assert pre + e + rest == (pre + e + name) + "=" + value && pre + e' + rest == (pre + e' + name) + "=" + value;
      SplitFirstAt(pre + e + name, value);
      SplitFirstAt(pre + e' + name, value);
    } else {
      SplitFirstExact(pre + e + rest);
      SplitFirstExact(pre + e' + rest);
    }
  }

  lemma SamePair(pre: string, e: string, e': string, rest: string)
    requires SameByte(e, e')
    ensures PairOf(pre + e + rest) == PairOf(pre + e' + rest)
  {
    if '=' in pre {
      SameFieldBefore(pre, e, e', rest);
    } else {
      SameFieldAfter(pre, e, e', rest);
    }
  }

  lemma PairsOfOne(f: string)
    ensures Pairs([f]) == if f == "" then [] else [PairOf(f)]
  {
    assert [f][1..] == [];
    assert [PairOf(f)] + [] == [PairOf(f)];
  }

  lemma PairsAround(before: seq<string>, f: string, after: seq<string>)
    ensures Pairs(before + [f] + after) == Pairs(before) + Pairs([f]) + Pairs(after)
  {
    PairsConcat(before + [f], after);
    PairsConcat(before, [f]);
  }

  /** The case of an escape's hex digits never matters: whatever stands around it, the query
      decodes to the same pairs and has the same canonical form. */
  lemma CanonicalAnySpelling(a: string, e: string, e': string, b: string)
    requires SameByte(e, e')
    ensures Parse(a + e + b) == Parse(a + e' + b) && Canonical(a + e + b) == Canonical(a + e' + b)
  {
    var before, after := Split(a, '&'), Split(b, '&');
    NoSeparators(e, e');
    SplitMiddle(a, e, b, '&');
    SplitMiddle(a, e', b, '&');
    SamePair(Last(before), e, e', after[0]);
    PairsOfOne(Last(before) + e + after[0]);
    PairsOfOne(Last(before) + e' + after[0]);
    PairsAround(Front(before), Last(before) + e + after[0], after[1..]);
    PairsAround(Front(before), Last(before) + e' + after[0], after[1..]);
  }

  // ---- the canonical form ----

  /** No fragment mark, no space and no control character. */
  predicate Plain(s: string) { forall i :: 0 <= i < |s| ==> ' ' < s[i] != '#' }

  lemma {:induction false} JoinPlain(fields: seq<string>)
    requires forall f :: f in fields ==> FieldText(f)
    ensures Plain(Join(fields, '&'))
  {
    if |fields| == 1 {
      assert fields[0] in fields;
    } else if fields != [] {
      JoinPlain(Front(fields));
      assert FieldText(Last(fields));
    }
  }

  lemma CanonicalPlain(q: string)
    ensures Plain(Canonical(q))
  {
    JoinPlain(Fields(Sort(Parse(q))));
  }

  /** Two queries have the same canonical form exactly when they decode to the same pairs,
      in whatever order and however written. */
  lemma CanonicalExact(q: string, q': string)
    ensures Canonical(q) == Canonical(q') <==> multiset(Parse(q)) == multiset(Parse(q'))
  {
    SortOrders(Parse(q));
    SortOrders(Parse(q'));
    ParseEncode(Sort(Parse(q)));
    ParseEncode(Sort(Parse(q')));
    if multiset(Parse(q)) == multiset(Parse(q')) {
      OrderedUnique(Sort(Parse(q)), Sort(Parse(q')));
    }
  }

  /** Canonicalising twice is canonicalising once, and keeps the pairs. */
  lemma CanonicalIdempotent(q: string)
    ensures Canonical(Canonical(q)) == Canonical(q)
    ensures multiset(Parse(Canonical(q))) == multiset(Parse(q))
  {
    ParseEncode(Sort(Parse(q)));
    SortOrders(Parse(q));
    CanonicalExact(Canonical(q), q);
  }

  /** The pairs of a canonical query come in order of name, and of value under one name. */
  lemma CanonicalSorted(q: string, i: nat, j: nat)
    requires i < j < |Parse(Canonical(q))|
    ensures var p, p' := Parse(Canonical(q))[i], Parse(Canonical(q))[j];
      if p.0 == p'.0 then Precedes(p.1, p'.1) else Precedes(p.0, p'.0)
  {
    ParseEncode(Sort(Parse(q)));
    SortOrders(Parse(q));
    var p, p' := Parse(Canonical(q))[i], Parse(Canonical(q))[j];
    LeqExact(p.0, p'.0);
    LeqExact(p.1, p'.1);
  }

  lemma {:induction false} FieldsSnoc(pairs: seq<Pair>, p: Pair)
    ensures Fields(pairs + [p]) == Fields(pairs) + [Quote(p.0) + "=" + Quote(p.1)]
  {
    if pairs == [] {
      assert Fields([]) == [] && [p][1..] == [];
    } else {
      assert (pairs + [p])[1..] == pairs[1..] + [p];
      FieldsSnoc(pairs[1..], p);
    }
  }

  lemma Reassociate(before: string, sep: string, name: string, value: string)
    ensures before + sep + (name + "=" + value) == before + sep + name + "=" + value
  {
  }

  /** Encoding writes "name=value" for each pair and '&' between two. */
  lemma EncodeExact(pairs: seq<Pair>, p: Pair)
    ensures Encode([]) == ""
    ensures Encode(pairs + [p]) == Encode(pairs) + (if pairs == [] then "" else "&") + Quote(p.0) + "=" + Quote(p.1)
  {
    FieldsSnoc(pairs, p);
    JoinSnoc(Fields(pairs), Quote(p.0) + "=" + Quote(p.1), '&');
    Reassociate(Encode(pairs), if pairs == [] then "" else "&", Quote(p.0), Quote(p.1));
  }

  /** A field is cut at its first '='; without one its value is empty. */
  lemma FieldExact(name: string, value: string)
    requires '=' !in name
    ensures PairOf(name + "=" + value) == (UnquotePlus(name), UnquotePlus(value))
    ensures PairOf(name) == (UnquotePlus(name), "")
  {
    SplitFirstAt(name, value);
    SplitFirstExact(name);
    PlainTextDecodes("");
  }

  /** '&' joins queries: the pairs of the first, then those of the second. */
  lemma ParseConcat(a: string, b: string)
    ensures Parse(a + ['&'] + b) == Parse(a) + Parse(b)
  {
    SplitAt(a, b, '&');
    PairsConcat(Split(a, '&'), Split(b, '&'));
  }

  lemma ParseNothing()
    ensures Parse("") == []
  {
    SplitNone("", '&');
    PairsOfOne("");
  }

  lemma EmptyFieldAtEnds(b: string)
    ensures Parse(['&'] + b) == Parse(b) == Parse(b + ['&'])
  {
    ParseNothing();
    ParseConcat("", b);
    ParseConcat(b, "");
    assert "" + ['&'] + b == ['&'] + b && b + ['&'] + "" == b + ['&'];
  }

  /** Empty fields are skipped. */
  lemma EmptyFieldsSkipped(a: string, b: string)
    ensures Parse(a + ['&'] + (['&'] + b)) == Parse(a + ['&'] + b)
    ensures Parse(['&'] + b) == Parse(b) == Parse(b + ['&'])
  {
    EmptyFieldAtEnds(b);
    ParseConcat(a, ['&'] + b);
    ParseConcat(a, b);
  }

  /** Reordering the '&'-separated fields of a query does not change its canonical form. */
  lemma CanonicalReordered(q: string, q': string)
    requires multiset(Split(q, '&')) == multiset(Split(q', '&'))
    ensures Canonical(q) == Canonical(q')
  {
    PairsPermute(Split(q, '&'), Split(q', '&'));
    CanonicalExact(q, q');
  }
}
