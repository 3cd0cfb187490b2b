/** UTF-8, with undecodable bytes replaced by U+FFFD. */
module Utf8 {
  import opened Common

  const REPLACEMENT: char := '\U{FFFD}'

  function EncodeChar(c: char): (r: Bytes)
    ensures 1 <= |r| <= 4
  {
    var n := c as int;
    if n < 0x80 then [n as byte]
    else if n < 0x800 then [(0xC0 + n / 64) as byte, (0x80 + n % 64) as byte]
    else if n < 0x1_0000 then
      [(0xE0 + n / 64 / 64) as byte, (0x80 + n / 64 % 64) as byte, (0x80 + n % 64) as byte]
    else
      [(0xF0 + n / 64 / 64 / 64) as byte, (0x80 + n / 64 / 64 % 64) as byte,
       (0x80 + n / 64 % 64) as byte, (0x80 + n % 64) as byte]
  }

  function Encode(s: string): Bytes {
    if s == "" then [] else EncodeChar(s[0]) + Encode(s[1..])
  }

  predicate Continues(b: byte) { 0x80 <= b < 0xC0 }

  /** Is `b` a legal second byte after the lead byte? */
  predicate Second(lead: byte, b: byte) {
    if lead == 0xE0 then 0xA0 <= b < 0xC0
    else if lead == 0xED then 0x80 <= b < 0xA0
    else if lead == 0xF0 then 0x90 <= b < 0xC0
    else if lead == 0xF4 then 0x80 <= b < 0x90
    else Continues(b)
  }

  /** The first character, and how many bytes it, or the ill-formed prefix it replaces, takes. */
  function DecodeHead(s: Bytes): (r: (char, nat))
    requires s != []
    ensures 1 <= r.1 <= |s|
  {
    var lead := s[0];
    if lead < 0x80 then (lead as char, 1)
    else if lead < 0xC2 || lead > 0xF4 then (REPLACEMENT, 1)
    else if |s| < 2 || !Second(lead, s[1]) then (REPLACEMENT, 1)
    else if lead < 0xE0 then (((lead as int - 0xC0) * 64 + (s[1] as int - 0x80)) as char, 2)
    else if |s| < 3 || !Continues(s[2]) then (REPLACEMENT, 2)
    else if lead < 0xF0 then
      ((((lead as int - 0xE0) * 64 + (s[1] as int - 0x80)) * 64 + (s[2] as int - 0x80)) as char, 3)
    else if |s| < 4 || !Continues(s[3]) then (REPLACEMENT, 3)
    else
      (((((lead as int - 0xF0) * 64 + (s[1] as int - 0x80)) * 64 + (s[2] as int - 0x80)) * 64 +
        (s[3] as int - 0x80)) as char, 4)
  }

  function Decode(s: Bytes): string {
    if s == [] then "" else
      var (c, n) := DecodeHead(s);
      [c] + Decode(s[n..])
  }

  lemma HeadOfEncoded(c: char, rest: Bytes)
    ensures DecodeHead(EncodeChar(c) + rest) == (c, |EncodeChar(c)|)
  {
    var n, s := c as int, EncodeChar(c) + rest;
    assert forall i :: 0 <= i < |EncodeChar(c)| ==> s[i] == EncodeChar(c)[i];
    if n >= 0x1_0000 {
      assert n < 0x11_0000;
    }
  }

  lemma {:induction false} RoundTrip(s: string)
    ensures Decode(Encode(s)) == s
  {
    if s != "" {
      HeadOfEncoded(s[0], Encode(s[1..]));
      RoundTrip(s[1..]);
      assert Encode(s)[|EncodeChar(s[0])|..] == Encode(s[1..]);
    }
  }

  /** How encoded characters look: the lead byte fixes the length, and the second byte's range. */
  lemma EncodedShape(c: char)
    ensures var e := EncodeChar(c);
      (|e| == 1 ==> e[0] < 0x80) &&
      (|e| == 2 ==> 0xC2 <= e[0] < 0xE0 && Second(e[0], e[1])) &&
      (|e| == 3 ==> 0xE0 <= e[0] < 0xF0 && Second(e[0], e[1]) && Continues(e[2])) &&
      (|e| == 4 ==> 0xF0 <= e[0] <= 0xF4 && Second(e[0], e[1]) && Continues(e[2]) && Continues(e[3]))
  {
    var n := c as int;
    if n >= 0x1_0000 {
      assert n < 0x11_0000;
    }
  }

  /** The code point is the six-bit digits of the bytes that follow the lead byte, after its own. */
  lemma EncodeCharExact(c: char)
    ensures var e, n := EncodeChar(c), c as int;
      if n < 0x80 then |e| == 1 && n == e[0] as int
      else if n < 0x800 then |e| == 2 && n == (e[0] as int - 0xC0) * 64 + (e[1] as int - 0x80)
      else if n < 0x1_0000 then
        |e| == 3 && n == (e[0] as int - 0xE0) * 4096 + (e[1] as int - 0x80) * 64 + (e[2] as int - 0x80)
      else
        |e| == 4 && n == (e[0] as int - 0xF0) * 262144 + (e[1] as int - 0x80) * 4096 +
                         (e[2] as int - 0x80) * 64 + (e[3] as int - 0x80)
  {
  }

  /** Some encoded character starts with these bytes. */
  ghost predicate Begins(s: Bytes) { exists c :: s <= EncodeChar(c) }

  ghost predicate StartsWithOne(s: Bytes) { exists c :: EncodeChar(c) <= s }

  /** The head of `s` was a whole character (and not replaced). */
  predicate Whole(s: Bytes)
    requires s != []
  {
    var n := DecodeHead(s).1;
    (n == 1 && s[0] < 0x80) || (n == 2 && s[0] < 0xE0) || (n == 3 && s[0] < 0xF0) || n == 4
  }

  lemma TwoEncode(s: Bytes)
    requires |s| >= 2 && 0xC2 <= s[0] < 0xE0 && Second(s[0], s[1])
    ensures EncodeChar(DecodeHead(s).0) == [s[0], s[1]]
  {
    var n := (s[0] as int - 0xC0) * 64 + (s[1] as int - 0x80);
    assert n / 64 == s[0] as int - 0xC0;
  }

  lemma ThreeEncode(s: Bytes)
    requires |s| >= 3 && 0xE0 <= s[0] < 0xF0 && Second(s[0], s[1]) && Continues(s[2])
    ensures EncodeChar(DecodeHead(s).0) == [s[0], s[1], s[2]]
  {
    var m := (s[0] as int - 0xE0) * 64 + (s[1] as int - 0x80);
    var n := m * 64 + (s[2] as int - 0x80);
    assert n / 64 == m && m / 64 == s[0] as int - 0xE0;
  }

  lemma FourEncode(s: Bytes)
    requires |s| >= 4 && 0xF0 <= s[0] <= 0xF4 && Second(s[0], s[1]) && Continues(s[2]) && Continues(s[3])
    ensures EncodeChar(DecodeHead(s).0) == [s[0], s[1], s[2], s[3]]
  {
    var l := (s[0] as int - 0xF0) * 64 + (s[1] as int - 0x80);
    var m := l * 64 + (s[2] as int - 0x80);
    var n := m * 64 + (s[3] as int - 0x80);
    assert n / 64 == m && m / 64 == l && l / 64 == s[0] as int - 0xF0;
  }

  lemma WholeEncodes(s: Bytes)
    requires s != [] && Whole(s)
    ensures EncodeChar(DecodeHead(s).0) == s[..DecodeHead(s).1]
  {
    var n := DecodeHead(s).1;
    if n == 1 {
      assert s[..1] == [s[0]];
    } else if n == 2 {
      TwoEncode(s);
      assert s[..2] == [s[0], s[1]];
    } else if n == 3 {
      ThreeEncode(s);
      assert s[..3] == [s[0], s[1], s[2]];
    } else {
      FourEncode(s);
      assert s[..4] == [s[0], s[1], s[2], s[3]];
    }
  }

  lemma WholeStarts(s: Bytes)
    requires s != []
    ensures Whole(s) ==> StartsWithOne(s)
  {
    if Whole(s) {
      WholeEncodes(s);
      assert EncodeChar(DecodeHead(s).0) <= s;
    }
  }

  lemma ThreeBegin(lead: byte, b: byte, b': byte)
    requires 0xF0 <= lead <= 0xF4 && Second(lead, b) && Continues(b')
    ensures Begins([lead, b, b'])
  {
    var s: Bytes := [lead, b, b', 0x80];
    FourEncode(s);
    assert [lead, b, b'] <= EncodeChar(DecodeHead(s).0);
  }

  /** Lead and second byte of a longer character, padded to a whole one. */
  lemma TwoBeginThree(lead: byte, b: byte)
    requires 0xE0 <= lead < 0xF0 && Second(lead, b)
    ensures Begins([lead, b])
  {
    var s: Bytes := [lead, b, 0x80];
    ThreeEncode(s);
    assert [lead, b] <= EncodeChar(DecodeHead(s).0);
  }

  lemma TwoBegin(lead: byte, b: byte)
    requires 0xE0 <= lead <= 0xF4 && Second(lead, b)
    ensures Begins([lead, b])
  {
    if lead < 0xF0 {
      TwoBeginThree(lead, b);
    } else {
      ThreeBegin(lead, b, 0x80);
      var c :| [lead, b, 0x80] <= EncodeChar(c);
      assert [lead, b] <= [lead, b, 0x80];
      assert [lead, b] <= EncodeChar(c);
    }
  }

  lemma BegunShape(s: Bytes, c: char)
    requires |s| >= 2 && s <= EncodeChar(c)
    ensures 0xC2 <= s[0] <= 0xF4 && Second(s[0], s[1])
    ensures (|s| >= 3 ==> Continues(s[2])) && (|s| >= 4 ==> Continues(s[3]))
  {
    EncodedShape(c);
  }

  lemma NotBegun(s: Bytes, n: nat)
    requires 2 <= n <= |s| && 2 <= n <= 4
    requires !(0xC2 <= s[0] <= 0xF4 && Second(s[0], s[1])) || (n >= 3 && !Continues(s[2])) ||
      (n >= 4 && !Continues(s[3]))
    ensures !Begins(s[..n])
  {
    if Begins(s[..n]) {
      var c :| s[..n] <= EncodeChar(c);
      BegunShape(s[..n], c);
    }
  }

  /** Bytes that start no character are replaced one maximal piece at a time: a single byte, or as
      many as still begin some character, and no more. */
  lemma ReplacesMaximalPiece(s: Bytes)
    requires s != [] && !StartsWithOne(s)
    ensures var (c, n) := DecodeHead(s);
      c == '\U{FFFD}' && (n == 1 || Begins(s[..n])) && (n == |s| || !Begins(s[..n + 1]))
  {
    var n := DecodeHead(s).1;
    WholeStarts(s);
    if n == 1 {
      if |s| >= 2 {
        NotBegun(s, 2);
      }
    } else if n == 2 {
      TwoBegin(s[0], s[1]);
      assert s[..2] == [s[0], s[1]];
      if |s| >= 3 {
        NotBegun(s, 3);
      }
    } else {
      ThreeBegin(s[0], s[1], s[2]);
      assert s[..3] == [s[0], s[1], s[2]];
      if |s| >= 4 {
        NotBegun(s, 4);
      }
    }
  }

  lemma NotReplaced(s: Bytes)
    requires s != [] && DecodeHead(s).0 != REPLACEMENT
    ensures Whole(s)
  {
  }

  lemma EncodeStep(c: char, t: string)
    ensures Encode([c] + t) == EncodeChar(c) + Encode(t)
  {
    assert ([c] + t)[1..] == t;
  }

  lemma DecodeStep(s: Bytes)
    requires s != []
    ensures Decode(s) == [DecodeHead(s).0] + Decode(s[DecodeHead(s).1..])
  {
  }

  lemma FaithfulHead(s: Bytes)
    requires s != [] && REPLACEMENT !in Decode(s)
    ensures var (c, n) := DecodeHead(s);
      EncodeChar(c) == s[..n] && REPLACEMENT !in Decode(s[n..]) && Decode(s) == [c] + Decode(s[n..])
  {
    var (c, n) := DecodeHead(s);
    DecodeStep(s);
    assert Decode(s)[0] == c && forall x :: x in Decode(s[n..]) ==> x in Decode(s);
    NotReplaced(s);
    WholeEncodes(s);
  }

  lemma FaithfulJoin(s: Bytes, n: nat, c: char, t: string)
    requires n <= |s| && EncodeChar(c) == s[..n] && Encode(t) == s[n..]
    ensures Encode([c] + t) == s
  {
    EncodeStep(c, t);
    assert s == s[..n] + s[n..];
  }

  /** Bytes that decode without a replacement are the encoding of what they decode to. */
  lemma {:induction false} DecodeFaithful(s: Bytes)
    requires '\U{FFFD}' !in Decode(s)
    ensures Encode(Decode(s)) == s
  {
    if s != [] {
      var (c, n) := DecodeHead(s);
      FaithfulHead(s);
      DecodeFaithful(s[n..]);
      FaithfulJoin(s, n, c, Decode(s[n..]));
    }
  }
}
