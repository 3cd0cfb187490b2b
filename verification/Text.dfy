/** Splitting strings at a separator character. */
module Text {
  import opened Common

  /** Python's `s.split(sep)` for a one-character separator. */
  function Split(s: string, sep: char): (fields: seq<string>)
    ensures fields != []
  {
    if s == "" then [""]
    else
      var before := Split(Front(s), sep);
      if Last(s) == sep then before + [""] else Front(before) + [Last(before) + [Last(s)]]
  }

  /** Python's `sep.join(fields)`. */
  function Join(fields: seq<string>, sep: char): string {
    if fields == [] then ""
    else if |fields| == 1 then fields[0]
    else Join(Front(fields), sep) + [sep] + Last(fields)
  }

  lemma JoinSnoc(fields: seq<string>, field: string, sep: char)
    ensures Join(fields + [field], sep) == Join(fields, sep) + (if fields == [] then "" else [sep]) + field
  {
    assert Front(fields + [field]) == fields && Last(fields + [field]) == field;
    if fields == [] {
      assert fields + [field] == [field] && "" + "" + field == field;
    }
  }

  lemma AppendToLastField(a: seq<string>, b: seq<string>, c: char)
    requires b != []
    ensures Front(a + b) + [Last(a + b) + [c]] == a + (Front(b) + [Last(b) + [c]])
    ensures (a + b) + [""] == a + (b + [""])
  {
  }

  lemma {:induction false} SplitAt(a: string, b: string, sep: char)
    ensures Split(a + [sep] + b, sep) == Split(a, sep) + Split(b, sep)
  {
    var s := a + [sep] + b;
    if b == "" {
      assert Front(s) == a && Last(s) == sep;
    } else {
      SplitAt(a, Front(b), sep);
      assert Front(s) == a + [sep] + Front(b) && Last(s) == Last(b);
      AppendToLastField(Split(a, sep), Split(Front(b), sep), Last(b));
    }
  }

  lemma {:induction false} SplitNone(s: string, sep: char)
    requires sep !in s
    ensures Split(s, sep) == [s]
  {
    if s != "" {
      SplitNone(Front(s), sep);
      assert s == Front(s) + [Last(s)];
    }
  }

  /** Joining fields that do not contain the separator and splitting again gives them back. */
  lemma {:induction false} SplitJoin(fields: seq<string>, sep: char)
    requires fields != [] && forall f :: f in fields ==> sep !in f
    ensures Split(Join(fields, sep), sep) == fields
  {
    if |fields| == 1 {
      SplitNone(fields[0], sep);
    } else {
      SplitJoin(Front(fields), sep);
      SplitAt(Join(Front(fields), sep), Last(fields), sep);
      SplitNone(Last(fields), sep);
      assert fields == Front(fields) + [Last(fields)];
    }
  }

  lemma SplitSnoc(s: string, c: char, sep: char)
    requires c != sep
    ensures Split(s + [c], sep) == Front(Split(s, sep)) + [Last(Split(s, sep)) + [c]]
  {
    assert Front(s + [c]) == s && Last(s + [c]) == c;
  }

  lemma ExtendLast(fields: seq<string>, e: string, c: char, longer: seq<string>)
    requires fields != [] && longer == Front(fields) + [Last(fields) + e]
    ensures Front(longer) + [Last(longer) + [c]] == Front(fields) + [Last(fields) + (e + [c])]
  {
    assert Last(fields) + e + [c] == Last(fields) + (e + [c]);
  }

  /** Text without the separator goes into the last field. */
  lemma {:induction false} SplitAppend(a: string, e: string, sep: char)
    requires sep !in e
    ensures Split(a + e, sep) == Front(Split(a, sep)) + [Last(Split(a, sep)) + e]
  {
    if e == "" {
      assert a + e == a && Last(Split(a, sep)) + "" == Last(Split(a, sep));
    } else {
      var front, c := Front(e), Last(e);
      assert e == front + [c] && a + e == (a + front) + [c];
      SplitAppend(a, front, sep);
      SplitSnoc(a + front, c, sep);
      ExtendLast(Split(a, sep), front, c, Split(a + front, sep));
    }
  }

  lemma FirstOf(s: string, c: char) returns (i: nat)
    requires c in s
    ensures i < |s| && s[i] == c && c !in s[..i]
  {
    i := 0;
    while s[i] != c
      invariant i < |s| && c in s[i..] && c !in s[..i]
      decreases |s| - i
    {
      i := i + 1;
    }
  }

  lemma MiddleField(before: seq<string>, e: string, head: string, rest: seq<string>, after: seq<string>)
    requires before != [] && after == [head] + rest
    ensures Front(before) + [Last(before) + (e + head)] + rest ==
      Front(before) + [Last(before) + e + after[0]] + after[1..]
  {
    assert Last(before) + (e + head) == Last(before) + e + head;
  }

  /** Such text in the middle joins the last field before it to the first one after it. */
  lemma SplitMiddle(a: string, e: string, b: string, sep: char)
    requires sep !in e
    ensures Split(a + e + b, sep) ==
      Front(Split(a, sep)) + [Last(Split(a, sep)) + e + Split(b, sep)[0]] + Split(b, sep)[1..]
  {
    if sep in b {
      var i := FirstOf(b, sep);
      var head, rest := b[..i], b[i + 1..];
      assert b == head + [sep] + rest && a + e + b == (a + (e + head)) + [sep] + rest;
      SplitAt(a + (e + head), rest, sep);
      SplitAppend(a, e + head, sep);
      SplitAt(head, rest, sep);
      SplitNone(head, sep);
      MiddleField(Split(a, sep), e, head, Split(rest, sep), Split(b, sep));
    } else {
      SplitAppend(a, e + b, sep);
      SplitNone(b, sep);
      assert a + e + b == a + (e + b);
      MiddleField(Split(a, sep), e, b, [], Split(b, sep));
    }
  }
}
