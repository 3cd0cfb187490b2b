/** The Base62 token derived from a digest (backend/token_generator.py). The SHA-256 digest,
    read as a big-endian integer, is the parameter `digest`. */
module Base62 {
  import opened Common

  const DECIMAL := "0123456789"
  const UPPER := "ABCDEFGHIJKLMNOPQRSTUVWXYZ"
  const LOWER := "abcdefghijklmnopqrstuvwxyz"
  const BASE62 := DECIMAL + UPPER + LOWER
  const TOKEN_LEN: nat := 7

  function DigitValue(c: char): nat {
    if '0' <= c <= '9' then (c - '0') as nat
    else if 'A' <= c <= 'Z' then (c - 'A') as nat + 10
    else if 'a' <= c <= 'z' then (c - 'a') as nat + 36
    else 0
  }

  predicate IsDigit(c: char) { '0' <= c <= '9' || 'A' <= c <= 'Z' || 'a' <= c <= 'z' }

  /** The alphabet as arithmetic; `AlphabetIs` ties it to the source's string. */
  function DigitChar(d: nat): (c: char)
    requires d < 62
    ensures IsDigit(c) && DigitValue(c) == d
  {
    if d < 10 then '0' + d as char
    else if d < 36 then 'A' + (d - 10) as char
    else 'a' + (d - 36) as char
  }

  function Digits(n: nat): string {
    if n == 0 then "" else Digits(n / 62) + [DigitChar(n % 62)]
  }

  function Numeral(n: nat): string { if n == 0 then "0" else Digits(n) }

  function Zeros(k: nat): string { seq(k, _ => '0') }

  /** Python's `s[:7].ljust(7, "0")`. */
  function Fit(s: string): (r: string)
    ensures |r| == TOKEN_LEN
  {
    if |s| >= TOKEN_LEN then s[..TOKEN_LEN] else s + Zeros(TOKEN_LEN - |s|)
  }

  function TokenOf(digest: nat): string { Fit(Numeral(digest)) }

  function Reversed(s: string): (r: string)
    ensures |r| == |s|
  {
    if s == "" then "" else [Last(s)] + Reversed(Front(s))
  }

  lemma DecimalAt(i: nat)
    requires i < 10
    ensures DECIMAL[i] as int == '0' as int + i
  {
  }

  lemma LowerAt(i: nat)
    requires i < 26
    ensures LOWER[i] as int == 'a' as int + i
  {
  }

  lemma UpperAt(i: nat)
    requires i < 26
    ensures UPPER[i] as int == 'A' as int + i
  {
  }

  lemma AlphabetParts(d: nat)
    requires d < 62
    ensures BASE62[d] == if d < 10 then DECIMAL[d] else if d < 36 then UPPER[d - 10] else LOWER[d - 36]
  {
  }

  lemma AlphabetIs(d: nat)
    requires d < 62
    ensures BASE62[d] == DigitChar(d)
  {
    AlphabetParts(d);
    if d < 10 {
      DecimalAt(d);
    } else if d < 36 {
      UpperAt(d - 10);
    } else {
      LowerAt(d - 36);
    }
  }

  method Base62Char(d: nat) returns (c: char)
    requires d < 62
    ensures c == DigitChar(d)
  {
    AlphabetIs(d);
    c := BASE62[d];
  }

  lemma ReversedAppend(s: string, c: char)
    ensures Reversed(s + [c]) == [c] + Reversed(s)
  {
    assert Front(s + [c]) == s;
  }

  lemma OneMoreDigit(digits: string, n: nat, chars: string, c: char)
    requires n != 0 && digits == Digits(n) + Reversed(chars) && c == DigitChar(n % 62)
    ensures digits == Digits(n / 62) + Reversed(chars + [c])
  {
    ReversedAppend(chars, c);
  }

  lemma NumeralOf(digest: nat, chars: string)
    requires Digits(digest) == Digits(0) + Reversed(chars)
    ensures Numeral(digest) == if chars != "" then Reversed(chars) else [DigitChar(0)]
  {
  }

  method GenerateToken(digest: nat) returns (token: string)
    ensures token == TokenOf(digest)
  {
    var n := digest;
    var chars: string := "";
    while n != 0
      invariant Digits(digest) == Digits(n) + Reversed(chars)
    {
      var c := Base62Char(n % 62);
      OneMoreDigit(Digits(digest), n, chars, c);
      chars := chars + [c];
      n := n / 62;
    }
    NumeralOf(digest, chars);
    var zero := Base62Char(0);
    var b62 := if chars != "" then Reversed(chars) else [zero];
    token := Fit(b62);
  }

  /** The number a digit string denotes. */
  function Value(s: string): nat {
    if s == "" then 0 else 62 * Value(Front(s)) + DigitValue(Last(s))
  }

  ghost predicate AllDigits(s: string) { forall i :: 0 <= i < |s| ==> IsDigit(s[i]) }

  lemma DigitCharOfValue(c: char)
    requires IsDigit(c)
    ensures DigitValue(c) < 62 && DigitChar(DigitValue(c)) == c
  {
  }

  function Pow62(k: nat): (r: nat)
    ensures r > 0
  {
    if k == 0 then 1 else 62 * Pow62(k - 1)
  }

  /** The loop's digits decode back to the number, with no leading zero. */
  lemma {:induction false} DigitsDecode(n: nat)
    ensures Value(Digits(n)) == n && AllDigits(Digits(n))
    ensures n > 0 ==> Digits(n) != "" && Digits(n)[0] != '0'
  {
    if n > 0 {
      DigitsDecode(n / 62);
      assert Front(Digits(n)) == Digits(n / 62);
    }
  }

  /** Appending a digit to a numeral gives the numeral of 62 v + d, unless both are zero. */
  lemma AppendDigit(v: nat, c: char)
    requires IsDigit(c) && (v > 0 || c != '0')
    ensures Digits(62 * v + DigitValue(c)) == Digits(v) + [c]
  {
    DigitCharOfValue(c);
    assert (62 * v + DigitValue(c)) / 62 == v && (62 * v + DigitValue(c)) % 62 == DigitValue(c);
  }

  lemma ValueAppend(f: string, c: char)
    ensures Value(f + [c]) == 62 * Value(f) + DigitValue(c)
  {
    assert Front(f + [c]) == f && Last(f + [c]) == c;
  }

  lemma NumeralStep(f: string, c: char)
    requires f == Digits(Value(f)) && IsDigit(c) && (f == "" ==> c != '0')
    ensures f + [c] == Digits(Value(f + [c]))
  {
    ValueAppend(f, c);
    AppendDigit(Value(f), c);
  }

  /** The numeral is the only digit string with that value and no leading zero. */
  lemma {:induction false} NumeralUnique(s: string)
    requires AllDigits(s) && (s == "" || s[0] != '0')
    ensures s == Digits(Value(s))
  {
    if s != "" {
      var f, c := s[..|s| - 1], s[|s| - 1];
      assert f == "" ==> c == s[0];
      NumeralUnique(f);
      NumeralStep(f, c);
      assert s == f + [c];
    }
  }

  /** The numeral has k + 1 digits exactly when the number lies in [62^k, 62^(k+1)). */
  lemma {:induction false} DigitCount(n: nat)
    requires n > 0
    ensures var k := |Digits(n)|; k > 0 && Pow62(k - 1) <= n < Pow62(k)
  {
    if n >= 62 {
      DigitCount(n / 62);
    } else {
      assert Digits(n / 62) == "";
      assert Pow62(1) == 62 * Pow62(0);
    }
  }

  lemma Pow62Monotone(j: nat, k: nat)
    requires j <= k
    ensures Pow62(j) <= Pow62(k)
    decreases k - j
  {
    if j < k {
      Pow62Monotone(j, k - 1);
    }
  }

  lemma Pow62Adds(j: nat, k: nat)
    ensures Pow62(j + k) == Pow62(j) * Pow62(k)
  {
    if j > 0 {
      Pow62Adds(j - 1, k);
      assert Pow62(j + k) == 62 * (Pow62(j - 1) * Pow62(k));
    }
  }

  lemma Pow62At5()
    ensures Pow62(3) == 238328 && Pow62(5) == 916132832
  {
  }

  lemma Pow62At20()
    ensures Pow62(20) == 704423425546998022968330264616370176
  {
    Pow62At5();
    Pow62Adds(5, 5);
    Pow62Adds(10, 10);
  }

  lemma Pow62At43()
    ensures Pow62(43) > 0x1_0000_0000_0000_0000_0000_0000_0000_0000_0000_0000_0000_0000_0000_0000_0000_0000
  {
    Pow62At5();
    Pow62At20();
    Pow62Adds(20, 20);
    Pow62Adds(40, 3);
  }

  /** A 256-bit digest has at most 43 Base62 digits. */
  lemma DigestFits(digest: nat)
    requires digest < 0x1_0000_0000_0000_0000_0000_0000_0000_0000_0000_0000_0000_0000_0000_0000_0000_0000
    ensures 1 <= |Numeral(digest)| <= 43
  {
    if digest > 0 {
      DigitCount(digest);
      Pow62At43();
      if |Digits(digest)| > 43 {
        Pow62Monotone(43, |Digits(digest)| - 1);
      }
    }
  }

  lemma MultipleGap(d: int, p: nat)
    ensures d == 0 || d * p >= p || d * p <= 0 - p
  {
    if d >= 1 {
      assert (d - 1) * p >= 0;
    } else if d < 0 {
      assert (-1 - d) * p >= 0;
    }
  }

  lemma QuotientIs(n: nat, p: nat, q: nat, r: nat)
    requires p > 0 && n == q * p + r && r < p
    ensures n / p == q
  {
    var d := q - n / p;
    assert n == (n / p) * p + n % p;
    assert d * p == q * p - (n / p) * p;
    MultipleGap(d, p);
  }

  lemma DivideTwice(v: nat, d: nat, p: nat)
    requires d < 62 && p > 0
    ensures (62 * v + d) / (62 * p) == v / p
  {
    var q, r := v / p, v % p;
    assert v == q * p + r;
    assert 62 * v + d == q * (62 * p) + (62 * r + d);
    assert 62 * r + d < 62 * p;
    QuotientIs(62 * v + d, 62 * p, q, 62 * r + d);
  }

  lemma {:induction false} PrefixValue(s: string, k: nat)
    requires k <= |s| && AllDigits(s)
    ensures Value(s[..k]) == Value(s) / Pow62(|s| - k)
    decreases |s|
  {
    if k < |s| {
      PrefixValue(Front(s), k);
      assert Front(s)[..k] == s[..k];
      DigitCharOfValue(Last(s));
      DivideTwice(Value(Front(s)), DigitValue(Last(s)), Pow62(|s| - 1 - k));
    } else {
      assert s[..k] == s;
    }
  }

  lemma Regroup(v: nat, p: nat)
    ensures 62 * (v * p) == v * (62 * p)
  {
  }

  lemma {:induction false} ZerosValue(s: string, k: nat)
    ensures Value(s + Zeros(k)) == Value(s) * Pow62(k)
  {
    var t := s + Zeros(k);
    if k == 0 {
      assert t == s;
    } else {
      ZerosValue(s, k - 1);
      assert Front(t) == s + Zeros(k - 1) && Last(t) == '0';
      Regroup(Value(s), Pow62(k - 1));
    }
  }

  lemma NumeralDecodes(digest: nat)
    ensures AllDigits(Numeral(digest)) && Value(Numeral(digest)) == digest
    ensures Numeral(digest) != "" && (Numeral(digest)[0] == '0' <==> digest == 0)
  {
    DigitsDecode(digest);
    if digest == 0 {
      assert Value("0") == 62 * Value("") + 0;
    }
  }

  lemma {:induction false} ZerosAreDigits(k: nat)
    ensures AllDigits(Zeros(k))
  {
    if k > 0 {
      ZerosAreDigits(k - 1);
    }
  }

  lemma FitDigits(n: string)
    requires n != "" && AllDigits(n)
    ensures AllDigits(Fit(n)) && Fit(n)[0] == n[0]
  {
    if |n| < 7 {
      ZerosAreDigits(7 - |n|);
    }
  }

  lemma FitLong(n: string, v: nat)
    requires |n| >= 7 && AllDigits(n) && Value(n) == v
    ensures Value(Fit(n)) == v / Pow62(|n| - 7)
  {
    PrefixValue(n, 7);
  }

  lemma FitZeros(n: string, v: nat, k: nat, t: string)
    requires AllDigits(n) && Value(n) == v && t == n + Zeros(k)
    ensures Value(t) == v * Pow62(k)
  {
    ZerosValue(n, k);
  }

  lemma FitIs(n: string)
    ensures |n| < 7 ==> Fit(n) == n + Zeros(7 - |n|)
  {
  }

  /** `t` is the top seven digits of `n`, which denotes `v`, or `n` scaled up. */
  ghost predicate TopDigits(t: string, n: string, v: nat) {
    |t| == 7 && AllDigits(t) && (t[0] == '0' <==> v == 0) &&
    if |n| >= 7 then t == n[..7] && Value(t) == v / Pow62(|n| - 7) else Value(t) == v * Pow62(7 - |n|)
  }

  lemma FitTopDigits(n: string, v: nat)
    requires n != "" && AllDigits(n) && Value(n) == v && (n[0] == '0' <==> v == 0)
    ensures TopDigits(Fit(n), n, v)
  {
    FitDigits(n);
    if |n| >= 7 {
      FitLong(n, v);
    } else {
      FitIs(n);
      FitZeros(n, v, 7 - |n|, Fit(n));
    }
  }

  /** The token is seven digits: the numeral's top seven, or all of it scaled up by
      trailing zeros; it starts with '0' only for the digest 0. */
  lemma TokenIsTopDigits(digest: nat)
    ensures TopDigits(TokenOf(digest), Numeral(digest), digest)
  {
    NumeralDecodes(digest);
    FitTopDigits(Numeral(digest), digest);
  }
}
