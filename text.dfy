/** Character and string operations the parsers rely on, restricted to
    ASCII: Python's `str.split`, `str.strip`, `str.isdigit`, `str.lower`,
    `str.startswith`, `in`, `str.replace` and `int()`. */
module Text {
  import opened Wrappers

  /** The ASCII whitespace that `str.split()` and `str.strip()` remove. */
  predicate IsSpace(c: char) {
    c == ' ' || c == '\t' || c == '\n' || c == '\r' || c as int == 11 || c as int == 12
  }

  predicate IsDigit(c: char) {
    '0' <= c <= '9'
  }

  predicate IsUpper(c: char) {
    'A' <= c <= 'Z'
  }

  /** The class `[A-Za-z0-9]` of a regular expression. */
  predicate IsAlnum(c: char) {
    IsDigit(c) || IsUpper(c) || 'a' <= c <= 'z'
  }

  predicate AllDigits(s: string) {
    forall i :: 0 <= i < |s| ==> IsDigit(s[i])
  }

  /** `str.isdigit()`: true only for a non-empty run of digits. */
  predicate IsDigitString(s: string) {
    |s| > 0 && AllDigits(s)
  }

  function DigitValue(c: char): nat
    requires IsDigit(c)
  {
    c as int - '0' as int
  }

  /** The number a run of decimal digits denotes (`int(s)`). */
  function DigitsValue(s: string): nat
    requires AllDigits(s)
  {
    if |s| == 0 then 0 else DigitsValue(s[..|s| - 1]) * 10 + DigitValue(s[|s| - 1])
  }

  function DigitChar(d: nat): (c: char)
    requires d < 10
    ensures IsDigit(c) && DigitValue(c) == d
  {
    ('0' as int + d) as char
  }

  /** `str(n)` for a natural number, as used in `f"col_{i}"`. */
  function NatToString(n: nat): (s: string)
    ensures IsDigitString(s)
  {
    if n < 10 then [DigitChar(n)] else NatToString(n / 10) + [DigitChar(n % 10)]
  }

  /** Reading back what `NatToString` wrote gives the number again. */
  lemma {:induction false} NatToStringRoundTrip(n: nat)
    ensures DigitsValue(NatToString(n)) == n
  {
    if n >= 10 {
      NatToStringRoundTrip(n / 10);
      var s := NatToString(n);
      assert s[..|s| - 1] == NatToString(n / 10);
    }
  }

  /** Different numbers are rendered differently, so `col_3` and `col_30` never collide. */
  lemma NatToStringInjective(a: nat, b: nat)
    requires NatToString(a) == NatToString(b)
    ensures a == b
  {
    NatToStringRoundTrip(a);
    NatToStringRoundTrip(b);
  }

  /** Python's `int()` on a token: optional sign, then decimal digits. */
  function ParseInt(s: string): (r: Option<int>)
    ensures r.Some? <==> IsDigitString(s) || (|s| > 1 && (s[0] == '-' || s[0] == '+') && AllDigits(s[1..]))
  {
    if IsDigitString(s) then Some(DigitsValue(s))
    else if |s| > 1 && s[0] == '-' && AllDigits(s[1..]) then Some(0 - DigitsValue(s[1..]) as int)
    else if |s| > 1 && s[0] == '+' && AllDigits(s[1..]) then Some(DigitsValue(s[1..]))
    else None
  }

  function LowerChar(c: char): char {
    if IsUpper(c) then (c as int + 32) as char else c
  }

  function UpperChar(c: char): char {
    if 'a' <= c <= 'z' then (c as int - 32) as char else c
  }

  /** `str.lower()` on ASCII letters. */
  function Lower(s: string): string {
    seq(|s|, i requires 0 <= i < |s| => LowerChar(s[i]))
  }

  /** `str.upper()` on ASCII letters. */
  function Upper(s: string): string {
    seq(|s|, i requires 0 <= i < |s| => UpperChar(s[i]))
  }

  /** `needle in hay`: `needle` starts at some position of `hay`. */
  predicate Contains(hay: string, needle: string)
    decreases |hay|
  {
    needle <= hay || (|hay| > 0 && Contains(hay[1..], needle))
  }

  /** `needle` occurs in `hay` starting at position `i`. */
  predicate OccursAt(hay: string, needle: string, i: int) {
    0 <= i && i + |needle| <= |hay| && hay[i..i + |needle|] == needle
  }

  /** `Contains` finds exactly the windows of `hay` equal to `needle`. */
  lemma {:induction false} ContainsIffOccurs(hay: string, needle: string)
    ensures Contains(hay, needle) <==> exists i :: OccursAt(hay, needle, i)
    decreases |hay|
  {
    if needle <= hay {
      assert OccursAt(hay, needle, 0);
    } else if |hay| > 0 {
      ContainsIffOccurs(hay[1..], needle);
      if exists i :: OccursAt(hay, needle, i) {
        var i :| OccursAt(hay, needle, i);
        assert i != 0;
        assert hay[1..][i - 1..i - 1 + |needle|] == needle;
        assert OccursAt(hay[1..], needle, i - 1);
      }
      if Contains(hay[1..], needle) {
        var j :| OccursAt(hay[1..], needle, j);
        assert hay[j + 1..j + 1 + |needle|] == needle;
        assert OccursAt(hay, needle, j + 1);
      }
    } else {
      assert |needle| > 0;
    }
  }

  /** A case-insensitive substring test: pandas `str.contains(pat, case=False)`
      for a pattern without regular-expression metacharacters. */
  predicate ContainsIgnoreCase(hay: string, needle: string) {
    Contains(Lower(hay), Lower(needle))
  }

  /** Drops the characters satisfying `p` from the front. */
  function TrimStart(s: string, p: char -> bool): (r: string)
    ensures |r| <= |s| && r == s[|s| - |r|..]
    ensures |r| > 0 ==> !p(r[0])
  {
    if |s| > 0 && p(s[0]) then TrimStart(s[1..], p) else s
  }

  /** Drops the characters satisfying `p` from the back. */
  function TrimEnd(s: string, p: char -> bool): (r: string)
    ensures r <= s
    ensures |r| > 0 ==> !p(r[|r| - 1])
  {
    if |s| > 0 && p(s[|s| - 1]) then TrimEnd(s[..|s| - 1], p) else s
  }

  /** `str.strip()`. */
  function Strip(s: string): string {
    TrimEnd(TrimStart(s, IsSpace), IsSpace)
  }

  predicate IsQuote(c: char) {
    c == '"'
  }

  /** `str.strip('"')`. */
  function StripQuotes(s: string): string {
    TrimEnd(TrimStart(s, IsQuote), IsQuote)
  }

  /** Stripping does nothing to a string that holds no quote. */
  lemma {:induction false} StripQuotesNoQuote(s: string)
    requires '"' !in s
    ensures StripQuotes(s) == s
  {
    assert TrimStart(s, IsQuote) == s;
    assert TrimEnd(s, IsQuote) == s;
  }

  /** Length of the run of non-space characters at the front. */
  function TokenLength(s: string): (k: nat)
    ensures k <= |s|
    ensures forall i :: 0 <= i < k ==> !IsSpace(s[i])
    ensures k < |s| ==> IsSpace(s[k])
  {
    if |s| == 0 || IsSpace(s[0]) then 0 else 1 + TokenLength(s[1..])
  }

  /** `str.split()` with no separator: maximal runs of non-space characters. */
  function SplitWhitespace(s: string): (tokens: seq<string>)
    ensures forall t :: t in tokens ==> |t| > 0 && forall i :: 0 <= i < |t| ==> !IsSpace(t[i])
    decreases |s|
  {
    if |s| == 0 then []
    else if IsSpace(s[0]) then SplitWhitespace(s[1..])
    else
      var k := TokenLength(s);
      [s[..k]] + SplitWhitespace(s[k..])
  }

  function Concat(parts: seq<string>): string {
    if |parts| == 0 then "" else parts[0] + Concat(parts[1..])
  }

  function WithoutSpaces(s: string): string {
    if |s| == 0 then "" else (if IsSpace(s[0]) then "" else [s[0]]) + WithoutSpaces(s[1..])
  }

  lemma {:induction false} WithoutSpacesAppend(a: string, b: string)
    ensures WithoutSpaces(a + b) == WithoutSpaces(a) + WithoutSpaces(b)
  {
    if |a| > 0 {
      assert (a + b)[1..] == a[1..] + b;
      WithoutSpacesAppend(a[1..], b);
    } else {
      assert a + b == b;
    }
  }

  lemma {:induction false} WithoutSpacesOfToken(t: string)
    requires forall i :: 0 <= i < |t| ==> !IsSpace(t[i])
    ensures WithoutSpaces(t) == t
  {
    if |t| > 0 {
      WithoutSpacesOfToken(t[1..]);
      assert t == [t[0]] + t[1..];
    }
  }

  /** Splitting on whitespace loses exactly the whitespace: the tokens put
      back together are the input with its whitespace removed. */
  lemma {:induction false} SplitWhitespaceKeepsText(s: string)
    ensures Concat(SplitWhitespace(s)) == WithoutSpaces(s)
    decreases |s|
  {
    if |s| == 0 {
    } else if IsSpace(s[0]) {
      SplitWhitespaceKeepsText(s[1..]);
    } else {
      var k := TokenLength(s);
      SplitWhitespaceKeepsText(s[k..]);
      assert s == s[..k] + s[k..];
      WithoutSpacesAppend(s[..k], s[k..]);
      WithoutSpacesOfToken(s[..k]);
      assert SplitWhitespace(s)[1..] == SplitWhitespace(s[k..]);
    }
  }

  /** Position of the first `c` in `s`, or `|s|` when there is none. */
  function IndexOf(s: string, c: char): (k: nat)
    ensures k <= |s|
    ensures k < |s| ==> s[k] == c
  {
    if |s| == 0 || s[0] == c then 0 else 1 + IndexOf(s[1..], c)
  }

  /** The first `c` of `a + b` lies in `b` when `a` has none. */
  lemma {:induction false} IndexOfAfter(a: string, b: string, c: char)
    requires c !in a
    ensures IndexOf(a + b, c) == |a| + IndexOf(b, c)
  {
    if |a| > 0 {
      assert (a + b)[1..] == a[1..] + b;
      IndexOfAfter(a[1..], b, c);
    } else {
      assert a + b == b;
    }
  }

  /** `s.split(sep)`: always at least one field, empty fields kept. */
  function Split(s: string, sep: char): (fields: seq<string>)
    ensures |fields| >= 1
    decreases |s|
  {
    var k := IndexOf(s, sep);
    if k == |s| then [s] else [s[..k]] + Split(s[k + 1..], sep)
  }

  /** The first `c` of `s` is also the first of any extension of `s`. */
  lemma {:induction false} IndexOfBefore(s: string, t: string, c: char)
    requires IndexOf(s, c) < |s|
    ensures IndexOf(s + t, c) == IndexOf(s, c)
  {
    if s[0] != c {
      assert (s + t)[1..] == s[1..] + t;
      IndexOfBefore(s[1..], t, c);
    }
  }

  /** Appending the separator to the text opens a new, empty last field. */
  lemma {:induction false} SplitSnocSep(s: string, sep: char)
    ensures Split(s + [sep], sep) == Split(s, sep) + [""]
    decreases |s|
  {
    var k := IndexOf(s, sep);
    var t := s + [sep];
    if k < |s| {
      IndexOfBefore(s, [sep], sep);
      var rest := s[k + 1..];
      assert t[k + 1..] == rest + [sep] && t[..k] == s[..k];
      SplitFirst(s, sep, k);
      SplitFirst(t, sep, k);
      SplitSnocSep(rest, sep);
    } else {
      IndexOfNotFound(s, sep);
      IndexOfAfter(s, [sep], sep);
      SplitWhole(s, sep);
      assert IndexOf(t, sep) == |s|;
      SplitFirst(t, sep, |s|);
      assert t[..|s|] == s && t[|s| + 1..] == "";
      SplitWhole("", sep);
    }
  }

  /** Appending any other character to the text extends the last field. */
  lemma {:induction false} SplitSnocOther(s: string, c: char, sep: char)
    requires c != sep
    ensures var f := Split(s, sep);
      Split(s + [c], sep) == f[..|f| - 1] + [f[|f| - 1] + [c]]
    decreases |s|
  {
    var k := IndexOf(s, sep);
    var t := s + [c];
    if k < |s| {
      IndexOfBefore(s, [c], sep);
      var rest := s[k + 1..];
      assert t[k + 1..] == rest + [c] && t[..k] == s[..k];
      SplitFirst(s, sep, k);
      SplitFirst(t, sep, k);
      SplitSnocOther(rest, c, sep);
      var g := Split(rest, sep);
      var f := [s[..k]] + g;
      assert f[..|f| - 1] == [s[..k]] + g[..|g| - 1];
      assert f[|f| - 1] == g[|g| - 1];
    } else {
      IndexOfNotFound(s, sep);
      IndexOfAfter(s, [c], sep);
      SplitWhole(s, sep);
      assert IndexOf([c], sep) == 1;
      SplitWhole(t, sep);
    }
  }

  /** No character before `IndexOf` is the one searched for. */
  lemma {:induction false} IndexOfNotFound(s: string, c: char)
    requires IndexOf(s, c) == |s|
    ensures c !in s
  {
    if |s| > 0 {
      IndexOfNotFound(s[1..], c);
      assert s == [s[0]] + s[1..];
    }
  }

  /** `Split` of a string without the separator is that string alone. */
  lemma SplitWhole(s: string, sep: char)
    requires IndexOf(s, sep) == |s|
    ensures Split(s, sep) == [s]
  {
  }

  /** One step of `Split`: the field up to the first separator, then the
      fields of the rest. */
  lemma SplitFirst(s: string, sep: char, k: nat)
    requires k == IndexOf(s, sep) && k < |s|
    ensures Split(s, sep) == [s[..k]] + Split(s[k + 1..], sep)
  {
  }

  /** `sep.join(fields)`. */
  function Join(fields: seq<string>, sep: char): string {
    if |fields| == 0 then ""
    else if |fields| == 1 then fields[0]
    else fields[0] + [sep] + Join(fields[1..], sep)
  }

  /** Splitting and joining on the same separator gives the input back. */
  lemma {:induction false} SplitJoin(s: string, sep: char)
    ensures Join(Split(s, sep), sep) == s
    decreases |s|
  {
    var k := IndexOf(s, sep);
    if k < |s| {
      var rest := Split(s[k + 1..], sep);
      var f := [s[..k]] + rest;
      assert Split(s, sep) == f;
      assert |f| >= 2 && f[0] == s[..k] && f[1..] == rest;
      assert Join(f, sep) == s[..k] + [sep] + Join(rest, sep);
      SplitJoin(s[k + 1..], sep);
      assert s == s[..k] + [sep] + s[k + 1..];
    } else {
      assert Split(s, sep) == [s];
    }
  }

  /** `s.replace(pat, "")`: every occurrence of `pat`, scanning left to
      right without overlap, is deleted. */
  function RemoveAll(s: string, pat: string): string
    requires |pat| > 0
    decreases |s|
  {
    if |s| == 0 then ""
    else if pat <= s then RemoveAll(s[|pat|..], pat)
    else [s[0]] + RemoveAll(s[1..], pat)
  }

  /** When no occurrence of `pat` starts inside `s`, removal leaves `s` whole. */
  lemma {:induction false} RemoveAllSkipsPrefix(s: string, t: string, pat: string)
    requires |pat| > 0
    requires forall i :: 0 <= i < |s| ==> !(pat <= (s + t)[i..])
    ensures RemoveAll(s + t, pat) == s + RemoveAll(t, pat)
    decreases |s|
  {
    if |s| > 0 {
      assert (s + t)[0..] == s + t;
      assert (s + t)[1..] == s[1..] + t;
      forall i | 0 <= i < |s[1..]| ensures !(pat <= (s[1..] + t)[i..]) {
        assert (s[1..] + t)[i..] == (s + t)[i + 1..];
      }
      RemoveAllSkipsPrefix(s[1..], t, pat);
    } else {
      assert s + t == t;
    }
  }
}
