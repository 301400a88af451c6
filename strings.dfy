/** The parts of Rust's string API the server relies on, stated on `string`
    (a sequence of Unicode scalar values):
    - `str::split_whitespace`, which tokenises the request line;
    - `str::split(": ")` as used on header lines (first and second piece);
    - `str::len`, the UTF-8 byte length written into `Content-Length`;
    - `format!("{}", n)` for an unsigned integer. */
module Strings {
  import opened Wrappers

  // ---------------------------------------------------------------------
  // split_whitespace
  // ---------------------------------------------------------------------

  /** `char::is_whitespace`: the characters with Unicode's White_Space property. */
  predicate IsWhitespace(c: char) {
    || c == ' '
    || ('\t' <= c <= '\r')              // tab, line feed, vertical tab, form feed, carriage return
    || c == '\U{0085}' || c == '\U{00A0}' || c == '\U{1680}'
    || ('\U{2000}' <= c <= '\U{200A}')
    || c == '\U{2028}' || c == '\U{2029}' || c == '\U{202F}' || c == '\U{205F}' || c == '\U{3000}'
  }

  /** What `split_whitespace` can yield: a non-empty run without whitespace. */
  predicate IsToken(t: string) {
    |t| > 0 && forall i :: 0 <= i < |t| ==> !IsWhitespace(t[i])
  }

  predicate IsBlank(s: string) {
    forall i :: 0 <= i < |s| ==> IsWhitespace(s[i])
  }

  /** Length of the leading run of non-whitespace characters. */
  function TokenEnd(s: string): (n: nat)
    ensures n <= |s|
    ensures forall i :: 0 <= i < n ==> !IsWhitespace(s[i])
    ensures n < |s| ==> IsWhitespace(s[n])
  {
    if s == [] || IsWhitespace(s[0]) then 0 else 1 + TokenEnd(s[1..])
  }

  /** `s.split_whitespace().collect::<Vec<_>>()`. */
  function Tokens(s: string): (ts: seq<string>)
    ensures forall i :: 0 <= i < |ts| ==> IsToken(ts[i])
    decreases |s|
  {
    if s == [] then []
    else if IsWhitespace(s[0]) then Tokens(s[1..])
    else
      var n := TokenEnd(s);
      [s[..n]] + Tokens(s[n..])
  }

  /** A string made only of whitespace has no tokens. */
  lemma {:induction false} TokensOfBlank(s: string)
    requires IsBlank(s)
    ensures Tokens(s) == []
    decreases |s|
  {
    if s != [] {
      TokensOfBlank(s[1..]);
    }
  }

  /** A single token splits into itself. */
  lemma TokensOfToken(t: string)
    requires IsToken(t)
    ensures Tokens(t) == [t]
  {
    var n := TokenEnd(t);
    assert n == |t|;
    assert t[..n] == t && t[n..] == [];
  }

  /** Any whitespace character separates: the tokens of `a c b` are those of
      `a` followed by those of `b`. Together with TokensOfToken and
      TokensOfBlank this determines `Tokens` on every string. */
  lemma {:induction false} TokensSeparated(a: string, c: char, b: string)
    requires IsWhitespace(c)
    ensures Tokens(a + [c] + b) == Tokens(a) + Tokens(b)
    decreases |a|
  {
    var s := a + [c] + b;
    if a == [] {
      assert s[1..] == b;
    } else if IsWhitespace(a[0]) {
      assert s[1..] == a[1..] + [c] + b;
      TokensSeparated(a[1..], c, b);
    } else {
      var m := TokenEnd(a);
      forall i | 0 <= i < m ensures !IsWhitespace(s[i]) {
        assert s[i] == a[i];
      }
      assert m < |s| && IsWhitespace(s[m]) by {
        if m < |a| { assert s[m] == a[m]; } else { assert s[m] == c; }
      }
      TokenEndUnique(s, m);
      var n := m;
      assert s[..n] == a[..m];
      assert s[n..] == a[m..] + [c] + b;
      TokensSeparated(a[m..], c, b);
    }
  }

  /** TokenEnd is the index of the first whitespace character, if any. */
  lemma TokenEndUnique(s: string, k: nat)
    requires k <= |s|
    requires forall i :: 0 <= i < k ==> !IsWhitespace(s[i])
    requires k < |s| ==> IsWhitespace(s[k])
    ensures TokenEnd(s) == k
  {
  }

  /** A request line `verb path rest`: the first two tokens are the verb and
      the path, whatever `rest` holds. */
  lemma RequestLineTokens(verb: string, path: string, rest: string)
    requires IsToken(verb) && IsToken(path)
    ensures Tokens(verb + [' '] + path + [' '] + rest) == [verb, path] + Tokens(rest)
  {
    var tail := path + [' '] + rest;
    LeadingToken(path, ' ', rest);
    LeadingToken(verb, ' ', tail);
    SplitAfterFirstToken(verb, path, rest);
  }

  lemma SplitAfterFirstToken(verb: string, path: string, rest: string)
    ensures verb + [' '] + path + [' '] + rest == verb + [' '] + (path + [' '] + rest)
  {
  }

  /** A request line of exactly two tokens. */
  lemma BareRequestLineTokens(verb: string, path: string)
    requires IsToken(verb) && IsToken(path)
    ensures Tokens(verb + [' '] + path) == [verb, path]
  {
    LeadingToken(verb, ' ', path);
    TokensOfToken(path);
  }

  /** A token followed by whitespace comes out first. */
  lemma LeadingToken(t: string, c: char, rest: string)
    requires IsToken(t) && IsWhitespace(c)
    ensures Tokens(t + [c] + rest) == [t] + Tokens(rest)
  {
    TokensSeparated(t, c, rest);
    TokensOfToken(t);
  }

  // ---------------------------------------------------------------------
  // split(": ")
  // ---------------------------------------------------------------------

  /** The separator `": "` starts at index `j` of `s`. */
  predicate SepAt(s: string, j: int) {
    0 <= j && j + 1 < |s| && s[j] == ':' && s[j + 1] == ' '
  }

  predicate ContainsSep(s: string) {
    exists j :: 0 <= j < |s| && SepAt(s, j)
  }

  /** Index of the first `": "` in `s`, as `split` finds it. */
  function FindSep(s: string): (r: Option<nat>)
    ensures r.Some? ==> SepAt(s, r.value) && forall j :: 0 <= j < r.value ==> !SepAt(s, j)
    ensures r.None? ==> !ContainsSep(s)
  {
    if |s| < 2 then None
    else if s[0] == ':' && s[1] == ' ' then Some(0)
    else
      var tail := s[1..];
      assert forall j :: 1 <= j ==> (SepAt(s, j) <==> SepAt(tail, j - 1));
      match FindSep(tail)
      case None => None
      case Some(i) => Some(i + 1)
  }

  /** A string without `": "` has none to find. */
  lemma NoSepFound(s: string)
    requires !ContainsSep(s)
    ensures FindSep(s) == None
  {
  }

  /** The first `": "` of `a + ": " + b`, when `a` has none, is the one
      right after `a`: a separator cannot straddle the end of `a`. */
  lemma FindSepAfter(a: string, b: string)
    requires !ContainsSep(a)
    ensures FindSep(a + ": " + b) == Some(|a|)
  {
    var s := a + ": " + b;
    forall j | 0 <= j < |a| ensures !SepAt(s, j) {
      if j + 1 < |a| {
        assert !SepAt(a, j);
      } else {
        assert s[j + 1] == ':';
      }
    }
    assert SepAt(s, |a|);
    FirstSep(s, |a|);
  }

  /** FindSep returns the first separator. */
  lemma FirstSep(s: string, k: nat)
    requires SepAt(s, k)
    requires forall j :: 0 <= j < k ==> !SepAt(s, j)
    ensures FindSep(s) == Some(k)
  {
  }

  /** A prefix of a string without `": "` has none either. */
  lemma PrefixWithoutSep(s: string, i: nat)
    requires i <= |s|
    requires forall j :: 0 <= j < i ==> !SepAt(s, j)
    ensures !ContainsSep(s[..i])
  {
    forall j | SepAt(s[..i], j) ensures false {
      assert SepAt(s, j);
    }
  }

  // ---------------------------------------------------------------------
  // str::len: UTF-8 byte length
  // ---------------------------------------------------------------------

  /** Number of bytes UTF-8 uses for one scalar value. */
  function Utf8Width(c: char): nat {
    if c as int < 0x80 then 1
    else if c as int < 0x800 then 2
    else if c as int < 0x1_0000 then 3
    else 4
  }

  predicate IsAscii(s: string) {
    forall i :: 0 <= i < |s| ==> s[i] as int < 0x80
  }

  /** `String::len`: the length in bytes of the UTF-8 encoding. It is never
      less than the number of characters, at most four times it, and equal
      to it exactly when every character is ASCII. */
  function Utf8Len(s: string): (n: nat)
    ensures |s| <= n <= 4 * |s|
    ensures n == |s| <==> IsAscii(s)
  {
    if s == [] then 0
    else
      var n := Utf8Width(s[0]) + Utf8Len(s[1..]);
      assert IsAscii(s) <==> s[0] as int < 0x80 && IsAscii(s[1..]) by {
        if s[0] as int < 0x80 && IsAscii(s[1..]) {
          forall i | 0 < i < |s| ensures s[i] as int < 0x80 {
            assert s[i] == s[1..][i - 1];
          }
        }
      }
      n
  }

  /** Byte length adds up over concatenation. */
  lemma {:induction false} Utf8LenConcat(a: string, b: string)
    ensures Utf8Len(a + b) == Utf8Len(a) + Utf8Len(b)
    decreases |a|
  {
    if a != [] {
      assert (a + b)[0] == a[0];
      assert (a + b)[1..] == a[1..] + b;
      Utf8LenConcat(a[1..], b);
    } else {
      assert a + b == b;
    }
  }

  // ---------------------------------------------------------------------
  // format!("{}", n) for an unsigned integer
  // ---------------------------------------------------------------------

  predicate IsDigit(c: char) {
    '0' <= c <= '9'
  }

  predicate IsDecimal(s: string) {
    forall i :: 0 <= i < |s| ==> IsDigit(s[i])
  }

  function DigitChar(d: nat): (c: char)
    requires d < 10
    ensures IsDigit(c)
  {
    ('0' as int + d) as char
  }

  /** The value a decimal numeral denotes: the inverse of NatToString. */
  function DecimalValue(s: string): nat
    requires IsDecimal(s)
  {
    if s == [] then 0
    else 10 * DecimalValue(s[..|s| - 1]) + (s[|s| - 1] as int - '0' as int)
  }

  /** Decimal rendering of `n`, as `format!("{}", n)` writes it: only digits,
      and no leading zero except for zero itself. */
  function NatToString(n: nat): (s: string)
    ensures |s| >= 1 && IsDecimal(s)
    ensures s == "0" <==> n == 0
    ensures s[0] != '0' || s == "0"
  {
    if n < 10 then [DigitChar(n)]
    else NatToString(n / 10) + [DigitChar(n % 10)]
  }

  /** Reading the numeral back gives the number: a `Content-Length` value
      denotes exactly the length it was formatted from. */
  lemma {:induction false} DecimalRoundTrip(n: nat)
    ensures DecimalValue(NatToString(n)) == n
  {
    var s := NatToString(n);
    if n >= 10 {
      assert s[..|s| - 1] == NatToString(n / 10);
      DecimalRoundTrip(n / 10);
    }
  }
}
