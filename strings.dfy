/** The pieces of Python's `str` behaviour the pipeline relies on: the
    whitespace set and `strip()`, decimal formatting of an `int` in an f-string,
    and substring containment (used to state what prompts contain). */
module Strings {

  /** Python's `str.isspace` for one character, which is the set `str.strip()`
      removes: tab, line feed, vertical tab, form feed, carriage return, the
      four information separators, space, NEL, no-break space and the Unicode
      space separators. */
  predicate IsSpace(c: char) {
    || c == ' '
    || ('\t' <= c <= '\r')
    || ('\U{1C}' <= c <= '\U{1F}')
    || c == '\U{85}'
    || c == '\U{A0}'
    || c == '\U{1680}'
    || ('\U{2000}' <= c <= '\U{200A}')
    || c == '\U{2028}'
    || c == '\U{2029}'
    || c == '\U{202F}'
    || c == '\U{205F}'
    || c == '\U{3000}'
  }

  /** Every character of `s` is whitespace. */
  predicate AllSpace(s: string) {
    forall c :: c in s ==> IsSpace(c)
  }

  /** Number of whitespace characters at the front of `s`. */
  function LeadingSpace(s: string): (i: nat)
    ensures i <= |s|
    ensures i == |s| || !IsSpace(s[i])
  {
    if s == [] || !IsSpace(s[0]) then 0 else 1 + LeadingSpace(s[1..])
  }

  /** Everything `LeadingSpace` counts is whitespace. */
  lemma {:induction false} LeadingSpaceAll(s: string)
    ensures AllSpace(s[..LeadingSpace(s)])
  {
    if s != [] && IsSpace(s[0]) {
      var j := LeadingSpace(s[1..]);
      LeadingSpaceAll(s[1..]);
      assert s[..1 + j] == [s[0]] + s[1..][..j];
    }
  }

  /** Number of whitespace characters at the back of `s`. */
  function TrailingSpace(s: string): (j: nat)
    ensures j <= |s|
    ensures j == |s| || !IsSpace(s[|s| - 1 - j])
  {
    if s == [] || !IsSpace(s[|s| - 1]) then 0 else 1 + TrailingSpace(s[..|s| - 1])
  }

  /** Everything `TrailingSpace` counts is whitespace. */
  lemma {:induction false} TrailingSpaceAll(s: string)
    ensures AllSpace(s[|s| - TrailingSpace(s)..])
  {
    if s != [] && IsSpace(s[|s| - 1]) {
      var t := s[..|s| - 1];
      TrailingSpaceAll(t);
      SpaceThenLast(s, t, TrailingSpace(t));
    }
  }

  /** A whitespace suffix of `s` minus its last character, extended by that
      last character when it is whitespace too. */
  lemma SpaceThenLast(s: string, t: string, j: nat)
    requires s != [] && t == s[..|s| - 1] && j <= |t|
    requires AllSpace(t[|t| - j..]) && IsSpace(s[|s| - 1])
    ensures AllSpace(s[|s| - (1 + j)..])
  {
    assert s[|s| - (1 + j)..] == t[|t| - j..] + [s[|s| - 1]];
  }

  /** Python's `s.strip()`: `s` with its leading and trailing whitespace
      removed. The result neither starts nor ends with whitespace; StripShape
      says where in `s` it lies. */
  function Strip(s: string): (r: string)
    ensures |r| <= |s|
    ensures r == [] || (!IsSpace(r[0]) && !IsSpace(r[|r| - 1]))
  {
    var t := s[LeadingSpace(s)..];
    t[..|t| - TrailingSpace(t)]
  }

  /** `Strip(s)` is the part of `s` that follows its leading whitespace, and
      all that follows it in `s` is whitespace: `s` is whitespace, the result,
      whitespace. */
  lemma StripShape(s: string)
    ensures LeadingSpace(s) + |Strip(s)| <= |s|
    ensures Strip(s) == s[LeadingSpace(s)..LeadingSpace(s) + |Strip(s)|]
    ensures AllSpace(s[..LeadingSpace(s)])
    ensures AllSpace(s[LeadingSpace(s) + |Strip(s)|..])
  {
    LeadingSpaceAll(s);
    StripParts(s, LeadingSpace(s), Strip(s));
  }

  /** What `Strip` keeps is the middle of `s` from index `i`, and what it
      drops at the back is whitespace. */
  lemma StripParts(s: string, i: nat, r: string)
    requires i == LeadingSpace(s) && r == Strip(s)
    ensures i + |r| <= |s|
    ensures r == s[i..i + |r|]
    ensures AllSpace(s[i + |r|..])
  {
    var t := s[i..];
    StripMiddle(s, i, t, TrailingSpace(t), r);
    TrailingSpaceAll(t);
    StripEnd(s, i, t, TrailingSpace(t), r);
  }

  lemma StripMiddle(s: string, i: nat, t: string, j: nat, r: string)
    requires i <= |s| && t == s[i..] && j <= |t| && r == t[..|t| - j]
    ensures i + |r| <= |s|
    ensures r == s[i..i + |r|]
  {
  }

  lemma StripEnd(s: string, i: nat, t: string, j: nat, r: string)
    requires i <= |s| && t == s[i..] && j <= |t| && |r| == |t| - j
    requires AllSpace(t[|t| - j..])
    ensures AllSpace(s[i + |r|..])
  {
    assert t[|t| - j..] == s[i + |r|..];
  }

  /** Every character of `Strip(s)` comes from `s`. */
  lemma StripChars(s: string, c: char)
    requires c in Strip(s)
    ensures c in s
  {
    StripShape(s);
    var r := Strip(s);
    var k :| 0 <= k < |r| && r[k] == c;
    assert s[LeadingSpace(s) + k] == c;
  }

  /** A string with no whitespace at either end is its own strip. */
  lemma StripUnchanged(s: string)
    requires s == [] || (!IsSpace(s[0]) && !IsSpace(s[|s| - 1]))
    ensures Strip(s) == s
  {
    if s != [] {
      assert LeadingSpace(s) == 0;
      StripShape(s);
    }
  }

  /** Stripping twice is stripping once. */
  lemma StripIdempotent(s: string)
    ensures Strip(Strip(s)) == Strip(s)
  {
    StripUnchanged(Strip(s));
  }

  /** Strip never removes a final non-whitespace character. */
  lemma StripKeepsLast(s: string)
    requires s != [] && !IsSpace(s[|s| - 1])
    ensures Strip(s) != [] && Strip(s)[|Strip(s)| - 1] == s[|s| - 1]
  {
    StripShape(s);
  }

  /** The strings of `pieces` joined end to end, in order. */
  function Concat(pieces: seq<string>): string {
    if pieces == [] then [] else pieces[0] + Concat(pieces[1..])
  }

  lemma ConcatCons(piece: string, rest: seq<string>)
    ensures Concat([piece] + rest) == piece + Concat(rest)
  {
    assert ([piece] + rest)[1..] == rest;
  }

  /** `t` occurs in `s` as a contiguous substring (Python's `t in s`). */
  predicate Contains(s: string, t: string) {
    exists k :: 0 <= k <= |s| && OccursAt(s, t, k)
  }

  /** `t` occurs in `s` starting at index `k`. */
  predicate OccursAt(s: string, t: string, k: int) {
    0 <= k && k + |t| <= |s| && s[k..k + |t|] == t
  }

  lemma ContainsMiddle(a: string, t: string, b: string)
    ensures Contains(a + t + b, t)
  {
    assert OccursAt(a + t + b, t, |a|);
  }

  lemma ContainsPrefix(t: string, b: string)
    ensures Contains(t + b, t)
  {
    assert OccursAt(t + b, t, 0);
  }

  lemma ContainsSuffix(a: string, t: string)
    ensures Contains(a + t, t)
  {
    assert OccursAt(a + t, t, |a|);
  }

  lemma ContainsTransitive(s: string, t: string, u: string)
    requires Contains(s, t) && Contains(t, u)
    ensures Contains(s, u)
  {
    var i :| 0 <= i <= |s| && OccursAt(s, t, i);
    var j :| 0 <= j <= |t| && OccursAt(t, u, j);
    forall m | 0 <= m < |u|
      ensures s[i + j + m] == u[m]
    {
      assert u[m] == t[j..j + |u|][m] == t[j + m];
      assert t[j + m] == s[i..i + |t|][j + m] == s[i + j + m];
    }
    assert s[i + j..i + j + |u|] == u;
    assert OccursAt(s, u, i + j);
  }

  function DigitChar(d: nat): (c: char)
    requires d < 10
    ensures '0' <= c <= '9'
  {
    ('0' as int + d) as char
  }

  predicate IsDigits(s: string) {
    forall k :: 0 <= k < |s| ==> '0' <= s[k] <= '9'
  }

  /** How an f-string renders a non-negative `int`: its decimal digits,
      most significant first, without leading zeros. */
  function Decimal(n: nat): (r: string)
    ensures r != [] && IsDigits(r)
    ensures r[0] == '0' ==> n == 0
  {
    if n < 10 then [DigitChar(n)] else Decimal(n / 10) + [DigitChar(n % 10)]
  }

  /** The value of a string of decimal digits. */
  function DecimalValue(s: string): nat
    requires IsDigits(s)
  {
    if s == [] then 0
    else 10 * DecimalValue(s[..|s| - 1]) + (s[|s| - 1] as int - '0' as int)
  }

  /** Reading back the digits `Decimal` writes gives the number again. */
  lemma {:induction false} DecimalRoundTrip(n: nat)
    ensures DecimalValue(Decimal(n)) == n
  {
    if n >= 10 {
      DecimalRoundTrip(n / 10);
      var r := Decimal(n);
      assert r[..|r| - 1] == Decimal(n / 10);
    }
  }

  /** Different numbers are rendered differently, so a label `Chunk i`
      identifies its chunk. */
  lemma DecimalInjective(m: nat, n: nat)
    requires Decimal(m) == Decimal(n)
    ensures m == n
  {
    DecimalRoundTrip(m);
    DecimalRoundTrip(n);
  }
}
