/**
 * The Python string operations that the chapter splitter applies to a
 * section: `str.strip()`, `str.split('\n')[0]`, `str.lower()`,
 * `str.replace(' ', '-')` and `re.sub(r'[^a-z0-9\-]', '', s)`.
 * Strings are sequences of Unicode scalar values: the script reads
 * `rust.md` as strict UTF-8, so no lone surrogate reaches these operations.
 */
module PyStr {

  /** The characters for which Python's `str.isspace()` holds: the ones
      that `str.strip()` with no argument removes. */
  const Whitespace: set<char> := {
    '\t', '\n', '\U{0B}', '\U{0C}', '\r', '\U{1C}', '\U{1D}', '\U{1E}', '\U{1F}', ' ',
    '\U{85}', '\U{A0}', '\U{1680}',
    '\U{2000}', '\U{2001}', '\U{2002}', '\U{2003}', '\U{2004}', '\U{2005}',
    '\U{2006}', '\U{2007}', '\U{2008}', '\U{2009}', '\U{200A}',
    '\U{2028}', '\U{2029}', '\U{202F}', '\U{205F}', '\U{3000}'
  }

  predicate IsSpace(c: char) {
    c in Whitespace
  }

  /** Where the text of `s[i..]` begins: the first position at or after
      `i` that is not whitespace, or `|s|`. */
  function TextStart(s: string, i: nat): (m: nat)
    requires i <= |s|
    ensures i <= m <= |s|
    ensures forall k | i <= k < m :: IsSpace(s[k])
    ensures m == |s| || !IsSpace(s[m])
    decreases |s| - i
  {
    if i < |s| && IsSpace(s[i]) then TextStart(s, i + 1) else i
  }

  /** Where the text of `s[..n]` ends: the position just after the last
      character before `n` that is not whitespace, or 0. */
  function TextEnd(s: string, n: nat): (m: nat)
    requires n <= |s|
    ensures m <= n
    ensures forall k | m <= k < n :: IsSpace(s[k])
    ensures m == 0 || !IsSpace(s[m - 1])
  {
    if n > 0 && IsSpace(s[n - 1]) then TextEnd(s, n - 1) else n
  }

  /** `r` is the slice `s[i..i + |r|]`, and only whitespace lies before and
      after it. */
  ghost predicate StrippedAt(s: string, i: nat, r: string) {
    i + |r| <= |s| && r == s[i..i + |r|]
    && (forall k | 0 <= k < i :: IsSpace(s[k]))
    && (forall k | i + |r| <= k < |s| :: IsSpace(s[k]))
  }

  /** `s.strip()`: the slice of `s` between its leading and its trailing
      whitespace. */
  function Strip(s: string): (r: string)
    ensures exists i :: StrippedAt(s, i, r)
    ensures r != [] ==> !IsSpace(r[0]) && !IsSpace(r[|r| - 1])
  {
    var i := TextStart(s, 0);
    if i == |s| then
      assert StrippedAt(s, i, []);
      []
    else
      var j := TextEnd(s, |s|);
      assert i < j;
      assert StrippedAt(s, i, s[i..j]);
      s[i..j]
  }

  /** Stripping is idempotent. */
  lemma StripIdempotent(s: string)
    ensures Strip(Strip(s)) == Strip(s)
  {
    var t := Strip(s);
    if t != [] {
      assert TextStart(t, 0) == 0;
      assert TextEnd(t, |t|) == |t|;
    }
  }

  /** Stripping a prefix of `s` gives a prefix of the stripped `s`: the
      first line of a section, stripped, is where the stripped section
      begins. */
  lemma StripOfPrefix(p: string, s: string)
    requires |p| <= |s| && p == s[..|p|]
    ensures |Strip(p)| <= |Strip(s)| && Strip(p) == Strip(s)[..|Strip(p)|]
  {
    var i := TextStart(p, 0);
    if i < |p| {
      assert p[i] == s[i];
      var i' := TextStart(s, 0);
      assert i' == i;
      var e := TextEnd(p, |p|);
      assert i < e;
      assert p[e - 1] == s[e - 1];
      var e' := TextEnd(s, |s|);
      assert e <= e';
      assert Strip(p) == p[i..e] == s[i..e];
      assert Strip(s) == s[i..e'];
    }
  }

  /** `s.split('\n')[0]`: everything before the first newline, or all of
      `s` when it has none. */
  function FirstLine(s: string): (r: string)
    ensures |r| <= |s| && r == s[..|r|]
    ensures '\n' !in r
    ensures |r| == |s| || s[|r|] == '\n'
  {
    if s == [] || s[0] == '\n' then [] else [s[0]] + FirstLine(s[1..])
  }

  /** Python's `str.lower()` for one character, as far as it can produce a
      character that a file name keeps: ASCII capitals become small letters,
      CAPITAL I WITH DOT ABOVE becomes `i` plus COMBINING DOT ABOVE and the
      KELVIN SIGN becomes `k`; every other character is left as it is. */
  function LowerChar(c: char): string {
    if 'A' <= c <= 'Z' then [(c as int + 32) as char]
    else if c == '\U{130}' then "i\U{307}"
    else if c == '\U{212A}' then "k"
    else [c]
  }

  /** `s.lower()`, character by character. */
  function Lower(s: string): (r: string)
    ensures forall k | 0 <= k < |r| :: !('A' <= r[k] <= 'Z')
  {
    if s == [] then [] else LowerChar(s[0]) + Lower(s[1..])
  }

  lemma {:induction false} LowerAppend(a: string, b: string)
    ensures Lower(a + b) == Lower(a) + Lower(b)
  {
    if a != [] {
      assert (a + b)[0] == a[0] && (a + b)[1..] == a[1..] + b;
      LowerAppend(a[1..], b);
      assert Lower(a + b) == LowerChar(a[0]) + Lower(a[1..] + b);
    } else {
      assert a + b == b;
    }
  }

  /** `s.replace(' ', '-')`. */
  function ReplaceSpaces(s: string): (r: string)
    ensures |r| == |s|
    ensures forall k | 0 <= k < |s| :: r[k] == if s[k] == ' ' then '-' else s[k]
    ensures ' ' !in r
  {
    if s == [] then [] else [if s[0] == ' ' then '-' else s[0]] + ReplaceSpaces(s[1..])
  }

  lemma {:induction false} ReplaceSpacesAppend(a: string, b: string)
    ensures ReplaceSpaces(a + b) == ReplaceSpaces(a) + ReplaceSpaces(b)
  {
    if a != [] {
      assert (a + b)[0] == a[0] && (a + b)[1..] == a[1..] + b;
      ReplaceSpacesAppend(a[1..], b);
    }
  }

  /** The character class `[a-z0-9\-]`. */
  predicate IsNameChar(c: char) {
    ('a' <= c <= 'z') || ('0' <= c <= '9') || c == '-'
  }

  /** `re.sub(r'[^a-z0-9\-]', '', s)`: delete every character outside the
      class, keeping the others in order. */
  function KeepNameChars(s: string): (r: string)
    ensures |r| <= |s|
    ensures forall k | 0 <= k < |r| :: IsNameChar(r[k])
  {
    if s == [] then []
    else
      (if IsNameChar(s[0]) then [s[0]] else []) + KeepNameChars(s[1..])
  }

  lemma {:induction false} KeepNameCharsAppend(a: string, b: string)
    ensures KeepNameChars(a + b) == KeepNameChars(a) + KeepNameChars(b)
  {
    if a != [] {
      assert (a + b)[0] == a[0] && (a + b)[1..] == a[1..] + b;
      KeepNameCharsAppend(a[1..], b);
      var h := if IsNameChar(a[0]) then [a[0]] else [];
      assert KeepNameChars(a + b) == h + KeepNameChars(a[1..] + b);
      assert KeepNameChars(a) == h + KeepNameChars(a[1..]);
    } else {
      assert a + b == b;
    }
  }

  /** The filter deletes nothing from a string made only of kept
      characters, and something from every other string. */
  lemma {:induction false} KeepNameCharsFixed(s: string)
    ensures KeepNameChars(s) == s <==> forall k | 0 <= k < |s| :: IsNameChar(s[k])
  {
    if s != [] {
      KeepNameCharsFixed(s[1..]);
      if !IsNameChar(s[0]) {
        assert |KeepNameChars(s)| < |s|;
      } else if KeepNameChars(s) == s {
        assert KeepNameChars(s[1..]) == s[1..];
      } else {
        assert KeepNameChars(s[1..]) != s[1..];
        var k :| 0 <= k < |s[1..]| && !IsNameChar(s[1..][k]);
        assert !IsNameChar(s[k + 1]);
      }
    }
  }

  /** Filtering is idempotent. */
  lemma KeepNameCharsIdempotent(s: string)
    ensures KeepNameChars(KeepNameChars(s)) == KeepNameChars(s)
  {
    KeepNameCharsFixed(KeepNameChars(s));
  }
}
