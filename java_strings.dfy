/** The parts of java.lang.String and java.util.regex that the price-list
    engine relies on: trim, isBlank, toUpperCase/toLowerCase(Locale.ROOT),
    contains and startsWith, and the character classes of the patterns it
    matches against. */
module JavaStrings {

  /** String.trim() removes every character up to U+0020 at either end. */
  predicate IsTrimChar(c: char) {
    c <= ' '
  }

  /** Character.isWhitespace, which String.isBlank() applies to every character. */
  predicate IsJavaWhitespace(c: char) {
    || ('\t' <= c <= '\r')
    || ('\U{1C}' <= c <= ' ')
    || c == '\U{1680}'
    || ('\U{2000}' <= c <= '\U{2006}')
    || ('\U{2008}' <= c <= '\U{200A}')
    || c == '\U{2028}' || c == '\U{2029}' || c == '\U{205F}' || c == '\U{3000}'
  }

  /** The \s class of java.util.regex (no UNICODE_CHARACTER_CLASS): [ \t\n\x0B\f\r]. */
  predicate IsRegexSpace(c: char) {
    c == ' ' || ('\t' <= c <= '\r')
  }

  /** The characters that '.' in a java.util.regex pattern does not match. */
  predicate IsLineTerminator(c: char) {
    c == '\n' || c == '\r' || c == '\U{85}' || c == '\U{2028}' || c == '\U{2029}'
  }

  /** \d and [0-9] in java.util.regex. */
  predicate IsAsciiDigit(c: char) {
    '0' <= c <= '9'
  }

  predicate AllDigits(s: string) {
    forall i :: 0 <= i < |s| ==> IsAsciiDigit(s[i])
  }

  predicate HasLineTerminator(s: string) {
    exists i :: 0 <= i < |s| && IsLineTerminator(s[i])
  }

  /** String.isBlank(): true of the empty string too. */
  predicate IsBlank(s: string) {
    forall i :: 0 <= i < |s| ==> IsJavaWhitespace(s[i])
  }

  /** The index of the first character of s at or after lo that trim keeps,
      or |s| when there is none. */
  function TrimLo(s: string, lo: nat): (k: nat)
    requires lo <= |s|
    ensures lo <= k <= |s|
    ensures forall j :: lo <= j < k ==> IsTrimChar(s[j])
    ensures k < |s| ==> !IsTrimChar(s[k])
    decreases |s| - lo
  {
    if lo < |s| && IsTrimChar(s[lo]) then TrimLo(s, lo + 1) else lo
  }

  /** One past the last character of s[lo..hi] that trim keeps, or lo when
      there is none. */
  function TrimHi(s: string, lo: nat, hi: nat): (k: nat)
    requires lo <= hi <= |s|
    ensures lo <= k <= hi
    ensures forall j :: k <= j < hi ==> IsTrimChar(s[j])
    ensures k > lo ==> !IsTrimChar(s[k - 1])
    decreases hi
  {
    if lo < hi && IsTrimChar(s[hi - 1]) then TrimHi(s, lo, hi - 1) else hi
  }

  /** r is the slice of s starting at k, and everything of s before and
      after that slice is a trim character. */
  predicate TrimSlice(s: string, r: string, k: int) {
    && 0 <= k <= |s| - |r|
    && r == s[k..k + |r|]
    && (forall j :: 0 <= j < k ==> IsTrimChar(s[j]))
    && (forall j :: k + |r| <= j < |s| ==> IsTrimChar(s[j]))
  }

  /** String.trim(): substring(k, m + 1) for the first and last kept
      characters k and m. The result is a slice of s with only trim
      characters around it, empty exactly when every character of s is a
      trim character, and otherwise beginning and ending with a kept one. */
  function Trim(s: string): (r: string)
    ensures |r| <= |s|
    ensures exists k :: TrimSlice(s, r, k)
    ensures r == [] <==> forall i :: 0 <= i < |s| ==> IsTrimChar(s[i])
    ensures r != [] ==> !IsTrimChar(r[0]) && !IsTrimChar(r[|r| - 1])
    ensures forall i :: 0 <= i < |r| ==> r[i] in s
  {
    var lo := TrimLo(s, 0);
    var hi := TrimHi(s, lo, |s|);
    assert forall i :: 0 <= i < hi - lo ==> s[lo..hi][i] == s[lo + i];
    assert TrimSlice(s, s[lo..hi], lo);
    s[lo..hi]
  }

  /** A string that begins and ends with kept characters is its own trim. */
  lemma TrimOfTrimmed(s: string)
    requires s == [] || (!IsTrimChar(s[0]) && !IsTrimChar(s[|s| - 1]))
    ensures Trim(s) == s
  {
  }

  /** Trimming twice is trimming once. */
  lemma TrimIdempotent(s: string)
    ensures Trim(Trim(s)) == Trim(s)
  {
    var t := Trim(s);
    if t != [] {
      TrimOfTrimmed(t);
    }
  }

  /** The UTF-16 code units String.length() counts for one character: two
      for a character beyond U+FFFF, which Java stores as a surrogate pair. */
  function Units(c: char): nat {
    if c as int >= 0x1_0000 then 2 else 1
  }

  /** String.length(): the number of UTF-16 code units of s. */
  function Utf16Length(s: string): (n: nat)
    ensures |s| <= n <= 2 * |s|
  {
    if s == [] then 0 else Units(s[0]) + Utf16Length(s[1..])
  }

  /** Characters up to U+FFFF take one code unit each. */
  lemma {:induction false} Utf16LengthBmp(s: string)
    requires forall i :: 0 <= i < |s| ==> s[i] as int < 0x1_0000
    ensures Utf16Length(s) == |s|
  {
    if s != [] {
      Utf16LengthBmp(s[1..]);
    }
  }

  /** substring(0, n) measured in code units, as far as it does not split a
      surrogate pair: the longest prefix of s with at most n code units. */
  function Utf16Prefix(s: string, n: nat): (r: string)
    ensures r <= s
    ensures Utf16Length(r) <= n
    ensures Utf16Length(s) <= n ==> r == s
    ensures r != s ==> Utf16Length(r) + Units(s[|r|]) > n
  {
    if s == [] || Units(s[0]) > n then []
    else
      var rest := Utf16Prefix(s[1..], n - Units(s[0]));
      assert ([s[0]] + rest)[1..] == rest;
      [s[0]] + rest
  }

  /** toUpperCase(Locale.ROOT) on one character, for ASCII and the Latin-1
      letters (a-z, U+00E0 to U+00FE except U+00F7). */
  function UpperChar(c: char): char {
    if 'a' <= c <= 'z' || ('\U{E0}' <= c <= '\U{FE}' && c != '\U{F7}') then
      (c as int - 32) as char
    else
      c
  }

  /** toLowerCase(Locale.ROOT) on one character, for ASCII and the Latin-1
      letters (A-Z, U+00C0 to U+00DE except U+00D7). */
  function LowerChar(c: char): char {
    if 'A' <= c <= 'Z' || ('\U{C0}' <= c <= '\U{DE}' && c != '\U{D7}') then
      (c as int + 32) as char
    else
      c
  }

  function ToUpper(s: string): (r: string)
    ensures |r| == |s| && forall i :: 0 <= i < |s| ==> r[i] == UpperChar(s[i])
  {
    seq(|s|, i requires 0 <= i < |s| => UpperChar(s[i]))
  }

  function ToLower(s: string): (r: string)
    ensures |r| == |s| && forall i :: 0 <= i < |s| ==> r[i] == LowerChar(s[i])
  {
    seq(|s|, i requires 0 <= i < |s| => LowerChar(s[i]))
  }

  /** Case mapping touches letters only, and upper-casing is idempotent. */
  lemma UpperCharFacts(c: char)
    ensures UpperChar(UpperChar(c)) == UpperChar(c)
    ensures IsTrimChar(UpperChar(c)) == IsTrimChar(c)
    ensures IsRegexSpace(UpperChar(c)) == IsRegexSpace(c)
    ensures UpperChar(' ') == ' '
  {
  }

  /** Upper-casing moves no trim character, so trimming and upper-casing
      commute. */
  lemma TrimOfUpper(s: string)
    ensures Trim(ToUpper(s)) == ToUpper(Trim(s))
  {
    var lo := TrimLo(s, 0);
    TrimLoUpper(s, 0);
    var hi := TrimHi(s, lo, |s|);
    TrimHiUpper(s, lo, |s|);
    UpperSlice(s, lo, hi);
  }

  lemma UpperSlice(s: string, lo: nat, hi: nat)
    requires lo <= hi <= |s|
    ensures ToUpper(s)[lo..hi] == ToUpper(s[lo..hi])
  {
    assert forall i :: 0 <= i < hi - lo ==> s[lo..hi][i] == s[lo + i];
  }

  lemma {:induction false} TrimLoUpper(s: string, lo: nat)
    requires lo <= |s|
    ensures TrimLo(ToUpper(s), lo) == TrimLo(s, lo)
    decreases |s| - lo
  {
    if lo < |s| {
      UpperCharFacts(s[lo]);
      TrimLoUpper(s, lo + 1);
    }
  }

  lemma {:induction false} TrimHiUpper(s: string, lo: nat, hi: nat)
    requires lo <= hi <= |s|
    ensures TrimHi(ToUpper(s), lo, hi) == TrimHi(s, lo, hi)
    decreases hi
  {
    if lo < hi {
      UpperCharFacts(s[hi - 1]);
      TrimHiUpper(s, lo, hi - 1);
    }
  }

  /** Upper-casing works character by character. */
  lemma ToUpperAppend(a: string, b: string)
    ensures ToUpper(a + b) == ToUpper(a) + ToUpper(b)
  {
    assert forall i :: 0 <= i < |a| + |b| ==> (a + b)[i] == if i < |a| then a[i] else b[i - |a|];
  }

  /** toUpperCase after toLowerCase is toUpperCase. */
  lemma UpperOfLower(s: string)
    ensures ToUpper(ToLower(s)) == ToUpper(s)
  {
  }

  /** String.startsWith. */
  predicate StartsWith(s: string, p: string) {
    |p| <= |s| && s[..|p|] == p
  }

  /** String.contains: t occurs in s at some position. */
  predicate Contains(s: string, t: string)
    decreases |s|
  {
    StartsWith(s, t) || (s != [] && Contains(s[1..], t))
  }

  /** t occurs in s starting at index i. */
  predicate OccursAt(s: string, t: string, i: int) {
    0 <= i <= |s| - |t| && s[i..i + |t|] == t
  }

  /** Contains holds exactly when t occurs at some index of s. */
  lemma {:induction false} ContainsIff(s: string, t: string)
    ensures Contains(s, t) <==> exists i :: OccursAt(s, t, i)
    decreases |s|
  {
    if StartsWith(s, t) {
      assert OccursAt(s, t, 0);
    } else if s != [] {
      ContainsIff(s[1..], t);
      if Contains(s[1..], t) {
        var i :| OccursAt(s[1..], t, i);
        assert OccursAt(s, t, i + 1);
      }
      if exists i :: OccursAt(s, t, i) {
        var i :| OccursAt(s, t, i);
        assert i > 0;
        assert OccursAt(s[1..], t, i - 1);
      }
    }
  }

  /** Every string contains the empty string. */
  lemma ContainsEmpty(s: string)
    ensures Contains(s, "")
  {
    assert StartsWith(s, "");
  }

  /** True when s contains any of the given keywords (a chain of `||`-ed
      contains calls in the source). */
  predicate ContainsAny(s: string, keywords: seq<string>) {
    keywords != [] && (Contains(s, keywords[0]) || ContainsAny(s, keywords[1..]))
  }

  /** The chain of `||` holds exactly when one keyword of the list occurs. */
  lemma {:induction false} ContainsAnyIff(s: string, keywords: seq<string>)
    ensures ContainsAny(s, keywords) <==> exists k :: k in keywords && Contains(s, k)
  {
    if keywords != [] {
      ContainsAnyIff(s, keywords[1..]);
      assert forall k :: k in keywords <==> k == keywords[0] || k in keywords[1..];
      if Contains(s, keywords[0]) {
        assert keywords[0] in keywords;
      }
    }
  }
}
