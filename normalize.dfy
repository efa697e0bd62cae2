/** The normalised key of PriceListService.normalize: trim, upper-case
    (Locale.ROOT), then every run of \s characters replaced by one space. */
module KeyNormalization {
  import opened JavaStrings

  /** s with its leading \s characters removed. */
  function DropSpaces(s: string): (r: string)
    ensures |r| <= |s| && r == s[|s| - |r|..]
    ensures forall i :: 0 <= i < |s| - |r| ==> IsRegexSpace(s[i])
    ensures r == [] || !IsRegexSpace(r[0])
  {
    if s != [] && IsRegexSpace(s[0]) then DropSpaces(s[1..]) else s
  }

  /** No \s character other than the plain space, and no two \s characters
      next to each other. */
  ghost predicate Collapsed(s: string) {
    && (forall i :: 0 <= i < |s| && IsRegexSpace(s[i]) ==> s[i] == ' ')
    && (forall i :: 0 <= i < |s| - 1 ==> !SpacePair(s, i))
  }

  /** The characters at i and i + 1 are both \s. */
  predicate SpacePair(s: string, i: nat)
    requires i + 1 < |s|
  {
    IsRegexSpace(s[i]) && IsRegexSpace(s[i + 1])
  }

  /** replaceAll("\\s+", " "): it keeps the first and last character of s
      unless that character is \s. */
  function Collapse(s: string): (r: string)
    ensures r == [] <==> s == []
    ensures s != [] && !IsRegexSpace(s[0]) ==> r[0] == s[0]
    ensures s != [] && !IsRegexSpace(s[|s| - 1]) ==> r[|r| - 1] == s[|s| - 1]
    decreases |s|
  {
    if s == [] then []
    else if IsRegexSpace(s[0]) then [' '] + Collapse(DropSpaces(s[1..]))
    else [s[0]] + Collapse(s[1..])
  }

  /** A collapsed string stays collapsed behind a character that is not
      \s, or behind a space when it does not start with \s. */
  lemma ConsCollapsed(h: char, c: string)
    requires Collapsed(c)
    requires IsRegexSpace(h) ==> h == ' ' && (c == [] || !IsRegexSpace(c[0]))
    ensures Collapsed([h] + c)
  {
    var r := [h] + c;
    forall i | 0 <= i < |r| - 1
      ensures !SpacePair(r, i)
    {
      if i > 0 {
        assert r[i] == c[i - 1] && r[i + 1] == c[i];
        assert !SpacePair(c, i - 1);
      }
    }
    assert forall i :: 1 <= i < |r| ==> r[i] == c[i - 1];
  }

  /** A suffix of a collapsed string is collapsed. */
  lemma CollapsedTail(s: string)
    requires Collapsed(s) && s != []
    ensures Collapsed(s[1..])
  {
    var t := s[1..];
    forall i | 0 <= i < |t| - 1
      ensures !SpacePair(t, i)
    {
      assert t[i] == s[i + 1] && t[i + 1] == s[i + 2];
      assert !SpacePair(s, i + 1);
    }
    assert forall i :: 0 <= i < |t| ==> t[i] == s[i + 1];
  }

  /** The output of Collapse is collapsed. */
  lemma {:induction false} CollapseIsCollapsed(s: string)
    ensures Collapsed(Collapse(s))
    decreases |s|
  {
    if s != [] {
      var rest := if IsRegexSpace(s[0]) then DropSpaces(s[1..]) else s[1..];
      CollapseIsCollapsed(rest);
      var c := Collapse(rest);
      var head := if IsRegexSpace(s[0]) then ' ' else s[0];
      assert Collapse(s) == [head] + c;
      ConsCollapsed(head, c);
    }
  }

  ghost predicate UpperFixed(s: string) {
    forall i :: 0 <= i < |s| ==> UpperChar(s[i]) == s[i]
  }

  /** Collapse writes only characters of its input and spaces, so an
      upper-case input gives an upper-case output. */
  lemma {:induction false} CollapseKeepsUpperFixed(s: string)
    requires UpperFixed(s)
    ensures UpperFixed(Collapse(s))
    decreases |s|
  {
    if s != [] {
      var rest := if IsRegexSpace(s[0]) then DropSpaces(s[1..]) else s[1..];
      assert rest == s[|s| - |rest|..];
      forall i | 0 <= i < |rest| ensures UpperChar(rest[i]) == rest[i] {
        assert rest[i] == s[|s| - |rest| + i];
      }
      CollapseKeepsUpperFixed(rest);
      var c := Collapse(rest);
      var r := Collapse(s);
      var head := if IsRegexSpace(s[0]) then ' ' else s[0];
      assert r == [head] + c;
      UpperCharFacts(' ');
      forall i | 0 <= i < |r| ensures UpperChar(r[i]) == r[i] {
        if i > 0 {
          assert r[i] == c[i - 1];
        }
      }
    }
  }

  /** Collapsing a string that is already collapsed changes nothing. */
  lemma {:induction false} CollapseOfCollapsed(s: string)
    requires Collapsed(s)
    ensures Collapse(s) == s
    decreases |s|
  {
    if s != [] {
      var tail := s[1..];
      assert Collapse(tail) == tail by {
        CollapsedTail(s);
        CollapseOfCollapsed(tail);
      }
      if IsRegexSpace(s[0]) {
        assert s[0] == ' ' && DropSpaces(tail) == tail by {
          if tail != [] {
            assert !SpacePair(s, 0);
            assert tail[0] == s[1];
          }
        }
      }
      assert s == [s[0]] + tail;
    }
  }

  /** PriceListService.normalize on a non-null string. The key is empty
      exactly when the input is all trim characters; otherwise it neither
      begins nor ends with whitespace; it never holds two whitespace
      characters in a row, and the plain space is its only whitespace. */
  function Normalize(s: string): (r: string)
    ensures r == [] <==> Trim(s) == []
    ensures r != [] ==> !IsTrimChar(r[0]) && !IsTrimChar(r[|r| - 1])
    ensures Collapsed(r)
    ensures UpperFixed(r)
  {
    var t := Trim(s);
    var u := ToUpper(t);
    forall i | 0 <= i < |u|
      ensures UpperChar(u[i]) == u[i] && IsTrimChar(u[i]) == IsTrimChar(t[i])
      ensures IsRegexSpace(u[i]) == IsRegexSpace(t[i])
    {
      UpperCharFacts(t[i]);
    }
    CollapseIsCollapsed(u);
    CollapseKeepsUpperFixed(u);
    Collapse(u)
  }

  /** Upper-casing an upper-case string changes nothing. */
  lemma UpperOfUpperFixed(r: string)
    requires UpperFixed(r)
    ensures ToUpper(r) == r
  {
    var u := ToUpper(r);
    forall i | 0 <= i < |r| ensures u[i] == r[i] {
      assert UpperChar(r[i]) == r[i];
    }
  }

  /** normalize(normalize(s)) == normalize(s). */
  lemma {:induction false} NormalizeIdempotent(s: string)
    ensures Normalize(Normalize(s)) == Normalize(s)
  {
    var r := Normalize(s);
    TrimOfTrimmed(r);
    UpperOfUpperFixed(r);
    CollapseOfCollapsed(r);
  }

  /** A string already in key form (no trim character at either end,
      single spaces as its only whitespace, upper case) is its own key. */
  lemma NormalizeOfKey(s: string)
    requires s == [] || (!IsTrimChar(s[0]) && !IsTrimChar(s[|s| - 1]))
    requires Collapsed(s) && UpperFixed(s)
    ensures Normalize(s) == s
  {
    TrimOfTrimmed(s);
    UpperOfUpperFixed(s);
    CollapseOfCollapsed(s);
  }

  /** Padding around a string does not change its key. */
  lemma NormalizeOfTrim(s: string)
    ensures Normalize(Trim(s)) == Normalize(s)
  {
    TrimIdempotent(s);
  }

  /** The key depends only on the upper-cased input: two names that differ
      in letter case only get the same key. */
  lemma NormalizeIgnoresCase(s1: string, s2: string)
    requires ToUpper(s1) == ToUpper(s2)
    ensures Normalize(s1) == Normalize(s2)
  {
    TrimOfUpper(s1);
    TrimOfUpper(s2);
  }

  /** In particular a lower-cased name has the key of the name. */
  lemma NormalizeOfLower(s: string)
    ensures Normalize(ToLower(s)) == Normalize(s)
  {
    UpperOfLower(s);
    NormalizeIgnoresCase(ToLower(s), s);
  }

  /** Every character of s is \s. */
  ghost predicate AllSpaces(s: string) {
    forall i :: 0 <= i < |s| ==> IsRegexSpace(s[i])
  }

  lemma AllSpacesTail(s: string)
    requires AllSpaces(s) && s != []
    ensures AllSpaces(s[1..])
  {
    assert forall i :: 0 <= i < |s| - 1 ==> s[1..][i] == s[i + 1];
  }

  /** Dropping the leading \s characters of a + z when a is all \s drops a
      whole and goes on into z. */
  lemma {:induction false} DropSpacesPast(a: string, z: string)
    requires AllSpaces(a)
    ensures DropSpaces(a + z) == DropSpaces(z)
    decreases |a|
  {
    if a != [] {
      assert (a + z)[0] == a[0];
      assert (a + z)[1..] == a[1..] + z;
      AllSpacesTail(a);
      DropSpacesPast(a[1..], z);
    } else {
      assert a + z == z;
    }
  }

  /** Dropping the leading \s characters of a + z when a holds another
      character stops inside a. */
  lemma {:induction false} DropSpacesWithin(a: string, z: string)
    requires !AllSpaces(a)
    ensures DropSpaces(a + z) == DropSpaces(a) + z
    decreases |a|
  {
    assert (a + z)[0] == a[0];
    if IsRegexSpace(a[0]) {
      assert (a + z)[1..] == a[1..] + z;
      assert !AllSpaces(a[1..]) by {
        var i :| 0 <= i < |a| && !IsRegexSpace(a[i]);
        assert a[1..][i - 1] == a[i];
      }
      DropSpacesWithin(a[1..], z);
    }
  }

  /** Collapse replaces a run of \s characters by one space wherever the
      run stands. */
  lemma {:induction false} CollapseRun(x: string, w: string, y: string)
    requires w != [] && AllSpaces(w)
    ensures Collapse(x + w + y) == Collapse(x + [' '] + y)
    decreases |x|
  {
    if x == [] {
      assert x + w + y == w + y && x + [' '] + y == [' '] + y;
      CollapseLeadingRun(w, y);
      CollapseLeadingRun([' '], y);
    } else if !IsRegexSpace(x[0]) {
      CollapseRun(x[1..], w, y);
      CollapseStep(x, w, y);
      CollapseStep(x, [' '], y);
    } else if AllSpaces(x) {
      AllSpacesAppend(x, w);
      AllSpacesAppend(x, [' ']);
      CollapseLeadingRun(x + w, y);
      CollapseLeadingRun(x + [' '], y);
    } else {
      assert !AllSpaces(x[1..]) by {
        var i :| 0 <= i < |x| && !IsRegexSpace(x[i]);
        assert x[1..][i - 1] == x[i];
      }
      var d := DropSpaces(x[1..]);
      CollapseRun(d, w, y);
      CollapseSpaceStep(x, w, y);
      CollapseSpaceStep(x, [' '], y);
      DropSpacesWithinRun(x[1..], w, y);
      DropSpacesWithinRun(x[1..], [' '], y);
    }
  }

  lemma DropSpacesWithinRun(a: string, w: string, y: string)
    requires !AllSpaces(a)
    ensures DropSpaces(a + w + y) == DropSpaces(a) + w + y
  {
    DropSpacesWithin(a, w + y);
    ConcatAssoc(a, w, y);
    ConcatAssoc(DropSpaces(a), w, y);
  }

  lemma ConcatAssoc(a: string, b: string, c: string)
    ensures a + b + c == a + (b + c)
  {
  }

  /** Collapse turns a leading run of \s characters into one space. */
  lemma CollapseLeadingRun(w: string, y: string)
    requires w != [] && AllSpaces(w)
    ensures Collapse(w + y) == [' '] + Collapse(DropSpaces(y))
  {
    var s := w + y;
    assert s[0] == w[0] && s[1..] == w[1..] + y;
    AllSpacesTail(w);
    DropSpacesPast(w[1..], y);
  }

  lemma AllSpacesAppend(a: string, w: string)
    requires AllSpaces(a) && AllSpaces(w)
    ensures AllSpaces(a + w)
  {
    assert forall i :: 0 <= i < |a + w| ==> (a + w)[i] == if i < |a| then a[i] else w[i - |a|];
  }

  /** One step of Collapse over a first character that is not \s. */
  lemma CollapseStep(x: string, w: string, y: string)
    requires x != [] && !IsRegexSpace(x[0])
    ensures Collapse(x + w + y) == [x[0]] + Collapse(x[1..] + w + y)
  {
    assert (x + w + y)[0] == x[0];
    assert (x + w + y)[1..] == x[1..] + w + y;
  }

  /** One step of Collapse over a first character that is \s. */
  lemma CollapseSpaceStep(x: string, w: string, y: string)
    requires x != [] && IsRegexSpace(x[0])
    ensures Collapse(x + w + y) == [' '] + Collapse(DropSpaces(x[1..] + w + y))
  {
    assert (x + w + y)[0] == x[0];
    assert (x + w + y)[1..] == x[1..] + w + y;
  }

  /** Inside a name, a run of whitespace gives the key of a single space,
      so "ABC  123" and "abc 123" share a key. */
  lemma NormalizeRun(a: string, w: string, b: string)
    requires a != [] && !IsTrimChar(a[0])
    requires b != [] && !IsTrimChar(b[|b| - 1])
    requires w != [] && AllSpaces(w)
    ensures Normalize(a + w + b) == Normalize(a + " " + b)
  {
    var ua, uw, ub := ToUpper(a), ToUpper(w), ToUpper(b);
    NormalizeAroundRun(a, w, b);
    NormalizeAroundRun(a, " ", b);
    assert ToUpper(" ") == [' '] by {
      UpperCharFacts(' ');
    }
    UpperOfSpaces(w);
    CollapseRun(ua, uw, ub);
  }

  /** The key of a + w + b, for a and b that begin and end the string with
      characters trim keeps. */
  lemma NormalizeAroundRun(a: string, w: string, b: string)
    requires a != [] && !IsTrimChar(a[0])
    requires b != [] && !IsTrimChar(b[|b| - 1])
    ensures Normalize(a + w + b) == Collapse(ToUpper(a) + ToUpper(w) + ToUpper(b))
  {
    var s := a + w + b;
    assert s[0] == a[0] && s[|s| - 1] == b[|b| - 1];
    TrimOfTrimmed(s);
    UpperOfThree(a, w, b);
  }

  lemma UpperOfThree(a: string, w: string, b: string)
    ensures ToUpper(a + w + b) == ToUpper(a) + ToUpper(w) + ToUpper(b)
  {
    ToUpperAppend(a + w, b);
    ToUpperAppend(a, w);
  }

  /** Upper-casing keeps \s characters \s. */
  lemma UpperOfSpaces(w: string)
    requires AllSpaces(w)
    ensures AllSpaces(ToUpper(w))
  {
    forall i | 0 <= i < |w| ensures IsRegexSpace(ToUpper(w)[i]) {
      UpperCharFacts(w[i]);
    }
  }
}
