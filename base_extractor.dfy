/**
 * The base extractor of lib/glob.js: `betterBase` is the absolute pattern
 * with everything from the first wildcard-introducing character on removed
 * (`stripWildcard`) and then its trailing partial segment removed
 * (`stripNonpath`); `betterPattern` is what follows it.
 */
module BaseExtractor {
  import opened Paths

  /** The characters `stripWildcard`'s class `[*?{+(]` treats as the start of a wildcard. */
  predicate IsWildcard(c: char)
  {
    c == '*' || c == '?' || c == '{' || c == '+' || c == '('
  }

  /** The characters a JavaScript `.` does not match. */
  predicate IsLineTerminator(c: char)
  {
    c == '\n' || c == '\r' || c == '\U{2028}' || c == '\U{2029}'
  }

  predicate NoLineTerminator(s: string)
  {
    forall i :: 0 <= i < |s| ==> !IsLineTerminator(s[i])
  }

  /**
   * `s.replace(/[*?{+(].*$/, '')`. The regex matches at position i exactly
   * when s[i] is a wildcard character and `.*` can reach the end of the
   * input from there, i.e. no line terminator follows; the leftmost such
   * match and everything after it are removed.
   */
  function StripWildcard(s: string): (r: string)
    ensures r <= s
  {
    if s == [] then []
    else if IsWildcard(s[0]) && NoLineTerminator(s[1..]) then []
    else [s[0]] + StripWildcard(s[1..])
  }

  /** Index of the first wildcard character of `s`, or |s| when there is none. */
  function FirstWildcard(s: string): (k: nat)
    ensures k <= |s|
    ensures forall i :: 0 <= i < k ==> !IsWildcard(s[i])
    ensures k < |s| ==> IsWildcard(s[k])
  {
    if s == [] then 0
    else if IsWildcard(s[0]) then 0
    else 1 + FirstWildcard(s[1..])
  }

  /** Without line terminators, stripWildcard cuts exactly at the first wildcard character. */
  lemma {:induction false} StripWildcardCutsAtFirstWildcard(s: string)
    requires NoLineTerminator(s)
    ensures StripWildcard(s) == s[..FirstWildcard(s)]
  {
    if s != [] && !IsWildcard(s[0]) {
      assert NoLineTerminator(s[1..]) by {
        forall i | 0 <= i < |s[1..]| ensures !IsLineTerminator(s[1..][i]) {
          assert s[1..][i] == s[i + 1];
        }
      }
      StripWildcardCutsAtFirstWildcard(s[1..]);
    }
  }

  /** A line terminator follows every wildcard character of `s`. */
  predicate WildcardsBeforeLineBreaks(s: string)
  {
    forall i :: 0 <= i < |s| && IsWildcard(s[i]) ==> !NoLineTerminator(s[i + 1..])
  }

  lemma WildcardsBeforeLineBreaksStep(s: string)
    requires s != []
    ensures WildcardsBeforeLineBreaks(s)
        <==> (IsWildcard(s[0]) ==> !NoLineTerminator(s[1..])) && WildcardsBeforeLineBreaks(s[1..])
  {
    var t := s[1..];
    if WildcardsBeforeLineBreaks(s) {
      forall i | 0 <= i < |t| && IsWildcard(t[i]) ensures !NoLineTerminator(t[i + 1..]) {
        assert t[i] == s[i + 1] && t[i + 1..] == s[i + 2..];
      }
    }
    if (IsWildcard(s[0]) ==> !NoLineTerminator(t)) && WildcardsBeforeLineBreaks(t) {
      forall i | 0 <= i < |s| && IsWildcard(s[i]) ensures !NoLineTerminator(s[i + 1..]) {
        if i > 0 {
          assert t[i - 1] == s[i] && t[i..] == s[i + 1..];
        }
      }
    }
  }

  /**
   * stripWildcard leaves its input alone exactly when a line terminator
   * follows every wildcard character: `.` cannot cross the line break, so
   * the regex never matches.
   */
  lemma {:induction false} StripWildcardKeepsIff(s: string)
    ensures StripWildcard(s) == s <==> WildcardsBeforeLineBreaks(s)
  {
    if s != [] {
      StripWildcardKeepsIff(s[1..]);
      WildcardsBeforeLineBreaksStep(s);
      if StripWildcard(s) == s {
        assert StripWildcard(s[1..]) == s[1..] by {
          assert s == [s[0]] + StripWildcard(s[1..]);
        }
      }
    }
  }

  /**
   * A wildcard that a line terminator follows survives stripWildcard, and
   * stripNonpath then keeps it in the base.
   */
  lemma WildcardBeforeLineBreakSurvives()
    ensures StripWildcard("/a*\n/b") == "/a*\n/b"
    ensures BetterBase(false, "/a*\n/b") == "/a*\n/"
  {
    var s := "/a*\n/b";
    assert !NoLineTerminator(s[3..]) by { assert s[3..][0] == '\n'; }
    StripWildcardKeepsIff(s);
    StripNonpathUnique(false, s, "/a*\n/");
  }

  /** `betterBase`: the scan root of the walk. */
  function BetterBase(win32: bool, absPattern: string): (base: string)
    ensures base <= absPattern
    ensures base == [] || EndsWithSep(win32, base)
  {
    StripNonpath(win32, StripWildcard(absPattern))
  }

  /** `betterPattern`: the part of the absolute pattern below `betterBase`. */
  function BetterPattern(win32: bool, absPattern: string): (rest: string)
    ensures BetterBase(win32, absPattern) + rest == absPattern
  {
    absPattern[|BetterBase(win32, absPattern)|..]
  }

  /**
   * For a pattern without line terminators, betterBase is the prefix up to
   * and including the last separator before the first wildcard character
   * (the last separator of all when there is no wildcard), so it holds no
   * wildcard character.
   */
  lemma BetterBaseIsLiteralDirectory(win32: bool, absPattern: string)
    requires NoLineTerminator(absPattern)
    ensures var base := BetterBase(win32, absPattern);
      var w := FirstWildcard(absPattern);
      && |base| <= w
      && (forall i :: 0 <= i < |base| ==> !IsWildcard(base[i]))
      && (base == [] || EndsWithSep(win32, base))
      && (forall i :: |base| <= i < w ==> !IsSep(win32, absPattern[i]))
  {
    StripWildcardCutsAtFirstWildcard(absPattern);
    var w := FirstWildcard(absPattern);
    var base := BetterBase(win32, absPattern);
    assert base <= absPattern[..w];
    forall i | |base| <= i < w ensures !IsSep(win32, absPattern[i]) {
      assert absPattern[..w][i] == absPattern[i];
    }
  }

  /** A pattern without wildcards is split into its parent directory and its last segment. */
  lemma LiteralPatternSplitsAtLastSeparator(win32: bool, absPattern: string)
    requires NoLineTerminator(absPattern)
    requires forall i :: 0 <= i < |absPattern| ==> !IsWildcard(absPattern[i])
    ensures BetterBase(win32, absPattern) == StripNonpath(win32, absPattern)
    ensures forall i :: 0 <= i < |BetterPattern(win32, absPattern)| ==>
      !IsSep(win32, BetterPattern(win32, absPattern)[i]) && !IsWildcard(BetterPattern(win32, absPattern)[i])
  {
    StripWildcardCutsAtFirstWildcard(absPattern);
    assert absPattern[..FirstWildcard(absPattern)] == absPattern;
    var base := BetterBase(win32, absPattern);
    var rest := BetterPattern(win32, absPattern);
    forall i | 0 <= i < |rest| ensures !IsSep(win32, rest[i]) && !IsWildcard(rest[i]) {
      assert rest[i] == absPattern[|base| + i];
    }
  }
}
