/**
 * Path strings and the separator conventions of lib/glob.js: the host
 * separator, the `normalize` helper that turns Windows backslashes into
 * forward slashes, the `path.join` of a directory and an entry name, and
 * the trailing-segment strip `stripNonpath`.
 */
module Paths {

  /** `pathSeparator`: `\` on win32, `/` everywhere else. */
  function Sep(win32: bool): char
  {
    if win32 then '\\' else '/'
  }

  /** The characters Node treats as separators on the host. */
  predicate IsSep(win32: bool, c: char)
  {
    c == '/' || (win32 && c == '\\')
  }

  predicate EndsWithSep(win32: bool, s: string)
  {
    |s| > 0 && IsSep(win32, s[|s| - 1])
  }

  /** `/\/$/.test(s)`: only a forward slash counts, on every platform. */
  predicate EndsWithSlash(s: string)
  {
    |s| > 0 && s[|s| - 1] == '/'
  }

  /** `normalize`: on win32 every `\` becomes `/`; elsewhere the identity. */
  function Normalize(win32: bool, s: string): (r: string)
    ensures |r| == |s|
    ensures forall i :: 0 <= i < |s| ==> r[i] == (if win32 && s[i] == '\\' then '/' else s[i])
  {
    if !win32 || s == [] then s
    else
      var c := s[|s| - 1];
      Normalize(win32, s[..|s| - 1]) + [if c == '\\' then '/' else c]
  }

  lemma NormalizeIdempotent(win32: bool, s: string)
    ensures Normalize(win32, Normalize(win32, s)) == Normalize(win32, s)
  {
  }

  /** On win32 no backslash survives; elsewhere nothing changes. */
  lemma NormalizeEffect(win32: bool, s: string)
    ensures win32 ==> '\\' !in Normalize(win32, s)
    ensures !win32 ==> Normalize(win32, s) == s
  {
  }

  /** Normalize works character by character, so it commutes with concatenation. */
  lemma NormalizeAppend(win32: bool, a: string, b: string)
    ensures Normalize(win32, a + b) == Normalize(win32, a) + Normalize(win32, b)
  {
  }

  /** A string without backslashes is a fixed point of Normalize. */
  lemma NormalizeNoBackslash(win32: bool, s: string)
    requires '\\' !in s
    ensures Normalize(win32, s) == s
  {
  }

  /**
   * `path.join(dir, name)` for a directory and one entry name: at most one
   * separator between them, the host separator unless the directory is
   * empty or already ends with a separator.
   */
  function Join(win32: bool, dir: string, name: string): string
  {
    if dir == [] || EndsWithSep(win32, dir) then dir + name
    else dir + [Sep(win32)] + name
  }

  /** Number of separator characters in `s`. */
  function SepCount(win32: bool, s: string): nat
  {
    if s == [] then 0
    else SepCount(win32, s[..|s| - 1]) + if IsSep(win32, s[|s| - 1]) then 1 else 0
  }

  lemma {:induction false} SepCountAppend(win32: bool, a: string, b: string)
    ensures SepCount(win32, a + b) == SepCount(win32, a) + SepCount(win32, b)
    decreases |b|
  {
    if b == [] {
      assert a + b == a;
    } else {
      assert (a + b)[..|a + b| - 1] == a + b[..|b| - 1];
      SepCountAppend(win32, a, b[..|b| - 1]);
    }
  }

  lemma SepCountOfSep(win32: bool)
    ensures SepCount(win32, [Sep(win32)]) == 1
  {
    assert [Sep(win32)][..0] == [];
  }

  /** A string without separators counts none. */
  lemma {:induction false} NoSepCount(win32: bool, s: string)
    requires forall i :: 0 <= i < |s| ==> !IsSep(win32, s[i])
    ensures SepCount(win32, s) == 0
    decreases |s|
  {
    if s != [] {
      NoSepCount(win32, s[..|s| - 1]);
    }
  }

  /**
   * `s.replace(stripNonpath, '')`, with `stripNonpath` = `/[^\/]*$/`
   * (`/[^\/\\]*$/` on win32): the regex first matches at the leftmost
   * position from which no separator follows, so the result keeps `s` up
   * to and including its last separator, or nothing if it has none.
   */
  function StripNonpath(win32: bool, s: string): (r: string)
    ensures r <= s
    ensures r == [] || EndsWithSep(win32, r)
    ensures forall i :: |r| <= i < |s| ==> !IsSep(win32, s[i])
  {
    if s == [] || EndsWithSep(win32, s) then s
    else StripNonpath(win32, s[..|s| - 1])
  }

  /** The three properties in StripNonpath's contract pin its result down. */
  lemma StripNonpathUnique(win32: bool, s: string, r: string)
    requires r <= s
    requires r == [] || EndsWithSep(win32, r)
    requires forall i :: |r| <= i < |s| ==> !IsSep(win32, s[i])
    ensures StripNonpath(win32, s) == r
  {
  }
}
