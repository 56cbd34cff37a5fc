/**
 * The stages of lib/glob.js after the walk: every pushed path is
 * normalised, the paths the matcher rejects are dropped (order kept), and
 * for a relative pattern each survivor is rewritten relative to the
 * working directory with its directory marker put back.
 */
module ResultStage {
  import opened Paths

  /** `minimatch(filepath, absPattern, options)`, with the options folded in. */
  type Matcher = (string, string) -> bool

  /** `a` is `b` with some elements dropped and the rest in their original order. */
  predicate IsSubseq<T(==)>(a: seq<T>, b: seq<T>)
  {
    if a == [] then true
    else if b == [] then false
    else (a[0] == b[0] && IsSubseq(a[1..], b[1..])) || IsSubseq(a, b[1..])
  }

  /** `filepaths.map(normalize)`. */
  function NormalizeAll(win32: bool, ps: seq<string>): (r: seq<string>)
    ensures |r| == |ps|
    ensures forall i :: 0 <= i < |ps| ==> r[i] == Normalize(win32, ps[i])
  {
    seq(|ps|, i requires 0 <= i < |ps| => Normalize(win32, ps[i]))
  }

  /**
   * `.filter(function (filepath) { return minimatch(filepath, absPattern, options); })`:
   * an order-preserving selection of the accepted paths.
   */
  function Filter(matches: Matcher, absPattern: string, ps: seq<string>): (r: seq<string>)
    ensures IsSubseq(r, ps)
    ensures forall i :: 0 <= i < |r| ==> matches(r[i], absPattern)
  {
    if ps == [] then []
    else if matches(ps[0], absPattern) then [ps[0]] + Filter(matches, absPattern, ps[1..])
    else Filter(matches, absPattern, ps[1..])
  }

  /** The filter keeps every accepted path as often as it occurs, and nothing else. */
  lemma {:induction false} FilterKeepsExactlyAccepted(matches: Matcher, absPattern: string, ps: seq<string>, x: string)
    ensures multiset(Filter(matches, absPattern, ps))[x]
         == if matches(x, absPattern) then multiset(ps)[x] else 0
  {
    if ps != [] {
      FilterKeepsExactlyAccepted(matches, absPattern, ps[1..], x);
      assert ps == [ps[0]] + ps[1..];
    }
  }

  /** Filtering a second time changes nothing. */
  lemma {:induction false} FilterIdempotent(matches: Matcher, absPattern: string, ps: seq<string>)
    ensures Filter(matches, absPattern, Filter(matches, absPattern, ps)) == Filter(matches, absPattern, ps)
  {
    if ps != [] {
      FilterIdempotent(matches, absPattern, ps[1..]);
    }
  }

  /** When the matcher accepts every path, the filter is the identity. */
  lemma {:induction false} FilterAllAccepted(matches: Matcher, absPattern: string, ps: seq<string>)
    requires forall i :: 0 <= i < |ps| ==> matches(ps[i], absPattern)
    ensures Filter(matches, absPattern, ps) == ps
  {
    if ps != [] {
      FilterAllAccepted(matches, absPattern, ps[1..]);
    }
  }

  /** A matcher that accepts nothing against `absPattern` but `absPattern` itself. */
  ghost predicate ExactOn(matches: Matcher, absPattern: string)
  {
    matches(absPattern, absPattern) && forall x :: matches(x, absPattern) ==> x == absPattern
  }

  /** An exact matcher keeps nothing of a list that does not hold the pattern. */
  lemma {:induction false} FilterExactMiss(matches: Matcher, absPattern: string, ps: seq<string>)
    requires ExactOn(matches, absPattern)
    requires forall i :: 0 <= i < |ps| ==> ps[i] != absPattern
    ensures Filter(matches, absPattern, ps) == []
  {
    if ps != [] {
      FilterExactMiss(matches, absPattern, ps[1..]);
    }
  }

  /** An exact matcher keeps the single occurrence of the pattern and nothing else. */
  lemma {:induction false} FilterExactHit(matches: Matcher, absPattern: string, ps: seq<string>, j: nat)
    requires ExactOn(matches, absPattern)
    requires j < |ps| && ps[j] == absPattern
    requires forall i :: 0 <= i < |ps| && i != j ==> ps[i] != absPattern
    ensures Filter(matches, absPattern, ps) == [absPattern]
  {
    if j == 0 {
      FilterExactMiss(matches, absPattern, ps[1..]);
    } else {
      FilterExactHit(matches, absPattern, ps[1..], j - 1);
    }
  }

  /**
   * The rewrite of one result for a relative pattern:
   * `normalize(path.relative(cwd, filepath))`, plus `/` when `filepath` ends with one.
   */
  function RelativeOne(win32: bool, relative: (string, string) -> string, cwd: string, filepath: string): (r: string)
    ensures EndsWithSlash(filepath) ==> EndsWithSlash(r)
    ensures Normalize(win32, relative(cwd, filepath)) <= r
    ensures |r| == |relative(cwd, filepath)| + (if EndsWithSlash(filepath) then 1 else 0)
  {
    Normalize(win32, relative(cwd, filepath)) + (if EndsWithSlash(filepath) then "/" else "")
  }

  /** `filepaths.map(...)` with RelativeOne: the same results, one for one, in the same order. */
  function Relativize(win32: bool, relative: (string, string) -> string, cwd: string, ps: seq<string>): (r: seq<string>)
    ensures |r| == |ps|
    ensures forall i :: 0 <= i < |ps| ==> r[i] == RelativeOne(win32, relative, cwd, ps[i])
  {
    seq(|ps|, i requires 0 <= i < |ps| => RelativeOne(win32, relative, cwd, ps[i]))
  }

  /** Rewriting a single result gives a single result. */
  lemma RelativizeSingle(win32: bool, relative: (string, string) -> string, cwd: string, p: string)
    ensures Relativize(win32, relative, cwd, [p]) == [RelativeOne(win32, relative, cwd, p)]
  {
  }

  /**
   * What the rewrite keeps of each result: a directory marker survives, the
   * normalised relative path comes first, and on win32 no backslash is left.
   */
  lemma RelativizeKeepsMarkers(win32: bool, relative: (string, string) -> string, cwd: string, ps: seq<string>)
    ensures var r := Relativize(win32, relative, cwd, ps);
      forall i :: 0 <= i < |ps| ==>
        && (EndsWithSlash(ps[i]) ==> EndsWithSlash(r[i]))
        && (win32 ==> '\\' !in r[i])
        && Normalize(win32, relative(cwd, ps[i])) <= r[i]
  {
    var r := Relativize(win32, relative, cwd, ps);
    forall i | 0 <= i < |ps|
      ensures EndsWithSlash(ps[i]) ==> EndsWithSlash(r[i])
      ensures win32 ==> '\\' !in r[i]
    {
      NormalizeEffect(win32, relative(cwd, ps[i]));
    }
  }
}
