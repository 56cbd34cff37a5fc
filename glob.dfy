/**
 * `exports.glob(pattern, options)` of lib/glob.js: resolve the pattern
 * against the working directory, pick the scan root and the depth bound,
 * walk, normalise and filter the pushed paths, and make them relative again
 * when the pattern was.
 */
module Glob {
  import opened Prelude
  import opened Paths
  import opened BaseExtractor
  import opened DepthPolicy
  import opened TreeWalker
  import opened TreeWalkerFacts
  import opened WalkOrder
  import opened ResultStage

  /** Everything the call reads from its surroundings. */
  datatype Host = Host(
    win32: bool,                          // process.platform === 'win32'
    cwd: string,                          // process.cwd()
    resolve: (string, string) -> string,  // path.resolve(from, to)
    relative: (string, string) -> string, // path.relative(from, to)
    fs: string -> Node)                   // what `fs` finds at a path, with everything below it

  /** The option the call reads itself; the rest go to the matcher, which is a parameter. */
  datatype Options = Options(maxDepth: Option<int>)

  /** What the call works out before it touches the filesystem. */
  datatype Plan = Plan(absPattern: string, wasAbsolute: bool, betterBase: string, betterPattern: string, maxDepth: int)

  /** `normalize(path.join(process.cwd(), pathSeparator))`: the working directory with one trailing `/`. */
  function CwdBase(win32: bool, cwd: string): (base: string)
    ensures EndsWithSlash(base)
    ensures Normalize(win32, cwd) <= base
    ensures |base| == |cwd| + (if EndsWithSep(win32, cwd) then 0 else 1)
  {
    NormalizeAppend(win32, cwd, [Sep(win32)]);
    Normalize(win32, if EndsWithSep(win32, cwd) then cwd else cwd + [Sep(win32)])
  }

  /** `absPattern`: the resolved, normalised pattern, with a trailing `/` of the pattern put back. */
  function AbsPattern(h: Host, pattern: string): (abs: string)
    ensures EndsWithSlash(pattern) ==> EndsWithSlash(abs)
    ensures h.win32 ==> '\\' !in abs
  {
    var resolved := Normalize(h.win32, h.resolve(CwdBase(h.win32, h.cwd), pattern));
    NormalizeEffect(h.win32, h.resolve(CwdBase(h.win32, h.cwd), pattern));
    if EndsWithSlash(pattern) then resolved + "/" else resolved
  }

  function MakePlan(h: Host, options: Options, pattern: string): (plan: Plan)
    ensures plan.wasAbsolute <==> pattern == plan.absPattern
    ensures plan.betterBase + plan.betterPattern == plan.absPattern
    ensures plan.betterBase == [] || EndsWithSep(h.win32, plan.betterBase)
    ensures h.win32 ==> '\\' !in plan.betterBase
  {
    var abs := AbsPattern(h, pattern);
    var base := BetterBase(h.win32, abs);
    var rest := BetterPattern(h.win32, abs);
    assert forall i :: 0 <= i < |base| ==> base[i] == abs[i];
    Plan(abs, pattern == abs, base, rest, MaxDepth(rest, options.maxDepth))
  }

  /**
   * The whole call: the paths it returns, or the path of the directory
   * whose `readdirSync` threw.
   */
  function GlobSpec(h: Host, options: Options, matches: Matcher, pattern: string): Result<seq<string>, string>
  {
    var plan := MakePlan(h, options, pattern);
    match Walk(h.win32, plan.maxDepth, h.fs(plan.betterBase), plan.betterBase, 1)
    case Err(dirpath) => Err(dirpath)
    case Ok(filepaths) =>
      var kept := Filter(matches, plan.absPattern, NormalizeAll(h.win32, filepaths));
      Ok(if plan.wasAbsolute then kept else Relativize(h.win32, h.relative, h.cwd, kept))
  }

  /** `exports.glob`, driving the walker object the way the source drives its closure. */
  method Glob(h: Host, options: Options, matches: Matcher, pattern: string) returns (result: Result<seq<string>, string>)
    ensures result == GlobSpec(h, options, matches, pattern)
  {
    var plan := MakePlan(h, options, pattern);
    ghost var walk := Walk(h.win32, plan.maxDepth, h.fs(plan.betterBase), plan.betterBase, 1);
    var walker := new Walker(h.win32, plan.maxDepth);
    assert walker.win32 == h.win32 && walker.maxDepth == plan.maxDepth && walker.filepaths == [];
    var failure := walker.Recurse(plan.betterBase, h.fs(plan.betterBase), 1);
    if failure.Some? {
      assert walk == Err(failure.value);
      return Err(failure.value);
    }
    assert walk.Ok? && walker.filepaths == [] + walk.value;
    assert [] + walk.value == walk.value;
    var filepaths := Filter(matches, plan.absPattern, NormalizeAll(h.win32, walker.filepaths));
    if !plan.wasAbsolute {
      filepaths := Relativize(h.win32, h.relative, h.cwd, filepaths);
    }
    return Ok(filepaths);
  }

  /**
   * The call throws exactly when the scan root cannot be listed or the walk
   * reaches, within the depth bound, a directory it cannot list.
   */
  lemma GlobFailsOnBlocked(h: Host, options: Options, matches: Matcher, pattern: string)
    ensures var plan := MakePlan(h, options, pattern);
      var root := h.fs(plan.betterBase);
      var visits := Visits(h.win32, plan.maxDepth, root, plan.betterBase, 1);
      GlobSpec(h, options, matches, pattern).Ok? <==> root.Dir? && NoneBlocked(plan.maxDepth, visits)
  {
    var plan := MakePlan(h, options, pattern);
    WalkFailsOnBlocked(h.win32, plan.maxDepth, h.fs(plan.betterBase), plan.betterBase, 1);
  }

  /**
   * For an absolute pattern the results are returned as filtered: each is a
   * normalised walked path the matcher accepts, in walk order, and each
   * accepted walked path is there as often as the walk pushed it.
   */
  lemma AbsoluteResultsAreAcceptedPaths(h: Host, options: Options, matches: Matcher, pattern: string, x: string)
    requires MakePlan(h, options, pattern).wasAbsolute
    requires GlobSpec(h, options, matches, pattern).Ok?
    ensures var plan := MakePlan(h, options, pattern);
      var walked := NormalizeAll(h.win32, Walk(h.win32, plan.maxDepth, h.fs(plan.betterBase), plan.betterBase, 1).value);
      var r := GlobSpec(h, options, matches, pattern).value;
      && IsSubseq(r, walked)
      && (forall i :: 0 <= i < |r| ==> matches(r[i], plan.absPattern))
      && multiset(r)[x] == if matches(x, plan.absPattern) then multiset(walked)[x] else 0
  {
    var plan := MakePlan(h, options, pattern);
    var walked := NormalizeAll(h.win32, Walk(h.win32, plan.maxDepth, h.fs(plan.betterBase), plan.betterBase, 1).value);
    FilterKeepsExactlyAccepted(matches, plan.absPattern, walked, x);
  }

  /** Normalising a path below an already normalised root keeps it below that root, at the same level. */
  lemma NormalizeKeepsPlace(win32: bool, base: string, p: string)
    requires base <= p && |base| < |p|
    requires win32 ==> '\\' !in base
    ensures base <= Normalize(win32, p) && |Normalize(win32, p)| == |p|
    ensures Level(win32, base, Normalize(win32, p)) == Level(win32, base, p)
  {
    var t := TrimSep(win32, p);
    var rest := t[|base|..];
    assert base <= Normalize(win32, p) by {
      NormalizeBelow(win32, base, p);
    }
    assert base <= t;
    assert TrimSep(win32, Normalize(win32, p)) == Normalize(win32, t) by {
      NormalizeTrimSep(win32, p);
    }
    assert base <= Normalize(win32, t) && Normalize(win32, t)[|base|..] == Normalize(win32, rest) by {
      NormalizeBelow(win32, base, t);
    }
    assert SepCount(win32, Normalize(win32, rest)) == SepCount(win32, rest) by {
      NormalizeSepCount(win32, rest);
    }
  }

  /** Normalize keeps the directory marker, so it commutes with TrimSep. */
  lemma NormalizeTrimSep(win32: bool, p: string)
    ensures TrimSep(win32, Normalize(win32, p)) == Normalize(win32, TrimSep(win32, p))
  {
    var n := Normalize(win32, p);
    assert EndsWithSep(win32, n) <==> EndsWithSep(win32, p);
  }

  /** Below a normalised prefix, Normalize only touches the rest. */
  lemma NormalizeBelow(win32: bool, base: string, p: string)
    requires base <= p
    requires win32 ==> '\\' !in base
    ensures base <= Normalize(win32, p)
    ensures Normalize(win32, p)[|base|..] == Normalize(win32, p[|base|..])
  {
    var rest := p[|base|..];
    assert p == base + rest;
    if win32 {
      NormalizeNoBackslash(win32, base);
    } else {
      NormalizeEffect(win32, base);
    }
    NormalizeAppend(win32, base, rest);
  }

  /** Normalize turns separators into separators and nothing else into one. */
  lemma {:induction false} NormalizeSepCount(win32: bool, s: string)
    ensures SepCount(win32, Normalize(win32, s)) == SepCount(win32, s)
  {
    if win32 && s != [] {
      var init := s[..|s| - 1];
      var c := s[|s| - 1];
      NormalizeSepCount(win32, init);
      assert s == init + [c];
      NormalizeAppend(win32, init, [c]);
      SepCountAppend(win32, init, [c]);
      SepCountAppend(win32, Normalize(win32, init), Normalize(win32, [c]));
    }
  }

  /**
   * For an absolute pattern, every result lies strictly below `betterBase`
   * and at most `maxDepth` levels down (one level when the bound is below 1).
   */
  lemma AbsoluteResultsWithinDepth(h: Host, options: Options, matches: Matcher, pattern: string)
    requires MakePlan(h, options, pattern).wasAbsolute
    requires WellNamed(h.win32, h.fs(MakePlan(h, options, pattern).betterBase))
    requires GlobSpec(h, options, matches, pattern).Ok?
    ensures var plan := MakePlan(h, options, pattern);
      var r := GlobSpec(h, options, matches, pattern).value;
      forall i :: 0 <= i < |r| ==>
        && plan.betterBase <= r[i] && |plan.betterBase| < |r[i]|
        && 1 <= Level(h.win32, plan.betterBase, r[i]) <= (if 1 < plan.maxDepth then plan.maxDepth else 1)
  {
    var plan := MakePlan(h, options, pattern);
    var w := Walk(h.win32, plan.maxDepth, h.fs(plan.betterBase), plan.betterBase, 1);
    assert w.Ok?;
    assert GlobSpec(h, options, matches, pattern).value == Filter(matches, plan.absPattern, NormalizeAll(h.win32, w.value));
    KeptWithinDepth(h.win32, plan.maxDepth, h.fs(plan.betterBase), plan.betterBase, matches, plan.absPattern);
  }

  /** The filtered, normalised paths of a walk from a normalised root lie within the walk's depth bound. */
  lemma KeptWithinDepth(win32: bool, maxDepth: int, root: Node, base: string, matches: Matcher, absPattern: string)
    requires base == [] || EndsWithSep(win32, base)
    requires win32 ==> '\\' !in base
    requires WellNamed(win32, root)
    requires Walk(win32, maxDepth, root, base, 1).Ok?
    ensures var r := Filter(matches, absPattern, NormalizeAll(win32, Walk(win32, maxDepth, root, base, 1).value));
      forall i :: 0 <= i < |r| ==>
        && base <= r[i] && |base| < |r[i]|
        && 1 <= Level(win32, base, r[i]) <= (if 1 < maxDepth then maxDepth else 1)
  {
    var w := Walk(win32, maxDepth, root, base, 1).value;
    var walked := NormalizeAll(win32, w);
    var r := Filter(matches, absPattern, walked);
    var bound := if 1 < maxDepth then maxDepth else 1;
    assert forall j :: 0 <= j < |w| ==> base <= w[j] && |base| < |w[j]| && 1 <= Level(win32, base, w[j]) <= bound by {
      WalkFromBase(win32, maxDepth, root, base);
    }
    forall i | 0 <= i < |r|
      ensures base <= r[i] && |base| < |r[i]|
      ensures 1 <= Level(win32, base, r[i]) <= bound
    {
      assert r[i] in walked by {
        FilterKeepsExactlyAccepted(matches, absPattern, walked, r[i]);
        assert r[i] in multiset(r);
      }
      var j :| 0 <= j < |walked| && walked[j] == r[i];
      NormalizeKeepsPlace(win32, base, w[j]);
    }
  }

  /**
   * A pattern ending in `/` without wildcard characters names its own scan
   * root: the walk lists only what lies strictly below it, so a matcher that
   * accepts nothing but the pattern itself leaves the result empty.
   */
  lemma LiteralDirectoryPatternFindsNothing(h: Host, options: Options, matches: Matcher, pattern: string)
    requires EndsWithSlash(pattern)
    requires var abs := MakePlan(h, options, pattern).absPattern;
      NoLineTerminator(abs) && forall i :: 0 <= i < |abs| ==> !IsWildcard(abs[i])
    requires forall x :: matches(x, MakePlan(h, options, pattern).absPattern) ==> x == MakePlan(h, options, pattern).absPattern
    requires WellNamed(h.win32, h.fs(MakePlan(h, options, pattern).betterBase))
    ensures GlobSpec(h, options, matches, pattern).Ok? ==> GlobSpec(h, options, matches, pattern) == Ok([])
  {
    var plan := MakePlan(h, options, pattern);
    var abs := plan.absPattern;
    var base := plan.betterBase;
    assert base == abs by {
      LiteralPatternSplitsAtLastSeparator(h.win32, abs);
      StripNonpathUnique(h.win32, abs, abs);
    }
    var root := h.fs(base);
    var walk := Walk(h.win32, plan.maxDepth, root, base, 1);
    if walk.Ok? {
      var walked := NormalizeAll(h.win32, walk.value);
      assert abs !in walked by {
        WalkFromBase(h.win32, plan.maxDepth, root, base);
        assert forall i :: 0 <= i < |walked| ==> |walked[i]| > |abs|;
      }
      var kept := Filter(matches, abs, walked);
      assert kept == [] by {
        FilterKeepsExactlyAccepted(matches, abs, walked, abs);
      }
      assert GlobSpec(h, options, matches, pattern)
          == Ok(if plan.wasAbsolute then kept else Relativize(h.win32, h.relative, h.cwd, kept));
    }
  }

  /**
   * What the call returns for the absolute path `p`: `p` itself when the
   * pattern was absolute, otherwise its rewrite relative to the cwd.
   */
  function Returned(h: Host, plan: Plan, p: string): string
  {
    if plan.wasAbsolute then p else RelativeOne(h.win32, h.relative, h.cwd, p)
  }

  /**
   * A pattern without wildcard characters that names a non-directory entry
   * of its parent directory finds it, provided the matcher accepts the
   * resolved pattern: the result holds that path, rewritten relative to the
   * cwd when the pattern was relative.
   */
  lemma LiteralFilePatternFindsIt(h: Host, options: Options, matches: Matcher, pattern: string, j: nat)
    requires var abs := MakePlan(h, options, pattern).absPattern;
      NoLineTerminator(abs) && forall i :: 0 <= i < |abs| ==> !IsWildcard(abs[i])
    requires var abs := MakePlan(h, options, pattern).absPattern;
      matches(abs, abs)
    requires var plan := MakePlan(h, options, pattern);
      var root := h.fs(plan.betterBase);
      && root.Dir? && j < |root.entries|
      && root.entries[j].name == plan.betterPattern && !IsDirectory(root.entries[j].node)
    requires GlobSpec(h, options, matches, pattern).Ok?
    ensures var plan := MakePlan(h, options, pattern);
      Returned(h, plan, plan.absPattern) in GlobSpec(h, options, matches, pattern).value
  {
    var plan := MakePlan(h, options, pattern);
    var abs := plan.absPattern;
    var base := plan.betterBase;
    var root := h.fs(base);
    var w := Walk(h.win32, plan.maxDepth, root, base, 1);
    assert Join(h.win32, base, root.entries[j].name) == abs;
    assert abs in w.value by {
      WalkListsEveryEntry(h.win32, plan.maxDepth, root, base, 1, j);
    }
    var walked := NormalizeAll(h.win32, w.value);
    assert abs in walked by {
      var i :| 0 <= i < |w.value| && w.value[i] == abs;
      if h.win32 {
        NormalizeNoBackslash(h.win32, abs);
      } else {
        NormalizeEffect(h.win32, abs);
      }
      assert walked[i] == abs;
    }
    var kept := Filter(matches, abs, walked);
    assert abs in kept by {
      FilterKeepsExactlyAccepted(matches, abs, walked, abs);
      assert abs in multiset(kept);
    }
    var k :| 0 <= k < |kept| && kept[k] == abs;
    if plan.wasAbsolute {
      assert GlobSpec(h, options, matches, pattern) == Ok(kept);
    } else {
      var r := Relativize(h.win32, h.relative, h.cwd, kept);
      assert GlobSpec(h, options, matches, pattern) == Ok(r);
      assert r[k] == RelativeOne(h.win32, h.relative, h.cwd, abs);
    }
  }

  /**
   * With a matcher that accepts only the resolved pattern itself, a
   * wildcard-free pattern that names a non-directory entry of its parent
   * returns exactly that one path, rewritten relative to the cwd when the
   * pattern was relative: the remainder is a single segment, so the depth
   * bound is 1 and only the parent's own entries are listed.
   */
  lemma LiteralFilePatternFindsOnlyIt(h: Host, options: Options, matches: Matcher, pattern: string, j: nat)
    requires var abs := MakePlan(h, options, pattern).absPattern;
      NoLineTerminator(abs) && forall i :: 0 <= i < |abs| ==> !IsWildcard(abs[i])
    requires ExactOn(matches, MakePlan(h, options, pattern).absPattern)
    requires var plan := MakePlan(h, options, pattern);
      var root := h.fs(plan.betterBase);
      && root.Dir? && WellNamed(h.win32, root) && j < |root.entries|
      && root.entries[j].name == plan.betterPattern && !IsDirectory(root.entries[j].node)
      && forall a, b :: 0 <= a < b < |root.entries| ==> root.entries[a].name != root.entries[b].name
    ensures var plan := MakePlan(h, options, pattern);
      GlobSpec(h, options, matches, pattern) == Ok([Returned(h, plan, plan.absPattern)])
  {
    LiteralFileKept(h, options, matches, pattern, j);
    var plan := MakePlan(h, options, pattern);
    GlobSpecOfSingle(h, options, matches, pattern, Listed(h.win32, plan.betterBase, h.fs(plan.betterBase).entries));
  }

  /** A walk whose filtered result is just `absPattern` makes the call return that one path, rewritten when the pattern was relative. */
  lemma GlobSpecOfSingle(h: Host, options: Options, matches: Matcher, pattern: string, listed: seq<string>)
    requires var plan := MakePlan(h, options, pattern);
      && Walk(h.win32, plan.maxDepth, h.fs(plan.betterBase), plan.betterBase, 1) == Ok(listed)
      && Filter(matches, plan.absPattern, NormalizeAll(h.win32, listed)) == [plan.absPattern]
    ensures var plan := MakePlan(h, options, pattern);
      GlobSpec(h, options, matches, pattern) == Ok([Returned(h, plan, plan.absPattern)])
  {
    RelativizeSingle(h.win32, h.relative, h.cwd, MakePlan(h, options, pattern).absPattern);
  }

  /** Under the assumptions of LiteralFilePatternFindsOnlyIt the walk lists the parent and the filter keeps just the resolved pattern. */
  lemma LiteralFileKept(h: Host, options: Options, matches: Matcher, pattern: string, j: nat)
    requires var abs := MakePlan(h, options, pattern).absPattern;
      NoLineTerminator(abs) && forall i :: 0 <= i < |abs| ==> !IsWildcard(abs[i])
    requires ExactOn(matches, MakePlan(h, options, pattern).absPattern)
    requires var plan := MakePlan(h, options, pattern);
      var root := h.fs(plan.betterBase);
      && root.Dir? && WellNamed(h.win32, root) && j < |root.entries|
      && root.entries[j].name == plan.betterPattern && !IsDirectory(root.entries[j].node)
      && forall a, b :: 0 <= a < b < |root.entries| ==> root.entries[a].name != root.entries[b].name
    ensures var plan := MakePlan(h, options, pattern);
      var listed := Listed(h.win32, plan.betterBase, h.fs(plan.betterBase).entries);
      && Walk(h.win32, plan.maxDepth, h.fs(plan.betterBase), plan.betterBase, 1) == Ok(listed)
      && Filter(matches, plan.absPattern, NormalizeAll(h.win32, listed)) == [plan.absPattern]
  {
    var plan := MakePlan(h, options, pattern);
    var abs := plan.absPattern;
    var base := plan.betterBase;
    var rest := plan.betterPattern;
    var root := h.fs(base);
    LiteralFileDepthOne(h, options, pattern);
    var listed := Listed(h.win32, base, root.entries);
    assert Walk(h.win32, plan.maxDepth, root, base, 1) == Ok(listed) by {
      WalkAtBound(h.win32, plan.maxDepth, root.entries, base, 1);
    }
    var walked := NormalizeAll(h.win32, listed);
    assert WellNamedEntries(h.win32, root.entries);
    ListingHitsOnce(h.win32, base, root.entries, rest, j);
    assert abs == base + rest;
    FilterExactHit(matches, abs, walked, j);
  }

  /** A wildcard-free pattern leaves a single segment below its base, so the depth bound is 1. */
  lemma LiteralFileDepthOne(h: Host, options: Options, pattern: string)
    requires var abs := MakePlan(h, options, pattern).absPattern;
      NoLineTerminator(abs) && forall i :: 0 <= i < |abs| ==> !IsWildcard(abs[i])
    ensures MakePlan(h, options, pattern).maxDepth == 1
  {
    var abs := AbsPattern(h, pattern);
    assert MakePlan(h, options, pattern).maxDepth == MaxDepth(BetterPattern(h.win32, abs), options.maxDepth);
    LiteralRestDepthOne(h.win32, abs, options.maxDepth);
  }

  lemma LiteralRestDepthOne(win32: bool, abs: string, configured: Option<int>)
    requires NoLineTerminator(abs) && forall i :: 0 <= i < |abs| ==> !IsWildcard(abs[i])
    ensures MaxDepth(BetterPattern(win32, abs), configured) == 1
  {
    var rest := BetterPattern(win32, abs);
    assert forall i :: 0 <= i < |rest| ==> rest[i] != '*' && rest[i] != '/' by {
      LiteralPatternSplitsAtLastSeparator(win32, abs);
    }
    SingleSegmentDepthOne(rest, configured);
  }

  /** In a listing with distinct valid names, only entry j, a non-directory named `name`, normalises to `base + name`. */
  lemma ListingHitsOnce(win32: bool, base: string, entries: seq<Entry>, name: string, j: nat)
    requires base == [] || EndsWithSep(win32, base)
    requires win32 ==> '\\' !in base
    requires forall i :: 0 <= i < |entries| ==> ValidName(win32, entries[i].name)
    requires forall a, b :: 0 <= a < b < |entries| ==> entries[a].name != entries[b].name
    requires j < |entries| && entries[j].name == name && !IsDirectory(entries[j].node)
    ensures var walked := NormalizeAll(win32, Listed(win32, base, entries));
      forall i :: 0 <= i < |walked| ==> (walked[i] == base + name <==> i == j)
  {
    var walked := NormalizeAll(win32, Listed(win32, base, entries));
    forall i | 0 <= i < |walked|
      ensures walked[i] == base + name <==> i == j
    {
      var e := entries[i];
      assert walked[i] == Normalize(win32, Marked(win32, Join(win32, base, e.name), e.node));
      ListedEntryIsPattern(win32, base, e, name);
      assert e.name == name ==> i == j;
    }
  }

  /** A listed entry's normalised, marked path is `base + name` exactly when the entry is a non-directory called `name`. */
  lemma ListedEntryIsPattern(win32: bool, base: string, e: Entry, name: string)
    requires base == [] || EndsWithSep(win32, base)
    requires win32 ==> '\\' !in base
    requires ValidName(win32, e.name) && ValidName(win32, name)
    ensures Normalize(win32, Marked(win32, Join(win32, base, e.name), e.node)) == base + name
        <==> e.name == name && !IsDirectory(e.node)
  {
    var x := if IsDirectory(e.node) then e.name + [Sep(win32)] else e.name;
    var p := Marked(win32, Join(win32, base, e.name), e.node);
    assert p == base + x;
    assert Normalize(win32, p) == base + Normalize(win32, x) by {
      NormalizeAppend(win32, base, x);
      if win32 {
        NormalizeNoBackslash(win32, base);
      } else {
        NormalizeEffect(win32, base);
      }
    }
    assert base + Normalize(win32, x) == base + name <==> Normalize(win32, x) == name by {
      PrefixCancels(base, Normalize(win32, x), name);
    }
    MarkedNameIs(win32, e, name);
  }

  lemma PrefixCancels(base: string, a: string, b: string)
    ensures base + a == base + b <==> a == b
  {
    if base + a == base + b {
      assert (base + a)[|base|..] == a;
      assert (base + b)[|base|..] == b;
    }
  }

  /** The normalised name part of a listed entry's marked path. */
  lemma MarkedNameIs(win32: bool, e: Entry, name: string)
    requires ValidName(win32, e.name) && ValidName(win32, name)
    ensures var x := if IsDirectory(e.node) then e.name + [Sep(win32)] else e.name;
      Normalize(win32, x) == name <==> e.name == name && !IsDirectory(e.node)
  {
    if IsDirectory(e.node) {
      var x := e.name + [Sep(win32)];
      assert Normalize(win32, x)[|x| - 1] == '/';
      assert !IsSep(win32, name[|name| - 1]);
    } else if win32 {
      assert '\\' !in e.name by {
        assert forall i :: 0 <= i < |e.name| ==> !IsSep(win32, e.name[i]);
      }
      NormalizeNoBackslash(win32, e.name);
    } else {
      NormalizeEffect(win32, e.name);
    }
  }

  /**
   * For a relative pattern the results are the filtered paths rewritten one
   * for one, in the same order: each keeps its directory marker, and on
   * win32 none holds a backslash.
   */
  lemma RelativeResultsKeepMarkers(h: Host, options: Options, matches: Matcher, pattern: string)
    requires !MakePlan(h, options, pattern).wasAbsolute
    requires GlobSpec(h, options, matches, pattern).Ok?
    ensures var plan := MakePlan(h, options, pattern);
      var walked := NormalizeAll(h.win32, Walk(h.win32, plan.maxDepth, h.fs(plan.betterBase), plan.betterBase, 1).value);
      var kept := Filter(matches, plan.absPattern, walked);
      var r := GlobSpec(h, options, matches, pattern).value;
      && |r| == |kept|
      && forall i :: 0 <= i < |r| ==>
           && (EndsWithSlash(kept[i]) ==> EndsWithSlash(r[i]))
           && (h.win32 ==> '\\' !in r[i])
           && Normalize(h.win32, h.relative(h.cwd, kept[i])) <= r[i]
  {
    var plan := MakePlan(h, options, pattern);
    var walked := NormalizeAll(h.win32, Walk(h.win32, plan.maxDepth, h.fs(plan.betterBase), plan.betterBase, 1).value);
    var kept := Filter(matches, plan.absPattern, walked);
    assert GlobSpec(h, options, matches, pattern).value == Relativize(h.win32, h.relative, h.cwd, kept);
    RelativizeKeepsMarkers(h.win32, h.relative, h.cwd, kept);
  }

  /**
   * On win32 a pattern containing a backslash never counts as absolute,
   * since `absPattern` is normalised: its results come back relative.
   */
  lemma BackslashPatternIsRelative(h: Host, options: Options, pattern: string)
    requires h.win32 && '\\' in pattern
    ensures !MakePlan(h, options, pattern).wasAbsolute
  {
  }
}
