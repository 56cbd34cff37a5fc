# glob-whatev in Dafny

A model of `exports.glob(pattern, options)` from node-glob-whatev
(`lib/glob.js`), a small synchronous file-globbing helper. One call does
the following:

1. It resolves the pattern against the working directory. The result is
   `absPattern`, with a trailing `/` of the pattern put back.
2. It cuts `absPattern` at the first wildcard-introducing character
   (`stripWildcard`), then back to the last separator (`stripNonpath`).
   This gives the scan root `betterBase` and the remainder `betterPattern`.
3. It picks a depth bound. The bound is `options.maxDepth || 99` when the
   remainder contains `**`. Otherwise it is the number of `/`-separated
   pieces of the remainder.
4. It walks the tree below the scan root in pre-order. The walk pushes
   every listed entry. A directory gets a trailing separator and is
   descended into while `depth < maxDepth`.
5. It normalises the pushed paths (`\` to `/` on win32). It keeps those
   the matcher accepts against `absPattern`, in walk order.
6. When the pattern was relative, it rewrites each result relative to the
   working directory and puts its directory marker back.

Modules, one per stage:

- `Paths` (`paths.dfy`): separators, `normalize`, the join of a directory
  and an entry name, and `stripNonpath`.
- `BaseExtractor` (`base_extractor.dfy`): `stripWildcard`, `betterBase`
  and `betterPattern`.
- `DepthPolicy` (`depth_policy.dfy`): `indexOf`, `split` and the depth
  bound.
- `TreeWalker` (`tree_walker.dfy`):
  - the filesystem as an in-memory tree;
  - `recurse` as the specification function `Walk`;
  - the class `Walker`, whose methods `Recurse` and `ListEntry` append to
    its `filepaths` field the way the closure pushes onto the shared array.
  - The companion module `TreeWalkerFacts` proves where every pushed path
    lies relative to the scan root.
- `WalkOrder` (`walk_order.dfy`): the pre-order list of entries the walk
  visits. From it follow what is pushed, which paths carry the directory
  marker, and exactly when the walk throws.
- `ResultStage` (`result_stage.dfy`): normalising, filtering and
  relativising the results.
- `Glob` (`glob.dfy`): the whole call, as the function `GlobSpec` and as
  the method `Glob` that drives a `Walker`, plus end-to-end properties.

Everything the call takes from its surroundings is an explicit parameter
(`Glob.Host`):

- the platform (`win32`);
- `process.cwd()`;
- `path.resolve` and `path.relative`, as opaque functions;
- the filesystem, as a map from a path to the tree found there.

The matcher (`minimatch` with the call's options) is a parameter of type
`ResultStage.Matcher`. A failing `readdirSync` is uncaught in the source.
The model gives it as `Err(dirpath)`, naming the directory whose listing
threw.

Two behaviours of the code are worth spelling out:

- **Entries `statSync` fails on.** The code catches the exception and only
  leaves a comment that such entries are ignored (`lib/glob.js:58`). The
  entry is not skipped, though: `stat` stays undefined, the `else` branch
  runs, and the joined path is pushed bare (`lib/glob.js:55-71`). `Walk`
  does the same, and the node kind for such an entry is `Unstatable`.
- **A pattern such as `d/`.** This is a trailing separator with no
  wildcard. Then `betterBase` is `d/` itself and `betterPattern` is empty,
  so the walk lists only what lies strictly below `d/` and never pushes
  `d/` itself. A matcher that accepts only the literal pattern then leaves
  the result empty (`Glob.LiteralDirectoryPatternFindsNothing`).

## Model

| member | source | states |
|---|---|---|
| Paths.Normalize | lib/glob.js:22-24 | the result has the input's length; on win32 each `\` becomes `/` and every other character is kept |
| Paths.NormalizeIdempotent | lib/glob.js:22-24 | normalising twice is normalising once |
| Paths.NormalizeEffect | lib/glob.js:22-24 | on win32 no backslash is left; on other platforms nothing changes |
| Paths.NormalizeAppend | lib/glob.js:22-24 | normalize works character by character, so it distributes over concatenation |
| Paths.EndsWithSlash | lib/glob.js:34 | the `/\/$/` test: the string is non-empty and its last character is `/`; a backslash never counts, on either platform |
| Paths.Sep | lib/glob.js:17 | `pathSeparator`: `\` on win32, `/` everywhere else |
| Paths.IsSep | lib/glob.js:19 | the separator class of `stripNonpath`: `/` always, and `\` as well on win32 |
| Paths.Join | lib/glob.js:54 | `path.join(dirpath, filepath)` for one entry name: the directory, at most one separator, then the name; the separator is the host one unless the directory is empty or already ends with a separator, in which case none is added |
| Paths.NormalizeNoBackslash | lib/glob.js:22-24 | a string without backslashes is left unchanged |
| Paths.StripNonpath | lib/glob.js:19 | the `stripNonpath` replace keeps a prefix that is empty or ends with a separator, and no separator follows it |
| Paths.StripNonpathUnique | lib/glob.js:19 | those three properties determine the result of the replace uniquely |
| BaseExtractor.IsWildcard | lib/glob.js:18 | the class `[*?{+(]` that starts the `stripWildcard` match: exactly those five characters |
| BaseExtractor.IsLineTerminator | lib/glob.js:18 | the characters the `.` of `stripWildcard` does not match: LF, CR, U+2028 and U+2029 |
| BaseExtractor.StripWildcard | lib/glob.js:18 | the `stripWildcard` replace leaves a prefix of its input |
| BaseExtractor.StripWildcardCutsAtFirstWildcard | lib/glob.js:18 | without line terminators, the replace cuts exactly at the first of `*?{+(` |
| BaseExtractor.StripWildcardKeepsIff | lib/glob.js:18 | the replace changes nothing if and only if a line terminator follows every wildcard character (`.` does not cross one) |
| BaseExtractor.WildcardBeforeLineBreakSurvives | lib/glob.js:40 | for `/a*` + LF + `/b` the wildcard survives and `betterBase` keeps it: `/a*` + LF + `/` |
| BaseExtractor.BetterBase | lib/glob.js:40 | `betterBase` is a prefix of `absPattern` and is empty or ends with a separator |
| BaseExtractor.BetterPattern | lib/glob.js:42 | `betterBase + betterPattern == absPattern` |
| BaseExtractor.BetterBaseIsLiteralDirectory | lib/glob.js:40 | without line terminators, `betterBase` holds no wildcard character, ends before the first one, and no separator lies between its end and that wildcard |
| BaseExtractor.LiteralPatternSplitsAtLastSeparator | lib/glob.js:40-42 | a pattern without wildcards splits at its last separator; the remainder holds no separator |
| DepthPolicy.IndexOf | lib/glob.js:44 | `indexOf` returns the first occurrence, or -1 exactly when there is none; it is never below -1 |
| DepthPolicy.Split | lib/glob.js:45 | `split(c)` gives at least one piece and no piece contains `c` |
| DepthPolicy.SplitJoinRoundTrip | lib/glob.js:45 | joining the pieces of `split(c)` with `c` gives back the string |
| DepthPolicy.SplitCount | lib/glob.js:45 | `split(c)` has one more piece than the string has occurrences of `c` |
| DepthPolicy.HasGlobstar | lib/glob.js:44 | `indexOf('**') >= 0`: two adjacent `*` occur somewhere in the remainder |
| DepthPolicy.OrDefault | lib/glob.js:44 | `options.maxDepth \|\| 99`: an absent option or 0 gives 99, any other value is kept |
| DepthPolicy.MaxDepth | lib/glob.js:44-45 | with `**` the bound is `maxDepth \|\| 99` (absent or 0 gives 99); otherwise it is the number of `/` plus one |
| DepthPolicy.SingleSegmentDepthOne | lib/glob.js:44-45 | a remainder without `*` and `/` (one literal segment) gives the bound 1 |
| DepthPolicy.LiteralDepthAtLeastOne | lib/glob.js:44-45 | without `**` the bound is at least 1, and exactly 1 when the remainder has no `/` |
| TreeWalker.Stat | lib/glob.js:55-59 | `fs.statSync`: a file or a directory (readable or not) stats; an unstatable entry gives no stat, standing for the swallowed exception |
| TreeWalker.IsDirectory | lib/glob.js:60 | `stat && stat.isDirectory()`: true exactly for entries that stat as a directory |
| TreeWalker.Marked | lib/glob.js:60-71 | the choice between the two pushes: the joined path plus the host separator for an entry that stats as a directory, the bare joined path otherwise |
| TreeWalker.Walk | lib/glob.js:50-73 | `recurse(dirpath, depth)`: a directory that cannot be listed throws with its path; otherwise the paths its `forEach` pushes |
| TreeWalker.WalkEntries | lib/glob.js:51-72 | the `forEach` over a listing: each entry's pushes in listing order, and the first throw ends it |
| TreeWalker.EntryPaths | lib/glob.js:52-71 | one callback: a directory pushes its joined path plus separator and is descended into while `depth < maxDepth`; anything else pushes the bare joined path |
| TreeWalker.FailureIsFinal | lib/glob.js:51 | once a listing throws inside the `forEach`, later entries change nothing: the call ends with that error |
| TreeWalker.Walker.constructor | lib/glob.js:49 | the walk starts with an empty `filepaths` |
| TreeWalker.Walker.Recurse | lib/glob.js:50-73 | the method appends exactly what `Walk` describes to `filepaths`, or reports the directory whose listing threw |
| TreeWalker.Walker.ListEntry | lib/glob.js:51-72 | one `forEach` callback appends exactly what `EntryPaths` describes: the marked or bare joined path, then the subtree while `depth < maxDepth` |
| TreeWalkerFacts.WalkPlaced | lib/glob.js:50-73 | every path pushed while listing a directory at depth d lies below the root, d to `maxDepth` levels down; each lies in that directory or follows its own parent's marked path |
| TreeWalkerFacts.WalkFromBase | lib/glob.js:50-73 | from `betterBase` at depth 1, every pushed path lies strictly below the root and 1 to `maxDepth` levels down (1 when the bound is below 1); pre-order: a deeper path comes after its parent directory's marked path |
| WalkOrder.WalkIsMarkedVisits | lib/glob.js:51-72 | a walk that does not throw pushes the marked path of every visited entry, in pre-order |
| WalkOrder.WalkListsEveryEntry | lib/glob.js:51-72 | every entry of the listed directory is pushed, with a separator when it stats as a directory |
| WalkOrder.WalkFailsOnBlocked | lib/glob.js:50-73 | the walk throws if and only if the root or a visited directory within the bound cannot be listed, and it names that directory |
| WalkOrder.WalkAtBound | lib/glob.js:60-71 | at `depth >= maxDepth` nothing is descended into: the walk pushes exactly the marked joined path of each entry, in listing order, and never throws |
| WalkOrder.WalkMarksDirectories | lib/glob.js:60-71 | path i extends the joined path of visit i; it ends with a separator if and only if that entry stats as a directory, so files and unstatable entries stay bare |
| ResultStage.NormalizeAll | lib/glob.js:76 | `map(normalize)`: same length, element i is the normalised path i |
| ResultStage.Filter | lib/glob.js:76-78 | the result is an order-preserving subsequence, and the matcher accepts each kept path against `absPattern` |
| ResultStage.FilterKeepsExactlyAccepted | lib/glob.js:76-78 | an accepted path is kept as often as it occurs; a rejected one never appears |
| ResultStage.FilterIdempotent | lib/glob.js:76-78 | filtering the filtered list changes nothing |
| ResultStage.FilterExactMiss | lib/glob.js:76-78 | with a matcher that accepts only the pattern itself, a list that does not contain the pattern filters to nothing |
| ResultStage.FilterExactHit | lib/glob.js:76-78 | with such a matcher, a list that contains the pattern exactly once filters to just the pattern |
| ResultStage.FilterAllAccepted | lib/glob.js:76-78 | when every path is accepted the filter is the identity |
| ResultStage.RelativeOne | lib/glob.js:84-86 | one rewritten path: the normalised relative path, one character longer with `/` at the end exactly when the absolute path ended with `/` |
| ResultStage.Relativize | lib/glob.js:82-88 | same length and order; element i is the normalised relative path of element i, with `/` re-appended when it ended with one |
| ResultStage.RelativizeKeepsMarkers | lib/glob.js:83-87 | a directory marker survives the rewrite, on win32 no backslash is left, and the normalised relative path comes first |
| Glob.CwdBase | lib/glob.js:30 | the normalised working directory, followed by one separator unless it already ends with one (never two), so it ends with `/` |
| Glob.AbsPattern | lib/glob.js:32-34 | a pattern ending with `/` gives an `absPattern` ending with `/`; on win32 it holds no backslash |
| Glob.MakePlan | lib/glob.js:32-45 | `wasAbsolute` holds exactly when the pattern equals `absPattern`; `betterBase + betterPattern == absPattern`, and the base is empty or ends with a separator |
| Glob.BackslashPatternIsRelative | lib/glob.js:32-36 | on win32 a pattern with a backslash is never treated as absolute, because `absPattern` is normalised |
| Glob.Glob | lib/glob.js:27-90 | the call, driving a `Walker`, returns what `GlobSpec` describes |
| Glob.GlobSpec | lib/glob.js:27-90 | the whole call: plan, walk from `betterBase` at depth 1, normalise, filter against `absPattern`, and rewrite relative to the cwd unless the pattern was absolute; a throwing listing is the call's error |
| Glob.GlobFailsOnBlocked | lib/glob.js:50-73 | the call throws if and only if the scan root or a visited directory within the bound cannot be listed |
| Glob.AbsoluteResultsAreAcceptedPaths | lib/glob.js:76-90 | for an absolute pattern the filtered list is returned as is: an order-preserving subsequence of the normalised walk, accepted by the matcher, each accepted path as often as it was pushed |
| Glob.RelativeResultsKeepMarkers | lib/glob.js:82-88 | for a relative pattern the filtered list is rewritten one for one, in order; markers survive, and on win32 no backslash remains |
| Glob.NormalizeKeepsPlace | lib/glob.js:76 | normalising a pushed path keeps it below the normalised root at the same level |
| Glob.KeptWithinDepth | lib/glob.js:49-78 | every normalised, filtered path lies strictly below the scan root and 1 to `maxDepth` levels down |
| Glob.AbsoluteResultsWithinDepth | lib/glob.js:27-90 | for an absolute pattern every result lies strictly below `betterBase`, 1 to `maxDepth` levels down |
| Glob.Returned | lib/glob.js:82-90 | what the call returns for one kept path: the path itself when the pattern was absolute, its `RelativeOne` rewrite otherwise |
| Glob.LiteralFilePatternFindsIt | lib/glob.js:27-90 | a wildcard-free pattern that names a non-directory entry of its parent is in the result when the matcher accepts the resolved pattern, as `Returned(absPattern)`: `absPattern` itself for an absolute pattern, its `RelativeOne` rewrite for a relative one |
| Glob.LiteralFilePatternFindsOnlyIt | lib/glob.js:27-90 | with a matcher exact on `absPattern` and distinct names in the parent, a wildcard-free pattern naming a non-directory entry returns exactly `[Returned(absPattern)]`: `absPattern` when the pattern was absolute, its `RelativeOne` rewrite when relative |
| Glob.LiteralDirectoryPatternFindsNothing | lib/glob.js:27-90 | a wildcard-free pattern ending with `/` becomes its own scan root, so with an exact matcher the result is empty |

## Left out

- The filesystem. `fs.readdirSync` and `fs.statSync` are replaced by an in-memory tree:
  - `Host.fs` gives the tree at `betterBase`;
  - `Dir` lists its entries in `readdirSync` order;
  - `UnreadableDir` stats as a directory but cannot be listed;
  - `Unstatable` is an entry `statSync` throws on.
  The tree cannot change during the walk, and symbolic links are not modelled.
- `minimatch` and every option other than `maxDepth`. The matcher is the parameter `Matcher`. The options it reads are folded into it.
- `path.resolve` and `path.relative` are opaque parameters.
- `path.join` is modelled only as joining a directory and one entry name with at most one separator: the host one unless the directory is empty or already ends with a separator. It does not collapse `.`/`..`, and on win32 it does not rewrite `/` to `\`. The paths are normalised right after the walk, so that rewrite would not change any result.
- Paths.Join: Node's `path.join` also collapses a doubled separator, and the model does not. The one input where this shows is a scan root that already ends with two separators. For example, on posix the pattern `/` gives `absPattern` and `betterBase` both equal to `//`. The model then pushes `//bin` where Node pushes `/bin`.
- `process.cwd()` and `process.platform` are parameters.
- Exceptions other than a failing `readdirSync` are not modelled, for example from `path.resolve` or from the matcher.
- The paths a walk pushed before the throw are not modelled, because an exception ends the call.
- Concurrency is out of scope. The call is synchronous and has no shared state.
- DepthPolicy.MaxDepth: `options.maxDepth` is an optional integer. The JavaScript falsy values other than an absent option and `0` (`NaN`, `''`, `false`, `null`) are not modelled. A non-integer maxDepth is not modelled either.
- DepthPolicy.MaxDepth: `split('/')` counts only `/`, not the win32 backslash, which matches the source. `betterPattern` is normalised, so there is no backslash in it on win32.
- TreeWalkerFacts.WalkFromBase: requires every entry name below the root to be non-empty and free of separators (`WellNamed`), since `readdirSync` returns such names. Glob.AbsoluteResultsWithinDepth, Glob.KeptWithinDepth, WalkOrder.WalkMarksDirectories and Glob.LiteralDirectoryPatternFindsNothing rely on the same assumption.
- Glob.AbsoluteResultsWithinDepth: only absolute patterns are covered. For a relative pattern the results come from the opaque `path.relative`, so their depth cannot be stated.
- Glob.LiteralDirectoryPatternFindsNothing: the matcher is assumed exact on the literal pattern (it accepts only that string). Real `minimatch` behaviour on such a pattern is not modelled.
- Glob.LiteralDirectoryPatternFindsNothing: the result is stated only for a call that does not throw.
- Glob.LiteralFilePatternFindsOnlyIt: assumes a matcher exact on the resolved pattern, distinct entry names in the parent directory and `WellNamed` names, since `readdirSync` returns each name once. Real `minimatch` behaviour is not modelled.
