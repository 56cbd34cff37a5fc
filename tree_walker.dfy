/**
 * The tree walker of lib/glob.js (the `recurse` closure): a pre-order walk
 * from `betterBase` that pushes every entry it lists onto `filepaths`,
 * directories with a trailing separator, and descends into a directory
 * only while `depth < maxDepth`. The filesystem below the scan root is an
 * in-memory tree; `readdirSync` failing on a directory it must list aborts
 * the whole walk, `statSync` failing on an entry does not.
 */
module TreeWalker {
  import opened Prelude
  import opened Paths

  /** A filesystem entry as `statSync` and `readdirSync` see it. */
  datatype Node =
    | File
    | Dir(entries: seq<Entry>)  // a directory whose listing succeeds, in listing order
    | UnreadableDir             // stats as a directory, but `readdirSync` throws
    | Unstatable                // `statSync` throws (a dangling lock file, say)

  datatype Entry = Entry(name: string, node: Node)

  datatype Kind = RegularFile | Directory

  /** `fs.statSync(path)`; None stands for the exception the walker swallows. */
  function Stat(n: Node): Option<Kind>
  {
    match n
    case File => Some(RegularFile)
    case Dir(_) => Some(Directory)
    case UnreadableDir => Some(Directory)
    case Unstatable => None
  }

  /** `stat && stat.isDirectory()`. */
  predicate IsDirectory(n: Node)
  {
    Stat(n) == Some(Directory)
  }

  /** What the walker pushes for an entry at `path`: a directory gets the host separator appended. */
  function Marked(win32: bool, path: string, n: Node): string
  {
    if IsDirectory(n) then path + [Sep(win32)] else path
  }

  /**
   * `recurse(dirpath, depth)` as a function: the paths it pushes, or the
   * path of the directory whose `readdirSync` threw.
   */
  function Walk(win32: bool, maxDepth: int, dir: Node, dirpath: string, depth: int): Result<seq<string>, string>
    decreases dir, 1
  {
    if dir.Dir? then WalkEntries(win32, maxDepth, dir.entries, dirpath, depth)
    else Err(dirpath)
  }

  /** The `forEach` over a listing: the paths pushed for `entries`, in order. */
  function WalkEntries(win32: bool, maxDepth: int, entries: seq<Entry>, dirpath: string, depth: int): Result<seq<string>, string>
    decreases entries, 0
  {
    if entries == [] then Ok([])
    else
      match WalkEntries(win32, maxDepth, entries[..|entries| - 1], dirpath, depth)
      case Err(err) => Err(err)
      case Ok(before) =>
        match EntryPaths(win32, maxDepth, entries[|entries| - 1], dirpath, depth)
        case Err(err) => Err(err)
        case Ok(mine) => Ok(before + mine)
  }

  /**
   * The `forEach` callback for one listed entry: a directory pushes its
   * marked path and, within the depth bound, everything below it; any other
   * entry, including one `statSync` fails on, pushes its bare path.
   */
  function EntryPaths(win32: bool, maxDepth: int, e: Entry, dirpath: string, depth: int): Result<seq<string>, string>
    decreases e, 2
  {
    var filepath := Join(win32, dirpath, e.name);
    if IsDirectory(e.node) then
      if depth < maxDepth then
        match Walk(win32, maxDepth, e.node, filepath, depth + 1)
        case Err(err) => Err(err)
        case Ok(below) => Ok([filepath + [Sep(win32)]] + below)
      else Ok([filepath + [Sep(win32)]])
    else Ok([filepath])
  }

  /** An exception thrown while listing some entries ends the whole `forEach`: later entries change nothing. */
  lemma {:induction false} FailureIsFinal(win32: bool, maxDepth: int, entries: seq<Entry>, k: nat, dirpath: string, depth: int)
    requires k <= |entries|
    requires WalkEntries(win32, maxDepth, entries[..k], dirpath, depth).Err?
    ensures WalkEntries(win32, maxDepth, entries, dirpath, depth) == WalkEntries(win32, maxDepth, entries[..k], dirpath, depth)
    decreases |entries| - k
  {
    if k < |entries| {
      assert entries[..k + 1][..k] == entries[..k];
      FailureIsFinal(win32, maxDepth, entries, k + 1, dirpath, depth);
    } else {
      assert entries[..k] == entries;
    }
  }

  /** One step of the `forEach`: listing entry i appends its callback's paths, or fails with it. */
  lemma WalkEntriesStep(win32: bool, maxDepth: int, entries: seq<Entry>, i: nat, dirpath: string, depth: int, before: seq<string>)
    requires i < |entries|
    requires WalkEntries(win32, maxDepth, entries[..i], dirpath, depth) == Ok(before)
    ensures var mine := EntryPaths(win32, maxDepth, entries[i], dirpath, depth);
      WalkEntries(win32, maxDepth, entries[..i + 1], dirpath, depth)
        == if mine.Ok? then Ok(before + mine.value) else Err(mine.error)
  {
    assert entries[..i + 1][..i] == entries[..i];
  }

  /** The state of one `glob` call's walk: the shared `filepaths` array that `recurse` pushes onto. */
  class Walker {
    const win32: bool
    const maxDepth: int
    var filepaths: seq<string>

    constructor (win32: bool, maxDepth: int)
      ensures this.win32 == win32 && this.maxDepth == maxDepth
      ensures filepaths == []
    {
      this.win32 := win32;
      this.maxDepth := maxDepth;
      filepaths := [];
    }

    /**
     * `recurse(dirpath, depth)`: appends what Walk describes, or reports the
     * directory whose listing threw (what was pushed before the throw is
     * then of no interest, since the exception ends the `glob` call).
     */
    method Recurse(dirpath: string, dir: Node, depth: int) returns (failure: Option<string>)
      modifies this
      decreases dir, 1
      ensures var w := Walk(win32, maxDepth, dir, dirpath, depth);
        && (failure.None? <==> w.Ok?)
        && (w.Ok? ==> filepaths == old(filepaths) + w.value)
        && (w.Err? ==> failure == Some(w.error))
    {
      if !dir.Dir? {
        // fs.readdirSync(dirpath) throws
        return Some(dirpath);
      }
      var entries := dir.entries;
      var i := 0;
      ghost var start := filepaths;
      ghost var pushed: seq<string> := [];
      while i < |entries|
        invariant 0 <= i <= |entries|
        invariant WalkEntries(win32, maxDepth, entries[..i], dirpath, depth) == Ok(pushed)
        invariant filepaths == start + pushed
      {
        WalkEntriesStep(win32, maxDepth, entries, i, dirpath, depth, pushed);
        assert entries[i] in dir.entries;
        failure := ListEntry(dirpath, entries[i], depth);
        if failure.Some? {
          FailureIsFinal(win32, maxDepth, entries, i + 1, dirpath, depth);
          return;
        }
        pushed := pushed + EntryPaths(win32, maxDepth, entries[i], dirpath, depth).value;
        i := i + 1;
      }
      assert entries[..i] == entries;
      return None;
    }

    /** The `forEach` callback: stat the joined path, push it, and descend into a directory while the bound allows. */
    method ListEntry(dirpath: string, e: Entry, depth: int) returns (failure: Option<string>)
      modifies this
      decreases e, 2
      ensures var mine := EntryPaths(win32, maxDepth, e, dirpath, depth);
        && (failure.None? <==> mine.Ok?)
        && (mine.Ok? ==> filepaths == old(filepaths) + mine.value)
        && (mine.Err? ==> failure == Some(mine.error))
    {
      var filepath := Join(win32, dirpath, e.name);
      var stat := Stat(e.node);
      if stat.Some? && stat.value == Directory {
        filepaths := filepaths + [filepath + [Sep(win32)]];
        if depth < maxDepth {
          failure := Recurse(filepath, e.node, depth + 1);
          return;
        }
      } else {
        // no stat, or not a directory
        filepaths := filepaths + [filepath];
      }
      return None;
    }
  }
}

/**
 * What the walk's output says about the tree: where each pushed path lies
 * relative to the scan root, which paths carry the directory marker, and
 * the pre-order in which they are pushed.
 */
module TreeWalkerFacts {
  import opened Prelude
  import opened Paths
  import opened TreeWalker

  /** A name `readdirSync` can return: non-empty, without a separator. */
  predicate ValidName(win32: bool, name: string)
  {
    |name| > 0 && forall i :: 0 <= i < |name| ==> !IsSep(win32, name[i])
  }

  /** Every name in the tree below `n` is a valid entry name. */
  ghost predicate WellNamed(win32: bool, n: Node)
    decreases n, 1
  {
    n.Dir? ==> WellNamedEntries(win32, n.entries)
  }

  ghost predicate WellNamedEntries(win32: bool, entries: seq<Entry>)
    decreases entries, 0
  {
    forall i :: 0 <= i < |entries| ==> ValidName(win32, entries[i].name) && WellNamed(win32, entries[i].node)
  }

  /** `p` without its directory marker. */
  function TrimSep(win32: bool, p: string): string
  {
    if EndsWithSep(win32, p) then p[..|p| - 1] else p
  }

  /** How many levels below `base` the entry at `p` lies (1 for an entry listed in `base` itself). */
  function Level(win32: bool, base: string, p: string): int
  {
    var t := TrimSep(win32, p);
    if base <= t then SepCount(win32, t[|base|..]) + 1 else 0
  }

  /** The marked path of the directory holding the entry at `p`: `p` up to and including its last separator. */
  function ParentDir(win32: bool, p: string): string
  {
    StripNonpath(win32, TrimSep(win32, p))
  }

  /** `d` is a directory the walk lists at `depth`: the scan root at depth 1, a directory depth - 1 levels below it otherwise. */
  ghost predicate DirAt(win32: bool, base: string, d: string, depth: int)
  {
    || (depth == 1 && d == base && (base == [] || EndsWithSep(win32, base)))
    || (depth >= 2 && base <= d && |base| < |d| && !EndsWithSep(win32, d) && Level(win32, base, d) == depth - 1)
  }

  /** What the paths pushed while listing `d` have in common. */
  function DirMarker(win32: bool, d: string, depth: int): string
  {
    if depth == 1 then d else d + [Sep(win32)]
  }

  /** The joined path is the directory marker followed by the name, and ends with the name's last character. */
  lemma JoinShape(win32: bool, base: string, d: string, depth: int, name: string)
    requires DirAt(win32, base, d, depth) && ValidName(win32, name)
    ensures Join(win32, d, name) == DirMarker(win32, d, depth) + name
    ensures TrimSep(win32, Join(win32, d, name)) == Join(win32, d, name)
    ensures TrimSep(win32, Join(win32, d, name) + [Sep(win32)]) == Join(win32, d, name)
  {
    var p := Join(win32, d, name);
    assert p[|p| - 1] == name[|name| - 1];
  }

  lemma JoinLevel(win32: bool, base: string, d: string, depth: int, name: string)
    requires DirAt(win32, base, d, depth) && ValidName(win32, name)
    ensures base <= Join(win32, d, name) && |base| < |Join(win32, d, name)|
    ensures Level(win32, base, Join(win32, d, name)) == depth
  {
    JoinShape(win32, base, d, depth, name);
    var p := Join(win32, d, name);
    assert SepCount(win32, p[|base|..]) == depth - 1 by {
      NoSepCount(win32, name);
      if depth == 1 {
        assert p[|base|..] == name;
      } else {
        JoinBelowCount(win32, base, d, depth, name);
      }
    }
  }

  /** Below the scan root, the joined path adds one separator and a separator-free name to the directory's tail. */
  lemma JoinBelowCount(win32: bool, base: string, d: string, depth: int, name: string)
    requires depth >= 2 && DirAt(win32, base, d, depth) && ValidName(win32, name)
    requires Join(win32, d, name) == d + [Sep(win32)] + name
    requires SepCount(win32, name) == 0
    ensures SepCount(win32, Join(win32, d, name)[|base|..]) == depth - 1
  {
    var rel := d[|base|..];
    assert SepCount(win32, rel) == depth - 2 by {
      assert TrimSep(win32, d) == d;
    }
    assert Join(win32, d, name)[|base|..] == rel + [Sep(win32)] + name;
    SepCountAppend(win32, rel + [Sep(win32)], name);
    SepCountAppend(win32, rel, [Sep(win32)]);
    SepCountOfSep(win32);
  }

  lemma JoinParent(win32: bool, base: string, d: string, depth: int, name: string)
    requires DirAt(win32, base, d, depth) && ValidName(win32, name)
    ensures ParentDir(win32, Join(win32, d, name)) == DirMarker(win32, d, depth)
  {
    JoinShape(win32, base, d, depth, name);
    var p := Join(win32, d, name);
    var marker := DirMarker(win32, d, depth);
    assert forall i :: |marker| <= i < |p| ==> p[i] == name[i - |marker|];
    StripNonpathUnique(win32, p, marker);
  }

  /** Joining a valid name onto a listed directory gives an entry one level further down. */
  lemma JoinStep(win32: bool, base: string, d: string, depth: int, name: string)
    requires DirAt(win32, base, d, depth) && ValidName(win32, name)
    ensures var p := Join(win32, d, name);
      var m := p + [Sep(win32)];
      && DirAt(win32, base, p, depth + 1)
      && base <= m && |base| < |m|
      && Level(win32, base, p) == depth && Level(win32, base, m) == depth
      && ParentDir(win32, p) == DirMarker(win32, d, depth)
      && ParentDir(win32, m) == DirMarker(win32, d, depth)
  {
    JoinShape(win32, base, d, depth, name);
    JoinLevel(win32, base, d, depth, name);
    JoinParent(win32, base, d, depth, name);
  }

  /** Every fact the walk guarantees about the path it pushes at index i. */
  ghost predicate Placed(win32: bool, base: string, maxDepth: int, d: string, depth: int, w: seq<string>, i: int)
    requires 0 <= i < |w|
  {
    var level := Level(win32, base, w[i]);
    && base <= w[i] && |base| < |w[i]|
    && depth <= level <= (if depth < maxDepth then maxDepth else depth)
    && (level == depth ==> ParentDir(win32, w[i]) == DirMarker(win32, d, depth))
    && (level > depth ==> ParentDir(win32, w[i]) in w[..i])
  }

  ghost predicate AllPlaced(win32: bool, base: string, maxDepth: int, d: string, depth: int, w: seq<string>)
  {
    forall i :: 0 <= i < |w| ==> Placed(win32, base, maxDepth, d, depth, w, i)
  }

  /** Facts about an earlier path survive appending more paths. */
  lemma PlacedExtend(win32: bool, base: string, maxDepth: int, d: string, depth: int, before: seq<string>, w: seq<string>, i: int)
    requires 0 <= i < |before|
    requires before <= w
    requires Placed(win32, base, maxDepth, d, depth, before, i)
    ensures Placed(win32, base, maxDepth, d, depth, w, i)
  {
    assert w[i] == before[i] && w[..i] == before[..i];
  }

  /** A path pushed while walking subdirectory `p` keeps its place once `before + [marker]` precedes it. */
  lemma PlacedBelow(win32: bool, base: string, maxDepth: int, d: string, depth: int,
                    before: seq<string>, p: string, below: seq<string>, j: int)
    requires 0 <= j < |below|
    requires 1 <= depth < maxDepth
    requires Placed(win32, base, maxDepth, p, depth + 1, below, j)
    ensures Placed(win32, base, maxDepth, d, depth, before + [p + [Sep(win32)]] + below, |before| + 1 + j)
  {
    var m := p + [Sep(win32)];
    var w := before + [m] + below;
    var i := |before| + 1 + j;
    assert w[i] == below[j];
    var level := Level(win32, base, below[j]);
    var parent := ParentDir(win32, below[j]);
    if level > depth + 1 {
      var k :| 0 <= k < j && below[..j][k] == parent;
      assert w[|before| + 1 + k] == below[k];
      assert w[..i][|before| + 1 + k] == parent;
    } else {
      assert parent == m;
      assert w[..i][|before|] == m;
    }
  }

  /** The path pushed for the last listed entry is where it should be. */
  lemma PlacedLast(win32: bool, base: string, maxDepth: int, d: string, depth: int, before: seq<string>, top: string, after: seq<string>)
    requires base <= top && |base| < |top|
    requires Level(win32, base, top) == depth
    requires ParentDir(win32, top) == DirMarker(win32, d, depth)
    ensures Placed(win32, base, maxDepth, d, depth, before + [top] + after, |before|)
  {
    var w := before + [top] + after;
    assert w[|before|] == top;
  }

  lemma PlacedPrefixPart(win32: bool, base: string, maxDepth: int, d: string, depth: int, before: seq<string>, w: seq<string>)
    requires before <= w
    requires AllPlaced(win32, base, maxDepth, d, depth, before)
    ensures forall i :: 0 <= i < |before| ==> Placed(win32, base, maxDepth, d, depth, w, i)
  {
    forall i | 0 <= i < |before| ensures Placed(win32, base, maxDepth, d, depth, w, i) {
      assert Placed(win32, base, maxDepth, d, depth, before, i);
      PlacedExtend(win32, base, maxDepth, d, depth, before, w, i);
    }
  }

  lemma PlacedBelowPart(win32: bool, base: string, maxDepth: int, d: string, depth: int,
                        before: seq<string>, p: string, below: seq<string>)
    requires 1 <= depth
    requires below != [] ==> depth < maxDepth
    requires AllPlaced(win32, base, maxDepth, p, depth + 1, below)
    ensures var w := before + [p + [Sep(win32)]] + below;
      forall i :: |before| < i < |w| ==> Placed(win32, base, maxDepth, d, depth, w, i)
  {
    var w := before + [p + [Sep(win32)]] + below;
    forall i | |before| < i < |w| ensures Placed(win32, base, maxDepth, d, depth, w, i) {
      PlacedBelow(win32, base, maxDepth, d, depth, before, p, below, i - |before| - 1);
    }
  }

  /** Gluing the paths pushed before an entry, the entry's own path and the paths pushed below it. */
  lemma PlacedConcat(win32: bool, base: string, maxDepth: int, d: string, depth: int,
                     before: seq<string>, p: string, top: string, below: seq<string>)
    requires 1 <= depth
    requires AllPlaced(win32, base, maxDepth, d, depth, before)
    requires base <= top && |base| < |top|
    requires Level(win32, base, top) == depth
    requires ParentDir(win32, top) == DirMarker(win32, d, depth)
    requires below != [] ==> depth < maxDepth && top == p + [Sep(win32)]
    requires AllPlaced(win32, base, maxDepth, p, depth + 1, below)
    ensures AllPlaced(win32, base, maxDepth, d, depth, before + [top] + below)
  {
    var w := before + [top] + below;
    assert before <= w;
    PlacedPrefixPart(win32, base, maxDepth, d, depth, before, w);
    PlacedLast(win32, base, maxDepth, d, depth, before, top, below);
    if below != [] {
      PlacedBelowPart(win32, base, maxDepth, d, depth, before, p, below);
    }
  }

  /** The last listed entry's contribution, for the proofs that peel entries off the end. */
  lemma WalkEntriesLast(win32: bool, maxDepth: int, entries: seq<Entry>, d: string, depth: int)
    requires entries != []
    requires WalkEntries(win32, maxDepth, entries, d, depth).Ok?
    ensures var n := |entries| - 1;
      var e := entries[n];
      var p := Join(win32, d, e.name);
      var top := if IsDirectory(e.node) then p + [Sep(win32)] else p;
      var descend := IsDirectory(e.node) && depth < maxDepth;
      && WalkEntries(win32, maxDepth, entries[..n], d, depth).Ok?
      && (descend ==> Walk(win32, maxDepth, e.node, p, depth + 1).Ok?)
      && WalkEntries(win32, maxDepth, entries, d, depth).value
         == WalkEntries(win32, maxDepth, entries[..n], d, depth).value + [top]
            + (if descend then Walk(win32, maxDepth, e.node, p, depth + 1).value else [])
  {
  }

  /** Every path the walk of `dir` pushes is placed; the walk is assumed not to fail. */
  lemma {:induction false} WalkPlaced(win32: bool, maxDepth: int, dir: Node, base: string, d: string, depth: int)
    requires DirAt(win32, base, d, depth) && WellNamed(win32, dir)
    requires Walk(win32, maxDepth, dir, d, depth).Ok?
    ensures AllPlaced(win32, base, maxDepth, d, depth, Walk(win32, maxDepth, dir, d, depth).value)
    decreases dir, 1
  {
    assert dir.entries[..|dir.entries|] == dir.entries;
    WalkPrefixPlaced(win32, maxDepth, dir, |dir.entries|, base, d, depth);
  }

  /** The same for the paths pushed while listing the first k entries of `dir`. */
  lemma {:induction false} WalkPrefixPlaced(win32: bool, maxDepth: int, dir: Node, k: nat, base: string, d: string, depth: int)
    requires dir.Dir? && k <= |dir.entries|
    requires DirAt(win32, base, d, depth) && WellNamed(win32, dir)
    requires WalkEntries(win32, maxDepth, dir.entries[..k], d, depth).Ok?
    ensures AllPlaced(win32, base, maxDepth, d, depth, WalkEntries(win32, maxDepth, dir.entries[..k], d, depth).value)
    decreases dir, 0, k
  {
    if k > 0 {
      var entries := dir.entries[..k];
      assert entries[..k - 1] == dir.entries[..k - 1];
      WalkEntriesLast(win32, maxDepth, entries, d, depth);
      WalkPrefixPlaced(win32, maxDepth, dir, k - 1, base, d, depth);
      var e := dir.entries[k - 1];
      assert e == entries[k - 1];
      assert e.node < dir;
      EntryPlaced(win32, maxDepth, e, base, d, depth, WalkEntries(win32, maxDepth, dir.entries[..k - 1], d, depth).value);
    }
  }

  /** Appending a listed directory and what its walk pushes keeps every path placed. */
  lemma DescendPlaced(win32: bool, base: string, maxDepth: int, d: string, depth: int,
                      before: seq<string>, name: string, below: seq<string>)
    requires DirAt(win32, base, d, depth) && ValidName(win32, name) && depth < maxDepth
    requires AllPlaced(win32, base, maxDepth, d, depth, before)
    requires AllPlaced(win32, base, maxDepth, Join(win32, d, name), depth + 1, below)
    ensures AllPlaced(win32, base, maxDepth, d, depth, before + [Join(win32, d, name) + [Sep(win32)]] + below)
  {
    var p := Join(win32, d, name);
    JoinStep(win32, base, d, depth, name);
    PlacedConcat(win32, base, maxDepth, d, depth, before, p, p + [Sep(win32)], below);
  }

  /** Appending an entry the walk does not descend into keeps every path placed. */
  lemma LeafPlaced(win32: bool, base: string, maxDepth: int, d: string, depth: int,
                   before: seq<string>, name: string, marked: bool)
    requires DirAt(win32, base, d, depth) && ValidName(win32, name)
    requires AllPlaced(win32, base, maxDepth, d, depth, before)
    ensures var p := Join(win32, d, name);
      AllPlaced(win32, base, maxDepth, d, depth, before + [if marked then p + [Sep(win32)] else p])
  {
    var p := Join(win32, d, name);
    JoinStep(win32, base, d, depth, name);
    PlacedConcat(win32, base, maxDepth, d, depth, before, p, if marked then p + [Sep(win32)] else p, []);
    assert before + [if marked then p + [Sep(win32)] else p] + [] == before + [if marked then p + [Sep(win32)] else p];
  }

  /** Appending what one listed entry contributes keeps every path placed. */
  lemma {:induction false} EntryPlaced(win32: bool, maxDepth: int, e: Entry, base: string, d: string, depth: int, before: seq<string>)
    requires DirAt(win32, base, d, depth) && ValidName(win32, e.name) && WellNamed(win32, e.node)
    requires AllPlaced(win32, base, maxDepth, d, depth, before)
    requires IsDirectory(e.node) && depth < maxDepth ==> Walk(win32, maxDepth, e.node, Join(win32, d, e.name), depth + 1).Ok?
    ensures var p := Join(win32, d, e.name);
      var top := if IsDirectory(e.node) then p + [Sep(win32)] else p;
      var descend := IsDirectory(e.node) && depth < maxDepth;
      AllPlaced(win32, base, maxDepth, d, depth,
                before + [top] + (if descend then Walk(win32, maxDepth, e.node, p, depth + 1).value else []))
    decreases e.node, 2
  {
    var p := Join(win32, d, e.name);
    var top := if IsDirectory(e.node) then p + [Sep(win32)] else p;
    if IsDirectory(e.node) && depth < maxDepth {
      assert DirAt(win32, base, p, depth + 1) by {
        JoinStep(win32, base, d, depth, e.name);
      }
      WalkPlaced(win32, maxDepth, e.node, base, p, depth + 1);
      DescendPlaced(win32, base, maxDepth, d, depth, before, e.name, Walk(win32, maxDepth, e.node, p, depth + 1).value);
    } else {
      LeafPlaced(win32, base, maxDepth, d, depth, before, e.name, IsDirectory(e.node));
      assert before + [top] + [] == before + [top];
    }
  }

  /**
   * The walk from the scan root `base` at depth 1: every pushed path lies
   * strictly below `base`, at most `maxDepth` levels down (one level when
   * `maxDepth` is below 1, since the root is always listed), and each is
   * pushed after its parent directory's marked path unless its parent is
   * `base` itself.
   */
  lemma WalkFromBase(win32: bool, maxDepth: int, root: Node, base: string)
    requires base == [] || EndsWithSep(win32, base)
    requires WellNamed(win32, root)
    requires Walk(win32, maxDepth, root, base, 1).Ok?
    ensures var w := Walk(win32, maxDepth, root, base, 1).value;
      forall i :: 0 <= i < |w| ==>
        && base <= w[i] && |base| < |w[i]|
        && 1 <= Level(win32, base, w[i]) <= (if 1 < maxDepth then maxDepth else 1)
        && (Level(win32, base, w[i]) == 1 ==> ParentDir(win32, w[i]) == base)
        && (Level(win32, base, w[i]) > 1 ==> ParentDir(win32, w[i]) in w[..i])
  {
    var w := Walk(win32, maxDepth, root, base, 1).value;
    WalkPlaced(win32, maxDepth, root, base, base, 1);
    forall i | 0 <= i < |w|
      ensures base <= w[i] && |base| < |w[i]|
      ensures 1 <= Level(win32, base, w[i]) <= (if 1 < maxDepth then maxDepth else 1)
      ensures Level(win32, base, w[i]) == 1 ==> ParentDir(win32, w[i]) == base
      ensures Level(win32, base, w[i]) > 1 ==> ParentDir(win32, w[i]) in w[..i]
    {
      assert Placed(win32, base, maxDepth, base, 1, w, i);
    }
  }
}
