/**
 * The entries the tree walker of lib/glob.js lists, in the order it lists
 * them, and how its output and its failures follow from that listing:
 * each pushed path is the joined path of one listed entry, marked with a
 * trailing separator exactly when the entry stats as a directory, and the
 * walk throws exactly when it reaches a directory it must list but cannot.
 */
module WalkOrder {
  import opened Prelude
  import opened Paths
  import opened TreeWalker
  import opened TreeWalkerFacts

  /** One entry the walk lists: its joined path, what is there, and the depth of the listing. */
  datatype Visit = Visit(path: string, node: Node, depth: int)

  /**
   * Every entry the walk of `dir` lists, in pre-order, ignoring whether
   * listing some directory throws: an entry that stats as a directory is
   * followed by the entries below it while `depth < maxDepth`.
   */
  function Visits(win32: bool, maxDepth: int, dir: Node, dirpath: string, depth: int): seq<Visit>
    decreases dir, 1
  {
    if dir.Dir? then VisitEntries(win32, maxDepth, dir.entries, dirpath, depth) else []
  }

  function VisitEntries(win32: bool, maxDepth: int, entries: seq<Entry>, dirpath: string, depth: int): seq<Visit>
    decreases entries, 0
  {
    if entries == [] then []
    else
      var e := entries[|entries| - 1];
      var filepath := Join(win32, dirpath, e.name);
      VisitEntries(win32, maxDepth, entries[..|entries| - 1], dirpath, depth)
        + [Visit(filepath, e.node, depth)]
        + (if IsDirectory(e.node) && depth < maxDepth then Visits(win32, maxDepth, e.node, filepath, depth + 1) else [])
  }

  /** What the walker pushes for each visit, in the same order. */
  function MarkAll(win32: bool, vs: seq<Visit>): (r: seq<string>)
    ensures |r| == |vs|
    ensures forall i :: 0 <= i < |vs| ==> r[i] == Marked(win32, vs[i].path, vs[i].node)
  {
    seq(|vs|, i requires 0 <= i < |vs| => Marked(win32, vs[i].path, vs[i].node))
  }

  /** A visit the walk must list but cannot: `readdirSync` throws on it. */
  predicate Blocked(maxDepth: int, v: Visit)
  {
    v.node == UnreadableDir && v.depth < maxDepth
  }

  predicate NoneBlocked(maxDepth: int, vs: seq<Visit>)
  {
    forall i :: 0 <= i < |vs| ==> !Blocked(maxDepth, vs[i])
  }

  lemma MarkAllConcat(win32: bool, a: seq<Visit>, v: Visit, b: seq<Visit>)
    ensures MarkAll(win32, a + [v] + b) == MarkAll(win32, a) + [Marked(win32, v.path, v.node)] + MarkAll(win32, b)
  {
    var l := MarkAll(win32, a + [v] + b);
    var r := MarkAll(win32, a) + [Marked(win32, v.path, v.node)] + MarkAll(win32, b);
    assert |l| == |r|;
    forall i | 0 <= i < |l| ensures l[i] == r[i] {
      if i < |a| {
        assert (a + [v] + b)[i] == a[i];
      } else if i == |a| {
        assert (a + [v] + b)[i] == v;
      } else {
        assert (a + [v] + b)[i] == b[i - |a| - 1];
      }
    }
  }

  lemma NoneBlockedConcat(maxDepth: int, a: seq<Visit>, v: Visit, b: seq<Visit>)
    ensures NoneBlocked(maxDepth, a + [v] + b)
        <==> NoneBlocked(maxDepth, a) && !Blocked(maxDepth, v) && NoneBlocked(maxDepth, b)
  {
    var s := a + [v] + b;
    if NoneBlocked(maxDepth, s) {
      forall i | 0 <= i < |a| ensures !Blocked(maxDepth, a[i]) {
        assert s[i] == a[i];
      }
      assert s[|a|] == v;
      forall i | 0 <= i < |b| ensures !Blocked(maxDepth, b[i]) {
        assert s[|a| + 1 + i] == b[i];
      }
    }
  }

  /** The visits of the first k entries of `dir`, with the last one's contribution peeled off. */
  lemma VisitEntriesLast(win32: bool, maxDepth: int, dir: Node, k: nat, dirpath: string, depth: int)
    requires dir.Dir? && 0 < k <= |dir.entries|
    ensures var e := dir.entries[k - 1];
      var p := Join(win32, dirpath, e.name);
      VisitEntries(win32, maxDepth, dir.entries[..k], dirpath, depth)
        == VisitEntries(win32, maxDepth, dir.entries[..k - 1], dirpath, depth) + [Visit(p, e.node, depth)]
           + (if IsDirectory(e.node) && depth < maxDepth then Visits(win32, maxDepth, e.node, p, depth + 1) else [])
  {
    assert dir.entries[..k][..k - 1] == dir.entries[..k - 1];
  }

  /** A walk that does not throw pushes exactly the marked paths of its visits. */
  lemma {:induction false} WalkIsMarkedVisits(win32: bool, maxDepth: int, dir: Node, dirpath: string, depth: int)
    requires Walk(win32, maxDepth, dir, dirpath, depth).Ok?
    ensures Walk(win32, maxDepth, dir, dirpath, depth).value == MarkAll(win32, Visits(win32, maxDepth, dir, dirpath, depth))
    decreases dir, 1
  {
    assert dir.entries[..|dir.entries|] == dir.entries;
    PrefixIsMarkedVisits(win32, maxDepth, dir, |dir.entries|, dirpath, depth);
  }

  lemma {:induction false} PrefixIsMarkedVisits(win32: bool, maxDepth: int, dir: Node, k: nat, dirpath: string, depth: int)
    requires dir.Dir? && k <= |dir.entries|
    requires WalkEntries(win32, maxDepth, dir.entries[..k], dirpath, depth).Ok?
    ensures WalkEntries(win32, maxDepth, dir.entries[..k], dirpath, depth).value
         == MarkAll(win32, VisitEntries(win32, maxDepth, dir.entries[..k], dirpath, depth))
    decreases dir, 0, k
  {
    if k > 0 {
      var entries := dir.entries[..k];
      assert entries[..k - 1] == dir.entries[..k - 1];
      WalkEntriesLast(win32, maxDepth, entries, dirpath, depth);
      VisitEntriesLast(win32, maxDepth, dir, k, dirpath, depth);
      PrefixIsMarkedVisits(win32, maxDepth, dir, k - 1, dirpath, depth);
      var e := dir.entries[k - 1];
      assert e == entries[k - 1];
      var p := Join(win32, dirpath, e.name);
      var before := VisitEntries(win32, maxDepth, dir.entries[..k - 1], dirpath, depth);
      if IsDirectory(e.node) && depth < maxDepth {
        assert e.node < dir;
        WalkIsMarkedVisits(win32, maxDepth, e.node, p, depth + 1);
        MarkAllConcat(win32, before, Visit(p, e.node, depth), Visits(win32, maxDepth, e.node, p, depth + 1));
      } else {
        MarkAllConcat(win32, before, Visit(p, e.node, depth), []);
      }
    }
  }

  /** Every entry of a listed directory is visited, at the listing's depth. */
  lemma {:induction false} PrefixVisitsEntry(win32: bool, maxDepth: int, dir: Node, k: nat, j: nat, dirpath: string, depth: int)
    requires dir.Dir? && j < k <= |dir.entries|
    ensures Visit(Join(win32, dirpath, dir.entries[j].name), dir.entries[j].node, depth)
            in VisitEntries(win32, maxDepth, dir.entries[..k], dirpath, depth)
    decreases k
  {
    var e := dir.entries[k - 1];
    var p := Join(win32, dirpath, e.name);
    var before := VisitEntries(win32, maxDepth, dir.entries[..k - 1], dirpath, depth);
    var below := if IsDirectory(e.node) && depth < maxDepth then Visits(win32, maxDepth, e.node, p, depth + 1) else [];
    var all := before + [Visit(p, e.node, depth)] + below;
    assert VisitEntries(win32, maxDepth, dir.entries[..k], dirpath, depth) == all by {
      VisitEntriesLast(win32, maxDepth, dir, k, dirpath, depth);
    }
    if j < k - 1 {
      PrefixVisitsEntry(win32, maxDepth, dir, k - 1, j, dirpath, depth);
      var i :| 0 <= i < |before| && before[i] == Visit(Join(win32, dirpath, dir.entries[j].name), dir.entries[j].node, depth);
      assert all[i] == before[i];
    } else {
      assert all[|before|] == Visit(p, e.node, depth);
    }
  }

  /**
   * A walk that does not throw pushes, for every entry of its root, the
   * entry's joined path, with a separator appended when it stats as a directory.
   */
  lemma WalkListsEveryEntry(win32: bool, maxDepth: int, dir: Node, dirpath: string, depth: int, j: nat)
    requires dir.Dir? && j < |dir.entries|
    requires Walk(win32, maxDepth, dir, dirpath, depth).Ok?
    ensures Marked(win32, Join(win32, dirpath, dir.entries[j].name), dir.entries[j].node)
            in Walk(win32, maxDepth, dir, dirpath, depth).value
  {
    var e := dir.entries[j];
    var v := Visit(Join(win32, dirpath, e.name), e.node, depth);
    var vs := Visits(win32, maxDepth, dir, dirpath, depth);
    assert v in vs by {
      assert dir.entries[..|dir.entries|] == dir.entries;
      PrefixVisitsEntry(win32, maxDepth, dir, |dir.entries|, j, dirpath, depth);
    }
    WalkIsMarkedVisits(win32, maxDepth, dir, dirpath, depth);
    var i :| 0 <= i < |vs| && vs[i] == v;
    assert MarkAll(win32, vs)[i] == Marked(win32, v.path, v.node);
  }

  /** The marked joined paths of `entries`, one per entry, in listing order. */
  function Listed(win32: bool, d: string, entries: seq<Entry>): (r: seq<string>)
    ensures |r| == |entries|
    ensures forall i :: 0 <= i < |entries| ==> r[i] == Marked(win32, Join(win32, d, entries[i].name), entries[i].node)
  {
    seq(|entries|, i requires 0 <= i < |entries| => Marked(win32, Join(win32, d, entries[i].name), entries[i].node))
  }

  /**
   * At the depth bound the walk descends nowhere: listing a directory pushes
   * one marked path per entry and cannot throw.
   */
  lemma {:induction false} WalkAtBound(win32: bool, maxDepth: int, entries: seq<Entry>, d: string, depth: int)
    requires maxDepth <= depth
    ensures WalkEntries(win32, maxDepth, entries, d, depth) == Ok(Listed(win32, d, entries))
    decreases |entries|
  {
    if entries != [] {
      var n := |entries| - 1;
      WalkAtBound(win32, maxDepth, entries[..n], d, depth);
      var before := Listed(win32, d, entries[..n]);
      var top := Marked(win32, Join(win32, d, entries[n].name), entries[n].node);
      assert WalkEntries(win32, maxDepth, entries, d, depth) == Ok(before + [top]) by {
        assert EntryPaths(win32, maxDepth, entries[n], d, depth) == Ok([top]);
        WalkEntriesStep(win32, maxDepth, entries, n, d, depth, before);
        assert entries[..n + 1] == entries;
      }
      assert before + [top] == Listed(win32, d, entries) by {
        forall i | 0 <= i < n ensures (before + [top])[i] == Listed(win32, d, entries)[i] {
          assert entries[..n][i] == entries[i];
        }
      }
    }
  }

  /**
   * The walk throws exactly when the scan root cannot be listed or some
   * visit is a directory it must list but cannot; the path it reports is
   * then the root's or such a visit's.
   */
  lemma {:induction false} WalkFailsOnBlocked(win32: bool, maxDepth: int, dir: Node, dirpath: string, depth: int)
    ensures var w := Walk(win32, maxDepth, dir, dirpath, depth);
      var vs := Visits(win32, maxDepth, dir, dirpath, depth);
      && (w.Ok? <==> dir.Dir? && NoneBlocked(maxDepth, vs))
      && (w.Err? ==> (!dir.Dir? && w.error == dirpath)
                     || exists i :: 0 <= i < |vs| && Blocked(maxDepth, vs[i]) && vs[i].path == w.error)
    decreases dir, 1
  {
    if dir.Dir? {
      assert dir.entries[..|dir.entries|] == dir.entries;
      PrefixFailsOnBlocked(win32, maxDepth, dir, |dir.entries|, dirpath, depth);
    }
  }

  /** `w` throws exactly when some visit in `vs` is blocked, and then reports such a visit's path. */
  ghost predicate FailsOnBlocked(maxDepth: int, w: Result<seq<string>, string>, vs: seq<Visit>)
  {
    && (w.Ok? <==> NoneBlocked(maxDepth, vs))
    && (w.Err? ==> exists i :: 0 <= i < |vs| && Blocked(maxDepth, vs[i]) && vs[i].path == w.error)
  }

  lemma {:induction false} PrefixFailsOnBlocked(win32: bool, maxDepth: int, dir: Node, k: nat, dirpath: string, depth: int)
    requires dir.Dir? && k <= |dir.entries|
    ensures FailsOnBlocked(maxDepth, WalkEntries(win32, maxDepth, dir.entries[..k], dirpath, depth),
                           VisitEntries(win32, maxDepth, dir.entries[..k], dirpath, depth))
    decreases dir, 0, k
  {
    if k > 0 {
      var e := dir.entries[k - 1];
      var p := Join(win32, dirpath, e.name);
      var mine := [Visit(p, e.node, depth)]
        + (if IsDirectory(e.node) && depth < maxDepth then Visits(win32, maxDepth, e.node, p, depth + 1) else []);
      var wb := WalkEntries(win32, maxDepth, dir.entries[..k - 1], dirpath, depth);
      var r := EntryPaths(win32, maxDepth, e, dirpath, depth);
      PrefixStep(win32, maxDepth, dir, k, dirpath, depth);
      PrefixFailsOnBlocked(win32, maxDepth, dir, k - 1, dirpath, depth);
      if wb.Err? {
        FailsOnBlockedExtend(maxDepth, wb, VisitEntries(win32, maxDepth, dir.entries[..k - 1], dirpath, depth), mine);
      } else {
        assert e < dir;
        EntryFailsOnBlocked(win32, maxDepth, e, dirpath, depth);
        FailsOnBlockedAfter(maxDepth, r, WalkEntries(win32, maxDepth, dir.entries[..k], dirpath, depth),
                            VisitEntries(win32, maxDepth, dir.entries[..k - 1], dirpath, depth), mine);
      }
    }
  }

  /** How the walk and the visits of the first k entries follow from those of the first k - 1. */
  lemma PrefixStep(win32: bool, maxDepth: int, dir: Node, k: nat, dirpath: string, depth: int)
    requires dir.Dir? && 0 < k <= |dir.entries|
    ensures var e := dir.entries[k - 1];
      var p := Join(win32, dirpath, e.name);
      var wb := WalkEntries(win32, maxDepth, dir.entries[..k - 1], dirpath, depth);
      var w := WalkEntries(win32, maxDepth, dir.entries[..k], dirpath, depth);
      var r := EntryPaths(win32, maxDepth, e, dirpath, depth);
      && VisitEntries(win32, maxDepth, dir.entries[..k], dirpath, depth)
         == VisitEntries(win32, maxDepth, dir.entries[..k - 1], dirpath, depth)
            + ([Visit(p, e.node, depth)]
               + (if IsDirectory(e.node) && depth < maxDepth then Visits(win32, maxDepth, e.node, p, depth + 1) else []))
      && (wb.Err? ==> w == wb)
      && (wb.Ok? ==> w == if r.Ok? then Ok(wb.value + r.value) else Err(r.error))
  {
    VisitEntriesLast(win32, maxDepth, dir, k, dirpath, depth);
    var wb := WalkEntries(win32, maxDepth, dir.entries[..k - 1], dirpath, depth);
    if wb.Err? {
      assert dir.entries[..k][..k - 1] == dir.entries[..k - 1];
      FailureIsFinal(win32, maxDepth, dir.entries[..k], k - 1, dirpath, depth);
      assert dir.entries[..k][..k] == dir.entries[..k];
    } else {
      WalkEntriesStep(win32, maxDepth, dir.entries, k - 1, dirpath, depth, wb.value);
      assert dir.entries[..k - 1 + 1] == dir.entries[..k];
    }
  }

  /** The claim of WalkFailsOnBlocked for what one listed entry contributes. */
  lemma {:induction false} EntryFailsOnBlocked(win32: bool, maxDepth: int, e: Entry, dirpath: string, depth: int)
    ensures var p := Join(win32, dirpath, e.name);
      FailsOnBlocked(maxDepth, EntryPaths(win32, maxDepth, e, dirpath, depth),
                     [Visit(p, e.node, depth)]
                     + (if IsDirectory(e.node) && depth < maxDepth then Visits(win32, maxDepth, e.node, p, depth + 1) else []))
    decreases e, 2
  {
    var p := Join(win32, dirpath, e.name);
    var v := Visit(p, e.node, depth);
    if IsDirectory(e.node) && depth < maxDepth {
      var below := Visits(win32, maxDepth, e.node, p, depth + 1);
      WalkFailsOnBlocked(win32, maxDepth, e.node, p, depth + 1);
      NoneBlockedConcat(maxDepth, [], v, below);
      assert [] + [v] + below == [v] + below;
      var sub := Walk(win32, maxDepth, e.node, p, depth + 1);
      if sub.Err? {
        if !e.node.Dir? {
          assert ([v] + below)[0] == v;
        } else {
          var j :| 0 <= j < |below| && Blocked(maxDepth, below[j]) && below[j].path == sub.error;
          assert ([v] + below)[1 + j] == below[j];
        }
      }
    } else {
      assert [v] + [] == [v];
    }
  }

  /** A walk that has already thrown stays explained whatever visits follow. */
  lemma FailsOnBlockedExtend(maxDepth: int, w: Result<seq<string>, string>, vs: seq<Visit>, rest: seq<Visit>)
    requires w.Err? && FailsOnBlocked(maxDepth, w, vs)
    ensures FailsOnBlocked(maxDepth, w, vs + rest)
  {
    var i :| 0 <= i < |vs| && Blocked(maxDepth, vs[i]) && vs[i].path == w.error;
    assert (vs + rest)[i] == vs[i];
  }

  /** After visits none of which is blocked, the outcome is explained by the visits that follow. */
  lemma FailsOnBlockedAfter(maxDepth: int, w: Result<seq<string>, string>, w': Result<seq<string>, string>, before: seq<Visit>, vs: seq<Visit>)
    requires NoneBlocked(maxDepth, before) && FailsOnBlocked(maxDepth, w, vs)
    requires w'.Ok? == w.Ok? && (w.Err? ==> w'.error == w.error)
    ensures FailsOnBlocked(maxDepth, w', before + vs)
  {
    var s := before + vs;
    forall i | 0 <= i < |vs| ensures s[|before| + i] == vs[i] { }
    if w.Err? {
      var i :| 0 <= i < |vs| && Blocked(maxDepth, vs[i]) && vs[i].path == w.error;
      assert s[|before| + i] == vs[i];
    }
    if NoneBlocked(maxDepth, vs) {
      forall i | 0 <= i < |s| ensures !Blocked(maxDepth, s[i]) {
        if i < |before| {
          assert s[i] == before[i];
        } else {
          assert s[i] == vs[i - |before|];
        }
      }
    }
  }

  /** No visit records a path ending with a separator. */
  predicate Unmarked(win32: bool, vs: seq<Visit>)
  {
    forall i :: 0 <= i < |vs| ==> !EndsWithSep(win32, vs[i].path)
  }

  /** No path a visit records ends with a separator: the names below `dir` are valid. */
  lemma {:induction false} VisitPathsUnmarked(win32: bool, maxDepth: int, dir: Node, dirpath: string, depth: int)
    requires WellNamed(win32, dir)
    ensures Unmarked(win32, Visits(win32, maxDepth, dir, dirpath, depth))
    decreases dir, 1
  {
    if dir.Dir? {
      assert dir.entries[..|dir.entries|] == dir.entries;
      PrefixPathsUnmarked(win32, maxDepth, dir, |dir.entries|, dirpath, depth);
    }
  }

  lemma {:induction false} PrefixPathsUnmarked(win32: bool, maxDepth: int, dir: Node, k: nat, dirpath: string, depth: int)
    requires dir.Dir? && k <= |dir.entries| && WellNamed(win32, dir)
    ensures Unmarked(win32, VisitEntries(win32, maxDepth, dir.entries[..k], dirpath, depth))
    decreases dir, 0, k
  {
    if k > 0 {
      var e := dir.entries[k - 1];
      var p := Join(win32, dirpath, e.name);
      var descend := IsDirectory(e.node) && depth < maxDepth;
      VisitEntriesLast(win32, maxDepth, dir, k, dirpath, depth);
      PrefixPathsUnmarked(win32, maxDepth, dir, k - 1, dirpath, depth);
      assert ValidName(win32, e.name) && WellNamed(win32, e.node);
      JoinedNameUnmarked(win32, dirpath, e.name);
      if descend {
        assert e.node < dir;
        VisitPathsUnmarked(win32, maxDepth, e.node, p, depth + 1);
      }
      UnmarkedConcat(win32, VisitEntries(win32, maxDepth, dir.entries[..k - 1], dirpath, depth), Visit(p, e.node, depth),
                     if descend then Visits(win32, maxDepth, e.node, p, depth + 1) else []);
    }
  }

  lemma JoinedNameUnmarked(win32: bool, d: string, name: string)
    requires ValidName(win32, name)
    ensures !EndsWithSep(win32, Join(win32, d, name))
  {
    var p := Join(win32, d, name);
    assert p[|p| - 1] == name[|name| - 1];
  }

  lemma UnmarkedConcat(win32: bool, a: seq<Visit>, v: Visit, b: seq<Visit>)
    requires Unmarked(win32, a) && !EndsWithSep(win32, v.path) && Unmarked(win32, b)
    ensures Unmarked(win32, a + [v] + b)
  {
    var s := a + [v] + b;
    forall i | 0 <= i < |s| ensures !EndsWithSep(win32, s[i].path) {
      if i < |a| {
        assert s[i] == a[i];
      } else if i > |a| {
        assert s[i] == b[i - |a| - 1];
      }
    }
  }

  /**
   * The walk's output, entry by entry: path i is the joined path of visit i,
   * and it ends with a separator exactly when visit i stats as a directory.
   */
  lemma WalkMarksDirectories(win32: bool, maxDepth: int, dir: Node, dirpath: string, depth: int)
    requires WellNamed(win32, dir)
    requires Walk(win32, maxDepth, dir, dirpath, depth).Ok?
    ensures var w := Walk(win32, maxDepth, dir, dirpath, depth).value;
      var vs := Visits(win32, maxDepth, dir, dirpath, depth);
      && |w| == |vs|
      && forall i :: 0 <= i < |w| ==>
           && vs[i].path <= w[i]
           && (EndsWithSep(win32, w[i]) <==> IsDirectory(vs[i].node))
  {
    WalkIsMarkedVisits(win32, maxDepth, dir, dirpath, depth);
    VisitPathsUnmarked(win32, maxDepth, dir, dirpath, depth);
    var vs := Visits(win32, maxDepth, dir, dirpath, depth);
    assert forall i :: 0 <= i < |vs| ==> !EndsWithSep(win32, vs[i].path);
  }
}
