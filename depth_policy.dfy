/**
 * The depth policy of lib/glob.js: how many directory levels below
 * `betterBase` the walker may descend. A remainder containing `**` gets
 * `options.maxDepth || 99`; any other remainder gets one level per
 * `/`-separated piece.
 */
module DepthPolicy {
  import opened Prelude

  /** The default depth bound for a pattern with a recursive wildcard. */
  const DefaultMaxDepth: int := 99

  predicate OccursAt(s: string, t: string, i: nat)
  {
    i + |t| <= |s| && s[i..i + |t|] == t
  }

  /** `s.indexOf(t, from)`: the first occurrence at or after `from`, or -1. */
  function IndexOfFrom(s: string, t: string, from: nat): (r: int)
    ensures r == -1 || (from <= r && OccursAt(s, t, r))
    ensures forall i :: from <= i && (r == -1 || i < r) ==> !OccursAt(s, t, i)
    decreases |s| - from
  {
    if |s| < from + |t| then -1
    else if OccursAt(s, t, from) then from
    else IndexOfFrom(s, t, from + 1)
  }

  /** `s.indexOf(t)`. */
  function IndexOf(s: string, t: string): (r: int)
    ensures r >= -1
    ensures r == -1 <==> forall i :: 0 <= i ==> !OccursAt(s, t, i)
    ensures r >= 0 ==> OccursAt(s, t, r) && forall i :: 0 <= i < r ==> !OccursAt(s, t, i)
  {
    IndexOfFrom(s, t, 0)
  }

  /** Index of the first `c` in `s`. */
  function IndexOfChar(s: string, c: char): (k: nat)
    requires c in s
    ensures k < |s| && s[k] == c && c !in s[..k]
  {
    if s[0] == c then 0
    else
      assert c in s[1..] by { assert s == [s[0]] + s[1..]; }
      var k := 1 + IndexOfChar(s[1..], c);
      assert s[..k] == [s[0]] + s[1..][..k - 1];
      k
  }

  /** `s.split(c)` for a one-character separator. */
  function Split(s: string, c: char): (pieces: seq<string>)
    ensures |pieces| >= 1
    ensures forall k :: 0 <= k < |pieces| ==> c !in pieces[k]
    decreases |s|
  {
    if c !in s then [s]
    else
      var k := IndexOfChar(s, c);
      [s[..k]] + Split(s[k + 1..], c)
  }

  /** `pieces.join(c)`. */
  function JoinWith(pieces: seq<string>, c: char): string
    requires |pieces| >= 1
  {
    if |pieces| == 1 then pieces[0] else pieces[0] + [c] + JoinWith(pieces[1..], c)
  }

  /** Splitting loses nothing: joining the pieces back gives the original string. */
  lemma {:induction false} SplitJoinRoundTrip(s: string, c: char)
    ensures JoinWith(Split(s, c), c) == s
    decreases |s|
  {
    if c in s {
      var k := IndexOfChar(s, c);
      SplitJoinRoundTrip(s[k + 1..], c);
      assert s == s[..k] + [c] + s[k + 1..];
    }
  }

  /** There is one more piece than there are separators. */
  lemma {:induction false} SplitCount(s: string, c: char)
    ensures |Split(s, c)| == multiset(s)[c] + 1
    decreases |s|
  {
    if c in s {
      var k := IndexOfChar(s, c);
      SplitCount(s[k + 1..], c);
      assert s == s[..k] + [c] + s[k + 1..];
    } else {
      assert multiset(s)[c] == 0;
    }
  }

  predicate HasGlobstar(s: string)
  {
    exists i :: 0 <= i < |s| - 1 && s[i] == '*' && s[i + 1] == '*'
  }

  /** `configured || 99`: an absent option and a zero both fall back to the default. */
  function OrDefault(configured: Option<int>): int
  {
    if configured.None? || configured.value == 0 then DefaultMaxDepth else configured.value
  }

  /**
   * `betterPattern.indexOf('**') >= 0 ? (options.maxDepth || 99)
   *  : betterPattern.split('/').length`.
   */
  function MaxDepth(betterPattern: string, configured: Option<int>): (depth: int)
    ensures HasGlobstar(betterPattern) ==> depth == OrDefault(configured)
    ensures !HasGlobstar(betterPattern) ==> depth == multiset(betterPattern)['/'] + 1
  {
    if IndexOf(betterPattern, "**") >= 0 then
      var i := IndexOf(betterPattern, "**");
      assert betterPattern[i..i + 2] == "**";
      assert betterPattern[i] == '*' && betterPattern[i + 1] == '*';
      OrDefault(configured)
    else
      assert !HasGlobstar(betterPattern) by {
        forall i | 0 <= i < |betterPattern| - 1 ensures !(betterPattern[i] == '*' && betterPattern[i + 1] == '*') {
          assert !OccursAt(betterPattern, "**", i);
          assert betterPattern[i..i + 2] == [betterPattern[i], betterPattern[i + 1]];
        }
      }
      SplitCount(betterPattern, '/');
      |Split(betterPattern, '/')|
  }

  /** Without `**` the bound is at least one level, and a pattern with no `/` scans one level only. */
  lemma LiteralDepthAtLeastOne(betterPattern: string, configured: Option<int>)
    requires !HasGlobstar(betterPattern)
    ensures MaxDepth(betterPattern, configured) >= 1
    ensures '/' !in betterPattern ==> MaxDepth(betterPattern, configured) == 1
  {
  }

  /** A single segment without `*` or `/` is scanned one level deep, whatever the option says. */
  lemma SingleSegmentDepthOne(betterPattern: string, configured: Option<int>)
    requires forall i :: 0 <= i < |betterPattern| ==> betterPattern[i] != '*' && betterPattern[i] != '/'
    ensures MaxDepth(betterPattern, configured) == 1
  {
    assert !HasGlobstar(betterPattern);
    LiteralDepthAtLeastOne(betterPattern, configured);
  }
}
