/**
 * The longest strictly increasing subsequence by exhaustive tree search:
 * every element is first excluded and then, when it is larger than the last
 * included one, included; each leaf of that tree replaces the best sequence
 * found so far when it is strictly longer. Afterwards a single greedy scan of
 * the input recovers where the values of the result sit in the input.
 *
 * `Explore` is the search on values, threading the best-so-far through the
 * tree; the class `LmisSearch` is the search as written, keeping the best in
 * a field. The lemmas show that the result is a longest strictly increasing
 * subsequence, and which of several equally long ones it is.
 */
module Lmis {

  // ------------------------------------------------------------------
  // Subsequences.

  /** idx picks s out of input: increasing positions holding the values of s in order. */
  ghost predicate Embeds(idx: seq<int>, s: seq<int>, input: seq<int>) {
    && |idx| == |s|
    && (forall k :: 0 <= k < |idx| ==> 0 <= idx[k] < |input| && input[idx[k]] == s[k])
    && (forall k, l :: 0 <= k < l < |idx| ==> idx[k] < idx[l])
  }

  ghost predicate IsSubseq(s: seq<int>, input: seq<int>) {
    exists idx :: Embeds(idx, s, input)
  }

  predicate StrictlyIncreasing(s: seq<int>) {
    forall i, j :: 0 <= i < j < |s| ==> s[i] < s[j]
  }

  ghost predicate IsIncreasingSubseq(s: seq<int>, input: seq<int>) {
    StrictlyIncreasing(s) && IsSubseq(s, input)
  }

  /** s is a strictly increasing subsequence of input and none is longer. */
  ghost predicate Longest(s: seq<int>, input: seq<int>) {
    && IsIncreasingSubseq(s, input)
    && forall t :: IsIncreasingSubseq(t, input) ==> |t| <= |s|
  }

  // ------------------------------------------------------------------
  // The search on values.

  /** The branch that includes input[curr] is taken only when it continues the increase. */
  predicate CanInclude(input: seq<int>, prev: int, curr: int)
    requires -1 <= prev < curr < |input|
  {
    prev == -1 || input[curr] > input[prev]
  }

  /**
   * findLMISRecursive(prev, curr, path) with best-so-far `best`: the best
   * after the subtree below this node. prev is the index of the last element
   * of path, -1 when path is empty.
   */
  function Explore(input: seq<int>, prev: int, curr: int, path: seq<int>, best: seq<int>): seq<int>
    requires -1 <= prev < curr <= |input|
    decreases |input| - curr
  {
    if curr == |input| then
      if |path| > |best| then path else best
    else
      var afterExclude := Explore(input, prev, curr + 1, path, best);
      if CanInclude(input, prev, curr) then
        Explore(input, curr, curr + 1, path + [input[curr]], afterExclude)
      else
        afterExclude
  }

  /** The search never makes the best shorter. */
  lemma {:induction false} ExploreGrows(input: seq<int>, prev: int, curr: int, path: seq<int>, best: seq<int>)
    requires -1 <= prev < curr <= |input|
    ensures |Explore(input, prev, curr, path, best)| >= |best|
    decreases |input| - curr
  {
    if curr < |input| {
      ExploreGrows(input, prev, curr + 1, path, best);
      if CanInclude(input, prev, curr) {
        ExploreGrows(input, curr, curr + 1, path + [input[curr]], Explore(input, prev, curr + 1, path, best));
      }
    }
  }

  /**
   * The state of a node of the tree: idx embeds path in input below curr,
   * path is strictly increasing, and prev is the position of its last element
   * (-1 for the empty path).
   */
  ghost predicate NodeState(input: seq<int>, prev: int, curr: int, path: seq<int>, idx: seq<int>) {
    && -1 <= prev < curr <= |input|
    && Embeds(idx, path, input)
    && StrictlyIncreasing(path)
    && (idx == [] <==> prev == -1)
    && (idx != [] ==> idx[|idx| - 1] == prev)
  }

  /** Including input[curr] at an allowed node gives the state of the child. */
  lemma IncludeState(input: seq<int>, prev: int, curr: int, path: seq<int>, idx: seq<int>)
    requires NodeState(input, prev, curr, path, idx) && curr < |input|
    requires CanInclude(input, prev, curr)
    ensures NodeState(input, curr, curr + 1, path + [input[curr]], idx + [curr])
  {
    var p, q := path + [input[curr]], idx + [curr];
    forall i, j | 0 <= i < j < |p|
      ensures p[i] < p[j]
    {
      if j == |path| && i < j {
        assert path[i] <= path[|path| - 1];
        assert input[idx[|idx| - 1]] == path[|path| - 1];
      }
    }
    forall k, l | 0 <= k < l < |q|
      ensures q[k] < q[l]
    {
      if l == |idx| {
        assert idx[k] <= idx[|idx| - 1];
      }
    }
  }

  /** Every result of the search is a strictly increasing subsequence, given that best is one. */
  lemma {:induction false} ExploreSound(input: seq<int>, prev: int, curr: int, path: seq<int>, idx: seq<int>, best: seq<int>)
    requires NodeState(input, prev, curr, path, idx)
    requires IsIncreasingSubseq(best, input)
    ensures IsIncreasingSubseq(Explore(input, prev, curr, path, best), input)
    decreases |input| - curr
  {
    if curr < |input| {
      var afterExclude := Explore(input, prev, curr + 1, path, best);
      ExploreSound(input, prev, curr + 1, path, idx, best);
      if CanInclude(input, prev, curr) {
        IncludeState(input, prev, curr, path, idx);
        ExploreSound(input, curr, curr + 1, path + [input[curr]], idx + [curr], afterExclude);
      }
    }
  }

  /**
   * path + u is a leaf the subtree below the node can reach: u is embedded
   * by jdx at positions from curr on, and path + u is strictly increasing.
   */
  ghost predicate Extension(input: seq<int>, prev: int, curr: int, path: seq<int>, idx: seq<int>,
                            u: seq<int>, jdx: seq<int>) {
    && NodeState(input, prev, curr, path, idx)
    && Embeds(jdx, u, input)
    && (jdx == [] || jdx[0] >= curr)
    && StrictlyIncreasing(path + u)
  }

  /** At a leaf of the tree nothing is left to extend by. */
  lemma ExtensionAtLeaf(input: seq<int>, prev: int, path: seq<int>, idx: seq<int>, u: seq<int>, jdx: seq<int>)
    requires Extension(input, prev, |input|, path, idx, u, jdx)
    ensures u == []
  {
  }

  /** An extension starting with input[curr] is an extension of the include child. */
  lemma ExtensionInclude(input: seq<int>, prev: int, curr: int, path: seq<int>, idx: seq<int>, u: seq<int>, jdx: seq<int>)
    requires Extension(input, prev, curr, path, idx, u, jdx) && curr < |input|
    requires jdx != [] && jdx[0] == curr
    ensures CanInclude(input, prev, curr)
    ensures Extension(input, curr, curr + 1, path + [input[curr]], idx + [curr], u[1..], jdx[1..])
    ensures |path + [input[curr]]| + |u[1..]| == |path| + |u|
  {
    if prev != -1 {
      assert (path + u)[|path| - 1] < (path + u)[|path|];
    }
    IncludeState(input, prev, curr, path, idx);
    assert |jdx| > 1 ==> jdx[0] < jdx[1];
    assert (path + [input[curr]]) + u[1..] == path + u;
  }

  /** An extension not starting with input[curr] is an extension of the exclude child. */
  lemma ExtensionExclude(input: seq<int>, prev: int, curr: int, path: seq<int>, idx: seq<int>, u: seq<int>, jdx: seq<int>)
    requires Extension(input, prev, curr, path, idx, u, jdx) && curr < |input|
    requires jdx == [] || jdx[0] != curr
    ensures Extension(input, prev, curr + 1, path, idx, u, jdx)
  {
  }

  /**
   * Every leaf path + u below the node is compared with the best, so the
   * search ends with a best at least as long as it.
   */
  lemma {:induction false} ExploreOptimal(input: seq<int>, prev: int, curr: int, path: seq<int>, idx: seq<int>,
                                          best: seq<int>, u: seq<int>, jdx: seq<int>)
    requires Extension(input, prev, curr, path, idx, u, jdx)
    ensures |Explore(input, prev, curr, path, best)| >= |path| + |u|
    decreases |input| - curr
  {
    if curr == |input| {
      ExtensionAtLeaf(input, prev, path, idx, u, jdx);
    } else if jdx != [] && jdx[0] == curr {
      ExtensionInclude(input, prev, curr, path, idx, u, jdx);
      ExploreOptimal(input, curr, curr + 1, path + [input[curr]], idx + [curr],
                     Explore(input, prev, curr + 1, path, best), u[1..], jdx[1..]);
    } else {
      ExtensionExclude(input, prev, curr, path, idx, u, jdx);
      ExploreOptimal(input, prev, curr + 1, path, idx, best, u, jdx);
      if CanInclude(input, prev, curr) {
        ExploreGrows(input, curr, curr + 1, path + [input[curr]], Explore(input, prev, curr + 1, path, best));
      }
    }
  }

  /** The empty sequence is a strictly increasing subsequence of anything. */
  lemma EmptyIncreasing(input: seq<int>)
    ensures IsIncreasingSubseq([], input)
  {
    assert Embeds([], [], input);
  }

  /** The search from the root with an empty best finds a longest strictly increasing subsequence. */
  lemma ExploreLongest(input: seq<int>)
    ensures Longest(Explore(input, -1, 0, [], []), input)
  {
    var r := Explore(input, -1, 0, [], []);
    assert NodeState(input, -1, 0, [], []);
    EmptyIncreasing(input);
    ExploreSound(input, -1, 0, [], [], []);
    forall t | IsIncreasingSubseq(t, input)
      ensures |t| <= |r|
    {
      var jdx :| Embeds(jdx, t, input);
      assert [] + t == t;
      assert Extension(input, -1, 0, [], [], t, jdx);
      ExploreOptimal(input, -1, 0, [], [], [], t, jdx);
    }
  }

  /** A non-empty input has a result of length at least one. */
  lemma ExploreNonEmpty(input: seq<int>)
    requires |input| > 0
    ensures |Explore(input, -1, 0, [], [])| >= 1
  {
    ExploreLongest(input);
    assert Embeds([0], [input[0]], input);
    assert IsIncreasingSubseq([input[0]], input);
  }

  // ------------------------------------------------------------------
  // Which longest sequence: the first leaf of greatest length.

  /** The leaves below a node, in the order the search reaches them: the exclude subtree first. */
  ghost function Leaves(input: seq<int>, prev: int, curr: int, path: seq<int>): seq<seq<int>>
    requires -1 <= prev < curr <= |input|
    decreases |input| - curr
  {
    if curr == |input| then [path]
    else
      Leaves(input, prev, curr + 1, path) +
      if CanInclude(input, prev, curr) then Leaves(input, curr, curr + 1, path + [input[curr]]) else []
  }

  /**
   * r is what survives of best against the leaves: best itself when no leaf
   * is longer, otherwise the first leaf of the greatest length.
   */
  ghost predicate FirstLongest(r: seq<int>, best: seq<int>, leaves: seq<seq<int>>) {
    || (r == best && forall j :: 0 <= j < |leaves| ==> |leaves[j]| <= |best|)
    || exists i :: 0 <= i < |leaves| && FirstLongestAt(r, best, leaves, i)
  }

  ghost predicate FirstLongestAt(r: seq<int>, best: seq<int>, leaves: seq<seq<int>>, i: int)
    requires 0 <= i < |leaves|
  {
    && r == leaves[i]
    && |r| > |best|
    && (forall j :: 0 <= j < |leaves| ==> |leaves[j]| <= |r|)
    && (forall j :: 0 <= j < i ==> |leaves[j]| < |r|)
  }

  /** Keeping the first longest against A and then against B keeps the first longest against A + B. */
  lemma FirstLongestAppend(best: seq<int>, r1: seq<int>, r2: seq<int>, a: seq<seq<int>>, b: seq<seq<int>>)
    requires FirstLongest(r1, best, a) && FirstLongest(r2, r1, b)
    ensures FirstLongest(r2, best, a + b)
  {
    var ab := a + b;
    assert forall j :: 0 <= j < |a| ==> ab[j] == a[j];
    assert forall j :: 0 <= j < |b| ==> ab[|a| + j] == b[j];
    assert forall j :: |a| <= j < |ab| ==> ab[j] == b[j - |a|];
    if r1 == best && forall j :: 0 <= j < |a| ==> |a[j]| <= |best| {
      if r2 == r1 && forall j :: 0 <= j < |b| ==> |b[j]| <= |r1| {
      } else {
        var i :| 0 <= i < |b| && FirstLongestAt(r2, r1, b, i);
        assert FirstLongestAt(r2, best, ab, |a| + i);
      }
    } else {
      var i :| 0 <= i < |a| && FirstLongestAt(r1, best, a, i);
      if r2 == r1 && forall j :: 0 <= j < |b| ==> |b[j]| <= |r1| {
        assert FirstLongestAt(r2, best, ab, i);
      } else {
        var i2 :| 0 <= i2 < |b| && FirstLongestAt(r2, r1, b, i2);
        assert FirstLongestAt(r2, best, ab, |a| + i2);
      }
    }
  }

  /**
   * Ties: the search ends with best, when no leaf below the node is longer,
   * or else with the first leaf in exclude-before-include order that has the
   * greatest length; a later leaf of the same length does not replace it.
   */
  lemma {:induction false} ExploreFirstLongest(input: seq<int>, prev: int, curr: int, path: seq<int>, best: seq<int>)
    requires -1 <= prev < curr <= |input|
    ensures FirstLongest(Explore(input, prev, curr, path, best), best, Leaves(input, prev, curr, path))
    decreases |input| - curr
  {
    if curr == |input| {
      if |path| > |best| {
        assert FirstLongestAt(path, best, [path], 0);
      }
    } else {
      var afterExclude := Explore(input, prev, curr + 1, path, best);
      ExploreFirstLongest(input, prev, curr + 1, path, best);
      if CanInclude(input, prev, curr) {
        ExploreFirstLongest(input, curr, curr + 1, path + [input[curr]], afterExclude);
        FirstLongestAppend(best, afterExclude, Explore(input, prev, curr, path, best),
                           Leaves(input, prev, curr + 1, path), Leaves(input, curr, curr + 1, path + [input[curr]]));
      } else {
        assert Leaves(input, prev, curr, path) == Leaves(input, prev, curr + 1, path);
      }
    }
  }

  /** [50, 40, 30]: the three singletons tie, and [30] is the first leaf the search reaches. */
  lemma TieGoesToFirstLeaf()
    ensures Explore([50, 40, 30], -1, 0, [], []) == [30]
    ensures IsIncreasingSubseq([50], [50, 40, 30]) && IsIncreasingSubseq([40], [50, 40, 30])
  {
    assert Embeds([0], [50], [50, 40, 30]);
    assert Embeds([1], [40], [50, 40, 30]);
  }

  /** [3, 10, 2, 1, 20] with 3 excluded: the first longest leaf is [1, 20]. */
  lemma ExampleWithout3()
    ensures Explore([3, 10, 2, 1, 20], -1, 1, [], []) == [1, 20]
  {
  }

  /** [3, 10, 2, 1, 20] with 3 included: [3, 10, 20] is the only leaf longer than [1, 20]. */
  lemma ExampleWith3()
    ensures Explore([3, 10, 2, 1, 20], 0, 1, [3], [1, 20]) == [3, 10, 20]
  {
    assert Explore([3, 10, 2, 1, 20], 0, 2, [3], [1, 20]) == [1, 20];
  }

  /** [3, 10, 2, 1, 20]: the search finds [3, 10, 20]. */
  lemma ExampleResult()
    ensures Explore([3, 10, 2, 1, 20], -1, 0, [], []) == [3, 10, 20]
  {
    ExampleWithout3();
    ExampleWith3();
  }

  /** [3, 10, 2, 1, 20]: the search returns [3, 10, 20], a longest strictly increasing subsequence. */
  lemma LongestExample()
    ensures Explore([3, 10, 2, 1, 20], -1, 0, [], []) == [3, 10, 20]
    ensures Longest([3, 10, 20], [3, 10, 2, 1, 20])
  {
    var input := [3, 10, 2, 1, 20];
    ExampleResult();
    ExploreLongest(input);
  }

  /** [3, 10, 2, 1, 20]: the greedy scan matches [3, 10, 20] at positions [0, 1, 4]. */
  lemma ExampleIndices(indices: seq<int>)
    requires GreedyMatches(indices, [3, 10, 20], [3, 10, 2, 1, 20])
    ensures indices == [0, 1, 4]
  {
    var input := [3, 10, 2, 1, 20];
    assert input[0] == 3 && input[1] == 10 && input[4] == 20;
  }

  // ------------------------------------------------------------------
  // The search as written: the best-so-far is a field.

  /** The state of the search: the input and the best path found so far (lmisInput, lmisBestPath). */
  class LmisSearch {
    const input: seq<int>
    var best: seq<int>

    /** startLMIS's reset: the best starts empty. */
    constructor(input: seq<int>)
      ensures this.input == input && best == []
    {
      this.input := input;
      best := [];
    }

    /**
     * findLMISRecursive: at the end of the input the path replaces the best
     * when strictly longer; otherwise first exclude input[curr], then include
     * it when it is larger than input[prev] or nothing is included yet.
     */
    method FindLMISRecursive(prevIndex: int, currIndex: int, currentPath: seq<int>)
      requires -1 <= prevIndex < currIndex <= |input|
      modifies this
      ensures best == Explore(input, prevIndex, currIndex, currentPath, old(best))
      decreases |input| - currIndex
    {
      if currIndex == |input| {
        if |currentPath| > |best| {
          best := currentPath;
        }
        return;
      }

      FindLMISRecursive(prevIndex, currIndex + 1, currentPath);

      if prevIndex == -1 || input[currIndex] > input[prevIndex] {
        var newPath := currentPath + [input[currIndex]];
        FindLMISRecursive(currIndex, currIndex + 1, newPath);
      }
    }
  }

  // ------------------------------------------------------------------
  // Recovering the positions of the result.

  /** Where the scan looks for s[k]: just after the match of s[k - 1], or from the start. */
  ghost function ScanFrom(indices: seq<int>, k: int): int
    requires 0 <= k <= |indices|
  {
    if k == 0 then 0 else indices[k - 1] + 1
  }

  /**
   * indices are the greedy matches of s in input: s[k] is matched at the
   * first position after the match of s[k - 1] that holds it, and once a
   * value finds no such position, the scan matches nothing more.
   */
  ghost predicate GreedyMatches(indices: seq<int>, s: seq<int>, input: seq<int>) {
    && |indices| <= |s|
    && Embeds(indices, s[..|indices|], input)
    && (forall k, j :: 0 <= k < |indices| && ScanFrom(indices, k) <= j < indices[k] ==> input[j] != s[k])
    && (|indices| < |s| ==> forall j :: ScanFrom(indices, |indices|) <= j < |input| ==> input[j] != s[|indices|])
  }

  /** s can still be picked out of input at positions from lo on. */
  ghost predicate EmbedsFrom(s: seq<int>, input: seq<int>, lo: int) {
    exists jdx :: Embeds(jdx, s, input) && (jdx == [] || jdx[0] >= lo)
  }

  /** One step of the scan keeps the rest of s embeddable after the scanned position. */
  lemma ScanStep(s: seq<int>, input: seq<int>, lo: int)
    requires EmbedsFrom(s, input, lo) && 0 <= lo < |input|
    ensures s != [] && input[lo] == s[0] ==> EmbedsFrom(s[1..], input, lo + 1)
    ensures s == [] || input[lo] != s[0] ==> EmbedsFrom(s, input, lo + 1)
  {
    var jdx :| Embeds(jdx, s, input) && (jdx == [] || jdx[0] >= lo);
    if s != [] {
      if |jdx| > 1 {
        assert jdx[0] < jdx[1];
      }
      assert Embeds(jdx[1..], s[1..], input);
    }
  }

  /**
   * The scan after the positions before index: indices are greedy matches
   * of a prefix of s, all before index, and the value waiting for a match
   * occurs nowhere between the last match and index.
   */
  ghost predicate Scanned(indices: seq<int>, s: seq<int>, input: seq<int>, index: int) {
    && index <= |input|
    && |indices| <= |s|
    && Embeds(indices, s[..|indices|], input)
    && (forall k :: 0 <= k < |indices| ==> indices[k] < index)
    && (forall k, j :: 0 <= k < |indices| && ScanFrom(indices, k) <= j < indices[k] ==> input[j] != s[k])
    && (|indices| < |s| ==> forall j :: ScanFrom(indices, |indices|) <= j < index ==> input[j] != s[|indices|])
  }

  /** Scanning one more position: it is matched when it holds the value waiting for a match. */
  lemma ScannedStep(indices: seq<int>, s: seq<int>, input: seq<int>, index: int)
    requires Scanned(indices, s, input, index) && 0 <= index < |input|
    ensures |indices| < |s| && input[index] == s[|indices|] ==> Scanned(indices + [index], s, input, index + 1)
    ensures !(|indices| < |s| && input[index] == s[|indices|]) ==> Scanned(indices, s, input, index + 1)
  {
    var n := |indices|;
    if n < |s| && input[index] == s[n] {
      var q := indices + [index];
      assert s[..n + 1] == s[..n] + [s[n]];
      assert forall k :: 0 <= k < n ==> q[k] == indices[k];
      assert forall k :: 0 <= k <= n ==> ScanFrom(q, k) == ScanFrom(indices, k);
      assert forall k, l :: 0 <= k < l < |q| ==> q[k] < q[l] by {
        forall k, l | 0 <= k < l < |q|
          ensures q[k] < q[l]
        {
          if l == n {
            assert q[k] == indices[k] < index;
          }
        }
      }
    }
  }

  /** A scanned position holding the value waiting for a match is matched. */
  lemma ScanMatch(indices: seq<int>, s: seq<int>, input: seq<int>, index: int, embeddable: bool)
    requires Scanned(indices, s, input, index) && 0 <= index < |input|
    requires embeddable ==> EmbedsFrom(s[|indices|..], input, index)
    requires |indices| < |s| && input[index] == s[|indices|]
    ensures Scanned(indices + [index], s, input, index + 1)
    ensures embeddable ==> EmbedsFrom(s[|indices| + 1..], input, index + 1)
  {
    ScannedStep(indices, s, input, index);
    if embeddable {
      ScanStep(s[|indices|..], input, index);
      assert s[|indices|..][1..] == s[|indices| + 1..];
    }
  }

  /** A scanned position not holding the value waiting for a match is passed over. */
  lemma ScanSkip(indices: seq<int>, s: seq<int>, input: seq<int>, index: int, embeddable: bool)
    requires Scanned(indices, s, input, index) && 0 <= index < |input|
    requires embeddable ==> EmbedsFrom(s[|indices|..], input, index)
    requires !(|indices| < |s| && input[index] == s[|indices|])
    ensures Scanned(indices, s, input, index + 1)
    ensures embeddable ==> EmbedsFrom(s[|indices|..], input, index + 1)
  {
    ScannedStep(indices, s, input, index);
    if embeddable {
      ScanStep(s[|indices|..], input, index);
    }
  }

  /** Nothing but the empty sequence can be picked out after the end of the input. */
  lemma EmbedsFromEnd(s: seq<int>, input: seq<int>)
    requires EmbedsFrom(s, input, |input|)
    ensures s == []
  {
  }

  /** Before the scan nothing is matched, and all of s waits for its match. */
  lemma ScanBegins(s: seq<int>, input: seq<int>)
    ensures Scanned([], s, input, 0)
    ensures IsSubseq(s, input) ==> EmbedsFrom(s[0..], input, 0)
  {
    if IsSubseq(s, input) {
      var jdx :| Embeds(jdx, s, input);
      assert s[0..] == s;
      assert jdx == [] || jdx[0] >= 0;
    }
  }

  /** After the whole input: the matches are greedy, and complete exactly when s is a subsequence. */
  lemma ScanEnds(indices: seq<int>, s: seq<int>, input: seq<int>, embeddable: bool)
    requires Scanned(indices, s, input, |input|)
    requires embeddable == IsSubseq(s, input)
    requires embeddable ==> EmbedsFrom(s[|indices|..], input, |input|)
    ensures GreedyMatches(indices, s, input)
    ensures |indices| == |s| <==> IsSubseq(s, input)
  {
    if embeddable {
      EmbedsFromEnd(s[|indices|..], input);
    }
    if |indices| == |s| {
      assert s[..|indices|] == s;
    }
  }

  /**
   * The matching loop of visualizeLMIS: walks the input once and matches the
   * values of bestPath in order. It matches all of bestPath exactly when
   * bestPath is a subsequence of the input.
   */
  method MatchIndices(input: seq<int>, bestPath: seq<int>) returns (indices: seq<int>)
    ensures GreedyMatches(indices, bestPath, input)
    ensures |indices| == |bestPath| <==> IsSubseq(bestPath, input)
  {
    ghost var embeddable := IsSubseq(bestPath, input);
    ScanBegins(bestPath, input);
    var pathIndex := 0;
    indices := [];
    for index := 0 to |input|
      invariant pathIndex == |indices|
      invariant Scanned(indices, bestPath, input, index)
      invariant embeddable ==> EmbedsFrom(bestPath[pathIndex..], input, index)
    {
      if pathIndex < |bestPath| && input[index] == bestPath[pathIndex] {
        ScanMatch(indices, bestPath, input, index, embeddable);
        indices := indices + [index];
        pathIndex := pathIndex + 1;
      } else {
        ScanSkip(indices, bestPath, input, index, embeddable);
      }
    }
    ScanEnds(indices, bestPath, input, embeddable);
  }

  /**
   * startLMIS: an empty input is refused; otherwise the best is reset, the
   * tree search runs from the root and the positions of the result are
   * recovered. The result is a longest strictly increasing subsequence, the
   * first one the search reaches, and every one of its values is matched.
   */
  method StartLmis(input: seq<int>) returns (ok: bool, bestPath: seq<int>, indices: seq<int>)
    ensures ok <==> |input| > 0
    ensures !ok ==> bestPath == [] && indices == []
    ensures ok ==> bestPath == Explore(input, -1, 0, [], [])
    ensures ok ==> Longest(bestPath, input) && |bestPath| >= 1
    ensures ok ==> Embeds(indices, bestPath, input) && GreedyMatches(indices, bestPath, input)
  {
    if |input| == 0 {
      return false, [], [];
    }
    var search := new LmisSearch(input);
    search.FindLMISRecursive(-1, 0, []);
    bestPath := search.best;
    ExploreLongest(input);
    ExploreNonEmpty(input);
    indices := MatchIndices(input, bestPath);
    assert bestPath[..|indices|] == bestPath;
    ok := true;
  }
}
