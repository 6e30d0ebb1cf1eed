/**
  `get_diff` (src/diff.rs): counts the lines deleted from and added to a
  text with the forward greedy search of Myers' O(ND) algorithm, followed by
  a walk back through the recorded rounds.

  The vector `v` holds, for every diagonal k = x - y, the furthest x reached
  so far, at index k + max.  The search never clips diagonals to the grid, so
  the edit graph of module EditGraph is extended beyond (N, M).
*/
module Diff {
  import opened Subsequences
  import opened EditGraph
  import opened TextLines

  /** (deletions, additions) of a shortest edit script: every line outside a
      longest common subsequence is deleted from `a` or added from `b`. */
  function DiffCounts(a: seq<string>, b: seq<string>): (nat, nat) {
    (|a| - Lcs(a, b), |b| - Lcs(a, b))
  }

  /** `v[max + 1]`, written before the search starts, lies inside the
      `2 * max + 1` entries of `v`. */
  predicate SentinelInBounds(oldText: string, newText: string) {
    var max := |Lines(oldText)| + |Lines(newText)|;
    max + 1 < 2 * max + 1
  }

  /** Entry `i` of a vector of `2 * max + 1` entries belongs to a diagonal
      that round d of the search visits. */
  predicate OnRound(i: int, max: int, d: int) {
    -d <= i - max <= d && (i - max + d) % 2 == 0
  }

  /** The vector before the first round: -1 everywhere except the 0 at
      `max + 1` from which round 0 starts on diagonal 0. */
  function Initial(max: nat): (vs: seq<int>)
    ensures |vs| == 2 * max + 1
    ensures forall i :: 0 <= i < |vs| ==> vs[i] == if i == max + 1 then 0 else -1
  {
    seq(2 * max + 1, i => if i == max + 1 then 0 else -1)
  }

  /** Every diagonal of round d holds its furthest point of cost at most d. */
  ghost predicate RoundDone(a: seq<string>, b: seq<string>, d: int, vs: seq<int>, max: int) {
    forall i :: 0 <= i < |vs| && OnRound(i, max, d) ==> Furthest(a, b, d, i - max, vs[i])
  }

  /** Round d is under way on a copy `vs` of the vector: the diagonals of
      round d below k hold their furthest points, every other entry is still
      what it was when the round began (`prev`). */
  ghost predicate RoundUnderWay(a: seq<string>, b: seq<string>, d: int, k: int,
                                vs: seq<int>, prev: seq<int>, max: int) {
    |vs| == |prev| &&
    (forall i :: 0 <= i < |vs| && !(OnRound(i, max, d) && i - max < k) ==> vs[i] == prev[i]) &&
    (forall i :: 0 <= i < |vs| && OnRound(i, max, d) && i - max < k ==>
      Furthest(a, b, d, i - max, vs[i]))
  }

  /** Writing the furthest point of diagonal k moves the round on to k + 2. */
  lemma RoundAdvance(a: seq<string>, b: seq<string>, d: int, k: int,
                     vs: seq<int>, vs': seq<int>, prev: seq<int>, max: int, x: int)
    requires RoundUnderWay(a, b, d, k, vs, prev, max)
    requires 0 <= k + max < |vs| && OnRound(k + max, max, d)
    requires Furthest(a, b, d, k, x)
    requires vs' == vs[k + max := x]
    ensures RoundUnderWay(a, b, d, k + 2, vs', prev, max)
  {
    forall i | 0 <= i < |vs'| && OnRound(i, max, d) && i - max < k + 2
      ensures Furthest(a, b, d, i - max, vs'[i])
    {
      if i != k + max {
        assert i - max < k;
      }
    }
  }

  /** Once every diagonal of round d is written, the round is done. */
  lemma RoundFinished(a: seq<string>, b: seq<string>, d: int, k: int,
                      vs: seq<int>, prev: seq<int>, max: int)
    requires RoundUnderWay(a, b, d, k, vs, prev, max) && d < k
    ensures RoundDone(a, b, d, vs, max)
  {
  }

  /** The neighbours that round d reads were written in round d - 1. */
  lemma NeighbourOfRound(a: seq<string>, b: seq<string>, d: int, k: int, j: int,
                         vs: seq<int>, prev: seq<int>, max: int)
    requires 1 <= d && -d <= k <= d && (k + d) % 2 == 0 && (j == k - 1 || j == k + 1)
    requires -(d - 1) <= j <= d - 1 && 0 <= j + max < |vs|
    requires RoundUnderWay(a, b, d, k, vs, prev, max)
    requires RoundDone(a, b, d - 1, prev, max)
    ensures Furthest(a, b, d - 1, j, vs[j + max])
  {
    assert !OnRound(j + max, max, d);
    assert OnRound(j + max, max, d - 1);
  }

  /** `get_diff(old, new)`; the result is `(deletions, additions)`. */
  method GetDiff(oldText: string, newText: string) returns (deletions: nat, additions: nat)
    requires SentinelInBounds(oldText, newText)
    ensures (deletions, additions) == DiffCounts(Lines(oldText), Lines(newText))
  {
    var oldLines := Lines(oldText);
    var newLines := Lines(newText);
    var max := |oldLines| + |newLines|;
    var trace := ShortestEdit(oldLines, newLines);
    CostOfCorner(oldLines, newLines);
    assert |oldLines| - |newLines| + |trace| - 1 == 2 * (|oldLines| - Lcs(oldLines, newLines));
    deletions, additions := WalkBack(trace, |oldLines|, |newLines|, max);
  }

  /** The forward search of `get_diff` (src/diff.rs:8-38): one snapshot of `v`
      is recorded per round, and the search stops in the first round whose
      search reaches the corner (N, M), which is the edit distance. */
  method ShortestEdit(oldLines: seq<string>, newLines: seq<string>) returns (trace: seq<seq<int>>)
    requires |oldLines| + |newLines| >= 1
    ensures |trace| == Cost(oldLines, newLines, |oldLines|, |newLines|) + 1
    ensures forall t :: 0 <= t < |trace| ==> |trace[t]| == 2 * (|oldLines| + |newLines|) + 1
    ensures trace[0] == Initial(|oldLines| + |newLines|)
    ensures forall t :: 1 <= t < |trace| ==>
      RoundDone(oldLines, newLines, t - 1, trace[t], |oldLines| + |newLines|)
  {
    var max := |oldLines| + |newLines|;
    var v := new int[2 * max + 1](_ => -1);
    v[max + 1] := 0;
    assert v[..] == Initial(max);
    trace := [];
    CostOfCorner(oldLines, newLines);

    label shortestEdit:
    for d := 0 to max + 1
      invariant d <= Cost(oldLines, newLines, |oldLines|, |newLines|)
      invariant |trace| == d
      invariant forall t :: 0 <= t < d ==> |trace[t]| == v.Length
      invariant d == 0 ==> v[..] == Initial(max)
      invariant 1 <= d ==> trace[0] == Initial(max)
      invariant forall t :: 1 <= t < d ==> RoundDone(oldLines, newLines, t - 1, trace[t], max)
      invariant 1 <= d ==> RoundDone(oldLines, newLines, d - 1, v[..], max)
    {
      trace := trace + [v[..]];
      var reached := SearchRound(oldLines, newLines, v, d);
      if reached {
        break shortestEdit;
      }
    }
  }

  /** One round d of the forward search (src/diff.rs:19-37): every diagonal
      -d, -d + 2, ..., d gets its furthest point of cost d, until one of them
      passes the corner (N, M); that happens exactly when d is the edit
      distance. */
  method SearchRound(oldLines: seq<string>, newLines: seq<string>, v: array<int>, d: int)
      returns (reached: bool)
    requires |oldLines| + |newLines| >= 1
    requires v.Length == 2 * (|oldLines| + |newLines|) + 1
    requires 0 <= d <= Cost(oldLines, newLines, |oldLines|, |newLines|)
    requires Cost(oldLines, newLines, |oldLines|, |newLines|) <= |oldLines| + |newLines|
    requires (|oldLines| - |newLines| + Cost(oldLines, newLines, |oldLines|, |newLines|)) % 2 == 0
    requires d == 0 ==> v[|oldLines| + |newLines| + 1] == 0
    requires 1 <= d ==> RoundDone(oldLines, newLines, d - 1, v[..], |oldLines| + |newLines|)
    modifies v
    ensures reached <==> d == Cost(oldLines, newLines, |oldLines|, |newLines|)
    ensures !reached ==> RoundDone(oldLines, newLines, d, v[..], |oldLines| + |newLines|)
    ensures forall i :: 0 <= i < v.Length && !OnRound(i, |oldLines| + |newLines|, d) ==> v[i] == old(v[i])
  {
    var n, m := |oldLines|, |newLines|;
    var max := n + m;
    ghost var editDistance := Cost(oldLines, newLines, n, m);
    ghost var prev := v[..];
    var x: int, y: int;
    var k := -d;
    while k <= d
      invariant -d <= k <= d + 2 && (k + d) % 2 == 0
      invariant d == editDistance ==> k <= n - m
      invariant d == 0 ==> prev[max + 1] == 0
      invariant RoundUnderWay(oldLines, newLines, d, k, v[..], prev, max)
    {
      x := SearchDiagonal(oldLines, newLines, v, d, k, prev);
      y := x - k;
      if x >= n && y >= m {
        CornerReached(oldLines, newLines, d, k, x);
        return true;
      }
      CornerNotYet(oldLines, newLines, d, k, x);
      ParityStep(k, d);
      k := k + 2;
    }
    RoundFinished(oldLines, newLines, d, k, v[..], prev, max);
    return false;
  }

  /** The body of the inner `for` of the forward search (src/diff.rs:20-31):
      diagonal k is entered from the neighbour that reaches further (from
      k + 1 by an addition, from k - 1 by a deletion), matching lines are
      followed, and the furthest point of cost d is written back to `v`. */
  method SearchDiagonal(oldLines: seq<string>, newLines: seq<string>, v: array<int>,
                        d: int, k: int, ghost prev: seq<int>) returns (x: int)
    requires |oldLines| + |newLines| >= 1 && v.Length == 2 * (|oldLines| + |newLines|) + 1
    requires 0 <= d <= |oldLines| + |newLines| && -d <= k <= d && (k + d) % 2 == 0
    requires RoundUnderWay(oldLines, newLines, d, k, v[..], prev, |oldLines| + |newLines|)
    requires d == 0 ==> prev[|oldLines| + |newLines| + 1] == 0
    requires 1 <= d ==> RoundDone(oldLines, newLines, d - 1, prev, |oldLines| + |newLines|)
    modifies v
    ensures Furthest(oldLines, newLines, d, k, x)
    ensures RoundUnderWay(oldLines, newLines, d, k + 2, v[..], prev, |oldLines| + |newLines|)
  {
    var max := |oldLines| + |newLines|;
    x := DiagonalEnd(oldLines, newLines, v, d, k, prev);
    ghost var before := v[..];
    v[k + max] := x;
    assert v[..] == before[k + max := x];
    RoundAdvance(oldLines, newLines, d, k, before, v[..], prev, max, x);
  }

  /** The furthest point of cost d on diagonal k, before it is written. */
  method DiagonalEnd(oldLines: seq<string>, newLines: seq<string>, v: array<int>,
                     d: int, k: int, ghost prev: seq<int>) returns (x: int)
    requires |oldLines| + |newLines| >= 1 && v.Length == 2 * (|oldLines| + |newLines|) + 1
    requires 0 <= d <= |oldLines| + |newLines| && -d <= k <= d && (k + d) % 2 == 0
    requires RoundUnderWay(oldLines, newLines, d, k, v[..], prev, |oldLines| + |newLines|)
    requires d == 0 ==> prev[|oldLines| + |newLines| + 1] == 0
    requires 1 <= d ==> RoundDone(oldLines, newLines, d - 1, prev, |oldLines| + |newLines|)
    ensures Furthest(oldLines, newLines, d, k, x)
  {
    var max := |oldLines| + |newLines|;
    if k == -d || (k != d && v[k + max - 1] < v[k + max + 1]) {
      x := v[k + max + 1];
    } else {
      x := v[k + max - 1] + 1;
    }
    RoundEntry(oldLines, newLines, d, k, v[..], prev, max, x);
    x := FollowSnake(oldLines, newLines, k, x);
  }

  /** The entry rule of the forward search: diagonal k is entered from the
      neighbour of round d - 1 that reaches further, and the snake from
      there ends at the furthest point of cost d. */
  lemma RoundEntry(a: seq<string>, b: seq<string>, d: int, k: int,
                   vs: seq<int>, prev: seq<int>, max: int, x0: int)
    requires max == |a| + |b| && max >= 1 && |vs| == 2 * max + 1
    requires 0 <= d <= max && -d <= k <= d && (k + d) % 2 == 0
    requires RoundUnderWay(a, b, d, k, vs, prev, max)
    requires d == 0 ==> prev[max + 1] == 0
    requires 1 <= d ==> RoundDone(a, b, d - 1, prev, max)
    requires x0 == if k == -d || (k != d && vs[k + max - 1] < vs[k + max + 1])
                   then vs[k + max + 1] else vs[k + max - 1] + 1
    ensures 0 <= x0 && k <= x0 && Furthest(a, b, d, k, Snake(a, b, k, x0))
  {
    if 1 <= d && k != -d {
      NeighbourOfRound(a, b, d, k, k - 1, vs, prev, max);
    }
    if 1 <= d && k != d {
      NeighbourOfRound(a, b, d, k, k + 1, vs, prev, max);
    }
    if d == 0 {
      assert !OnRound(max + 1, max, 0);
    }
    var left := if k != -d then vs[k + max - 1] else 0;
    var right := if k != d then vs[k + max + 1] else 0;
    RoundStep(a, b, d, k, left, right, x0);
  }

  /** The next diagonal of a round has the round's parity too. */
  lemma ParityStep(k: int, d: int)
    requires (k + d) % 2 == 0
    ensures (k + 2 + d) % 2 == 0
  {
  }

  /** Two diagonals visited in the same round lie an even distance apart. */
  lemma SameParityGap(k: int, t: int, d: int)
    requires (k + d) % 2 == 0 && (t + d) % 2 == 0 && k < t
    ensures k + 2 <= t
  {
  }

  /** In the round of the edit distance, a diagonal below N - M whose
      furthest point stops short of the corner is followed by another one at
      most N - M. */
  lemma CornerNotYet(a: seq<string>, b: seq<string>, d: int, k: int, x: int)
    requires Furthest(a, b, d, k, x) && (k + d) % 2 == 0
    requires (|a| - |b| + Cost(a, b, |a|, |b|)) % 2 == 0
    requires d == Cost(a, b, |a|, |b|) ==> k <= |a| - |b|
    requires !(|a| <= x && |b| <= x - k)
    ensures d == Cost(a, b, |a|, |b|) ==> k + 2 <= |a| - |b|
  {
    CornerDiagonal(a, b, d, k, x);
    if d == Cost(a, b, |a|, |b|) {
      SameParityGap(k, |a| - |b|, d);
    }
  }

  /** The inner `while` of the forward search: follows matching lines along
      diagonal k from x0. */
  method FollowSnake(a: seq<string>, b: seq<string>, k: int, x0: int) returns (x: int)
    requires 0 <= x0 && k <= x0
    ensures x == Snake(a, b, k, x0)
  {
    x := x0;
    var y := x0 - k;
    while x < |a| && y < |b| && a[x] == b[y]
      invariant x0 <= x && y == x - k
      invariant Snake(a, b, k, x) == Snake(a, b, k, x0)
      decreases |a| - x
    {
      x := x + 1;
      y := y + 1;
    }
  }

  /** The backward walk of `get_diff` (src/diff.rs:40-53): from diagonal
      N - M, every recorded round but the first is undone by one step, an
      addition when it came from diagonal k + 1 and a deletion when it came
      from diagonal k - 1.  Whatever the snapshots hold, the walk must end on
      diagonal 0, so the counts are fixed by the number of rounds. */
  method WalkBack(trace: seq<seq<int>>, n: nat, m: nat, max: nat) returns (deletions: nat, additions: nat)
    requires 1 <= |trace| <= max + 1
    requires forall t :: 0 <= t < |trace| ==> |trace[t]| == 2 * max + 1
    requires -(|trace| - 1) <= n - m <= |trace| - 1 && (n - m + |trace| - 1) % 2 == 0
    ensures deletions + additions == |trace| - 1
    ensures deletions - additions == n - m
  {
    deletions, additions := 0, 0;
    var k := n - m;
    for traceIdx := |trace| downto 1
      invariant -(traceIdx - 1) <= k <= traceIdx - 1 && (k + traceIdx - 1) % 2 == 0
      invariant deletions + additions == |trace| - traceIdx
      invariant k == n - m + additions - deletions
    {
      var v := trace[traceIdx];
      if k == -traceIdx || (k != traceIdx && v[k + max - 1] < v[k + max + 1]) {
        k := k + 1;
        additions := additions + 1;
      } else {
        k := k - 1;
        deletions := deletions + 1;
      }
    }
  }

  /** Two texts with no lines at all are the only input for which the write
      of `v[max + 1]` falls outside `v`. */
  lemma SentinelInBoundsExactly(oldText: string, newText: string)
    ensures SentinelInBounds(oldText, newText) <==> oldText != "" || newText != ""
  {
  }

  /** `get_diff("", "")` indexes `v[1]` in a vector of length 1. */
  lemma EmptyTextsOutOfBounds()
    ensures !SentinelInBounds("", "")
  {
    assert Lines("") == [];
  }

  /** `get_diff` with the empty case answered before the search: two texts
      without lines differ by nothing. */
  method GetDiffTotal(oldText: string, newText: string) returns (deletions: nat, additions: nat)
    ensures (deletions, additions) == DiffCounts(Lines(oldText), Lines(newText))
    ensures oldText == "" && newText == "" ==> deletions == 0 && additions == 0
  {
    if oldText == "" && newText == "" {
      assert Lines(oldText) == [] && Lines(newText) == [];
      return 0, 0;
    }
    SentinelInBoundsExactly(oldText, newText);
    deletions, additions := GetDiff(oldText, newText);
  }

  /** A text compared with itself has no deletions and no additions. */
  lemma {:induction false} DiffOfIdentical(a: seq<string>)
    ensures DiffCounts(a, a) == (0, 0)
  {
    LcsSelf(a);
  }

  /** Appending lines only adds; dropping trailing lines only deletes. */
  lemma {:induction false} DiffOfExtension(a: seq<string>, c: seq<string>)
    ensures DiffCounts(a, a + c) == (0, |c|)
    ensures DiffCounts(a + c, a) == (|c|, 0)
  {
    LcsOfExtension(a, c);
  }

  /** The counts add up to the edit distance, at most N + M, and differ by
      the difference of the line counts. */
  lemma {:induction false} DiffBalance(a: seq<string>, b: seq<string>)
    ensures DiffCounts(a, b).0 + DiffCounts(a, b).1 == Cost(a, b, |a|, |b|) <= |a| + |b|
    ensures DiffCounts(a, b).0 - DiffCounts(a, b).1 == |a| - |b|
  {
    CostOfCorner(a, b);
  }

  /** Keeping any common subsequence of lines deletes and adds at least as
      many lines as the counts say, and some common subsequence attains
      both counts at once. */
  lemma {:induction false} DiffIsMinimal(a: seq<string>, b: seq<string>)
    ensures forall s :: IsSubsequence(s, a) && IsSubsequence(s, b) ==>
      DiffCounts(a, b).0 <= |a| - |s| && DiffCounts(a, b).1 <= |b| - |s|
    ensures exists w ::
      IsSubsequence(w, a) && IsSubsequence(w, b) && DiffCounts(a, b) == (|a| - |w|, |b| - |w|)
  {
    LcsCharacterisation(a, b);
  }

  /** "the" is replaced by "teh" and "jumps" is appended: one deletion and
      two additions. */
  lemma DiffExample()
    ensures DiffCounts(["the", "quick", "brown", "fox"], ["teh", "quick", "brown", "fox", "jumps"]) == (1, 2)
  {
    var a: seq<string> := ["the", "quick", "brown", "fox"];
    var b: seq<string> := ["teh", "quick", "brown", "fox", "jumps"];
    assert Lcs(["the"], ["teh"]) == 0 by {
      assert Init(["the"]) == [] && Init(["teh"]) == [];
    }
    assert Lcs(["the", "quick"], ["teh", "quick"]) == 1 by {
      assert Init(["the", "quick"]) == ["the"] && Init(["teh", "quick"]) == ["teh"];
    }
    assert Lcs(["the", "quick", "brown"], ["teh", "quick", "brown"]) == 2 by {
      assert Init(["the", "quick", "brown"]) == ["the", "quick"];
      assert Init(["teh", "quick", "brown"]) == ["teh", "quick"];
    }
    assert Lcs(a, b[..4]) == 3 by {
      assert Init(a) == ["the", "quick", "brown"];
      assert Init(b[..4]) == ["teh", "quick", "brown"];
    }
    assert Lcs(a, b) == 3 by {
      assert Init(b) == b[..4];
      assert Lcs(Init(a), b) <= 3;
    }
  }
}
