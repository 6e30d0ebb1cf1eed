/**
  Longest common subsequence of two line sequences: the specification that
  the line diff is proved against.
*/
module Subsequences {

  function Init<T>(s: seq<T>): seq<T>
    requires |s| > 0
  {
    s[..|s| - 1]
  }

  function Last<T>(s: seq<T>): T
    requires |s| > 0
  {
    s[|s| - 1]
  }

  function Max(a: int, b: int): int {
    if a < b then b else a
  }

  /** `s` can be obtained from `a` by deleting elements: either the last
      element of `a` supplies the last element of `s`, or it is not used. */
  predicate IsSubsequence<T(==)>(s: seq<T>, a: seq<T>)
    decreases |a|
  {
    |s| == 0 ||
    (|a| > 0 &&
      ((Last(s) == Last(a) && IsSubsequence(Init(s), Init(a))) || IsSubsequence(s, Init(a))))
  }

  /** Length of a longest common subsequence of `a` and `b`. */
  function Lcs<T(==)>(a: seq<T>, b: seq<T>): (r: nat)
    ensures r <= |a| && r <= |b|
    decreases |a| + |b|
  {
    if |a| == 0 || |b| == 0 then 0
    else if Last(a) == Last(b) then Lcs(Init(a), Init(b)) + 1
    else Max(Lcs(Init(a), b), Lcs(a, Init(b)))
  }

  /** A common subsequence that realises `Lcs(a, b)`. */
  function CommonWitness<T(==)>(a: seq<T>, b: seq<T>): (w: seq<T>)
    ensures |w| == Lcs(a, b)
    ensures IsSubsequence(w, a) && IsSubsequence(w, b)
    decreases |a| + |b|
  {
    if |a| == 0 || |b| == 0 then []
    else if Last(a) == Last(b) then
      var w := CommonWitness(Init(a), Init(b)) + [Last(a)];
      assert Init(w) == CommonWitness(Init(a), Init(b));
      w
    else if Lcs(Init(a), b) >= Lcs(a, Init(b)) then
      var w := CommonWitness(Init(a), b);
      assert IsSubsequence(w, a) by { SubsequenceOfLonger(w, a); }
      w
    else
      var w := CommonWitness(a, Init(b));
      assert IsSubsequence(w, b) by { SubsequenceOfLonger(w, b); }
      w
  }

  lemma SubsequenceOfLonger<T>(s: seq<T>, a: seq<T>)
    requires |a| > 0 && IsSubsequence(s, Init(a))
    ensures IsSubsequence(s, a)
  {
  }

  /** Dropping the last element of either side lowers the LCS by at most one
      and never raises it. */
  lemma {:induction false} LcsSteps<T>(a: seq<T>, b: seq<T>)
    ensures |a| > 0 ==> Lcs(Init(a), b) <= Lcs(a, b) <= Lcs(Init(a), b) + 1
    ensures |b| > 0 ==> Lcs(a, Init(b)) <= Lcs(a, b) <= Lcs(a, Init(b)) + 1
    decreases |a| + |b|
  {
    if |a| > 0 && |b| > 0 {
      LcsSteps(Init(a), b);
      LcsSteps(a, Init(b));
    }
  }

  /** No common subsequence is longer than `Lcs(a, b)`. */
  lemma {:induction false} LcsIsLongest<T>(s: seq<T>, a: seq<T>, b: seq<T>)
    requires IsSubsequence(s, a) && IsSubsequence(s, b)
    ensures |s| <= Lcs(a, b)
    decreases |a| + |b|
  {
    if |s| > 0 {
      assert |a| > 0 && |b| > 0;
      LcsSteps(a, b);
      if IsSubsequence(s, Init(a)) {
        LcsIsLongest(s, Init(a), b);
      } else if IsSubsequence(s, Init(b)) {
        LcsIsLongest(s, a, Init(b));
      } else {
        LcsIsLongest(Init(s), Init(a), Init(b));
      }
    }
  }

  /** `Lcs(a, b)` is exactly the greatest length of a common subsequence. */
  lemma LcsCharacterisation<T>(a: seq<T>, b: seq<T>)
    ensures exists w :: IsSubsequence(w, a) && IsSubsequence(w, b) && |w| == Lcs(a, b)
    ensures forall s :: IsSubsequence(s, a) && IsSubsequence(s, b) ==> |s| <= Lcs(a, b)
  {
    var w := CommonWitness(a, b);
    forall s | IsSubsequence(s, a) && IsSubsequence(s, b) ensures |s| <= Lcs(a, b) {
      LcsIsLongest(s, a, b);
    }
  }

  /** A sequence shares all of itself with itself. */
  lemma {:induction false} LcsSelf<T>(a: seq<T>)
    ensures Lcs(a, a) == |a|
    decreases |a|
  {
    if |a| > 0 {
      LcsSelf(Init(a));
    }
  }

  /** Appending to `b` never lowers the LCS. */
  lemma {:induction false} LcsGrowsRight<T>(a: seq<T>, b: seq<T>, c: seq<T>)
    ensures Lcs(a, b) <= Lcs(a, b + c)
    decreases |c|
  {
    if |c| == 0 {
      assert b + c == b;
    } else {
      assert Init(b + c) == b + Init(c);
      LcsSteps(a, b + c);
      LcsGrowsRight(a, b, Init(c));
    }
  }

  /** Appending to `a` never lowers the LCS. */
  lemma {:induction false} LcsGrowsLeft<T>(a: seq<T>, b: seq<T>, c: seq<T>)
    ensures Lcs(a, b) <= Lcs(a + c, b)
    decreases |c|
  {
    if |c| == 0 {
      assert a + c == a;
    } else {
      assert Init(a + c) == a + Init(c);
      LcsSteps(a + c, b);
      LcsGrowsLeft(a, b, Init(c));
    }
  }

  /** A sequence and any extension of it share the whole of the shorter one. */
  lemma LcsOfExtension<T>(a: seq<T>, c: seq<T>)
    ensures Lcs(a, a + c) == |a|
    ensures Lcs(a + c, a) == |a|
  {
    LcsSelf(a);
    LcsGrowsRight(a, a, c);
    LcsGrowsLeft(a, a, c);
  }
}
