/**
  The edit graph behind Myers' O(ND) difference algorithm (Myers 1986).

  Point (x, y) stands for "the first x old lines have been turned into the
  first y new lines".  A step right deletes an old line, a step down adds a
  new line, and a diagonal step from (x, y) to (x + 1, y + 1) is free when
  old line x equals new line y.  Points on diagonal k satisfy x - y == k.

  The search in `get_diff` does not clip its diagonals to the grid: it may
  compute points with x > N or y > M.  `Cost` is therefore defined on the
  whole quadrant, as if both texts continued with lines that match nothing.
*/
module EditGraph {
  import opened Subsequences

  function Min(a: nat, b: nat): nat {
    if a < b then a else b
  }

  /** Least number of paid (non-diagonal) steps from (0, 0) to (x, y). */
  function Cost<T(==)>(a: seq<T>, b: seq<T>, x: nat, y: nat): (c: nat)
    ensures c >= x - y && c >= y - x
    decreases x + y
  {
    if x == 0 then y
    else if y == 0 then x
    else if x <= |a| && y <= |b| && a[x - 1] == b[y - 1] then Cost(a, b, x - 1, y - 1)
    else 1 + Min(Cost(a, b, x - 1, y), Cost(a, b, x, y - 1))
  }

  /** Cost of the point of diagonal k whose x coordinate is x. */
  function DiagCost<T(==)>(a: seq<T>, b: seq<T>, k: int, x: int): nat
    requires 0 <= x && k <= x
  {
    Cost(a, b, x, x - k)
  }

  /** The LCS recursion, read on prefixes of `a` and `b`. */
  lemma PrefixLcsStep<T>(a: seq<T>, b: seq<T>, i: nat, j: nat)
    requires 1 <= i <= |a| && 1 <= j <= |b|
    ensures Lcs(a[..i], b[..j]) ==
      if a[i - 1] == b[j - 1] then Lcs(a[..i - 1], b[..j - 1]) + 1
      else Max(Lcs(a[..i - 1], b[..j]), Lcs(a[..i], b[..j - 1]))
  {
    assert Init(a[..i]) == a[..i - 1] && Last(a[..i]) == a[i - 1];
    assert Init(b[..j]) == b[..j - 1] && Last(b[..j]) == b[j - 1];
  }

  /** Length of a longest common subsequence of the parts of `a` and `b`
      that lie before (x, y). */
  function PrefixLcs<T(==)>(a: seq<T>, b: seq<T>, x: nat, y: nat): nat {
    Lcs(a[..Min(x, |a|)], b[..Min(y, |b|)])
  }

  /** Inside the grid the cost recursion mirrors the LCS recursion. */
  lemma ClosedFormInside<T>(a: seq<T>, b: seq<T>, x: nat, y: nat)
    requires 1 <= x <= |a| && 1 <= y <= |b|
    requires a[x - 1] == b[y - 1] ==>
      Cost(a, b, x - 1, y - 1) == x + y - 2 - 2 * PrefixLcs(a, b, x - 1, y - 1)
    requires a[x - 1] != b[y - 1] ==>
      Cost(a, b, x - 1, y) == x - 1 + y - 2 * PrefixLcs(a, b, x - 1, y) &&
      Cost(a, b, x, y - 1) == x + y - 1 - 2 * PrefixLcs(a, b, x, y - 1)
    ensures Cost(a, b, x, y) == x + y - 2 * PrefixLcs(a, b, x, y)
  {
    PrefixLcsStep(a, b, x, y);
  }

  /** Right of the grid the cheaper neighbour is always the left one. */
  lemma ClosedFormRight<T>(a: seq<T>, b: seq<T>, x: nat, y: nat)
    requires |a| < x && 1 <= y
    requires Cost(a, b, x - 1, y) == x - 1 + y - 2 * PrefixLcs(a, b, x - 1, y)
    requires Cost(a, b, x, y - 1) == x + y - 1 - 2 * PrefixLcs(a, b, x, y - 1)
    ensures Cost(a, b, x, y) == x + y - 2 * PrefixLcs(a, b, x, y)
  {
    if y <= |b| {
      PrefixesRight(a, b, x, y);
      assert Init(b[..y]) == b[..y - 1];
      LcsSteps(a, b[..y]);
    }
  }

  /** Right of the grid the prefixes of `a` are all of `a`. */
  lemma PrefixesRight<T>(a: seq<T>, b: seq<T>, x: nat, y: nat)
    requires |a| < x && 1 <= y <= |b|
    ensures PrefixLcs(a, b, x, y) == Lcs(a, b[..y])
    ensures PrefixLcs(a, b, x - 1, y) == Lcs(a, b[..y])
    ensures PrefixLcs(a, b, x, y - 1) == Lcs(a, b[..y - 1])
  {
    assert a[..|a|] == a;
  }

  /** Below the grid the cheaper neighbour is always the upper one. */
  lemma ClosedFormBelow<T>(a: seq<T>, b: seq<T>, x: nat, y: nat)
    requires 1 <= x <= |a| && |b| < y
    requires Cost(a, b, x - 1, y) == x - 1 + y - 2 * PrefixLcs(a, b, x - 1, y)
    requires Cost(a, b, x, y - 1) == x + y - 1 - 2 * PrefixLcs(a, b, x, y - 1)
    ensures Cost(a, b, x, y) == x + y - 2 * PrefixLcs(a, b, x, y)
  {
    PrefixesBelow(a, b, x, y);
    assert Init(a[..x]) == a[..x - 1];
    LcsSteps(a[..x], b);
  }

  /** Below the grid the prefixes of `b` are all of `b`. */
  lemma PrefixesBelow<T>(a: seq<T>, b: seq<T>, x: nat, y: nat)
    requires 1 <= x <= |a| && |b| < y
    ensures PrefixLcs(a, b, x, y) == Lcs(a[..x], b)
    ensures PrefixLcs(a, b, x, y - 1) == Lcs(a[..x], b)
    ensures PrefixLcs(a, b, x - 1, y) == Lcs(a[..x - 1], b)
  {
    assert b[..|b|] == b;
  }

  /** Every path to (x, y) pays for the lines outside a longest common
      subsequence of the two prefixes (and for every step beyond the grid). */
  lemma {:induction false} CostClosedForm<T>(a: seq<T>, b: seq<T>, x: nat, y: nat)
    ensures Cost(a, b, x, y) == x + y - 2 * PrefixLcs(a, b, x, y)
    decreases x + y
  {
    if x == 0 || y == 0 {
      assert a[..0] == [] && b[..0] == [];
    } else if x <= |a| && y <= |b| && a[x - 1] == b[y - 1] {
      CostClosedForm(a, b, x - 1, y - 1);
      ClosedFormInside(a, b, x, y);
    } else {
      CostClosedForm(a, b, x - 1, y);
      CostClosedForm(a, b, x, y - 1);
      ClosedFormPaid(a, b, x, y);
    }
  }

  /** Where the last step is paid, the closed form carries over from the
      two neighbours, inside the grid or beyond it. */
  lemma ClosedFormPaid<T>(a: seq<T>, b: seq<T>, x: nat, y: nat)
    requires 1 <= x && 1 <= y && !(x <= |a| && y <= |b| && a[x - 1] == b[y - 1])
    requires Cost(a, b, x - 1, y) == x - 1 + y - 2 * PrefixLcs(a, b, x - 1, y)
    requires Cost(a, b, x, y - 1) == x + y - 1 - 2 * PrefixLcs(a, b, x, y - 1)
    ensures Cost(a, b, x, y) == x + y - 2 * PrefixLcs(a, b, x, y)
  {
    if x <= |a| && y <= |b| {
      ClosedFormInside(a, b, x, y);
    } else if |a| < x {
      ClosedFormRight(a, b, x, y);
    } else {
      ClosedFormBelow(a, b, x, y);
    }
  }

  /** The whole grid: reaching (N, M) costs N + M - 2 * LCS. */
  lemma CostOfCorner<T>(a: seq<T>, b: seq<T>)
    ensures Cost(a, b, |a|, |b|) == |a| + |b| - 2 * Lcs(a, b)
  {
    CostClosedForm(a, b, |a|, |b|);
    assert a[..|a|] == a && b[..|b|] == b;
  }

  /** One step down costs at most one. */
  lemma CostDown<T>(a: seq<T>, b: seq<T>, x: nat, y: nat)
    ensures Cost(a, b, x, y + 1) <= Cost(a, b, x, y) + 1
  {
    CostClosedForm(a, b, x, y);
    CostClosedForm(a, b, x, y + 1);
    if y < |b| {
      assert Init(b[..y + 1]) == b[..y];
      LcsSteps(a[..Min(x, |a|)], b[..y + 1]);
    }
  }

  /** One step right costs at most one. */
  lemma CostRight<T>(a: seq<T>, b: seq<T>, x: nat, y: nat)
    ensures Cost(a, b, x + 1, y) <= Cost(a, b, x, y) + 1
  {
    CostClosedForm(a, b, x, y);
    CostClosedForm(a, b, x + 1, y);
    if x < |a| {
      assert Init(a[..x + 1]) == a[..x];
      LcsSteps(a[..x + 1], b[..Min(y, |b|)]);
    }
  }

  /** A diagonal step over two equal lines is free. */
  lemma CostMatch<T>(a: seq<T>, b: seq<T>, x: nat, y: nat)
    requires x < |a| && y < |b| && a[x] == b[y]
    ensures Cost(a, b, x + 1, y + 1) == Cost(a, b, x, y)
  {
  }

  /** A point not entered by a free diagonal step is entered from its left or
      upper neighbour, which is one cheaper. */
  lemma CostSplit<T>(a: seq<T>, b: seq<T>, x: nat, y: nat)
    requires 1 <= x && 1 <= y
    requires !(x <= |a| && y <= |b| && a[x - 1] == b[y - 1])
    ensures Cost(a, b, x - 1, y) < Cost(a, b, x, y) || Cost(a, b, x, y - 1) < Cost(a, b, x, y)
  {
  }

  /** Beyond the corner every step is a paid step. */
  lemma CostBeyondCorner<T>(a: seq<T>, b: seq<T>, x: nat, y: nat)
    requires |a| <= x && |b| <= y
    ensures Cost(a, b, x, y) == Cost(a, b, |a|, |b|) + (x - |a|) + (y - |b|)
  {
    CostClosedForm(a, b, x, y);
    CostClosedForm(a, b, |a|, |b|);
  }

  /** Follows equal lines along diagonal k from x: the "snake" of the search. */
  function Snake<T(==)>(a: seq<T>, b: seq<T>, k: int, x: int): (s: int)
    requires 0 <= x && k <= x
    ensures x <= s
    ensures DiagCost(a, b, k, s) == DiagCost(a, b, k, x)
    ensures !(s < |a| && s - k < |b| && a[s] == b[s - k])
    decreases |a| - x
  {
    if x < |a| && x - k < |b| && a[x] == b[x - k] then
      CostMatch(a, b, x, x - k);
      Snake(a, b, k, x + 1)
    else
      x
  }

  /** x is the furthest point of diagonal k that costs at most d. */
  ghost predicate Furthest<T>(a: seq<T>, b: seq<T>, d: int, k: int, x: int) {
    0 <= x && k <= x && DiagCost(a, b, k, x) <= d &&
    forall x' :: x < x' ==> DiagCost(a, b, k, x') > d
  }

  /** A point of diagonal k that costs at most d lies at or before x when x
      is the furthest such point. */
  lemma FurthestBound<T>(a: seq<T>, b: seq<T>, d: int, k: int, x: int, x': int)
    requires Furthest(a, b, d, k, x)
    requires 0 <= x' && k <= x' && DiagCost(a, b, k, x') <= d
    ensures x' <= x
  {
  }

  /** A point of diagonal k that costs at most d and is entered by a paid
      step comes from a furthest point of round d - 1, so it lies at or
      before x0. */
  lemma PaidEntry<T>(a: seq<T>, b: seq<T>, d: int, k: int,
                     left: int, right: int, x0: int, x: int)
    requires 0 <= d && -d <= k <= d
    requires 1 <= d && k != -d ==> Furthest(a, b, d - 1, k - 1, left) && left + 1 <= x0
    requires 1 <= d && k != d ==> Furthest(a, b, d - 1, k + 1, right) && right <= x0
    requires 1 <= x && k + 1 <= x && DiagCost(a, b, k, x) <= d
    requires !(x <= |a| && x - k <= |b| && a[x - 1] == b[x - k - 1])
    ensures x <= x0
  {
    var y := x - k;
    CostSplit(a, b, x, y);
    if Cost(a, b, x - 1, y) < Cost(a, b, x, y) {
      if k != -d {
        FurthestBound(a, b, d - 1, k - 1, left, x - 1);
      }
    } else {
      if k != d {
        FurthestBound(a, b, d - 1, k + 1, right, x);
      }
    }
  }

  /** Every point of diagonal k that costs at most d lies at or before the
      snake started from x0, provided x0 is at least as far as both
      neighbouring furthest points of round d - 1 allow. */
  lemma {:induction false} Reach<T>(a: seq<T>, b: seq<T>, d: int, k: int,
                                    left: int, right: int, x0: int, x: int)
    requires 0 <= d && -d <= k <= d && 0 <= x0 && k <= x0
    requires 1 <= d && k != -d ==> Furthest(a, b, d - 1, k - 1, left) && left + 1 <= x0
    requires 1 <= d && k != d ==> Furthest(a, b, d - 1, k + 1, right) && right <= x0
    requires 0 <= x && k <= x && DiagCost(a, b, k, x) <= d
    ensures x <= Snake(a, b, k, x0)
    decreases x
  {
    if x > x0 {
      var y := x - k;
      if x <= |a| && y <= |b| && a[x - 1] == b[y - 1] {
        CostMatch(a, b, x - 1, y - 1);
        Reach(a, b, d, k, left, right, x0, x - 1);
      } else {
        PaidEntry(a, b, d, k, left, right, x0, x);
      }
    }
  }

  /** One step of the forward search: the point chosen from the neighbours of
      round d - 1 and slid down its snake is the furthest point of diagonal k
      in round d.  In round 0 the search starts from the sentinel 0. */
  lemma RoundStep<T>(a: seq<T>, b: seq<T>, d: int, k: int, left: int, right: int, x0: int)
    requires 0 <= d && -d <= k <= d
    requires d == 0 ==> x0 == 0
    requires 1 <= d && k != -d ==> Furthest(a, b, d - 1, k - 1, left) && left + 1 <= x0
    requires 1 <= d && k != d ==> Furthest(a, b, d - 1, k + 1, right) && right <= x0
    requires 1 <= d ==> (k != -d && x0 == left + 1) || (k != d && x0 == right)
    ensures 0 <= x0 && k <= x0
    ensures Furthest(a, b, d, k, Snake(a, b, k, x0))
  {
    EntryCost(a, b, d, k, left, right, x0);
    var s := Snake(a, b, k, x0);
    forall x' | s < x' ensures DiagCost(a, b, k, x') > d {
      if DiagCost(a, b, k, x') <= d {
        Reach(a, b, d, k, left, right, x0, x');
      }
    }
  }

  /** The point a round enters diagonal k at costs at most d: one paid step
      from a furthest point of round d - 1. */
  lemma EntryCost<T>(a: seq<T>, b: seq<T>, d: int, k: int, left: int, right: int, x0: int)
    requires 0 <= d && -d <= k <= d
    requires d == 0 ==> x0 == 0
    requires 1 <= d && k != -d ==> Furthest(a, b, d - 1, k - 1, left) && left + 1 <= x0
    requires 1 <= d && k != d ==> Furthest(a, b, d - 1, k + 1, right) && right <= x0
    requires 1 <= d ==> (k != -d && x0 == left + 1) || (k != d && x0 == right)
    ensures 0 <= x0 && k <= x0 && DiagCost(a, b, k, x0) <= d
  {
    if d == 0 {
    } else if k != -d && x0 == left + 1 {
      CostRight(a, b, left, left - (k - 1));
    } else {
      CostDown(a, b, right, right - (k + 1));
    }
  }

  /** The first round whose search reaches the corner is the edit distance. */
  lemma CornerReached<T>(a: seq<T>, b: seq<T>, d: int, k: int, x: int)
    requires Furthest(a, b, d, k, x) && |a| <= x && |b| <= x - k
    ensures Cost(a, b, |a|, |b|) <= d
  {
    CostBeyondCorner(a, b, x, x - k);
  }

  /** From round Cost(N, M) on, the furthest point of diagonal N - M is past
      the corner. */
  lemma CornerDiagonal<T>(a: seq<T>, b: seq<T>, d: int, k: int, x: int)
    requires Furthest(a, b, d, k, x)
    ensures Cost(a, b, |a|, |b|) <= d && k == |a| - |b| ==> |a| <= x && |b| <= x - k
  {
    if Cost(a, b, |a|, |b|) <= d && k == |a| - |b| {
      FurthestBound(a, b, d, k, x, |a|);
    }
  }
}
