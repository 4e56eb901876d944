// The string cost functions used to pair sheet names (diff/list/Evaluators.java).

module Evaluators {
  import opened Wrappers
  import opened Pairs
  import opened JavaLists
  import JavaText
  import SequentialCorrelation
  import Correlators

  /** `stringGapEvaluator`: `String.length`, which counts UTF-16 code units. */
  const StringGapEvaluator: string -> int := s => JavaText.Length(s)

  /** The gap cost of one code point inside `stringDiffEvaluator`. */
  function CodePointGap(cp: int): int {
    1
  }

  /** The diff cost of two code points inside `stringDiffEvaluator`. */
  function CodePointDiff(x: int, y: int): int {
    if x == y then 0 else INT_MAX
  }

  /** The order-preserving alignment problem `stringDiffEvaluator` solves. */
  function DiffProblem(s1: string, s2: string): SequentialCorrelation.Problem<int> {
    SequentialCorrelation.Problem(JavaText.CodePoints(s1), JavaText.CodePoints(s2), CodePointGap, CodePointDiff)
  }

  /** The number of entries that are not paired. */
  function Unpaired(r: seq<Pair<int>>): nat {
    if r == [] then 0 else Unpaired(r[..|r| - 1]) + (if r[|r| - 1].IsPaired() then 0 else 1)
  }

  /** What `stringDiffEvaluator` returns for two non-null strings. */
  function StringDiffValue(s1: string, s2: string): nat {
    Unpaired(SequentialCorrelation.Correlation(DiffProblem(s1, s2)))
  }

  /** `stringDiffEvaluator` as the diff function a correlator is given; its arguments are never null. */
  const StringDiffEvaluator: (string, string) -> int := (s1, s2) => StringDiffValue(s1, s2)

  /**
   * `stringDiffEvaluator`: NullPointer for a null argument; otherwise the code points of both
   * strings are aligned in order and the unpaired entries are counted. The two code-point
   * lists are freshly built, so the same-instance guard of `correlate` never fires, not even
   * for two equal strings.
   */
  method StringDiff(str1: Option<string>, str2: Option<string>) returns (r: Result<int>)
    ensures str1.None? || str2.None? ==> r == Err(NullPointer)
    ensures str1.Some? && str2.Some? ==> r == Ok(StringDiffValue(str1.value, str2.value))
  {
    if str1.None? || str2.None? {
      return Err(NullPointer);
    }
    var list1 := new JList(JavaText.CodePoints(str1.value));
    var list2 := new JList(JavaText.CodePoints(str2.value));
    var correlator := Correlators.ConsideringGaps(Some(CodePointGap), Some(CodePointDiff));
    var pairs := Correlators.Correlate(correlator.value, list1, list2);
    r := Ok(Unpaired(pairs.value));
  }

  // ---------------------------------------------------------------------------------------
  // Two reference alignments.

  /** Every code point paired with the one at the same position. */
  function Diagonal(n: nat): (r: seq<Pair<int>>)
    ensures |r| == n && forall k :: 0 <= k < n ==> r[k] == Pair(Some(k), Some(k))
  {
    seq(n, k => Pair(Some(k), Some(k)))
  }

  /** Nothing paired: all of A, then all of B, one-sided. */
  function AllGaps(i: nat, j: nat): seq<Pair<int>>
    decreases i + j
  {
    if j > 0 then AllGaps(i, j - 1) + [Pair(None, Some(j - 1))]
    else if i > 0 then AllGaps(i - 1, 0) + [Pair(Some(i - 1), None)]
    else []
  }

  lemma {:induction false} DiagonalIsFree(s: string, n: nat)
    requires n <= |s|
    ensures SequentialCorrelation.IsAlignment(Diagonal(n), n, n)
    ensures SequentialCorrelation.Cost(DiffProblem(s, s), Diagonal(n)) == 0
  {
    if n > 0 {
      assert Diagonal(n)[..n - 1] == Diagonal(n - 1);
      DiagonalIsFree(s, n - 1);
    }
  }

  lemma {:induction false} AllGapsIsAlignment(i: nat, j: nat)
    ensures SequentialCorrelation.IsAlignment(AllGaps(i, j), i, j)
    decreases i + j
  {
    var r := AllGaps(i, j);
    if j > 0 {
      AllGapsIsAlignment(i, j - 1);
      assert r[..|r| - 1] == AllGaps(i, j - 1);
    } else if i > 0 {
      AllGapsIsAlignment(i - 1, 0);
      assert r[..|r| - 1] == AllGaps(i - 1, 0);
    }
  }

  lemma {:induction false} AllGapsCost(s1: string, s2: string, i: nat, j: nat)
    requires i <= |s1| && j <= |s2|
    ensures SequentialCorrelation.Cost(DiffProblem(s1, s2), AllGaps(i, j)) == i + j
    decreases i + j
  {
    var p := DiffProblem(s1, s2);
    var r := AllGaps(i, j);
    if j > 0 {
      AllGapsCost(s1, s2, i, j - 1);
      assert r[..|r| - 1] == AllGaps(i, j - 1);
      assert SequentialCorrelation.EntryCost(p, r[|r| - 1]) == 1;
    } else if i > 0 {
      AllGapsCost(s1, s2, i - 1, 0);
      assert r[..|r| - 1] == AllGaps(i - 1, 0);
      assert SequentialCorrelation.EntryCost(p, r[|r| - 1]) == 1;
    }
  }

  /** Every entry of `r` that pairs two code points pairs equal ones. */
  predicate PairsOnlyEqual(s1: string, s2: string, r: seq<Pair<int>>)
  {
    forall k :: 0 <= k < |r| && r[k].IsPaired() && 0 <= r[k].a.value < |s1| && 0 <= r[k].b.value < |s2| ==>
      s1[r[k].a.value] == s2[r[k].b.value]
  }

  /**
   * In this problem every one-sided entry costs 1 and every pair costs 0 or more, and exactly 0
   * when its code points are equal.
   */
  lemma {:induction false} UnpairedAndCost(s1: string, s2: string, r: seq<Pair<int>>, i: nat, j: nat)
    requires i <= |s1| && j <= |s2| && SequentialCorrelation.IsAlignment(r, i, j)
    ensures Unpaired(r) <= SequentialCorrelation.Cost(DiffProblem(s1, s2), r)
    ensures PairsOnlyEqual(s1, s2, r) ==> Unpaired(r) == SequentialCorrelation.Cost(DiffProblem(s1, s2), r)
    decreases |r|
  {
    if r != [] {
      var e, rest := r[|r| - 1], r[..|r| - 1];
      SequentialCorrelation.AlignmentIndices(r, i, j);
      if i > 0 && j > 0 && e == Pair(Some(i - 1), Some(j - 1)) && SequentialCorrelation.IsAlignment(rest, i - 1, j - 1) {
        UnpairedAndCost(s1, s2, rest, i - 1, j - 1);
      } else if i > 0 && e == Pair(Some(i - 1), None) && SequentialCorrelation.IsAlignment(rest, i - 1, j) {
        UnpairedAndCost(s1, s2, rest, i - 1, j);
      } else {
        UnpairedAndCost(s1, s2, rest, i, j - 1);
      }
      assert forall k :: 0 <= k < |rest| ==> rest[k] == r[k];
    }
  }

  // ---------------------------------------------------------------------------------------
  // What `stringDiffEvaluator` guarantees.

  /** Identical strings cost nothing. */
  lemma StringDiffIdentical(s: string)
    ensures StringDiffValue(s, s) == 0
  {
    var p := DiffProblem(s, s);
    DiagonalIsFree(s, |s|);
    SequentialCorrelation.CorrelationIsOptimal(p, Diagonal(|s|));
    UnpairedAndCost(s, s, SequentialCorrelation.Correlation(p), |s|, |s|);
  }

  /** The result is at most the code-point counts of the two strings together. */
  lemma StringDiffBound(s1: string, s2: string)
    ensures StringDiffValue(s1, s2) <= |JavaText.CodePoints(s1)| + |JavaText.CodePoints(s2)|
  {
    var p := DiffProblem(s1, s2);
    AllGapsIsAlignment(|s1|, |s2|);
    AllGapsCost(s1, s2, |s1|, |s2|);
    SequentialCorrelation.CorrelationIsOptimal(p, AllGaps(|s1|, |s2|));
    UnpairedAndCost(s1, s2, SequentialCorrelation.Correlation(p), |s1|, |s2|);
  }

  /**
   * No order-preserving alignment that pairs only equal code points leaves fewer code points
   * unpaired: the result is a lower bound of the insert/delete edit distance's witnesses.
   */
  lemma StringDiffIsMinimal(s1: string, s2: string, r: seq<Pair<int>>)
    requires SequentialCorrelation.IsAlignment(r, |s1|, |s2|)
    requires PairsOnlyEqual(s1, s2, r)
    ensures StringDiffValue(s1, s2) <= Unpaired(r)
  {
    var p := DiffProblem(s1, s2);
    SequentialCorrelation.CorrelationIsOptimal(p, r);
    UnpairedAndCost(s1, s2, r, |s1|, |s2|);
    UnpairedAndCost(s1, s2, SequentialCorrelation.Correlation(p), |s1|, |s2|);
  }
}
