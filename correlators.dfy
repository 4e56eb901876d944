// The `Correlator` interface (list/Correlator.java) and its two factories. The interface has
// exactly two implementations, so it is a datatype with one variant per implementation and
// `correlate` dispatches on the variant.

module Correlators {
  import opened Wrappers
  import opened Pairs
  import opened JavaLists
  import SequentialCorrelation
  import ShufflingCorrelation

  datatype Correlator<!T> =
    | Sequential(sequential: SequentialCorrelation.SequentialCorrelator<T>)
    | Shuffling(shuffling: ShufflingCorrelation.ShufflingCorrelator<T>)

  /** `withShuffling`: the greedy, order-agnostic correlator; a null evaluator is NullPointer. */
  function WithShuffling<T>(gap: Option<T -> int>, diff: Option<(T, T) -> int>): (r: Result<Correlator<T>>)
    ensures r.Ok? <==> gap.Some? && diff.Some?
    ensures r.Err? ==> r.error == NullPointer
    ensures r.Ok? ==> r.value.Shuffling? && r.value.shuffling.gap == gap.value && r.value.shuffling.diff == diff.value
  {
    var c :- ShufflingCorrelation.NewShufflingCorrelator(gap, diff);
    Ok(Shuffling(c))
  }

  /** `consideringGaps`: the order-preserving correlator; a null evaluator is NullPointer. */
  function ConsideringGaps<T>(gap: Option<T -> int>, diff: Option<(T, T) -> int>): (r: Result<Correlator<T>>)
    ensures r.Ok? <==> gap.Some? && diff.Some?
    ensures r.Err? ==> r.error == NullPointer
    ensures r.Ok? ==> r.value.Sequential? && r.value.sequential.gap == gap.value && r.value.sequential.diff == diff.value
  {
    var c :- SequentialCorrelation.NewSequentialCorrelator(gap, diff);
    Ok(Sequential(c))
  }

  /** What `correlate` returns for two distinct, non-null lists with these elements. */
  function Correlation<T>(c: Correlator<T>, A: seq<T>, B: seq<T>): seq<Pair<int>>
  {
    match c
    case Sequential(s) => SequentialCorrelation.Correlation(SequentialCorrelation.Problem(A, B, s.gap, s.diff))
    case Shuffling(s) => ShufflingCorrelation.GreedyCorrelation(ShufflingCorrelation.Problem(A, B, s.gap, s.diff))
  }

  /** `correlate`, dispatched to the implementation. */
  method Correlate<T>(c: Correlator<T>, listA: JList?<T>, listB: JList?<T>) returns (r: Result<seq<Pair<int>>>)
    ensures listA == null || listB == null ==> r == Err(NullPointer)
    ensures listA != null && listB != null && listA == listB ==> r == Err(IllegalArgument)
    ensures listA != null && listB != null && listA != listB ==> r == Ok(Correlation(c, listA.elems, listB.elems))
  {
    match c
    case Sequential(s) =>
      r := SequentialCorrelation.Correlate(s, listA, listB);
    case Shuffling(s) =>
      r := ShufflingCorrelation.Correlate(s, listA, listB);
  }

  /**
   * What both implementations promise: every index of A, and every index of B, appears in
   * exactly one entry of the result.
   */
  lemma CorrelationPartitions<T>(c: Correlator<T>, A: seq<T>, B: seq<T>)
    ensures multiset(SequentialCorrelation.AIndices(Correlation(c, A, B))) == multiset(SequentialCorrelation.Range(|A|))
    ensures multiset(SequentialCorrelation.BIndices(Correlation(c, A, B))) == multiset(SequentialCorrelation.Range(|B|))
  {
    match c
    case Sequential(s) =>
      SequentialCorrelation.CorrelationPartitions(SequentialCorrelation.Problem(A, B, s.gap, s.diff));
    case Shuffling(s) =>
      ShufflingCorrelation.GreedyPartitions(ShufflingCorrelation.Problem(A, B, s.gap, s.diff));
  }
}
