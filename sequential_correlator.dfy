/**
 * The order-preserving correlator (list/SequentialCorrelator.java): an edit-distance dynamic
 * program over a cost table, an accumulated-cost table and a direction table, followed by a
 * backtrack from (n, m) to (0, 0) that lists the aligned index pairs.
 */
module SequentialCorrelation {
  import opened Wrappers
  import opened Pairs
  import opened JavaLists

  /** The two lists and the two evaluators of one `correlate` call. */
  datatype Problem<!T> = Problem(A: seq<T>, B: seq<T>, gap: T -> int, diff: (T, T) -> int)

  /** The direction a cell of the table is best reached from. */
  datatype ComeFrom = UpperLeft | Upper | Left

  /** An interior cell: the best of the three candidates, ties going to diagonal, then left, then up. */
  function Choose(diag: int, left: int, up: int): (r: (int, ComeFrom))
    ensures r.0 <= diag && r.0 <= left && r.0 <= up
    ensures r.0 == diag || r.0 == left || r.0 == up
    ensures r.1 == UpperLeft <==> diag <= left && diag <= up
    ensures r.1 == Left <==> left < diag && left <= up
    ensures r.1 == Upper <==> up < diag && up < left
    ensures r.1 == UpperLeft ==> r.0 == diag
    ensures r.1 == Left ==> r.0 == left
    ensures r.1 == Upper ==> r.0 == up
  {
    var (c1, d1) := (diag, UpperLeft);
    var (c2, d2) := if left < c1 then (left, Left) else (c1, d1);
    if up < c2 then (up, Upper) else (c2, d2)
  }

  /** The cost of reaching cell (i, j) from (0, 0): the value the accumulated-cost table holds. */
  function Acc<T>(p: Problem<T>, i: nat, j: nat): int
    requires i <= |p.A| && j <= |p.B|
    decreases i + j
  {
    if i == 0 && j == 0 then 0
    else if j == 0 then Acc(p, i - 1, 0) + p.gap(p.A[i - 1])
    else if i == 0 then Acc(p, 0, j - 1) + p.gap(p.B[j - 1])
    else Step(p, i, j).0
  }

  /** The candidates of interior cell (i, j) and the choice among them. */
  function Step<T>(p: Problem<T>, i: nat, j: nat): (int, ComeFrom)
    requires 1 <= i <= |p.A| && 1 <= j <= |p.B|
    decreases i + j, 0
  {
    Choose(Acc(p, i - 1, j - 1) + p.diff(p.A[i - 1], p.B[j - 1]),
           Acc(p, i, j - 1) + p.gap(p.B[j - 1]),
           Acc(p, i - 1, j) + p.gap(p.A[i - 1]))
  }

  /** The direction table: Upper down the first column, Left along the first row. */
  function Dir<T>(p: Problem<T>, i: nat, j: nat): ComeFrom
    requires i <= |p.A| && j <= |p.B| && (i > 0 || j > 0)
  {
    if j == 0 then Upper else if i == 0 then Left else Step(p, i, j).1
  }

  /** The backtracked route from (i, j) to (0, 0), in forward order. */
  function Route<T>(p: Problem<T>, i: nat, j: nat): seq<Pair<int>>
    requires i <= |p.A| && j <= |p.B|
    decreases i + j
  {
    if i == 0 && j == 0 then []
    else
      match Dir(p, i, j)
      case UpperLeft => Route(p, i - 1, j - 1) + [Pair(Some(i - 1), Some(j - 1))]
      case Upper => Route(p, i - 1, j) + [Pair(Some(i - 1), None)]
      case Left => Route(p, i, j - 1) + [Pair(None, Some(j - 1))]
  }

  /** The result of `correlate` on the two lists. */
  function Correlation<T>(p: Problem<T>): seq<Pair<int>>
  {
    Route(p, |p.A|, |p.B|)
  }

  // ---------------------------------------------------------------------------------------
  // Alignments and their cost.

  /**
   * `r` aligns the first `i` elements of A with the first `j` of B in order: each entry takes
   * the next element of A, of B, or of both.
   */
  predicate IsAlignment(r: seq<Pair<int>>, i: nat, j: nat)
    decreases |r|
  {
    if r == [] then i == 0 && j == 0
    else
      var e, rest := r[|r| - 1], r[..|r| - 1];
      (i > 0 && j > 0 && e == Pair(Some(i - 1), Some(j - 1)) && IsAlignment(rest, i - 1, j - 1))
      || (i > 0 && e == Pair(Some(i - 1), None) && IsAlignment(rest, i - 1, j))
      || (j > 0 && e == Pair(None, Some(j - 1)) && IsAlignment(rest, i, j - 1))
  }

  /** The cost of one entry: diff for a pair, gap for a one-sided entry. */
  function EntryCost<T>(p: Problem<T>, e: Pair<int>): int
  {
    if e.a.Some? && e.b.Some? && 0 <= e.a.value < |p.A| && 0 <= e.b.value < |p.B| then
      p.diff(p.A[e.a.value], p.B[e.b.value])
    else if e.a.Some? && e.b.None? && 0 <= e.a.value < |p.A| then p.gap(p.A[e.a.value])
    else if e.a.None? && e.b.Some? && 0 <= e.b.value < |p.B| then p.gap(p.B[e.b.value])
    else 0
  }

  /** The summed cost of a list of entries. */
  function Cost<T>(p: Problem<T>, r: seq<Pair<int>>): int
  {
    if r == [] then 0 else Cost(p, r[..|r| - 1]) + EntryCost(p, r[|r| - 1])
  }

  /** The A indices of the entries that have one, in entry order. */
  function AIndices(r: seq<Pair<int>>): seq<int>
  {
    if r == [] then []
    else AIndices(r[..|r| - 1]) + (if r[|r| - 1].a.Some? then [r[|r| - 1].a.value] else [])
  }

  /** The B indices of the entries that have one, in entry order. */
  function BIndices(r: seq<Pair<int>>): seq<int>
  {
    if r == [] then []
    else BIndices(r[..|r| - 1]) + (if r[|r| - 1].b.Some? then [r[|r| - 1].b.value] else [])
  }

  /** Every index an entry holds is among the indices of its side. */
  lemma {:induction false} PresentIndices(r: seq<Pair<int>>, k: int)
    requires 0 <= k < |r|
    ensures r[k].a.Some? ==> r[k].a.value in AIndices(r)
    ensures r[k].b.Some? ==> r[k].b.value in BIndices(r)
  {
    if k < |r| - 1 {
      var rest := r[..|r| - 1];
      PresentIndices(rest, k);
      assert rest[k] == r[k];
    }
  }

  /** 0, 1, ..., n - 1. */
  function Range(n: nat): (r: seq<int>)
    ensures |r| == n && forall k :: 0 <= k < n ==> r[k] == k
  {
    seq(n, k => k)
  }

  lemma RangeSnoc(n: nat)
    ensures Range(n) + [n] == Range(n + 1)
  {
  }

  // ---------------------------------------------------------------------------------------
  // What the dynamic program guarantees.

  /** The backtracked route is an order-preserving alignment of the whole of both prefixes. */
  lemma {:induction false} RouteIsAlignment<T>(p: Problem<T>, i: nat, j: nat)
    requires i <= |p.A| && j <= |p.B|
    ensures IsAlignment(Route(p, i, j), i, j)
    decreases i + j
  {
    if i > 0 || j > 0 {
      var r := Route(p, i, j);
      match Dir(p, i, j)
      case UpperLeft =>
        RouteIsAlignment(p, i - 1, j - 1);
        assert r[..|r| - 1] == Route(p, i - 1, j - 1);
      case Upper =>
        RouteIsAlignment(p, i - 1, j);
        assert r[..|r| - 1] == Route(p, i - 1, j);
      case Left =>
        RouteIsAlignment(p, i, j - 1);
        assert r[..|r| - 1] == Route(p, i, j - 1);
    }
  }

  /** The accumulated cost of a cell is that of the cell it is reached from plus the step's cost. */
  lemma AccByDir<T>(p: Problem<T>, i: nat, j: nat)
    requires i <= |p.A| && j <= |p.B| && (i > 0 || j > 0)
    ensures Dir(p, i, j) == UpperLeft ==> i > 0 && j > 0 && Acc(p, i, j) == Acc(p, i - 1, j - 1) + p.diff(p.A[i - 1], p.B[j - 1])
    ensures Dir(p, i, j) == Upper ==> i > 0 && Acc(p, i, j) == Acc(p, i - 1, j) + p.gap(p.A[i - 1])
    ensures Dir(p, i, j) == Left ==> j > 0 && Acc(p, i, j) == Acc(p, i, j - 1) + p.gap(p.B[j - 1])
  {
  }

  /** The route to a cell is the route to its predecessor plus one entry. */
  lemma RouteByDir<T>(p: Problem<T>, i: nat, j: nat)
    requires i <= |p.A| && j <= |p.B| && (i > 0 || j > 0)
    ensures Dir(p, i, j) == UpperLeft ==> i > 0 && j > 0 && Route(p, i, j) == Route(p, i - 1, j - 1) + [Pair(Some(i - 1), Some(j - 1))]
    ensures Dir(p, i, j) == Upper ==> i > 0 && Route(p, i, j) == Route(p, i - 1, j) + [Pair(Some(i - 1), None)]
    ensures Dir(p, i, j) == Left ==> j > 0 && Route(p, i, j) == Route(p, i, j - 1) + [Pair(None, Some(j - 1))]
  {
  }

  /** One step of `harvestBestRoute` back from (i, j) along direction `d`. */
  lemma RouteBack<T>(p: Problem<T>, i: nat, j: nat, route: seq<Pair<int>>, d: ComeFrom)
    requires i <= |p.A| && j <= |p.B| && (i > 0 || j > 0) && d == Dir(p, i, j)
    requires Route(p, |p.A|, |p.B|) == Route(p, i, j) + route
    ensures d == UpperLeft ==>
      i > 0 && j > 0 && Route(p, |p.A|, |p.B|) == Route(p, i - 1, j - 1) + ([Pair(Some(i - 1), Some(j - 1))] + route)
    ensures d == Upper ==> i > 0 && Route(p, |p.A|, |p.B|) == Route(p, i - 1, j) + ([Pair(Some(i - 1), None)] + route)
    ensures d == Left ==> j > 0 && Route(p, |p.A|, |p.B|) == Route(p, i, j - 1) + ([Pair(None, Some(j - 1))] + route)
  {
    RouteByDir(p, i, j);
    if d == UpperLeft {
      assert Route(p, i, j) + route == Route(p, i - 1, j - 1) + ([Pair(Some(i - 1), Some(j - 1))] + route);
    } else if d == Upper {
      assert Route(p, i, j) + route == Route(p, i - 1, j) + ([Pair(Some(i - 1), None)] + route);
    } else {
      assert Route(p, i, j) + route == Route(p, i, j - 1) + ([Pair(None, Some(j - 1))] + route);
    }
  }

  /** The summed cost of the route is the accumulated cost of its end cell. */
  lemma {:induction false} RouteCost<T>(p: Problem<T>, i: nat, j: nat)
    requires i <= |p.A| && j <= |p.B|
    ensures Cost(p, Route(p, i, j)) == Acc(p, i, j)
    decreases i + j
  {
    if i > 0 || j > 0 {
      var d := Dir(p, i, j);
      var (pi, pj, e) := if d == UpperLeft then (i - 1, j - 1, Pair(Some(i - 1), Some(j - 1)))
                         else if d == Upper then (i - 1, j, Pair(Some(i - 1), None))
                         else (i, j - 1, Pair(None, Some(j - 1)));
      AccByDir(p, i, j);
      RouteByDir(p, i, j);
      assert pi <= |p.A| && pj <= |p.B| && pi + pj < i + j;
      assert Route(p, i, j) == Route(p, pi, pj) + [e];
      assert Acc(p, i, j) == Acc(p, pi, pj) + EntryCost(p, e);
      RouteCost(p, pi, pj);
      CostSnoc(p, Route(p, pi, pj), e);
    }
  }

  lemma CostSnoc<T>(p: Problem<T>, r: seq<Pair<int>>, e: Pair<int>)
    ensures Cost(p, r + [e]) == Cost(p, r) + EntryCost(p, e)
  {
    assert (r + [e])[..|r|] == r;
  }

  /** No order-preserving alignment costs less than the accumulated cost. */
  lemma {:induction false} AccIsMinimal<T>(p: Problem<T>, r: seq<Pair<int>>, i: nat, j: nat)
    requires i <= |p.A| && j <= |p.B|
    requires IsAlignment(r, i, j)
    ensures Cost(p, r) >= Acc(p, i, j)
    decreases |r|
  {
    if r != [] {
      var e, rest := r[|r| - 1], r[..|r| - 1];
      if i > 0 && j > 0 && e == Pair(Some(i - 1), Some(j - 1)) && IsAlignment(rest, i - 1, j - 1) {
        AccIsMinimal(p, rest, i - 1, j - 1);
      } else if i > 0 && e == Pair(Some(i - 1), None) && IsAlignment(rest, i - 1, j) {
        AccIsMinimal(p, rest, i - 1, j);
      } else {
        AccIsMinimal(p, rest, i, j - 1);
      }
    }
  }

  /**
   * The route `correlate` returns is an order-preserving alignment of the two lists of least
   * total cost.
   */
  lemma CorrelationIsOptimal<T>(p: Problem<T>, r: seq<Pair<int>>)
    requires IsAlignment(r, |p.A|, |p.B|)
    ensures IsAlignment(Correlation(p), |p.A|, |p.B|)
    ensures Cost(p, Correlation(p)) == Acc(p, |p.A|, |p.B|) <= Cost(p, r)
  {
    RouteIsAlignment(p, |p.A|, |p.B|);
    RouteCost(p, |p.A|, |p.B|);
    AccIsMinimal(p, r, |p.A|, |p.B|);
  }

  /**
   * In an alignment, the A indices are exactly 0 .. i-1 in increasing order and the B indices
   * exactly 0 .. j-1: every index appears in exactly one entry, and order is preserved.
   */
  lemma {:induction false} AlignmentIndices(r: seq<Pair<int>>, i: nat, j: nat)
    requires IsAlignment(r, i, j)
    ensures AIndices(r) == Range(i) && BIndices(r) == Range(j)
    decreases |r|
  {
    if r != [] {
      var e, rest := r[|r| - 1], r[..|r| - 1];
      if i > 0 && j > 0 && e == Pair(Some(i - 1), Some(j - 1)) && IsAlignment(rest, i - 1, j - 1) {
        AlignmentIndices(rest, i - 1, j - 1);
        assert AIndices(r) == Range(i - 1) + [i - 1] by { RangeSnoc(i - 1); }
        assert BIndices(r) == Range(j - 1) + [j - 1] by { RangeSnoc(j - 1); }
        RangeSnoc(i - 1);
        RangeSnoc(j - 1);
      } else if i > 0 && e == Pair(Some(i - 1), None) && IsAlignment(rest, i - 1, j) {
        AlignmentIndices(rest, i - 1, j);
        assert AIndices(r) == Range(i - 1) + [i - 1];
        assert BIndices(r) == BIndices(rest) + [];
        RangeSnoc(i - 1);
      } else {
        assert j > 0 && e == Pair(None, Some(j - 1)) && IsAlignment(rest, i, j - 1);
        AlignmentIndices(rest, i, j - 1);
        assert AIndices(r) == AIndices(rest) + [];
        assert BIndices(r) == Range(j - 1) + [j - 1];
        RangeSnoc(j - 1);
      }
    }
  }

  /** Every entry of an alignment has at least one side. */
  lemma {:induction false} AlignmentEntriesNonEmpty(r: seq<Pair<int>>, i: nat, j: nat, k: nat)
    requires IsAlignment(r, i, j) && k < |r|
    ensures !r[k].IsEmpty()
    decreases |r|
  {
    var e, rest := r[|r| - 1], r[..|r| - 1];
    if k < |r| - 1 {
      if i > 0 && j > 0 && e == Pair(Some(i - 1), Some(j - 1)) && IsAlignment(rest, i - 1, j - 1) {
        AlignmentEntriesNonEmpty(rest, i - 1, j - 1, k);
      } else if i > 0 && e == Pair(Some(i - 1), None) && IsAlignment(rest, i - 1, j) {
        AlignmentEntriesNonEmpty(rest, i - 1, j, k);
      } else {
        AlignmentEntriesNonEmpty(rest, i, j - 1, k);
      }
    }
  }

  /** The result of `correlate`: every index of both lists exactly once, in increasing order. */
  lemma CorrelationPartitions<T>(p: Problem<T>)
    ensures AIndices(Correlation(p)) == Range(|p.A|)
    ensures BIndices(Correlation(p)) == Range(|p.B|)
  {
    RouteIsAlignment(p, |p.A|, |p.B|);
    AlignmentIndices(Correlation(p), |p.A|, |p.B|);
  }

  // ---------------------------------------------------------------------------------------
  // The correlator object and its imperative table-filling, as the source runs it (sequentially).

  /** A correlator holding its gap and diff evaluators. */
  datatype SequentialCorrelator<!T> = SequentialCorrelator(gap: T -> int, diff: (T, T) -> int)

  /** The constructor: a null evaluator is NullPointer. */
  function NewSequentialCorrelator<T>(gap: Option<T -> int>, diff: Option<(T, T) -> int>): (r: Result<SequentialCorrelator<T>>)
    ensures r.Ok? <==> gap.Some? && diff.Some?
    ensures r.Err? ==> r.error == NullPointer
    ensures r.Ok? ==> r.value.gap == gap.value && r.value.diff == diff.value
  {
    if gap.None? || diff.None? then Err(NullPointer)
    else Ok(SequentialCorrelator(gap.value, diff.value))
  }

  /** `costs` is laid out as `calcCosts` promises for problem `p`. */
  ghost predicate CostTable<T>(costs: array2<int>, p: Problem<T>)
    reads costs
  {
    && costs.Length0 == |p.A| + 1 && costs.Length1 == |p.B| + 1
    && (forall i :: 1 <= i <= |p.A| ==> costs[i, 0] == p.gap(p.A[i - 1]))
    && (forall j :: 1 <= j <= |p.B| ==> costs[0, j] == p.gap(p.B[j - 1]))
    && (forall i, j :: 1 <= i <= |p.A| && 1 <= j <= |p.B| ==> costs[i, j] == p.diff(p.A[i - 1], p.B[j - 1]))
  }

  /**
   * `calcCosts`: row 0 holds the gap costs of B, column 0 the gap costs of A, and cell
   * (i, j) the diff cost of A[i-1] against B[j-1].
   */
  method CalcCosts<T>(c: SequentialCorrelator<T>, listA: seq<T>, listB: seq<T>) returns (costs: array2<int>)
    ensures fresh(costs)
    ensures CostTable(costs, Problem(listA, listB, c.gap, c.diff))
  {
    costs := new int[|listA| + 1, |listB| + 1]((_, _) => 0);
    for i := 1 to |listA| + 1
      invariant forall k :: 1 <= k < i ==> costs[k, 0] == c.gap(listA[k - 1])
    {
      costs[i, 0] := c.gap(listA[i - 1]);
    }
    for j := 1 to |listB| + 1
      invariant forall k :: 1 <= k <= |listA| ==> costs[k, 0] == c.gap(listA[k - 1])
      invariant forall k :: 1 <= k < j ==> costs[0, k] == c.gap(listB[k - 1])
    {
      costs[0, j] := c.gap(listB[j - 1]);
    }
    for i := 1 to |listA| + 1
      invariant forall k :: 1 <= k <= |listA| ==> costs[k, 0] == c.gap(listA[k - 1])
      invariant forall k :: 1 <= k <= |listB| ==> costs[0, k] == c.gap(listB[k - 1])
      invariant forall a, b :: 1 <= a < i && 1 <= b <= |listB| ==> costs[a, b] == c.diff(listA[a - 1], listB[b - 1])
    {
      for j := 1 to |listB| + 1
        invariant forall k :: 1 <= k <= |listA| ==> costs[k, 0] == c.gap(listA[k - 1])
        invariant forall k :: 1 <= k <= |listB| ==> costs[0, k] == c.gap(listB[k - 1])
        invariant forall a, b :: 1 <= a < i && 1 <= b <= |listB| ==> costs[a, b] == c.diff(listA[a - 1], listB[b - 1])
        invariant forall b :: 1 <= b < j ==> costs[i, b] == c.diff(listA[i - 1], listB[b - 1])
      {
        costs[i, j] := c.diff(listA[i - 1], listB[j - 1]);
      }
    }
  }

  /**
   * `calcBestDirections`: fills the first column and the first row, then the interior one
   * anti-diagonal (i + j == n) at a time, so that every cell comes after its three
   * predecessors; each cell gets the direction of its cheapest predecessor, the diagonal
   * winning ties and the left one winning a tie with the upper one.
   */
  method CalcBestDirections<T>(costs: array2<int>, ghost p: Problem<T>) returns (dirs: array2<ComeFrom>)
    requires CostTable(costs, p)
    ensures fresh(dirs)
    ensures dirs.Length0 == |p.A| + 1 && dirs.Length1 == |p.B| + 1
    ensures forall i, j :: 0 <= i <= |p.A| && 0 <= j <= |p.B| && (i > 0 || j > 0) ==> dirs[i, j] == Dir(p, i, j)
  {
    var rows, cols := costs.Length0, costs.Length1;
    var acc;
    acc, dirs := FillBorders(costs, p);
    var n := 2;
    while n < rows + cols - 1
      invariant 2 <= n
      invariant BordersDone(acc, dirs, p)
      invariant InteriorDone(acc, dirs, p, n, 0)
    {
      SweepAntiDiagonal(costs, acc, dirs, p, n);
      n := n + 1;
    }
    AllDone(acc, dirs, p, n);
  }

  /** Once the sweep has passed the last anti-diagonal, every cell has its direction. */
  lemma AllDone<T>(acc: array2<int>, dirs: array2<ComeFrom>, p: Problem<T>, n: int)
    requires BordersDone(acc, dirs, p) && InteriorDone(acc, dirs, p, n, 0) && n >= |p.A| + |p.B| + 1
    ensures forall i, j :: 0 <= i <= |p.A| && 0 <= j <= |p.B| && (i > 0 || j > 0) ==> dirs[i, j] == Dir(p, i, j)
  {
    forall i, j | 0 <= i <= |p.A| && 0 <= j <= |p.B| && (i > 0 || j > 0)
      ensures dirs[i, j] == Dir(p, i, j)
    {
      if j == 0 {
        assert dirs[i, 0] == Upper;
      } else if i == 0 {
        assert dirs[0, j] == Left;
      }
    }
  }

  /**
   * The border loops of `calcBestDirections`: down the first column every cell comes from
   * above, along the first row every cell comes from the left.
   */
  method FillBorders<T>(costs: array2<int>, ghost p: Problem<T>) returns (acc: array2<int>, dirs: array2<ComeFrom>)
    requires CostTable(costs, p)
    ensures fresh(acc) && fresh(dirs)
    ensures BordersDone(acc, dirs, p) && InteriorDone(acc, dirs, p, 2, 0)
  {
    var rows, cols := costs.Length0, costs.Length1;
    // Cell (0, 0) keeps the cost 0 and has no direction of its own.
    acc := new int[rows, cols]((_, _) => 0);
    dirs := new ComeFrom[rows, cols]((_, _) => UpperLeft);
    assert acc[0, 0] == 0;
    FillFirstColumn(costs, acc, dirs, p);
    FillFirstRow(costs, acc, dirs, p);
  }

  /** The first border loop of `calcBestDirections`: the first column. */
  method FillFirstColumn<T>(costs: array2<int>, acc: array2<int>, dirs: array2<ComeFrom>, ghost p: Problem<T>)
    requires CostTable(costs, p) && costs != acc && ColumnDone(acc, dirs, p, 1)
    modifies acc, dirs
    ensures ColumnDone(acc, dirs, p, |p.A| + 1)
  {
    for i := 1 to costs.Length0
      invariant ColumnDone(acc, dirs, p, i)
    {
      acc[i, 0] := acc[i - 1, 0] + costs[i, 0];
      dirs[i, 0] := Upper;
    }
  }

  /** The first `n` cells of the first column hold their accumulated costs and directions. */
  ghost predicate ColumnDone<T>(acc: array2<int>, dirs: array2<ComeFrom>, p: Problem<T>, n: int)
    reads acc, dirs
  {
    && acc.Length0 == dirs.Length0 == |p.A| + 1 && acc.Length1 == dirs.Length1 == |p.B| + 1
    && (forall k :: 0 <= k < n && k <= |p.A| ==> acc[k, 0] == Acc(p, k, 0))
    && (forall k :: 1 <= k < n && k <= |p.A| ==> dirs[k, 0] == Upper)
  }

  /** The second border loop of `calcBestDirections`: the first row. */
  method FillFirstRow<T>(costs: array2<int>, acc: array2<int>, dirs: array2<ComeFrom>, ghost p: Problem<T>)
    requires CostTable(costs, p) && costs != acc && ColumnDone(acc, dirs, p, |p.A| + 1)
    modifies acc, dirs
    ensures BordersDone(acc, dirs, p)
  {
    for j := 1 to costs.Length1
      invariant ColumnDone(acc, dirs, p, |p.A| + 1)
      invariant forall k :: 0 <= k < j ==> acc[0, k] == Acc(p, 0, k)
      invariant forall k :: 1 <= k < j ==> dirs[0, k] == Left
    {
      acc[0, j] := acc[0, j - 1] + costs[0, j];
      dirs[0, j] := Left;
    }
  }

  /** The first column and the first row hold their accumulated costs and directions. */
  ghost predicate BordersDone<T>(acc: array2<int>, dirs: array2<ComeFrom>, p: Problem<T>)
    reads acc, dirs
  {
    && acc.Length0 == dirs.Length0 == |p.A| + 1 && acc.Length1 == dirs.Length1 == |p.B| + 1
    && (forall k :: 0 <= k <= |p.A| ==> acc[k, 0] == Acc(p, k, 0))
    && (forall k :: 1 <= k <= |p.A| ==> dirs[k, 0] == Upper)
    && (forall k :: 0 <= k <= |p.B| ==> acc[0, k] == Acc(p, 0, k))
    && (forall k :: 1 <= k <= |p.B| ==> dirs[0, k] == Left)
  }

  /**
   * The interior cells on the anti-diagonals before n, and those on anti-diagonal n above
   * row i, hold their accumulated costs and directions.
   */
  ghost predicate InteriorDone<T>(acc: array2<int>, dirs: array2<ComeFrom>, p: Problem<T>, n: int, i: int)
    reads acc, dirs
  {
    && acc.Length0 == dirs.Length0 == |p.A| + 1 && acc.Length1 == dirs.Length1 == |p.B| + 1
    && forall a, b :: 1 <= a <= |p.A| && 1 <= b <= |p.B| && (a + b < n || (a + b == n && a < i)) ==>
         acc[a, b] == Acc(p, a, b) && dirs[a, b] == Dir(p, a, b)
  }

  /** One pass of the outer loop of `calcBestDirections`: the interior of anti-diagonal n. */
  method SweepAntiDiagonal<T>(costs: array2<int>, acc: array2<int>, dirs: array2<ComeFrom>, ghost p: Problem<T>, n: int)
    requires CostTable(costs, p) && costs != acc
    requires BordersDone(acc, dirs, p) && InteriorDone(acc, dirs, p, n, 0)
    modifies acc, dirs
    ensures BordersDone(acc, dirs, p) && InteriorDone(acc, dirs, p, n + 1, 0)
  {
    var rows, cols := costs.Length0, costs.Length1;
    var lo := if 1 < n - cols + 1 then n - cols + 1 else 1;
    var hi := if n - 1 < rows - 1 then n - 1 else rows - 1;
    var i := lo;
    while i <= hi
      invariant lo <= i && (i <= hi + 1 || i == lo)
      invariant BordersDone(acc, dirs, p)
      invariant InteriorDone(acc, dirs, p, n, i)
    {
      FillCell(costs, acc, dirs, p, i, n - i);
      i := i + 1;
    }
  }

  /** The body of the inner loop of `calcBestDirections`: cell (i, j) from its three predecessors. */
  method FillCell<T>(costs: array2<int>, acc: array2<int>, dirs: array2<ComeFrom>, ghost p: Problem<T>, i: int, j: int)
    requires CostTable(costs, p) && costs != acc && BordersDone(acc, dirs, p)
    requires 1 <= i <= |p.A| && 1 <= j <= |p.B| && InteriorDone(acc, dirs, p, i + j, i)
    modifies acc, dirs
    ensures BordersDone(acc, dirs, p) && InteriorDone(acc, dirs, p, i + j, i + 1)
  {
    assert acc[i - 1, j - 1] == Acc(p, i - 1, j - 1);
    assert acc[i, j - 1] == Acc(p, i, j - 1);
    assert acc[i - 1, j] == Acc(p, i - 1, j);
    var minCost := acc[i - 1, j - 1] + costs[i, j];
    var minDirection := UpperLeft;
    var tmpCost := acc[i, j - 1] + costs[0, j];
    if tmpCost < minCost {
      minCost := tmpCost;
      minDirection := Left;
    }
    tmpCost := acc[i - 1, j] + costs[i, 0];
    if tmpCost < minCost {
      minCost := tmpCost;
      minDirection := Upper;
    }
    assert (minCost, minDirection) == Step(p, i, j);
    acc[i, j] := minCost;
    dirs[i, j] := minDirection;
  }

  /**
   * `harvestBestRoute`: walks the direction table back from (n, m) to (0, 0), prepending
   * (i-1, j-1) for UpperLeft, onlyA(i-1) for Upper and onlyB(j-1) for Left.
   */
  method HarvestBestRoute<T>(dirs: array2<ComeFrom>, ghost p: Problem<T>) returns (route: seq<Pair<int>>)
    requires dirs.Length0 == |p.A| + 1 && dirs.Length1 == |p.B| + 1
    requires forall i, j :: 0 <= i <= |p.A| && 0 <= j <= |p.B| && (i > 0 || j > 0) ==> dirs[i, j] == Dir(p, i, j)
    ensures route == Correlation(p)
  {
    var i, j := dirs.Length0 - 1, dirs.Length1 - 1;
    route := [];
    while 0 < i || 0 < j
      invariant 0 <= i <= |p.A| && 0 <= j <= |p.B|
      invariant Route(p, |p.A|, |p.B|) == Route(p, i, j) + route
      decreases i + j
    {
      var d := dirs[i, j];
      assert d == Dir(p, i, j);
      ghost var i0, j0, route0 := i, j, route;
      var e;
      if d == UpperLeft {
        i, j := i - 1, j - 1;
        e := Pair(Some(i), Some(j));
      } else if d == Upper {
        i := i - 1;
        e := Pair(Some(i), None);
      } else {
        j := j - 1;
        e := Pair(None, Some(j));
      }
      route := [e] + route;
      RouteBack(p, i0, j0, route0, d);
    }
  }

  /**
   * `correlate`: NullPointer for a null list, IllegalArgument when both arguments are the same
   * list object, and otherwise the least-cost order-preserving alignment of the two lists.
   */
  method Correlate<T>(c: SequentialCorrelator<T>, listA: JList?<T>, listB: JList?<T>) returns (r: Result<seq<Pair<int>>>)
    ensures listA == null || listB == null ==> r == Err(NullPointer)
    ensures listA != null && listB != null && listA == listB ==> r == Err(IllegalArgument)
    ensures listA != null && listB != null && listA != listB ==>
      r == Ok(Correlation(Problem(listA.elems, listB.elems, c.gap, c.diff)))
  {
    if listA == null || listB == null {
      return Err(NullPointer);
    }
    if listA == listB {
      return Err(IllegalArgument);
    }
    ghost var p := Problem(listA.elems, listB.elems, c.gap, c.diff);
    var costs := CalcCosts(c, listA.elems, listB.elems);
    var bestDirections := CalcBestDirections(costs, p);
    var bestRoute := HarvestBestRoute(bestDirections, p);
    r := Ok(bestRoute);
  }
}
