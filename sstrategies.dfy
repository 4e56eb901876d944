// The row and column pairing strategies of the sheet comparator (diff/excel/SStrategies.java).
// A strategy takes the cells of two sheets and pairs the row (or column) indices of sheet A
// with those of sheet B.

module SStrategies {
  import opened Wrappers
  import opened Pairs
  import opened Cells
  import JavaText
  import SequentialCorrelation

  /** The index a strategy pairs (`verticality`): a cell's row or its column. */
  datatype Axis = Rows | Columns

  function Vertical(axis: Axis, c: Cell): nat {
    if axis == Rows then c.row else c.column
  }

  /** What the cells of one line are sorted and matched by (`horizontality`). */
  datatype Key = ByRow | ByColumn | ByValue

  /** The sign of `compareTo` on the two cells' keys (`Integer` or `String`). */
  function CompareKeys(key: Key, x: Cell, y: Cell): (r: int)
    ensures -1 <= r <= 1
    ensures key == ByRow ==> (r == 0 <==> x.row == y.row) && (r < 0 <==> x.row < y.row)
    ensures key == ByColumn ==> (r == 0 <==> x.column == y.column) && (r < 0 <==> x.column < y.column)
  {
    match key
    case ByRow => JavaText.CompareInt(x.row, y.row)
    case ByColumn => JavaText.CompareInt(x.column, y.column)
    case ByValue => JavaText.CompareTo(x.value, y.value)
  }

  lemma CompareKeysAntisymmetric(key: Key, x: Cell, y: Cell)
    ensures CompareKeys(key, x, y) == -CompareKeys(key, y, x)
  {
    if key == ByValue {
      JavaText.CompareSeqAntisymmetric(JavaText.Utf16Units(x.value), JavaText.Utf16Units(y.value));
    }
  }

  lemma CompareKeysTransitive(key: Key, x: Cell, y: Cell, z: Cell)
    requires CompareKeys(key, x, y) <= 0 && CompareKeys(key, y, z) <= 0
    ensures CompareKeys(key, x, z) <= 0
  {
    if key == ByValue {
      var u, v, w := JavaText.Utf16Units(x.value), JavaText.Utf16Units(y.value), JavaText.Utf16Units(z.value);
      if JavaText.CompareSeq(u, v) < 0 && JavaText.CompareSeq(v, w) < 0 {
        JavaText.CompareSeqTransitive(u, v, w);
      }
    }
  }

  // ---------------------------------------------------------------------------------------
  // `range`

  /** The smallest and largest index of a cell set (`range` returns them as a pair). */
  datatype Span = Span(lo: int, hi: int)

  /** `range(cells, extractor)`: (min, max) of the cells' indices, and (0, 0) for no cells. */
  function Range(cells: seq<Cell>, axis: Axis): (r: Span)
    ensures cells == [] ==> r == Span(0, 0)
    ensures 0 <= r.lo <= r.hi
  {
    if cells == [] then Span(0, 0)
    else if |cells| == 1 then Span(Vertical(axis, cells[0]), Vertical(axis, cells[0]))
    else
      var rest := Range(cells[1..], axis);
      var v := Vertical(axis, cells[0]);
      Span(if v < rest.lo then v else rest.lo, if v > rest.hi then v else rest.hi)
  }

  /** Every cell's index lies within the range of its set. */
  lemma {:induction false} RangeBounds(cells: seq<Cell>, axis: Axis)
    ensures forall c :: c in cells ==> Range(cells, axis).lo <= Vertical(axis, c) <= Range(cells, axis).hi
  {
    if |cells| > 1 {
      RangeBounds(cells[1..], axis);
      assert forall c :: c in cells ==> c == cells[0] || c in cells[1..];
    }
  }

  /** The bounds of a non-empty set are indices of some of its cells. */
  lemma {:induction false} RangeAttained(cells: seq<Cell>, axis: Axis)
    requires cells != []
    ensures exists c :: c in cells && Vertical(axis, c) == Range(cells, axis).lo
    ensures exists c :: c in cells && Vertical(axis, c) == Range(cells, axis).hi
  {
    if |cells| > 1 {
      RangeAttained(cells[1..], axis);
      assert forall c :: c in cells[1..] ==> c in cells;
    } else {
      assert cells[0] in cells;
    }
  }

  /** `range(cellsA, cellsB, extractor)`: the smaller minimum and the larger maximum. */
  function UnionRange(cellsA: seq<Cell>, cellsB: seq<Cell>, axis: Axis): (r: Span)
    ensures 0 <= r.lo <= r.hi
    ensures r.lo <= Range(cellsA, axis).lo && r.lo <= Range(cellsB, axis).lo
    ensures r.lo == Range(cellsA, axis).lo || r.lo == Range(cellsB, axis).lo
    ensures r.hi == Range(cellsA, axis).hi || r.hi == Range(cellsB, axis).hi
    ensures Range(cellsA, axis).hi <= r.hi && Range(cellsB, axis).hi <= r.hi
  {
    var a, b := Range(cellsA, axis), Range(cellsB, axis);
    Span(if a.lo < b.lo then a.lo else b.lo, if a.hi > b.hi then a.hi else b.hi)
  }

  /** Every cell of either set lies within the union range. */
  lemma UnionRangeBounds(cellsA: seq<Cell>, cellsB: seq<Cell>, axis: Axis)
    ensures forall c :: c in cellsA || c in cellsB ==>
      UnionRange(cellsA, cellsB, axis).lo <= Vertical(axis, c) <= UnionRange(cellsA, cellsB, axis).hi
  {
    RangeBounds(cellsA, axis);
    RangeBounds(cellsB, axis);
  }

  /** lo, lo + 1, ..., hi - 1. */
  function Interval(lo: int, hi: int): (r: seq<int>)
    ensures |r| == if lo <= hi then hi - lo else 0
    ensures forall k :: 0 <= k < |r| ==> r[k] == lo + k
  {
    seq(if lo <= hi then hi - lo else 0, k => lo + k)
  }

  // ---------------------------------------------------------------------------------------
  // `strategy0`: positional identity.

  /** `strategy0`: every index of the union range paired with itself, in ascending order. */
  function Strategy0(cellsA: seq<Cell>, cellsB: seq<Cell>, axis: Axis): seq<Pair<int>>
  {
    var range := UnionRange(cellsA, cellsB, axis);
    seq(range.hi - range.lo + 1, k => Pair(Some(range.lo + k), Some(range.lo + k)))
  }

  /**
   * `strategy0` never leaves an index unpaired, pairs each index with itself, and lists every
   * index of the union range once, ascending; so every cell's index is among them.
   */
  lemma Strategy0Shape(cellsA: seq<Cell>, cellsB: seq<Cell>, axis: Axis)
    ensures var r, range := Strategy0(cellsA, cellsB, axis), UnionRange(cellsA, cellsB, axis);
      && (forall k :: 0 <= k < |r| ==> r[k].IsPaired() && r[k].a == r[k].b)
      && SequentialCorrelation.AIndices(r) == Interval(range.lo, range.hi + 1)
      && SequentialCorrelation.BIndices(r) == Interval(range.lo, range.hi + 1)
      && forall c :: c in cellsA || c in cellsB ==> Vertical(axis, c) in SequentialCorrelation.AIndices(r)
  {
    var r, range := Strategy0(cellsA, cellsB, axis), UnionRange(cellsA, cellsB, axis);
    DiagonalIndices(r, range.lo);
    UnionRangeBounds(cellsA, cellsB, axis);
    forall c | c in cellsA || c in cellsB
      ensures Vertical(axis, c) in SequentialCorrelation.AIndices(r)
    {
      assert SequentialCorrelation.AIndices(r)[Vertical(axis, c) - range.lo] == Vertical(axis, c);
    }
  }

  lemma {:induction false} DiagonalIndices(r: seq<Pair<int>>, lo: int)
    requires forall k :: 0 <= k < |r| ==> r[k] == Pair(Some(lo + k), Some(lo + k))
    ensures SequentialCorrelation.AIndices(r) == Interval(lo, lo + |r|)
    ensures SequentialCorrelation.BIndices(r) == Interval(lo, lo + |r|)
  {
    if r != [] {
      DiagonalIndices(r[..|r| - 1], lo);
    }
  }

  // ---------------------------------------------------------------------------------------
  // `strategy12`: one line per index, aligned in order.

  /** The non-blank cells at index `i`, in cell-set order (`filter` and `groupingBy`). */
  function Filter(cells: seq<Cell>, axis: Axis, i: int): (r: seq<Cell>)
    ensures forall c :: c in r <==> c in cells && Vertical(axis, c) == i && c.value != ""
    ensures |r| <= |cells|
  {
    if cells == [] then []
    else
      var rest := Filter(cells[1..], axis, i);
      assert forall c :: c in cells <==> c == cells[0] || c in cells[1..];
      if Vertical(axis, cells[0]) == i && cells[0].value != "" then [cells[0]] + rest else rest
  }

  /** Sorted by key: no cell has a larger key than a cell after it. */
  predicate SortedBy(key: Key, line: seq<Cell>)
  {
    forall i, j :: 0 <= i < j < |line| ==> CompareKeys(key, line[i], line[j]) <= 0
  }

  /** Puts `c` in front of the first cell whose key is not smaller. */
  function InsertBy(key: Key, c: Cell, line: seq<Cell>): (r: seq<Cell>)
    ensures multiset(r) == multiset(line) + multiset{c}
    ensures SortedBy(key, line) ==> SortedBy(key, r)
  {
    if line == [] then [c]
    else if CompareKeys(key, c, line[0]) <= 0 then
      assert SortedBy(key, line) ==> SortedBy(key, [c] + line) by {
        if SortedBy(key, line) {
          forall d | d in line ensures CompareKeys(key, c, d) <= 0 {
            CompareKeysTransitive(key, c, line[0], d);
          }
          SortedByCons(key, c, line);
        }
      }
      [c] + line
    else
      CompareKeysAntisymmetric(key, c, line[0]);
      var rest := InsertBy(key, c, line[1..]);
      assert line == [line[0]] + line[1..];
      assert forall d :: d in rest ==> d == c || d in line[1..] by {
        forall d | d in rest ensures d == c || d in line[1..] {
          assert d in multiset(rest);
        }
      }
      assert SortedBy(key, line) ==> SortedBy(key, [line[0]] + rest) by {
        if SortedBy(key, line) {
          SortedByTail(key, line);
          SortedByCons(key, line[0], rest);
        }
      }
      [line[0]] + rest
  }

  lemma SortedByCons(key: Key, c: Cell, line: seq<Cell>)
    requires SortedBy(key, line)
    requires forall d :: d in line ==> CompareKeys(key, c, d) <= 0
    ensures SortedBy(key, [c] + line)
  {
    var s := [c] + line;
    forall i, j | 0 <= i < j < |s| ensures CompareKeys(key, s[i], s[j]) <= 0 {
      assert s[j] == line[j - 1];
      if i > 0 {
        assert s[i] == line[i - 1];
      }
    }
  }

  lemma SortedByTail(key: Key, line: seq<Cell>)
    requires line != [] && SortedBy(key, line)
    ensures SortedBy(key, line[1..])
    ensures forall d :: d in line[1..] ==> CompareKeys(key, line[0], d) <= 0
  {
    forall d | d in line[1..] ensures CompareKeys(key, line[0], d) <= 0 {
      var k :| 0 <= k < |line[1..]| && line[1..][k] == d;
      assert line[k + 1] == d;
    }
  }

  /** `List.sort(Comparator.comparing(horizontality))`: a permutation sorted by key. */
  function SortBy(key: Key, line: seq<Cell>): (r: seq<Cell>)
    ensures multiset(r) == multiset(line)
    ensures SortedBy(key, r)
  {
    if line == [] then []
    else
      assert line == [line[0]] + line[1..];
      InsertBy(key, line[0], SortBy(key, line[1..]))
  }

  /** The line at index `i`: its non-blank cells sorted by key. */
  function Line(cells: seq<Cell>, axis: Axis, key: Key, i: int): seq<Cell>
  {
    SortBy(key, Filter(cells, axis, i))
  }

  /** `converter`: one line per index from `start` to the set's own largest index. */
  function Lines(cells: seq<Cell>, axis: Axis, key: Key, start: int): (r: seq<seq<Cell>>)
    ensures |r| == if start <= Range(cells, axis).hi then Range(cells, axis).hi - start + 1 else 0
  {
    var end := Range(cells, axis).hi;
    var n := if start <= end then end - start + 1 else 0;
    seq(n, k requires 0 <= k < n => Line(cells, axis, key, start + k))
  }

  lemma LinesAt(cells: seq<Cell>, axis: Axis, key: Key, start: int, k: nat)
    requires k < |Lines(cells, axis, key, start)|
    ensures Lines(cells, axis, key, start)[k] == Line(cells, axis, key, start + k)
  {
  }

  /** The line at index `i` holds exactly the non-blank cells at `i`, sorted by key. */
  lemma LineHoldsItsCells(cells: seq<Cell>, axis: Axis, key: Key, i: int)
    ensures SortedBy(key, Line(cells, axis, key, i))
    ensures multiset(Line(cells, axis, key, i)) == multiset(Filter(cells, axis, i))
    ensures forall c :: c in Line(cells, axis, key, i) <==> c in cells && Vertical(axis, c) == i && c.value != ""
  {
    var line := Line(cells, axis, key, i);
    forall c ensures c in line <==> c in Filter(cells, axis, i) {
      assert c in line <==> c in multiset(line);
    }
  }

  /** `gapEvaluator`: a line costs its size. */
  function LineGap(line: seq<Cell>): int
  {
    |line|
  }

  /**
   * The rest of the `diffEvaluator` walk once cell `i` of A and cell `j` of B are the current
   * pair: their comparison `c` scores the pair, then a smaller A key moves A on, a smaller B key
   * moves B on and equal keys move both. The loop goes on only while both iterators still have
   * a cell; after it every cell neither loop took adds 1.
   */
  function Merge(key: Key, A: seq<Cell>, B: seq<Cell>, i: int, j: int): int
    requires 0 <= i < |A| && 0 <= j < |B|
    decreases |A| - i + |B| - j
  {
    var c := CompareKeys(key, A[i], B[j]);
    Score(c, A[i], B[j])
      + (if i + 1 < |A| && j + 1 < |B| then Merge(key, A, B, TakeA(i, c), TakeB(j, c))
         else (|A| - i - 1) + (|B| - j - 1))
  }

  /**
   * The rest of the walk from the loop head where `iA` cells of A and `iB` cells of B have been
   * taken and `c` is the last key comparison.
   */
  function Walk(key: Key, A: seq<Cell>, B: seq<Cell>, iA: int, iB: int, c: int): int
    requires 0 <= iA <= |A| && 0 <= iB <= |B|
    requires c > 0 ==> iA > 0
    requires c < 0 ==> iB > 0
  {
    if iA < |A| && iB < |B| then Merge(key, A, B, TakeA(iA, c) - 1, TakeB(iB, c) - 1)
    else (|A| - iA) + (|B| - iB)
  }

  /** One turn of the loop, while both lines have cells left. */
  lemma WalkStep(key: Key, A: seq<Cell>, B: seq<Cell>, iA: int, iB: int, c: int)
    requires 0 <= iA < |A| && 0 <= iB < |B|
    requires c > 0 ==> iA > 0
    requires c < 0 ==> iB > 0
    ensures var nA, nB := TakeA(iA, c), TakeB(iB, c);
      var cmp := CompareKeys(key, A[nA - 1], B[nB - 1]);
      Walk(key, A, B, iA, iB, c) == Score(cmp, A[nA - 1], B[nB - 1]) + Walk(key, A, B, nA, nB, cmp)
  {
  }

  /** The A position after a step: a cell of A is taken unless the last B key was smaller. */
  function TakeA(iA: int, c: int): int
  {
    if c <= 0 then iA + 1 else iA
  }

  /** The B position after a step: a cell of B is taken unless the last A key was smaller. */
  function TakeB(iB: int, c: int): int
  {
    if 0 <= c then iB + 1 else iB
  }

  /**
   * What one comparison adds, `c` being the comparison of the two cells' keys: 2 for an equal
   * key with a different value, 1 for a different key.
   */
  function Score(c: int, x: Cell, y: Cell): int
  {
    if c == 0 && x.value != y.value then 2 else if c != 0 then 1 else 0
  }

  /** What `diffEvaluator` returns for two lines. */
  function DiffScore(key: Key, A: seq<Cell>, B: seq<Cell>): (r: int)
    ensures A == [] ==> r == |B|
    ensures B == [] ==> r == |A|
  {
    Walk(key, A, B, 0, 0, 0)
  }

  /** `diffEvaluator`: the two iterators' positions are `iA` and `iB`. */
  method DiffEvaluator(key: Key, cellsA: seq<Cell>, cellsB: seq<Cell>) returns (diff: int)
    ensures diff == DiffScore(key, cellsA, cellsB)
  {
    var iA, iB := 0, 0;
    diff := 0;
    var c := 0;
    var cellA, cellB := Cell(0, 0, ""), Cell(0, 0, "");
    ghost var total := DiffScore(key, cellsA, cellsB);
    while iA < |cellsA| && iB < |cellsB|
      invariant 0 <= iA <= |cellsA| && 0 <= iB <= |cellsB|
      invariant (c > 0 ==> iA > 0) && (c < 0 ==> iB > 0)
      invariant iA > 0 ==> cellA == cellsA[iA - 1]
      invariant iB > 0 ==> cellB == cellsB[iB - 1]
      invariant diff + Walk(key, cellsA, cellsB, iA, iB, c) == total
      decreases |cellsA| - iA + |cellsB| - iB
    {
      ghost var iA0, iB0, c0 := iA, iB, c;
      if c <= 0 {
        cellA := cellsA[iA];
        iA := iA + 1;
      }
      if 0 <= c {
        cellB := cellsB[iB];
        iB := iB + 1;
      }
      c := CompareKeys(key, cellA, cellB);
      WalkAdvance(key, cellsA, cellsB, iA0, iB0, c0, iA, iB, cellA, cellB);
      diff := diff + Score(c, cellA, cellB);
    }
    while iA < |cellsA|
      invariant iA <= |cellsA|
      invariant diff + (|cellsA| - iA) + (|cellsB| - iB) == total
    {
      diff := diff + 1;
      iA := iA + 1;
    }
    while iB < |cellsB|
      invariant iB <= |cellsB|
      invariant diff + (|cellsB| - iB) == total
    {
      diff := diff + 1;
      iB := iB + 1;
    }
  }

  /** One turn of the loop stated on the positions and cells it moves to. */
  lemma WalkAdvance(key: Key, A: seq<Cell>, B: seq<Cell>, iA: int, iB: int, c: int,
                    nA: int, nB: int, cellA: Cell, cellB: Cell)
    requires 0 <= iA < |A| && 0 <= iB < |B|
    requires c > 0 ==> iA > 0
    requires c < 0 ==> iB > 0
    requires nA == TakeA(iA, c) && nB == TakeB(iB, c) && cellA == A[nA - 1] && cellB == B[nB - 1]
    ensures Walk(key, A, B, iA, iB, c) ==
      Score(CompareKeys(key, cellA, cellB), cellA, cellB) + Walk(key, A, B, nA, nB, CompareKeys(key, cellA, cellB))
  {
    WalkStep(key, A, B, iA, iB, c);
  }

  lemma {:induction false} MergeIdentical(key: Key, L: seq<Cell>, i: int)
    requires 0 <= i < |L|
    ensures Merge(key, L, L, i, i) == 0
    decreases |L| - i
  {
    assert CompareKeys(key, L[i], L[i]) == 0;
    if i + 1 < |L| {
      MergeIdentical(key, L, i + 1);
    }
  }

  /** Two identical lines score 0. */
  lemma DiffScoreIdentical(key: Key, L: seq<Cell>)
    ensures DiffScore(key, L, L) == 0
  {
    if L != [] {
      MergeIdentical(key, L, 0);
    }
  }

  lemma {:induction false} MergeSymmetric(key: Key, A: seq<Cell>, B: seq<Cell>, i: int, j: int)
    requires 0 <= i < |A| && 0 <= j < |B|
    ensures Merge(key, A, B, i, j) == Merge(key, B, A, j, i)
    decreases |A| - i + |B| - j
  {
    var c := CompareKeys(key, A[i], B[j]);
    CompareKeysAntisymmetric(key, A[i], B[j]);
    if i + 1 < |A| && j + 1 < |B| {
      MergeSymmetric(key, A, B, TakeA(i, c), TakeB(j, c));
    }
  }

  /** The score does not depend on which line is A. */
  lemma DiffScoreSymmetric(key: Key, A: seq<Cell>, B: seq<Cell>)
    ensures DiffScore(key, A, B) == DiffScore(key, B, A)
  {
    if A != [] && B != [] {
      MergeSymmetric(key, A, B, 0, 0);
    }
  }

  lemma {:induction false} MergeAtLeastSizeGap(key: Key, A: seq<Cell>, B: seq<Cell>, i: int, j: int)
    requires 0 <= i < |A| && 0 <= j < |B|
    ensures Merge(key, A, B, i, j) >= (|A| - i) - (|B| - j)
    ensures Merge(key, A, B, i, j) >= (|B| - j) - (|A| - i)
    decreases |A| - i + |B| - j
  {
    var c := CompareKeys(key, A[i], B[j]);
    if i + 1 < |A| && j + 1 < |B| {
      MergeAtLeastSizeGap(key, A, B, TakeA(i, c), TakeB(j, c));
    }
  }

  /** Lines of different sizes score at least the difference of their sizes. */
  lemma DiffScoreAtLeastSizeGap(key: Key, A: seq<Cell>, B: seq<Cell>)
    ensures DiffScore(key, A, B) >= |A| - |B| && DiffScore(key, A, B) >= |B| - |A|
  {
    if A != [] && B != [] {
      MergeAtLeastSizeGap(key, A, B, 0, 0);
    }
  }

  /** `p.map(i -> i + start)` for every entry. */
  function Shift(r: seq<Pair<int>>, start: int): (s: seq<Pair<int>>)
    ensures |s| == |r|
    ensures forall k :: 0 <= k < |r| ==> s[k].IsPaired() == r[k].IsPaired() && s[k].IsOnlyA() == r[k].IsOnlyA() && s[k].IsOnlyB() == r[k].IsOnlyB()
  {
    seq(|r|, k requires 0 <= k < |r| => r[k].Map(i => i + start))
  }

  /** The in-order alignment of two lists of lines under `gapEvaluator` and `diffEvaluator`. */
  function AlignLines(linesA: seq<seq<Cell>>, linesB: seq<seq<Cell>>, key: Key): seq<Pair<int>>
  {
    SequentialCorrelation.Correlation(SequentialCorrelation.Problem(linesA, linesB, LineGap, (x, y) => DiffScore(key, x, y)))
  }

  lemma IntervalSnoc(lo: int, hi: int)
    requires lo <= hi
    ensures Interval(lo, hi + 1) == Interval(lo, hi) + [hi]
  {
  }

  /** The last entry of a shifted alignment and the shifted rest. */
  lemma ShiftLast(r: seq<Pair<int>>, start: int)
    requires r != []
    ensures Shift(r, start)[..|r| - 1] == Shift(r[..|r| - 1], start)
    ensures var e, f := r[|r| - 1], Shift(r, start)[|r| - 1];
      (f.a.Some? <==> e.a.Some?) && (f.b.Some? <==> e.b.Some?)
      && (e.a.Some? ==> f.a.value == e.a.value + start) && (e.b.Some? ==> f.b.value == e.b.value + start)
  {
    var s := Shift(r, start);
    assert s[|s| - 1] == r[|r| - 1].Map(x => x + start);
  }

  lemma {:induction false} ShiftAIndices(r: seq<Pair<int>>, i: nat, j: nat, start: int)
    requires SequentialCorrelation.IsAlignment(r, i, j)
    ensures SequentialCorrelation.AIndices(Shift(r, start)) == Interval(start, start + i)
    decreases |r|
  {
    if r != [] {
      var e, rest := r[|r| - 1], r[..|r| - 1];
      ShiftLast(r, start);
      if i > 0 && j > 0 && e == Pair(Some(i - 1), Some(j - 1)) && SequentialCorrelation.IsAlignment(rest, i - 1, j - 1) {
        ShiftAIndices(rest, i - 1, j - 1, start);
        IntervalSnoc(start, start + i - 1);
      } else if i > 0 && e == Pair(Some(i - 1), None) && SequentialCorrelation.IsAlignment(rest, i - 1, j) {
        ShiftAIndices(rest, i - 1, j, start);
        IntervalSnoc(start, start + i - 1);
      } else {
        ShiftAIndices(rest, i, j - 1, start);
      }
    }
  }

  lemma {:induction false} ShiftBIndices(r: seq<Pair<int>>, i: nat, j: nat, start: int)
    requires SequentialCorrelation.IsAlignment(r, i, j)
    ensures SequentialCorrelation.BIndices(Shift(r, start)) == Interval(start, start + j)
    decreases |r|
  {
    if r != [] {
      var e, rest := r[|r| - 1], r[..|r| - 1];
      ShiftLast(r, start);
      if i > 0 && j > 0 && e == Pair(Some(i - 1), Some(j - 1)) && SequentialCorrelation.IsAlignment(rest, i - 1, j - 1) {
        ShiftBIndices(rest, i - 1, j - 1, start);
        IntervalSnoc(start, start + j - 1);
      } else if i > 0 && e == Pair(Some(i - 1), None) && SequentialCorrelation.IsAlignment(rest, i - 1, j) {
        ShiftBIndices(rest, i - 1, j, start);
      } else {
        ShiftBIndices(rest, i, j - 1, start);
        IntervalSnoc(start, start + j - 1);
      }
    }
  }

  lemma ShiftedAlignment(linesA: seq<seq<Cell>>, linesB: seq<seq<Cell>>, key: Key, start: int, hiA: int, hiB: int)
    requires start + |linesA| == hiA + 1 && start + |linesB| == hiB + 1
    ensures SequentialCorrelation.AIndices(Shift(AlignLines(linesA, linesB, key), start)) == Interval(start, hiA + 1)
    ensures SequentialCorrelation.BIndices(Shift(AlignLines(linesA, linesB, key), start)) == Interval(start, hiB + 1)
  {
    var problem := SequentialCorrelation.Problem(linesA, linesB, LineGap, (x, y) => DiffScore(key, x, y));
    SequentialCorrelation.RouteIsAlignment(problem, |linesA|, |linesB|);
    ShiftAIndices(AlignLines(linesA, linesB, key), |linesA|, |linesB|, start);
    ShiftBIndices(AlignLines(linesA, linesB, key), |linesA|, |linesB|, start);
  }

  function Shifted(cellsA: seq<Cell>, cellsB: seq<Cell>, axis: Axis, key: Key, start: int): seq<Pair<int>>
  {
    Shift(AlignLines(Lines(cellsA, axis, key, start), Lines(cellsB, axis, key, start), key), start)
  }

  /** `strategy12`: the lines of both sets aligned in order, indices moved back by `start`. */
  function Strategy12(cellsA: seq<Cell>, cellsB: seq<Cell>, axis: Axis, key: Key): seq<Pair<int>>
  {
    Shifted(cellsA, cellsB, axis, key, UnionRange(cellsA, cellsB, axis).lo)
  }

  /** The indices present on side A are `lo, ..., hiA - 1` in order, and on side B `lo, ..., hiB - 1`. */
  predicate IndicesRunThrough(r: seq<Pair<int>>, lo: int, hiA: int, hiB: int) {
    SequentialCorrelation.AIndices(r) == Interval(lo, hiA) && SequentialCorrelation.BIndices(r) == Interval(lo, hiB)
  }

  /**
   * Each index of A from the union start to A's largest index appears exactly once in
   * `strategy12`'s result, ascending (paired or A-only), and likewise for B: the lines of each
   * side keep their order.
   */
  lemma Strategy12Indices(cellsA: seq<Cell>, cellsB: seq<Cell>, axis: Axis, key: Key)
    ensures IndicesRunThrough(Strategy12(cellsA, cellsB, axis, key), UnionRange(cellsA, cellsB, axis).lo,
      Range(cellsA, axis).hi + 1, Range(cellsB, axis).hi + 1)
  {
    var start := UnionRange(cellsA, cellsB, axis).lo;
    var linesA, linesB := Lines(cellsA, axis, key, start), Lines(cellsB, axis, key, start);
    ShiftedAlignment(linesA, linesB, key, start, Range(cellsA, axis).hi, Range(cellsB, axis).hi);
  }

  /** Every present index of `r` lies in `lo..hiA - 1` on side A and in `lo..hiB - 1` on side B. */
  predicate IndicesBetween(r: seq<Pair<int>>, lo: int, hiA: int, hiB: int) {
    forall k :: 0 <= k < |r| ==>
      (r[k].a.Some? ==> lo <= r[k].a.value < hiA) && (r[k].b.Some? ==> lo <= r[k].b.value < hiB)
  }

  lemma IntervalBounds(r: seq<Pair<int>>, lo: int, hiA: int, hiB: int)
    requires IndicesRunThrough(r, lo, hiA, hiB)
    ensures IndicesBetween(r, lo, hiA, hiB)
  {
    forall k | 0 <= k < |r|
      ensures (r[k].a.Some? ==> lo <= r[k].a.value < hiA) && (r[k].b.Some? ==> lo <= r[k].b.value < hiB)
    {
      SequentialCorrelation.PresentIndices(r, k);
    }
  }

  /** Every index in `strategy12`'s result lies between the union start and its side's largest index. */
  lemma Strategy12Bounds(cellsA: seq<Cell>, cellsB: seq<Cell>, axis: Axis, key: Key)
    ensures IndicesBetween(Strategy12(cellsA, cellsB, axis, key), UnionRange(cellsA, cellsB, axis).lo,
      Range(cellsA, axis).hi + 1, Range(cellsB, axis).hi + 1)
  {
    Strategy12Indices(cellsA, cellsB, axis, key);
    IntervalBounds(Strategy12(cellsA, cellsB, axis, key), UnionRange(cellsA, cellsB, axis).lo,
      Range(cellsA, axis).hi + 1, Range(cellsB, axis).hi + 1);
  }

  // ---------------------------------------------------------------------------------------
  // The six strategies.

  /** An `SStrategy`: positional identity or in-order line alignment. */
  datatype Strategy = Positional(axis: Axis) | Aligning(axis: Axis, key: Key)

  const RowStrategy0: Strategy := Positional(Rows)
  const ColumnStrategy0: Strategy := Positional(Columns)
  const RowStrategy1: Strategy := Aligning(Rows, ByColumn)
  const ColumnStrategy1: Strategy := Aligning(Columns, ByRow)
  const RowStrategy2: Strategy := Aligning(Rows, ByValue)
  const ColumnStrategy2: Strategy := Aligning(Columns, ByValue)

  /** `SStrategy.invoke(cellsA, cellsB)`. */
  function Apply(s: Strategy, cellsA: seq<Cell>, cellsB: seq<Cell>): seq<Pair<int>>
  {
    match s
    case Positional(axis) => Strategy0(cellsA, cellsB, axis)
    case Aligning(axis, key) => Strategy12(cellsA, cellsB, axis, key)
  }
}
