// Sheet comparison (diff/excel/SComparatorImpl1.java): choose a row strategy and a column
// strategy from the two gap flags, pair the rows and the columns of the two sheets separately,
// collect the rows and columns left over on one side, and compare the cells of every paired row
// at every paired column.

module SComparison {
  import opened Wrappers
  import opened Pairs
  import Cells
  import opened SStrategies
  import SequentialCorrelation

  type Cell = Cells.Cell

  datatype SComparator = SComparator(
    considerRowGaps: bool,
    considerColumnGaps: bool,
    rowStrategy: Strategy,
    columnStrategy: Strategy)

  /**
   * The constructor: rows are aligned (rather than matched by position) exactly when row gaps
   * are considered, and likewise columns; the lines are keyed by cell value when both flags are
   * set, and by the other axis's index otherwise.
   */
  function NewSComparator(considerRowGaps: bool, considerColumnGaps: bool): (c: SComparator)
    ensures c.considerRowGaps == considerRowGaps && c.considerColumnGaps == considerColumnGaps
    ensures c.rowStrategy.axis == Rows && c.columnStrategy.axis == Columns
    ensures c.rowStrategy.Aligning? <==> considerRowGaps
    ensures c.columnStrategy.Aligning? <==> considerColumnGaps
    ensures c.rowStrategy.Aligning? ==> c.rowStrategy.key == (if considerColumnGaps then ByValue else ByColumn)
    ensures c.columnStrategy.Aligning? ==> c.columnStrategy.key == (if considerRowGaps then ByValue else ByRow)
  {
    if considerRowGaps && considerColumnGaps then
      SComparator(considerRowGaps, considerColumnGaps, RowStrategy2, ColumnStrategy2)
    else if considerRowGaps then
      SComparator(considerRowGaps, considerColumnGaps, RowStrategy1, ColumnStrategy0)
    else if considerColumnGaps then
      SComparator(considerRowGaps, considerColumnGaps, RowStrategy0, ColumnStrategy1)
    else
      SComparator(considerRowGaps, considerColumnGaps, RowStrategy0, ColumnStrategy0)
  }

  // ---------------------------------------------------------------------------------------
  // Redundant rows and columns.

  /** The A index of every one-sided A entry, in entry order. */
  function RedundantA(r: seq<Pair<int>>): seq<int>
  {
    if r == [] then []
    else RedundantA(r[..|r| - 1]) + (if r[|r| - 1].IsOnlyA() then [r[|r| - 1].a.value] else [])
  }

  /** The B index of every one-sided B entry, in entry order. */
  function RedundantB(r: seq<Pair<int>>): seq<int>
  {
    if r == [] then []
    else RedundantB(r[..|r| - 1]) + (if r[|r| - 1].IsOnlyB() then [r[|r| - 1].b.value] else [])
  }

  /** An index is redundant on side A exactly when some entry holds it on side A alone. */
  lemma {:induction false} RedundantAExactly(r: seq<Pair<int>>)
    ensures forall x :: x in RedundantA(r) <==> exists k :: 0 <= k < |r| && r[k].IsOnlyA() && r[k].a.value == x
    ensures |RedundantA(r)| <= |r|
  {
    if r != [] {
      var rest := r[..|r| - 1];
      RedundantAExactly(rest);
      assert forall k :: 0 <= k < |rest| ==> rest[k] == r[k];
      forall x | exists k :: 0 <= k < |r| && r[k].IsOnlyA() && r[k].a.value == x
        ensures x in RedundantA(r)
      {
        var k :| 0 <= k < |r| && r[k].IsOnlyA() && r[k].a.value == x;
        if k < |rest| {
          assert rest[k] == r[k];
        }
      }
    }
  }

  /** An index is redundant on side B exactly when some entry holds it on side B alone. */
  lemma {:induction false} RedundantBExactly(r: seq<Pair<int>>)
    ensures forall x :: x in RedundantB(r) <==> exists k :: 0 <= k < |r| && r[k].IsOnlyB() && r[k].b.value == x
    ensures |RedundantB(r)| <= |r|
  {
    if r != [] {
      var rest := r[..|r| - 1];
      RedundantBExactly(rest);
      assert forall k :: 0 <= k < |rest| ==> rest[k] == r[k];
      forall x | exists k :: 0 <= k < |r| && r[k].IsOnlyB() && r[k].b.value == x
        ensures x in RedundantB(r)
      {
        var k :| 0 <= k < |r| && r[k].IsOnlyB() && r[k].b.value == x;
        if k < |rest| {
          assert rest[k] == r[k];
        }
      }
    }
  }

  // ---------------------------------------------------------------------------------------
  // Looking cells up by address.

  /** A cell position whose A1 address Java can write and read back as an `int`. */
  predicate InSheet(row: int, column: int) {
    0 <= row < INT_MAX && 0 <= column < INT_MAX
  }

  /** Every cell of the set lies at such a position. */
  predicate WithinSheet(cells: seq<Cell>) {
    forall c :: c in cells ==> InSheet(c.row, c.column)
  }

  /** Every present index of every entry lies in 0 .. INT_MAX - 1. */
  predicate Indices(r: seq<Pair<int>>) {
    forall k :: 0 <= k < |r| ==>
      (r[k].a.Some? ==> 0 <= r[k].a.value < INT_MAX) && (r[k].b.Some? ==> 0 <= r[k].b.value < INT_MAX)
  }

  /** No two different cells share an address: `Collectors.toMap` accepts the set. */
  predicate UniqueAddresses(cells: seq<Cell>) {
    forall i, j :: 0 <= i < |cells| && 0 <= j < |cells| && cells[i].Address() == cells[j].Address() ==> cells[i] == cells[j]
  }

  /** `map.get(address)` on the address-keyed map of the cells. */
  function Find(cells: seq<Cell>, address: string): (r: Option<Cell>)
    ensures r.Some? ==> r.value in cells && r.value.Address() == address
    ensures r.None? ==> forall c :: c in cells ==> c.Address() != address
  {
    if cells == [] then None
    else if cells[0].Address() == address then Some(cells[0])
    else Find(cells[1..], address)
  }

  /** `CellReplica.of(getAddress(row, column), "")`: the stand-in for a missing cell. */
  function Placeholder(row: int, column: int): (c: Cell)
    requires InSheet(row, column)
    ensures c == Cells.Cell(row, column, "")
  {
    Cells.OfOwnAddress(row, column, "");
    Cells.OfAddress(Some(Cells.GetAddress(row, column).value), Some("")).value
  }

  /** The value compared at a position: the cell's value, or "" when no cell is there. */
  function ValueAt(cells: seq<Cell>, row: int, column: int): string
    requires InSheet(row, column)
  {
    match Find(cells, Cells.GetAddress(row, column).value)
    case Some(c) => c.value
    case None => ""
  }

  /** The cell reported at a position: the cell itself, or the placeholder. */
  function CellAt(cells: seq<Cell>, row: int, column: int): Cell
    requires InSheet(row, column)
  {
    Find(cells, Cells.GetAddress(row, column).value).UnwrapOr(Placeholder(row, column))
  }

  /** Two in-sheet cells with the same address are at the same position. */
  lemma AddressInjective(c: Cell, row: int, column: int)
    requires InSheet(c.row, c.column) && InSheet(row, column)
    requires c.Address() == Cells.GetAddress(row, column).value
    ensures c.row == row && c.column == column
  {
    Cells.GetIndexOfAddress(c.row, c.column);
    Cells.GetIndexOfAddress(row, column);
  }

  /**
   * The cell reported at a position sits at that position and carries the compared value; it
   * is a cell of the set, or a placeholder where the set has no cell at that position.
   */
  lemma CellAtPosition(cells: seq<Cell>, row: int, column: int)
    requires WithinSheet(cells) && InSheet(row, column)
    ensures CellAt(cells, row, column).row == row && CellAt(cells, row, column).column == column
    ensures CellAt(cells, row, column).value == ValueAt(cells, row, column)
    ensures CellAt(cells, row, column) in cells || forall c :: c in cells ==> !(c.row == row && c.column == column)
  {
    var found := Find(cells, Cells.GetAddress(row, column).value);
    if found.Some? {
      AddressInjective(found.value, row, column);
    } else {
      forall c | c in cells
        ensures !(c.row == row && c.column == column)
      {
        assert c.Address() != Cells.GetAddress(row, column).value;
      }
    }
  }

  // ---------------------------------------------------------------------------------------
  // The cell comparison (`compareCells`).

  /** `rp` and `cp` are both paired and at positions with readable addresses. */
  predicate Comparable(rp: Pair<int>, cp: Pair<int>) {
    rp.IsPaired() && cp.IsPaired() && InSheet(rp.a.value, cp.a.value) && InSheet(rp.b.value, cp.b.value)
  }

  /** Paired row `rp` and paired column `cp` meet at cells with different values, reported as `p`. */
  predicate Emits(cellsA: seq<Cell>, cellsB: seq<Cell>, rp: Pair<int>, cp: Pair<int>, p: Pair<Cell>) {
    && Comparable(rp, cp)
    && ValueAt(cellsA, rp.a.value, cp.a.value) != ValueAt(cellsB, rp.b.value, cp.b.value)
    && p == Both(CellAt(cellsA, rp.a.value, cp.a.value), CellAt(cellsB, rp.b.value, cp.b.value))
  }

  /** The inner `map` for one paired row and one paired column: a pair, or null (nothing). */
  function CompareAt(cellsA: seq<Cell>, cellsB: seq<Cell>, rp: Pair<int>, cp: Pair<int>): (r: seq<Pair<Cell>>)
    requires Comparable(rp, cp)
    ensures |r| <= 1
    ensures forall p :: p in r <==> Emits(cellsA, cellsB, rp, cp, p)
  {
    var addrA, addrB := Cells.GetAddress(rp.a.value, cp.a.value).value, Cells.GetAddress(rp.b.value, cp.b.value).value;
    var cellA, cellB := Find(cellsA, addrA), Find(cellsB, addrB);
    var valueA := if cellA.None? then "" else cellA.value.value;
    var valueB := if cellB.None? then "" else cellB.value.value;
    if valueA == valueB then []
    else [Both(cellA.UnwrapOr(Placeholder(rp.a.value, cp.a.value)), cellB.UnwrapOr(Placeholder(rp.b.value, cp.b.value)))]
  }

  /** The pairs one paired row contributes, over the paired columns in column-entry order. */
  function RowDiffs(cellsA: seq<Cell>, cellsB: seq<Cell>, rp: Pair<int>, columnPairs: seq<Pair<int>>): seq<Pair<Cell>>
    requires rp.IsPaired() && 0 <= rp.a.value < INT_MAX && 0 <= rp.b.value < INT_MAX
    requires Indices(columnPairs)
  {
    if columnPairs == [] then []
    else
      (if columnPairs[0].IsPaired() then CompareAt(cellsA, cellsB, rp, columnPairs[0]) else [])
      + RowDiffs(cellsA, cellsB, rp, columnPairs[1..])
  }

  /** `compareCells`: the row entries' contributions, in row-entry order. */
  function DiffCells(cellsA: seq<Cell>, cellsB: seq<Cell>, rowPairs: seq<Pair<int>>, columnPairs: seq<Pair<int>>): seq<Pair<Cell>>
    requires Indices(rowPairs) && Indices(columnPairs)
  {
    if rowPairs == [] then []
    else
      (if rowPairs[0].IsPaired() then RowDiffs(cellsA, cellsB, rowPairs[0], columnPairs) else [])
      + DiffCells(cellsA, cellsB, rowPairs[1..], columnPairs)
  }

  lemma {:induction false} RowDiffsExactly(cellsA: seq<Cell>, cellsB: seq<Cell>, rp: Pair<int>, columnPairs: seq<Pair<int>>)
    requires rp.IsPaired() && 0 <= rp.a.value < INT_MAX && 0 <= rp.b.value < INT_MAX
    requires Indices(columnPairs)
    ensures forall p :: p in RowDiffs(cellsA, cellsB, rp, columnPairs) <==>
      exists j :: 0 <= j < |columnPairs| && Emits(cellsA, cellsB, rp, columnPairs[j], p)
  {
    if columnPairs != [] {
      var tail := columnPairs[1..];
      RowDiffsExactly(cellsA, cellsB, rp, tail);
      forall p | exists j :: 0 <= j < |columnPairs| && Emits(cellsA, cellsB, rp, columnPairs[j], p)
        ensures p in RowDiffs(cellsA, cellsB, rp, columnPairs)
      {
        var j :| 0 <= j < |columnPairs| && Emits(cellsA, cellsB, rp, columnPairs[j], p);
        if j > 0 {
          assert columnPairs[j] == tail[j - 1];
        }
      }
      forall p | p in RowDiffs(cellsA, cellsB, rp, columnPairs)
        ensures exists j :: 0 <= j < |columnPairs| && Emits(cellsA, cellsB, rp, columnPairs[j], p)
      {
        if p in RowDiffs(cellsA, cellsB, rp, tail) {
          var j :| 0 <= j < |tail| && Emits(cellsA, cellsB, rp, tail[j], p);
          assert columnPairs[j + 1] == tail[j];
        } else {
          assert Emits(cellsA, cellsB, rp, columnPairs[0], p);
        }
      }
    }
  }

  /**
   * A pair is reported exactly for each paired row entry and paired column entry whose cells
   * differ in value (a missing cell counting as ""), and it is the pair of those two cells.
   * Unpaired rows and columns are never compared.
   */
  lemma {:induction false} DiffCellsExactly(cellsA: seq<Cell>, cellsB: seq<Cell>, rowPairs: seq<Pair<int>>, columnPairs: seq<Pair<int>>)
    requires Indices(rowPairs) && Indices(columnPairs)
    ensures forall p :: p in DiffCells(cellsA, cellsB, rowPairs, columnPairs) <==>
      exists i, j :: 0 <= i < |rowPairs| && 0 <= j < |columnPairs| && Emits(cellsA, cellsB, rowPairs[i], columnPairs[j], p)
  {
    if rowPairs != [] {
      var tail := rowPairs[1..];
      DiffCellsExactly(cellsA, cellsB, tail, columnPairs);
      if rowPairs[0].IsPaired() {
        RowDiffsExactly(cellsA, cellsB, rowPairs[0], columnPairs);
      }
      forall p | exists i, j :: 0 <= i < |rowPairs| && 0 <= j < |columnPairs| && Emits(cellsA, cellsB, rowPairs[i], columnPairs[j], p)
        ensures p in DiffCells(cellsA, cellsB, rowPairs, columnPairs)
      {
        var i, j :| 0 <= i < |rowPairs| && 0 <= j < |columnPairs| && Emits(cellsA, cellsB, rowPairs[i], columnPairs[j], p);
        if i > 0 {
          assert rowPairs[i] == tail[i - 1];
        }
      }
      forall p | p in DiffCells(cellsA, cellsB, rowPairs, columnPairs)
        ensures exists i, j :: 0 <= i < |rowPairs| && 0 <= j < |columnPairs| && Emits(cellsA, cellsB, rowPairs[i], columnPairs[j], p)
      {
        if p in DiffCells(cellsA, cellsB, tail, columnPairs) {
          var i, j :| 0 <= i < |tail| && 0 <= j < |columnPairs| && Emits(cellsA, cellsB, tail[i], columnPairs[j], p);
          assert rowPairs[i + 1] == tail[i];
        } else {
          var j :| 0 <= j < |columnPairs| && Emits(cellsA, cellsB, rowPairs[0], columnPairs[j], p);
        }
      }
    }
  }

  /**
   * Every reported pair is paired, sits at its row and column on each side, and holds two
   * different values, each a cell of its sheet or a placeholder with value "".
   */
  lemma EmittedShape(cellsA: seq<Cell>, cellsB: seq<Cell>, rp: Pair<int>, cp: Pair<int>, p: Pair<Cell>)
    requires WithinSheet(cellsA) && WithinSheet(cellsB)
    requires Emits(cellsA, cellsB, rp, cp, p)
    ensures p.IsPaired()
    ensures p.a.value.row == rp.a.value && p.a.value.column == cp.a.value
    ensures p.b.value.row == rp.b.value && p.b.value.column == cp.b.value
    ensures p.a.value.value != p.b.value.value
    ensures p.a.value in cellsA || p.a.value.value == ""
    ensures p.b.value in cellsB || p.b.value.value == ""
  {
    CellAtPosition(cellsA, rp.a.value, cp.a.value);
    CellAtPosition(cellsB, rp.b.value, cp.b.value);
  }

  /** Column entries contribute in their own order. */
  lemma {:induction false} RowDiffsAppend(cellsA: seq<Cell>, cellsB: seq<Cell>, rp: Pair<int>, cols1: seq<Pair<int>>, cols2: seq<Pair<int>>)
    requires rp.IsPaired() && 0 <= rp.a.value < INT_MAX && 0 <= rp.b.value < INT_MAX
    requires Indices(cols1) && Indices(cols2)
    ensures Indices(cols1 + cols2)
    ensures RowDiffs(cellsA, cellsB, rp, cols1 + cols2) == RowDiffs(cellsA, cellsB, rp, cols1) + RowDiffs(cellsA, cellsB, rp, cols2)
  {
    if cols1 != [] {
      assert (cols1 + cols2)[1..] == cols1[1..] + cols2;
      RowDiffsAppend(cellsA, cellsB, rp, cols1[1..], cols2);
    } else {
      assert cols1 + cols2 == cols2;
    }
  }

  /**
   * The order of `compareCells`: all pairs of an earlier row entry come before those of a later
   * one, since the ordered stream is collected into a list.
   */
  lemma {:induction false} DiffCellsAppend(cellsA: seq<Cell>, cellsB: seq<Cell>, rows1: seq<Pair<int>>, rows2: seq<Pair<int>>, columnPairs: seq<Pair<int>>)
    requires Indices(rows1) && Indices(rows2) && Indices(columnPairs)
    ensures Indices(rows1 + rows2)
    ensures DiffCells(cellsA, cellsB, rows1 + rows2, columnPairs) == DiffCells(cellsA, cellsB, rows1, columnPairs) + DiffCells(cellsA, cellsB, rows2, columnPairs)
  {
    if rows1 != [] {
      assert (rows1 + rows2)[1..] == rows1[1..] + rows2;
      DiffCellsAppend(cellsA, cellsB, rows1[1..], rows2, columnPairs);
    } else {
      assert rows1 + rows2 == rows2;
    }
  }

  // ---------------------------------------------------------------------------------------
  // The indices the strategies produce.

  lemma HighBelowIntMax(cells: seq<Cell>, axis: Axis)
    requires WithinSheet(cells)
    ensures Range(cells, axis).hi < INT_MAX
  {
    if cells != [] {
      RangeAttained(cells, axis);
    }
  }

  /** Both strategies pair only indices between 0 and the largest index of a cell. */
  lemma StrategyIndices(s: Strategy, cellsA: seq<Cell>, cellsB: seq<Cell>)
    requires WithinSheet(cellsA) && WithinSheet(cellsB)
    ensures Indices(Apply(s, cellsA, cellsB))
  {
    HighBelowIntMax(cellsA, s.axis);
    HighBelowIntMax(cellsB, s.axis);
    if s.Aligning? {
      AlignedIndices(cellsA, cellsB, s.axis, s.key);
    } else {
      PositionalIndices(cellsA, cellsB, s.axis);
    }
  }

  lemma PositionalIndices(cellsA: seq<Cell>, cellsB: seq<Cell>, axis: Axis)
    requires Range(cellsA, axis).hi < INT_MAX && Range(cellsB, axis).hi < INT_MAX
    ensures Indices(Strategy0(cellsA, cellsB, axis))
  {
  }

  lemma AlignedIndices(cellsA: seq<Cell>, cellsB: seq<Cell>, axis: Axis, key: Key)
    requires Range(cellsA, axis).hi < INT_MAX && Range(cellsB, axis).hi < INT_MAX
    ensures Indices(Strategy12(cellsA, cellsB, axis, key))
  {
    Strategy12Bounds(cellsA, cellsB, axis, key);
    assert 0 <= UnionRange(cellsA, cellsB, axis).lo;
  }

  // ---------------------------------------------------------------------------------------
  // `compare`.

  /** What `compare` hands to the result: the two flags, the four redundant lists and the diff pairs. */
  datatype Comparison = Comparison(
    considerRowGaps: bool,
    considerColumnGaps: bool,
    redundantRowsA: seq<int>,
    redundantRowsB: seq<int>,
    redundantColumnsA: seq<int>,
    redundantColumnsB: seq<int>,
    diffCells: seq<Pair<Cell>>)

  /**
   * `compare`: NullPointer for a null cell set, IllegalState when a set holds two different
   * cells with one address; otherwise the flags, the one-sided rows and columns of each side
   * in pairing order, and the differing cells.
   */
  function Compare(c: SComparator, cellsA: Option<seq<Cell>>, cellsB: Option<seq<Cell>>): (r: Result<Comparison>)
    requires cellsA.Some? ==> WithinSheet(cellsA.value)
    requires cellsB.Some? ==> WithinSheet(cellsB.value)
    ensures cellsA.None? || cellsB.None? ==> r == Err(NullPointer)
    ensures cellsA.Some? && cellsB.Some? ==>
      (r.Ok? <==> UniqueAddresses(cellsA.value) && UniqueAddresses(cellsB.value))
    ensures cellsA.Some? && cellsB.Some? && r.Err? ==> r.error == IllegalState
    ensures r.Ok? ==> r.value.considerRowGaps == c.considerRowGaps && r.value.considerColumnGaps == c.considerColumnGaps
    ensures r.Ok? ==>
      var rowPairs, columnPairs := Apply(c.rowStrategy, cellsA.value, cellsB.value), Apply(c.columnStrategy, cellsA.value, cellsB.value);
      && Indices(rowPairs) && Indices(columnPairs)
      && r.value.redundantRowsA == RedundantA(rowPairs) && r.value.redundantRowsB == RedundantB(rowPairs)
      && r.value.redundantColumnsA == RedundantA(columnPairs) && r.value.redundantColumnsB == RedundantB(columnPairs)
      && r.value.diffCells == DiffCells(cellsA.value, cellsB.value, rowPairs, columnPairs)
  {
    if cellsA.None? || cellsB.None? then Err(NullPointer)
    else
      var A, B := cellsA.value, cellsB.value;
      var rowPairs, columnPairs := Apply(c.rowStrategy, A, B), Apply(c.columnStrategy, A, B);
      if !UniqueAddresses(A) || !UniqueAddresses(B) then Err(IllegalState)
      else
        StrategyIndices(c.rowStrategy, A, B);
        StrategyIndices(c.columnStrategy, A, B);
        Ok(Comparison(
          c.considerRowGaps, c.considerColumnGaps,
          RedundantA(rowPairs), RedundantB(rowPairs),
          RedundantA(columnPairs), RedundantB(columnPairs),
          DiffCells(A, B, rowPairs, columnPairs)))
  }

  /** A pairing with no one-sided entry leaves no row or column redundant. */
  lemma {:induction false} AllPairedNoRedundancy(r: seq<Pair<int>>)
    requires forall k :: 0 <= k < |r| ==> r[k].IsPaired()
    ensures RedundantA(r) == [] && RedundantB(r) == []
  {
    if r != [] {
      var rest := r[..|r| - 1];
      assert forall k :: 0 <= k < |rest| ==> rest[k] == r[k];
      AllPairedNoRedundancy(rest);
      assert r[|r| - 1].IsPaired();
    }
  }

  /**
   * Matching by position pairs every row (column) of the union range with itself: no row
   * (column) is redundant.
   */
  lemma PositionalHasNoRedundancy(cellsA: seq<Cell>, cellsB: seq<Cell>, axis: Axis)
    ensures RedundantA(Strategy0(cellsA, cellsB, axis)) == []
    ensures RedundantB(Strategy0(cellsA, cellsB, axis)) == []
  {
    Strategy0Shape(cellsA, cellsB, axis);
    AllPairedNoRedundancy(Strategy0(cellsA, cellsB, axis));
  }
}
