// The result of comparing two sheets (excel/SResult.java): the redundant rows and columns and
// the differing cells, as a whole and split into one `Piece` per sheet, with the summary and
// detail texts. Lists are sequence values, so the defensive copies of the source hold by
// construction.

module SResults {
  import opened Wrappers
  import opened Pairs
  import Cells
  import JavaText

  type Cell = Cells.Cell

  /** `System.lineSeparator()`, fixed to a line feed. */
  const BR: string := "\n"

  /** What one sheet contributes to the result. */
  datatype Piece = Piece(redundantRows: seq<int>, redundantColumns: seq<int>, diffCells: seq<Cell>)

  datatype SResult = SResult(
    redundantRows: Option<Pair<seq<int>>>,
    redundantColumns: Option<Pair<seq<int>>>,
    diffCells: seq<Pair<Cell>>,
    considerRowGaps: bool,
    considerColumnGaps: bool,
    pieces: Pair<Piece>)
  {
    /** What every result built by `of` satisfies. */
    predicate Valid() {
      && pieces.IsPaired()
      && considerRowGaps == redundantRows.Some?
      && considerColumnGaps == redundantColumns.Some?
      && |pieces.a.value.diffCells| == |diffCells| && |pieces.b.value.diffCells| == |diffCells|
    }
  }

  /** `diffCells.stream().map(Pair::a)` (or `Pair::b`): NoSuchElement at an absent side. */
  function Project(ps: seq<Pair<Cell>>, side: Side): (r: Result<seq<Cell>>)
    ensures r.Ok? <==> forall k :: 0 <= k < |ps| ==> ps[k].OptionOf(side).Some?
    ensures r.Err? ==> r.error == NoSuchElement
    ensures r.Ok? ==> |r.value| == |ps| && forall k :: 0 <= k < |ps| ==> r.value[k] == ps[k].OptionOf(side).value
  {
    if ps == [] then Ok([])
    else
      var init :- Project(ps[..|ps| - 1], side);
      var last := ps[|ps| - 1].OptionOf(side);
      if last.None? then Err(NoSuchElement)
      else
        assert forall k :: 0 <= k < |ps| - 1 ==> ps[..|ps| - 1][k] == ps[k];
        Ok(init + [last.value])
  }

  /** The private constructor; the two piece lists fail with NoSuchElement at an unpaired entry. */
  function Build(rowsA: Option<seq<int>>, rowsB: Option<seq<int>>, columnsA: Option<seq<int>>, columnsB: Option<seq<int>>, diffCells: seq<Pair<Cell>>): (r: Result<SResult>)
    ensures r.Ok? <==> forall k :: 0 <= k < |diffCells| ==> diffCells[k].IsPaired()
    ensures r.Err? ==> r.error == NoSuchElement
  {
    var cellsA :- Project(diffCells, A);
    var cellsB :- Project(diffCells, B);
    Ok(SResult(
      if rowsA.None? then None else Some(Both(rowsA.value, rowsB.UnwrapOr([]))),
      if columnsA.None? then None else Some(Both(columnsA.value, columnsB.UnwrapOr([]))),
      diffCells,
      rowsA.Some?,
      columnsA.Some?,
      Both(
        Piece(rowsA.UnwrapOr([]), columnsA.UnwrapOr([]), cellsA),
        Piece(rowsB.UnwrapOr([]), columnsB.UnwrapOr([]), cellsB))))
  }

  /**
   * `SResult.of`: NullPointer without diff cells, IllegalArgument when exactly one side of the
   * rows (or of the columns) is null, NoSuchElement when a diff entry is not paired; otherwise
   * gaps count as considered exactly where lists were given, each piece holds its side's lists
   * (empty for null), and the pieces' cell lists are the two sides of the diff entries.
   */
  function Of(rowsA: Option<seq<int>>, rowsB: Option<seq<int>>, columnsA: Option<seq<int>>, columnsB: Option<seq<int>>, diffCells: Option<seq<Pair<Cell>>>): (r: Result<SResult>)
    ensures diffCells.None? ==> r == Err(NullPointer)
    ensures diffCells.Some? && (rowsA.None? != rowsB.None? || columnsA.None? != columnsB.None?) ==> r == Err(IllegalArgument)
    ensures diffCells.Some? && rowsA.None? == rowsB.None? && columnsA.None? == columnsB.None? ==>
      (r.Ok? <==> forall k :: 0 <= k < |diffCells.value| ==> diffCells.value[k].IsPaired())
    ensures r.Err? && r.error != NullPointer && r.error != IllegalArgument ==> r.error == NoSuchElement
    ensures r.Ok? ==> r.value.Valid() && r.value.diffCells == diffCells.value
    ensures r.Ok? ==> r.value.considerRowGaps == rowsA.Some? && r.value.considerColumnGaps == columnsA.Some?
    ensures r.Ok? ==> r.value.redundantRows == (if rowsA.Some? then Some(Pair(rowsA, rowsB)) else None)
    ensures r.Ok? ==> r.value.redundantColumns == (if columnsA.Some? then Some(Pair(columnsA, columnsB)) else None)
    ensures r.Ok? ==>
      var a, b := r.value.pieces.a.value, r.value.pieces.b.value;
      && a.redundantRows == rowsA.UnwrapOr([]) && b.redundantRows == rowsB.UnwrapOr([])
      && a.redundantColumns == columnsA.UnwrapOr([]) && b.redundantColumns == columnsB.UnwrapOr([])
      && forall k :: 0 <= k < |diffCells.value| ==>
        a.diffCells[k] == diffCells.value[k].a.value && b.diffCells[k] == diffCells.value[k].b.value
  {
    if diffCells.None? then Err(NullPointer)
    else if rowsA.None? != rowsB.None? || columnsA.None? != columnsB.None? then Err(IllegalArgument)
    else Build(rowsA, rowsB, columnsA, columnsB, diffCells.value)
  }

  // ---------------------------------------------------------------------------------------
  // The summary.

  const NONE: string := "（なし）"

  /** A count with its unit, or "（なし）" for an empty list. */
  function Count(n: nat, unit: string): string {
    if n == 0 then NONE else JavaText.NatToString(n) + unit
  }

  const ROW_HEAD: string := "\t余剰行 : "
  const COLUMN_HEAD: string := "\t余剰列 : "
  const CELL_HEAD: string := "\t差分セル : "

  function RowSummary(p: Pair<Piece>): (r: string)
    requires p.IsPaired()
    ensures |r| > 3 && r[1] == '余' && r[3] == '行'
  {
    var tail := "シートA - " + Count(|p.a.value.redundantRows|, "行") + ", シートB - " + Count(|p.b.value.redundantRows|, "行") + BR;
    KeepsHead(ROW_HEAD, tail);
    ROW_HEAD + tail
  }

  function ColumnSummary(p: Pair<Piece>): (r: string)
    requires p.IsPaired()
    ensures |r| > 3 && r[1] == '余' && r[3] == '列'
  {
    var tail := "シートA - " + Count(|p.a.value.redundantColumns|, "列") + ", シートB - " + Count(|p.b.value.redundantColumns|, "列") + BR;
    KeepsHead(COLUMN_HEAD, tail);
    COLUMN_HEAD + tail
  }

  function CellSummary(p: Pair<Piece>): (r: string)
    requires p.IsPaired()
    ensures |r| > 3 && r[1] == '差'
  {
    var tail := (if p.a.value.diffCells == [] then NONE else "各シート" + JavaText.NatToString(|p.a.value.diffCells|) + "セル") + BR;
    KeepsHead(CELL_HEAD, tail);
    CELL_HEAD + tail
  }

  /** A line starts with its head's first four characters. */
  lemma KeepsHead(head: string, tail: string)
    requires |head| > 3
    ensures |head + tail| > 3 && (head + tail)[1] == head[1] && (head + tail)[3] == head[3]
  {
  }

  /** `getSummary`: the row line if row gaps count, the column line if column gaps count, the diff-cell line. */
  function GetSummary(s: SResult): string
    requires s.Valid()
  {
    (if s.considerRowGaps then RowSummary(s.pieces) else "")
    + (if s.considerColumnGaps then ColumnSummary(s.pieces) else "")
    + CellSummary(s.pieces)
  }

  /** A text that differs from `p` at position k does not start with `p`, whatever follows it. */
  lemma NotPrefixAt(x: string, y: string, p: string, k: nat)
    requires k < |x| && k < |p| && x[k] != p[k]
    ensures !JavaText.StartsWith(x + y, p)
  {
    if |p| <= |x + y| {
      assert (x + y)[..|p|][k] == x[k];
    }
  }

  /** The line-choice argument of `getSummary`, for any three lines told apart by their first characters. */
  lemma OptionalLines(row: string, column: string, cell: string, hasRow: bool, hasColumn: bool)
    requires |row| > 3 && |column| > 3 && |cell| > 3
    requires row[3] != column[3] && row[1] != cell[1] && column[1] != cell[1]
    ensures var r := (if hasRow then row else "") + (if hasColumn then column else "") + cell;
      && (JavaText.StartsWith(r, row) <==> hasRow)
      && (JavaText.StartsWith(if hasRow then r[|row|..] else r, column) <==> hasColumn)
      && JavaText.EndsWith(r, cell)
  {
    var rows := if hasRow then row else "";
    var columns := if hasColumn then column else "";
    var r := rows + columns + cell;
    assert r == rows + (columns + cell);
    if hasColumn {
      NotPrefixAt(column, cell, row, 3);
    } else {
      assert columns + cell == cell + [];
      NotPrefixAt(cell, [], row, 1);
    }
    assert cell == cell + [];
    NotPrefixAt(cell, [], column, 1);
    if hasRow {
      assert r[..|row|] == row;
      assert r[|row|..] == columns + cell;
    }
    assert r[|r| - |cell|..] == cell;
  }

  /**
   * The summary opens with the row line exactly when row gaps are considered; what follows
   * opens with the column line exactly when column gaps are considered; the diff-cell line
   * always closes it.
   */
  lemma SummaryLines(s: SResult)
    requires s.Valid()
    ensures JavaText.StartsWith(GetSummary(s), RowSummary(s.pieces)) <==> s.considerRowGaps
    ensures var rest := if s.considerRowGaps then GetSummary(s)[|RowSummary(s.pieces)|..] else GetSummary(s);
      JavaText.StartsWith(rest, ColumnSummary(s.pieces)) <==> s.considerColumnGaps
    ensures JavaText.EndsWith(GetSummary(s), CellSummary(s.pieces))
  {
    OptionalLines(RowSummary(s.pieces), ColumnSummary(s.pieces), CellSummary(s.pieces), s.considerRowGaps, s.considerColumnGaps);
  }

  // ---------------------------------------------------------------------------------------
  // The detail.

  /** `Pair.Side.values()`, in declaration order. */
  const SIDES: seq<Side> := [A, B]

  /** The side's name as `toString` writes it. */
  function SideName(side: Side): string {
    if side.A? then "A" else "B"
  }

  /** The piece of one side; every valid result has both. */
  function PieceOf(s: SResult, side: Side): Piece
    requires s.Valid()
  {
    s.pieces.OptionOf(side).value
  }

  const NONE_LINE: string := "\t\t" + NONE + BR

  /** The line of one redundant row, numbered from 1. */
  const ROW_MARK: string := "\t\t行"

  function RowLine(row: int): string {
    ROW_MARK + JavaText.IntToString(row + 1) + BR
  }

  /** One line per redundant row. */
  function RowLines(rows: seq<int>): string
  {
    if rows == [] then "" else RowLines(rows[..|rows| - 1]) + RowLine(rows[|rows| - 1])
  }

  /** The line of one redundant column, by name; IllegalArgument at a negative index. */
  function ColumnLine(column: int): (r: Result<string>)
    ensures r.Err? <==> column < 0
    ensures r.Err? ==> r.error == IllegalArgument
  {
    var name :- Cells.ColumnName(column);
    Ok("\t\t" + name + "列" + BR)
  }

  /** One line per redundant column. */
  function ColumnLines(columns: seq<int>): (r: Result<string>)
    ensures r.Err? ==> r.error == IllegalArgument
  {
    if columns == [] then Ok("")
    else
      var init :- ColumnLines(columns[..|columns| - 1]);
      var line :- ColumnLine(columns[|columns| - 1]);
      Ok(init + line)
  }

  function RowsHead(side: Side): string {
    BR + "\tシート" + SideName(side) + "上の余剰行 :" + BR
  }

  function ColumnsHead(side: Side): string {
    BR + "\tシート" + SideName(side) + "上の余剰列 :" + BR
  }

  function RowsSection(p: Piece, side: Side): string {
    RowsHead(side) + (if p.redundantRows == [] then NONE_LINE else RowLines(p.redundantRows))
  }

  function ColumnsSection(p: Piece, side: Side): (r: Result<string>)
    ensures r.Err? ==> r.error == IllegalArgument
  {
    var lines :- if p.redundantColumns == [] then Ok(NONE_LINE) else ColumnLines(p.redundantColumns);
    Ok(ColumnsHead(side) + lines)
  }

  /** The row sections of the first n sides. */
  function RowsPart(s: SResult, n: nat): string
    requires s.Valid() && n <= |SIDES|
  {
    if n == 0 then "" else RowsPart(s, n - 1) + RowsSection(PieceOf(s, SIDES[n - 1]), SIDES[n - 1])
  }

  /** The column sections of the first n sides. */
  function ColumnsPart(s: SResult, n: nat): (r: Result<string>)
    requires s.Valid() && n <= |SIDES|
    ensures r.Err? ==> r.error == IllegalArgument
  {
    if n == 0 then Ok("")
    else
      var init :- ColumnsPart(s, n - 1);
      var section :- ColumnsSection(PieceOf(s, SIDES[n - 1]), SIDES[n - 1]);
      Ok(init + section)
  }

  /** The block of the i-th A cell and the i-th B cell. */
  function CellBlock(cellA: Cell, cellB: Cell): string {
    BR + "\t\tセルA : " + cellA.ToString() + BR + "\t\tセルB : " + cellB.ToString() + BR
  }

  /** The A cells and the B cells, taken together in order. */
  function CellLines(cellsA: seq<Cell>, cellsB: seq<Cell>): string
    requires |cellsA| == |cellsB|
  {
    if cellsA == [] then ""
    else CellLines(cellsA[..|cellsA| - 1], cellsB[..|cellsB| - 1]) + CellBlock(cellsA[|cellsA| - 1], cellsB[|cellsB| - 1])
  }

  const CELLS_HEAD: string := BR + "\t差分セル :"

  function CellsPart(s: SResult): string
    requires s.Valid()
  {
    var cellsA, cellsB := PieceOf(s, A).diffCells, PieceOf(s, B).diffCells;
    CELLS_HEAD + (if cellsA == [] then BR + NONE_LINE else CellLines(cellsA, cellsB))
  }

  /** What `getDetail` returns: the rows part if row gaps count, the columns part if column gaps count, the cells part. */
  function Detail(s: SResult): Result<string>
    requires s.Valid()
  {
    var columns :- if s.considerColumnGaps then ColumnsPart(s, |SIDES|) else Ok("");
    Ok((if s.considerRowGaps then RowsPart(s, |SIDES|) else "") + columns + CellsPart(s))
  }

  lemma RowLinesSnoc(rows: seq<int>, k: nat)
    requires k < |rows|
    ensures RowLines(rows[..k + 1]) == RowLines(rows[..k]) + RowLine(rows[k])
  {
    assert rows[..k + 1][..k] == rows[..k];
  }

  method AppendRowLines(str: string, rows: seq<int>) returns (r: string)
    ensures r == str + RowLines(rows)
  {
    var lines := "";
    var k := 0;
    while k < |rows|
      invariant k <= |rows|
      invariant lines == RowLines(rows[..k])
    {
      RowLinesSnoc(rows, k);
      lines := lines + RowLine(rows[k]);
      k := k + 1;
    }
    assert rows[..k] == rows;
    r := str + lines;
  }

  method AppendColumnLines(str: string, columns: seq<int>) returns (r: Result<string>)
    ensures r.Ok? <==> ColumnLines(columns).Ok?
    ensures r.Ok? ==> r.value == str + ColumnLines(columns).value
    ensures r.Err? ==> r.error == IllegalArgument
  {
    var acc := str;
    var k := 0;
    while k < |columns|
      invariant k <= |columns|
      invariant ColumnLines(columns[..k]).Ok? && acc == str + ColumnLines(columns[..k]).value
    {
      var line := ColumnLine(columns[k]);
      if line.Err? {
        ColumnLinesFailure(columns, k);
        return Err(line.error);
      }
      ColumnLinesStep(columns, k);
      acc := acc + line.value;
      k := k + 1;
    }
    assert columns[..k] == columns;
    return Ok(acc);
  }

  /** One more column adds its line. */
  lemma ColumnLinesStep(columns: seq<int>, k: int)
    requires 0 <= k < |columns| && ColumnLines(columns[..k]).Ok? && ColumnLine(columns[k]).Ok?
    ensures ColumnLines(columns[..k + 1]) == Ok(ColumnLines(columns[..k]).value + ColumnLine(columns[k]).value)
  {
    assert columns[..k + 1][..k] == columns[..k];
  }

  /** The column lines fail, with IllegalArgument, once any column index is negative. */
  lemma {:induction false} ColumnLinesFailure(columns: seq<int>, k: int)
    requires 0 <= k < |columns| && columns[k] < 0
    ensures ColumnLines(columns) == Err(IllegalArgument)
  {
    var init := columns[..|columns| - 1];
    if k < |columns| - 1 {
      ColumnLinesFailure(init, k);
    }
  }

  lemma {:induction false} ColumnLinesSuccess(columns: seq<int>)
    requires forall k :: 0 <= k < |columns| ==> columns[k] >= 0
    ensures ColumnLines(columns).Ok?
  {
    if columns != [] {
      ColumnLinesSuccess(columns[..|columns| - 1]);
    }
  }

  /** The loop over both sides writing their redundant rows. */
  method WriteRows(s: SResult) returns (part: string)
    requires s.Valid()
    ensures part == RowsPart(s, |SIDES|)
  {
    part := "";
    var i := 0;
    while i < |SIDES|
      invariant i <= |SIDES|
      invariant part == RowsPart(s, i)
    {
      var side := SIDES[i];
      var rows := PieceOf(s, side).redundantRows;
      var section := RowsHead(side);
      if rows == [] {
        section := section + NONE_LINE;
      } else {
        section := AppendRowLines(section, rows);
      }
      part := part + section;
      i := i + 1;
    }
  }

  /** The loop over both sides writing their redundant columns; IllegalArgument at a negative one. */
  method WriteColumns(s: SResult) returns (part: Result<string>)
    requires s.Valid()
    ensures part == ColumnsPart(s, |SIDES|)
  {
    var text := "";
    var i := 0;
    while i < |SIDES|
      invariant i <= |SIDES|
      invariant ColumnsPart(s, i) == Ok(text)
    {
      var side := SIDES[i];
      var columns := PieceOf(s, side).redundantColumns;
      var section := ColumnsHead(side);
      if columns == [] {
        section := section + NONE_LINE;
      } else {
        var appended := AppendColumnLines(section, columns);
        if appended.Err? {
          ColumnsPartFailure(s, i + 1);
          return Err(appended.error);
        }
        section := appended.value;
      }
      text := text + section;
      i := i + 1;
    }
    return Ok(text);
  }

  /** The diff cells of A and B, walked with two iterators in lockstep. */
  method WriteCells(s: SResult) returns (part: string)
    requires s.Valid()
    ensures part == CellsPart(s)
  {
    var cellsA, cellsB := PieceOf(s, A).diffCells, PieceOf(s, B).diffCells;
    part := CELLS_HEAD;
    if cellsA == [] {
      part := part + (BR + NONE_LINE);
    } else {
      var blocks := "";
      var k := 0;
      while k < |cellsA|
        invariant k <= |cellsA|
        invariant blocks == CellLines(cellsA[..k], cellsB[..k])
      {
        CellLinesSnoc(cellsA, cellsB, k);
        blocks := blocks + CellBlock(cellsA[k], cellsB[k]);
        k := k + 1;
      }
      assert cellsA[..k] == cellsA && cellsB[..k] == cellsB;
      part := part + blocks;
    }
  }

  /**
   * `getDetail`: the redundant rows of each side numbered from 1, the redundant columns of each
   * side by name, then the diff cells of A and B in lockstep.
   */
  method GetDetail(s: SResult) returns (r: Result<string>)
    requires s.Valid()
    ensures r == Detail(s)
  {
    var rowsPart := "";
    if s.considerRowGaps {
      rowsPart := WriteRows(s);
    }
    var columnsPart := "";
    if s.considerColumnGaps {
      var written := WriteColumns(s);
      if written.Err? {
        return Err(written.error);
      }
      columnsPart := written.value;
    }
    var cellsPart := WriteCells(s);
    r := Ok(rowsPart + columnsPart + cellsPart);
  }

  lemma CellLinesSnoc(cellsA: seq<Cell>, cellsB: seq<Cell>, k: nat)
    requires |cellsA| == |cellsB| && k < |cellsA|
    ensures CellLines(cellsA[..k + 1], cellsB[..k + 1]) == CellLines(cellsA[..k], cellsB[..k]) + CellBlock(cellsA[k], cellsB[k])
  {
    assert cellsA[..k + 1][..k] == cellsA[..k] && cellsB[..k + 1][..k] == cellsB[..k];
  }

  /** Once the column sections of the first n sides fail, all of them do. */
  lemma ColumnsPartFailure(s: SResult, n: nat)
    requires s.Valid() && n <= |SIDES| && ColumnsPart(s, n).Err?
    ensures ColumnsPart(s, |SIDES|).Err?
  {
  }

  /**
   * The detail fails exactly when column gaps count and a redundant column of either sheet is
   * negative (its name cannot be written), and then with IllegalArgument.
   */
  lemma DetailFailure(s: SResult)
    requires s.Valid()
    ensures Detail(s).Err? <==> (s.considerColumnGaps &&
      exists side, k :: side in SIDES && 0 <= k < |PieceOf(s, side).redundantColumns| && PieceOf(s, side).redundantColumns[k] < 0)
    ensures Detail(s).Err? ==> Detail(s).error == IllegalArgument
  {
    var a, b := PieceOf(s, A).redundantColumns, PieceOf(s, B).redundantColumns;
    assert SIDES[0] == A && SIDES[1] == B;
    var negA := exists k :: 0 <= k < |a| && a[k] < 0;
    var negB := exists k :: 0 <= k < |b| && b[k] < 0;
    if negA {
      var k :| 0 <= k < |a| && a[k] < 0;
      ColumnLinesFailure(a, k);
      assert ColumnsPart(s, 1).Err?;
    } else {
      ColumnLinesSuccess(a);
      assert ColumnsPart(s, 1).Ok?;
      if negB {
        var k :| 0 <= k < |b| && b[k] < 0;
        ColumnLinesFailure(b, k);
        assert ColumnsPart(s, 2).Err?;
      } else {
        ColumnLinesSuccess(b);
        assert ColumnsPart(s, 2).Ok?;
      }
    }
    assert (exists side, k :: side in SIDES && 0 <= k < |PieceOf(s, side).redundantColumns| && PieceOf(s, side).redundantColumns[k] < 0) <==> negA || negB;
  }
}
