// The bookkeeping of the reader that paints a sheet's XML (excel/xssf/readers/SheetReader.java):
// the style allocator over the workbook's styles part, the compaction of redundant columns
// into ranges, the rows and cells to paint, and the colour each painted cell gets. The XML
// events the reader emits are not part of this model; only what decides them is.

module SheetReaders {
  import opened Wrappers
  import opened XmlEvents
  import JavaText
  import Cells
  import SResults

  type Piece = SResults.Piece
  type Cell = Cells.Cell

  // ---------------------------------------------------------------------------------------
  // StylesManager.

  /** A `<xf>` element `copyXf` appends: a copy of the style at `source` using fill `fillId`. */
  datatype NewXf = NewXf(source: int, fillId: int)

  /**
   * `StylesManager`: hands out cell styles that are existing styles recoloured. The styles
   * part is modelled by the elements appended to it: `newXfs` to `<cellXfs>` and, as their
   * colours, `newFills` to `<fills>`.
   */
  class StylesManager {
    /** The `count` attributes of `<cellXfs>` and `<fills>` when the part was loaded. */
    const initialXfs: int
    const initialFills: int

    var xfsMap: map<(int, int), int>
    var fillsMap: map<int, int>
    var cellXfsCount: int
    var fillsCount: int
    var newXfs: seq<NewXf>
    var newFills: seq<int>
    /** The (style, colour) key each appended style was created for, in order. */
    ghost var keys: seq<(int, int)>

    /** Each fill colour maps to the fill appended for it, and every appended fill is mapped. */
    ghost predicate FillsValid()
      reads this
    {
      FillsMapped(initialFills, fillsCount, newFills, fillsMap)
    }

    /**
     * Each (style, colour) key maps to the style appended for it, which copies that style and
     * uses the fill of that colour; every appended style is mapped.
     */
    ghost predicate XfsValid()
      reads this
    {
      XfsMapped(initialXfs, cellXfsCount, keys, newXfs, xfsMap, fillsMap)
    }

    ghost predicate Valid()
      reads this
    {
      FillsValid() && XfsValid()
    }

    /** `StylesManager.of`: the two counts are read from the styles part. */
    constructor (cellXfsCount: int, fillsCount: int)
      ensures Valid()
      ensures initialXfs == this.cellXfsCount == cellXfsCount && initialFills == this.fillsCount == fillsCount
      ensures xfsMap == map[] && fillsMap == map[] && newXfs == [] && newFills == []
    {
      initialXfs, initialFills := cellXfsCount, fillsCount;
      this.cellXfsCount, this.fillsCount := cellXfsCount, fillsCount;
      xfsMap, fillsMap := map[], map[];
      newXfs, newFills := [], [];
      keys := [];
    }

    /** `createFill`: appends a solid fill of the colour and returns its index, the old count. */
    method CreateFill(newColor: int) returns (r: int)
      requires FillsValid() && newColor !in fillsMap
      modifies this
      ensures FillsValid()
      ensures r == old(fillsCount) && fillsCount == old(fillsCount) + 1
      ensures fillsMap == old(fillsMap)[newColor := r] && newFills == old(newFills) + [newColor]
      ensures xfsMap == old(xfsMap) && cellXfsCount == old(cellXfsCount) && newXfs == old(newXfs) && keys == old(keys)
    {
      fillsMap := fillsMap[newColor := fillsCount];
      fillsCount := fillsCount + 1;
      newFills := newFills + [newColor];
      return fillsCount - 1;
    }

    /**
     * `copyXf`: appends a copy of style `idx` painted `newColor`, reusing that colour's fill
     * when one exists; returns the new style's index, the old count.
     */
    method CopyXf(idx: int, newColor: int) returns (r: int)
      requires Valid() && (idx, newColor) !in xfsMap
      modifies this
      ensures Valid()
      ensures r == old(cellXfsCount) && cellXfsCount == old(cellXfsCount) + 1
      ensures xfsMap == old(xfsMap)[(idx, newColor) := r]
      ensures newColor in fillsMap && newXfs == old(newXfs) + [NewXf(idx, fillsMap[newColor])]
      ensures newColor in old(fillsMap) ==> fillsMap == old(fillsMap) && newFills == old(newFills)
      ensures newColor !in old(fillsMap) ==>
        fillsMap == old(fillsMap)[newColor := old(fillsCount)] && newFills == old(newFills) + [newColor]
    {
      ghost var fills0 := fillsMap;
      var newFillId: int;
      if newColor in fillsMap {
        newFillId := fillsMap[newColor];
      } else {
        newFillId := CreateFill(newColor);
      }
      XfsAppend(initialXfs, cellXfsCount, keys, newXfs, xfsMap, fills0, fillsMap, (idx, newColor));
      xfsMap := xfsMap[(idx, newColor) := cellXfsCount];
      cellXfsCount := cellXfsCount + 1;
      newXfs := newXfs + [NewXf(idx, newFillId)];
      keys := keys + [(idx, newColor)];
      r := cellXfsCount - 1;
    }

    /**
     * `getNewStyle`: style `idx` painted `newColor`. The first request for a key creates the
     * style; every later one returns the same index and creates nothing.
     */
    method GetNewStyle(idx: int, newColor: int) returns (r: int)
      requires Valid()
      modifies this
      ensures Valid()
      ensures (idx, newColor) in xfsMap && xfsMap[(idx, newColor)] == r
      ensures initialXfs <= r < cellXfsCount && newColor in fillsMap
      ensures newXfs[r - initialXfs] == NewXf(idx, fillsMap[newColor])
      ensures (idx, newColor) in old(xfsMap) ==>
        r == old(xfsMap)[(idx, newColor)] && xfsMap == old(xfsMap) && fillsMap == old(fillsMap)
        && cellXfsCount == old(cellXfsCount) && fillsCount == old(fillsCount)
        && newXfs == old(newXfs) && newFills == old(newFills)
      ensures (idx, newColor) !in old(xfsMap) ==> r == old(cellXfsCount) && cellXfsCount == old(cellXfsCount) + 1
      ensures fillsCount == old(fillsCount) + (if newColor in old(fillsMap) then 0 else 1)
    {
      var key := (idx, newColor);
      if key in xfsMap {
        r := xfsMap[key];
        var i := KeyAt(initialXfs, cellXfsCount, keys, newXfs, xfsMap, fillsMap, key);
      } else {
        r := CopyXf(idx, newColor);
      }
    }
  }

  /** `fillsMap` maps exactly the colours of `newFills`, each to its position past the initial count. */
  ghost predicate FillsMapped(initial: int, count: int, newFills: seq<int>, fillsMap: map<int, int>) {
    && count == initial + |newFills|
    && (forall c :: c in fillsMap <==> c in newFills)
    && (forall k :: 0 <= k < |newFills| ==> newFills[k] in fillsMap && fillsMap[newFills[k]] == initial + k)
  }

  /**
   * `xfsMap` maps exactly the recorded keys, each to its position past the initial count, and
   * the style appended for each key copies the key's style with the fill of the key's colour.
   */
  ghost predicate XfsMapped(initial: int, count: int, keys: seq<(int, int)>, newXfs: seq<NewXf>,
                            xfsMap: map<(int, int), int>, fillsMap: map<int, int>) {
    && count == initial + |newXfs| && |keys| == |newXfs|
    && (forall key :: key in xfsMap <==> key in keys)
    && (forall k :: 0 <= k < |keys| ==> keys[k] in xfsMap && xfsMap[keys[k]] == initial + k)
    && (forall k :: 0 <= k < |keys| ==> keys[k].1 in fillsMap && newXfs[k] == NewXf(keys[k].0, fillsMap[keys[k].1]))
  }

  /** Appending the style of a new key, once its colour has a fill, keeps the two inverse. */
  lemma XfsAppend(initial: int, count: int, keys: seq<(int, int)>, newXfs: seq<NewXf>, xfsMap: map<(int, int), int>,
                  fillsMap: map<int, int>, fillsMap': map<int, int>, key: (int, int))
    requires XfsMapped(initial, count, keys, newXfs, xfsMap, fillsMap)
    requires key !in xfsMap && key.1 in fillsMap'
    requires forall c | c in fillsMap :: c in fillsMap' && fillsMap'[c] == fillsMap[c]
    ensures XfsMapped(initial, count + 1, keys + [key], newXfs + [NewXf(key.0, fillsMap'[key.1])],
                      xfsMap[key := count], fillsMap')
  {
    var keys', newXfs', xfsMap' := keys + [key], newXfs + [NewXf(key.0, fillsMap'[key.1])], xfsMap[key := count];
    forall k | 0 <= k < |keys'|
      ensures keys'[k] in xfsMap' && xfsMap'[keys'[k]] == initial + k
      ensures keys'[k].1 in fillsMap' && newXfs'[k] == NewXf(keys'[k].0, fillsMap'[keys'[k].1])
    {
      if k < |keys| {
        assert keys'[k] == keys[k] && newXfs'[k] == newXfs[k];
        assert keys[k] in xfsMap;
        var c := keys[k].1;
        assert c in fillsMap && newXfs[k] == NewXf(keys[k].0, fillsMap[c]);
        assert c in fillsMap' && fillsMap'[c] == fillsMap[c];
      } else {
        assert keys'[k] == key && newXfs'[k] == NewXf(key.0, fillsMap'[key.1]);
      }
    }
    forall q
      ensures q in xfsMap' <==> q in keys'
    {
      assert q in keys' <==> q in keys || q == key;
    }
  }

  /** A mapped colour's fill is the one appended at its position. */
  lemma ColourAt(initial: int, count: int, newFills: seq<int>, fillsMap: map<int, int>, c: int) returns (i: int)
    requires FillsMapped(initial, count, newFills, fillsMap) && c in fillsMap
    ensures 0 <= i < |newFills| && newFills[i] == c && fillsMap[c] == initial + i
  {
    i :| 0 <= i < |newFills| && newFills[i] == c;
  }

  /** A mapped key's style is the one appended at its position. */
  lemma KeyAt(initial: int, count: int, keys: seq<(int, int)>, newXfs: seq<NewXf>,
              xfsMap: map<(int, int), int>, fillsMap: map<int, int>, key: (int, int)) returns (i: int)
    requires XfsMapped(initial, count, keys, newXfs, xfsMap, fillsMap) && key in xfsMap
    ensures 0 <= i < |keys| && keys[i] == key && xfsMap[key] == initial + i
  {
    i :| 0 <= i < |keys| && keys[i] == key;
  }

  /** At most one fill is created per colour, and at most one style per (style, colour) key. */
  lemma CreatedOnce(m: StylesManager)
    requires m.Valid()
    ensures forall j, k :: 0 <= j < k < |m.newFills| ==> m.newFills[j] != m.newFills[k]
    ensures forall j, k :: 0 <= j < k < |m.newXfs| ==> m.newXfs[j] != m.newXfs[k]
  {
    forall j, k | 0 <= j < k < |m.newXfs|
      ensures m.newXfs[j] != m.newXfs[k]
    {
      var kj, kk := m.keys[j], m.keys[k];
      assert m.xfsMap[kj] != m.xfsMap[kk];
      if kj.0 == kk.0 {
        var ij := ColourAt(m.initialFills, m.fillsCount, m.newFills, m.fillsMap, kj.1);
        var ik := ColourAt(m.initialFills, m.fillsCount, m.newFills, m.fillsMap, kk.1);
      }
    }
  }

  // ---------------------------------------------------------------------------------------
  // The ProcessingCol constructor: redundant columns compacted into ranges.

  /** Each element is larger than every one before it. */
  predicate Increasing(s: seq<int>) {
    forall j, k :: 0 <= j < k < |s| ==> s[j] < s[k]
  }

  /** The consecutive integers lo, lo + 1, ..., hi. */
  function Span(lo: int, hi: int): (r: seq<int>)
    requires lo <= hi
    ensures |r| == hi - lo + 1
    decreases hi - lo
  {
    if lo == hi then [lo] else Span(lo, hi - 1) + [hi]
  }

  /** A span runs upwards from its first to its last integer. */
  lemma {:induction false} SpanIncreasing(lo: int, hi: int)
    requires lo <= hi
    ensures Increasing(Span(lo, hi)) && Span(lo, hi)[0] == lo && Span(lo, hi)[|Span(lo, hi)| - 1] == hi
    decreases hi - lo
  {
    if lo < hi {
      SpanIncreasing(lo, hi - 1);
    }
  }

  /** Every range is non-empty. */
  predicate NonEmptyRanges(ranges: seq<(int, int)>) {
    forall k :: 0 <= k < |ranges| ==> ranges[k].0 <= ranges[k].1
  }

  /** The indices a list of (first, last) ranges stands for, range after range. */
  function Expand(ranges: seq<(int, int)>): seq<int>
    requires NonEmptyRanges(ranges)
  {
    if ranges == [] then []
    else Expand(ranges[..|ranges| - 1]) + Span(ranges[|ranges| - 1].0, ranges[|ranges| - 1].1)
  }

  /** Non-empty ranges in increasing order with a gap between each two, so none can be merged. */
  predicate MaximalRuns(ranges: seq<(int, int)>) {
    && NonEmptyRanges(ranges)
    && (forall j, k :: 0 <= j < k < |ranges| ==> ranges[j].1 + 1 < ranges[k].0)
  }

  /**
   * The constructor of `ProcessingCol`: walks the redundant columns with the current range
   * (`start`, `end`), -1 standing for "none yet", and closes the range at each gap. A column
   * that does not exceed the one before it is an AssertionError. An empty list still yields
   * the one range (-1, -1).
   */
  method RedundantRanges(columns: seq<int>) returns (r: Result<seq<(int, int)>>)
    requires forall k :: 0 <= k < |columns| ==> columns[k] >= 0
    ensures r.Ok? <==> Increasing(columns)
    ensures r.Err? ==> r.error == Assertion
    ensures columns == [] ==> r == Ok([(-1, -1)])
    ensures r.Ok? && columns != [] ==> MaximalRuns(r.value) && Expand(r.value) == columns
  {
    var start, end := -1, -1;
    var ranges: seq<(int, int)> := [];
    for i := 0 to |columns|
      invariant (start == -1) == (i == 0)
      invariant i == 0 ==> ranges == [] && end == -1
      invariant forall j, k :: 0 <= j < k < i ==> columns[j] < columns[k]
      invariant i > 0 ==> end == columns[i - 1]
      invariant i > 0 ==> MaximalRuns(ranges + [(start, end)]) && Expand(ranges + [(start, end)]) == columns[..i]
    {
      var c := columns[i];
      if start == -1 {
        FirstRun(columns);
        start, end := c, c;
      } else if end + 1 < c {
        IncreasingStep(columns, i);
        NewRun(ranges + [(start, end)], columns, i);
        ranges := ranges + [(start, end)];
        start, end := c, c;
      } else if end + 1 == c {
        IncreasingStep(columns, i);
        ExtendRun(ranges, start, end, columns, i);
        end := c;
      } else {
        assert !(columns[i - 1] < columns[i]);
        return Err(Assertion);
      }
    }
    if columns == [] {
      assert ranges + [(start, end)] == [(-1, -1)];
    } else {
      TakeAll(columns);
    }
    ranges := ranges + [(start, end)];
    return Ok(ranges);
  }

  /** The first column opens the first range. */
  lemma FirstRun(columns: seq<int>)
    requires columns != []
    ensures MaximalRuns([(columns[0], columns[0])]) && Expand([(columns[0], columns[0])]) == columns[..1]
  {
    assert Expand([(columns[0], columns[0])]) == Expand([]) + [columns[0]];
  }

  /** A gap before the next column closes the open range and opens a new one at the column. */
  lemma NewRun(ranges: seq<(int, int)>, columns: seq<int>, i: nat)
    requires i < |columns| && ranges != [] && MaximalRuns(ranges) && Expand(ranges) == columns[..i]
    requires ranges[|ranges| - 1].1 + 1 < columns[i]
    ensures MaximalRuns(ranges + [(columns[i], columns[i])])
    ensures Expand(ranges + [(columns[i], columns[i])]) == columns[..i + 1]
  {
    CloseRange(ranges, columns[i], columns[i]);
    TakeOneMore(columns, i);
  }

  /** The next column right after the open range extends it. */
  lemma ExtendRun(ranges: seq<(int, int)>, start: int, end: int, columns: seq<int>, i: nat)
    requires i < |columns| && MaximalRuns(ranges + [(start, end)]) && Expand(ranges + [(start, end)]) == columns[..i]
    requires end + 1 == columns[i]
    ensures MaximalRuns(ranges + [(start, columns[i])])
    ensures Expand(ranges + [(start, columns[i])]) == columns[..i + 1]
  {
    var rs, rs' := ranges + [(start, end)], ranges + [(start, columns[i])];
    assert rs[..|ranges|] == ranges == rs'[..|ranges|];
    assert MaximalRuns(ranges);
    forall j, k | 0 <= j < k < |rs'|
      ensures rs'[j].1 + 1 < rs'[k].0
    {
      assert rs[j].1 + 1 < rs[k].0;
    }
    TakeOneMore(columns, i);
  }

  /** A next element above the last keeps a prefix strictly increasing. */
  lemma IncreasingStep(columns: seq<int>, i: int)
    requires 0 < i < |columns| && columns[i - 1] < columns[i]
    requires forall j, k :: 0 <= j < k < i ==> columns[j] < columns[k]
    ensures forall j, k :: 0 <= j < k < i + 1 ==> columns[j] < columns[k]
  {
  }

  lemma TakeAll(s: seq<int>)
    ensures s[..|s|] == s
  {
  }

  lemma TakeOneMore(s: seq<int>, i: nat)
    requires i < |s|
    ensures s[..i + 1] == s[..i] + [s[i]]
  {
  }

  /**
   * Closing the current range, which starts past a gap after the last closed one, keeps the
   * runs maximal and appends its span to the expansion.
   */
  lemma CloseRange(ranges: seq<(int, int)>, start: int, end: int)
    requires MaximalRuns(ranges) && start <= end
    requires ranges != [] ==> ranges[|ranges| - 1].1 + 1 < start
    ensures MaximalRuns(ranges + [(start, end)])
    ensures Expand(ranges + [(start, end)]) == Expand(ranges) + Span(start, end)
  {
    var rs := ranges + [(start, end)];
    assert rs[..|ranges|] == ranges;
    forall j, k | 0 <= j < k < |rs|
      ensures rs[j].1 + 1 < rs[k].0
    {
      if k == |ranges| && j < |ranges| - 1 {
        assert rs[j].1 + 1 < rs[|ranges| - 1].0 <= rs[|ranges| - 1].1;
      }
    }
  }

  /** The expansion of maximal runs is strictly increasing, as the input of the compaction is. */
  lemma {:induction false} RunsExpandIncreasing(ranges: seq<(int, int)>)
    requires MaximalRuns(ranges)
    ensures Increasing(Expand(ranges))
    ensures ranges != [] ==> Expand(ranges) != [] && Expand(ranges)[|Expand(ranges)| - 1] == ranges[|ranges| - 1].1
  {
    if ranges != [] {
      var init := ranges[..|ranges| - 1];
      assert MaximalRuns(init);
      RunsExpandIncreasing(init);
      var last := ranges[|ranges| - 1];
      var e, sp := Expand(init), Span(last.0, last.1);
      SpanIncreasing(last.0, last.1);
      assert Expand(ranges) == e + sp;
      if init != [] {
        assert e[|e| - 1] == ranges[|ranges| - 2].1 < last.0;
      }
      forall j, k | 0 <= j < k < |e + sp|
        ensures (e + sp)[j] < (e + sp)[k]
      {
        if j < |e| <= k {
          assert e[j] <= e[|e| - 1] < sp[0] <= sp[k - |e|];
        } else if j < |e| {
          assert (e + sp)[j] == e[j] && (e + sp)[k] == e[k];
        } else {
          assert (e + sp)[j] == sp[j - |e|] && (e + sp)[k] == sp[k - |e|];
        }
      }
    }
  }

  // ---------------------------------------------------------------------------------------
  // The ProcessingRow constructor: the rows to paint and the cells of each.

  /** `s` with `x` put in its place, unless present: one step of `sorted().distinct()`. */
  function Insert(x: int, s: seq<int>): (r: seq<int>)
    requires Increasing(s)
    ensures Increasing(r) && forall y :: y in r <==> y == x || y in s
  {
    if s == [] then [x]
    else if x < s[0] then [x] + s
    else if x == s[0] then s
    else
      assert forall y :: y in s[1..] ==> s[0] < y;
      var t := Insert(x, s[1..]);
      IncreasingCons(s[0], t);
      [s[0]] + t
  }

  /** Putting in front an element smaller than all others keeps a sequence increasing. */
  lemma IncreasingCons(a: int, t: seq<int>)
    requires Increasing(t) && forall y :: y in t ==> a < y
    ensures Increasing([a] + t)
  {
    var r := [a] + t;
    forall j, k | 0 <= j < k < |r|
      ensures r[j] < r[k]
    {
      assert r[k] == t[k - 1];
      if j > 0 {
        assert r[j] == t[j - 1];
      } else {
        assert t[k - 1] in t;
      }
    }
  }

  /** `stream.sorted().distinct()` on integers: every value once, in increasing order. */
  function SortDistinct(s: seq<int>): (r: seq<int>)
    ensures Increasing(r) && forall y :: y in r <==> y in s
  {
    if s == [] then []
    else
      assert s == s[..|s| - 1] + [s[|s| - 1]];
      Insert(s[|s| - 1], SortDistinct(s[..|s| - 1]))
  }

  /** The rows of the given cells, in order. */
  function CellRows(cells: seq<Cell>): (r: seq<int>)
    ensures forall row :: row in r <==> exists cell :: cell in cells && cell.row == row
  {
    if cells == [] then []
    else
      assert forall cell :: cell in cells <==> cell == cells[0] || cell in cells[1..];
      [cells[0].row as int] + CellRows(cells[1..])
  }

  /** The columns of the given cells that lie in `row`, in order. */
  function ColumnsIn(cells: seq<Cell>, row: int): (r: seq<int>)
    ensures forall col :: col in r <==> exists cell :: cell in cells && cell.row == row && cell.column == col
  {
    if cells == [] then []
    else
      assert forall cell :: cell in cells <==> cell == cells[0] || cell in cells[1..];
      (if cells[0].row == row then [cells[0].column as int] else []) + ColumnsIn(cells[1..], row)
  }

  /** A row to paint, and the columns of the cells to paint in it. */
  datatype Target = Target(row: int, columns: seq<int>)

  /**
   * The `targets` queue of `ProcessingRow`: the redundant rows and the diff cells' rows, sorted
   * and distinct; for each, the diff cells' columns in that row together with every redundant
   * column, sorted and distinct. A redundant row without cells keeps an empty entry.
   */
  function Targets(piece: Piece): (r: seq<Target>)
    ensures forall j, k :: 0 <= j < k < |r| ==> r[j].row < r[k].row
    ensures forall k :: 0 <= k < |r| ==>
      (r[k].row in piece.redundantRows || exists cell :: cell in piece.diffCells && cell.row == r[k].row)
    ensures forall k :: 0 <= k < |r| ==> Increasing(r[k].columns)
    ensures forall k, col :: 0 <= k < |r| ==>
      (col in r[k].columns <==>
        col in piece.redundantColumns || exists cell :: cell in piece.diffCells && cell.row == r[k].row && cell.column == col)
  {
    var rows := SortDistinct(piece.redundantRows + CellRows(piece.diffCells));
    assert forall k :: 0 <= k < |rows| ==> rows[k] in piece.redundantRows + CellRows(piece.diffCells) by {
      forall k | 0 <= k < |rows| ensures rows[k] in piece.redundantRows + CellRows(piece.diffCells) {
        assert rows[k] in rows;
      }
    }
    assert forall k :: 0 <= k < |rows| ==> rows[k] in piece.redundantRows || rows[k] in CellRows(piece.diffCells);
    seq(|rows|, k requires 0 <= k < |rows| =>
      Target(rows[k], SortDistinct(ColumnsIn(piece.diffCells, rows[k]) + piece.redundantColumns)))
  }

  /** Every redundant row and every row of a diff cell has its entry. */
  lemma TargetsCoverRows(piece: Piece, row: int)
    requires row in piece.redundantRows || exists cell :: cell in piece.diffCells && cell.row == row
    ensures exists k :: 0 <= k < |Targets(piece)| && Targets(piece)[k].row == row
  {
    var rows := SortDistinct(piece.redundantRows + CellRows(piece.diffCells));
    assert row in rows;
    var k :| 0 <= k < |rows| && rows[k] == row;
    assert Targets(piece)[k].row == row;
  }

  // ---------------------------------------------------------------------------------------
  // ProcessingRow: the start tags of the rows and cells it creates or repaints.

  /** The `s` attribute of a start tag as a style index: absent means style 0. */
  function CurrentStyle(start: StartElement): Result<int> {
    if S in start.attributes then JavaText.ParseInt(start.attributes[S]) else Ok(0)
  }

  class ProcessingRow {
    const targets: seq<Target>
    const redundantRows: set<int>
    const redundantColumns: set<int>
    const styles: StylesManager
    const redundantColor: int
    const diffColor: int

    constructor (piece: Piece, styles: StylesManager, redundantColor: int, diffColor: int)
      ensures targets == Targets(piece)
      ensures redundantRows == (set row | row in piece.redundantRows)
      ensures redundantColumns == (set col | col in piece.redundantColumns)
      ensures this.styles == styles && this.redundantColor == redundantColor && this.diffColor == diffColor
    {
      targets := Targets(piece);
      redundantRows := set row | row in piece.redundantRows;
      redundantColumns := set col | col in piece.redundantColumns;
      this.styles := styles;
      this.redundantColor, this.diffColor := redundantColor, diffColor;
    }

    /** A cell is redundant when its row or its column is. */
    predicate Redundant(row: int, column: int)
      reads this
    {
      row in redundantRows || column in redundantColumns
    }

    /**
     * `createRowStart`: the start tag of a row the sheet lacks. A redundant row also gets a
     * custom format, the redundant colour on style 0.
     */
    method CreateRowStart(rowIdx: int) returns (e: StartElement)
      requires styles.Valid()
      modifies styles
      ensures styles.Valid() && e.name == ROW
      ensures rowIdx !in redundantRows ==> e.attributes == map[R := JavaText.IntToString(rowIdx + 1)] && unchanged(styles)
      ensures rowIdx in redundantRows ==>
        && (0, redundantColor) in styles.xfsMap
        && e.attributes == map[R := JavaText.IntToString(rowIdx + 1), CUSTOM_FORMAT := "1",
                               S := JavaText.IntToString(styles.xfsMap[(0, redundantColor)])]
    {
      var attrs := map[R := JavaText.IntToString(rowIdx + 1)];
      if rowIdx in redundantRows {
        var style := styles.GetNewStyle(0, redundantColor);
        attrs := attrs[CUSTOM_FORMAT := "1"][S := JavaText.IntToString(style)];
      }
      e := StartElement(ROW, attrs);
    }

    /**
     * `createCStart`: the start tag of a cell the sheet lacks, painted on style 0 with the
     * redundant colour when its row or column is redundant and the diff colour otherwise. A
     * negative index fails in `getAddress` before any style is created.
     */
    method CreateCStart(row: int, column: int) returns (e: Result<StartElement>)
      requires styles.Valid()
      modifies styles
      ensures styles.Valid()
      ensures e.Err? <==> row < 0 || column < 0
      ensures e.Err? ==> e.error == IllegalArgument && unchanged(styles)
      ensures e.Ok? ==>
        var color := if Redundant(row, column) then redundantColor else diffColor;
        && (0, color) in styles.xfsMap
        && e.value == StartElement(C, map[R := Cells.GetAddress(row, column).value,
                                          S := JavaText.IntToString(styles.xfsMap[(0, color)])])
    {
      var color := if Redundant(row, column) then redundantColor else diffColor;
      var address :- Cells.GetAddress(row, column);
      var style := styles.GetNewStyle(0, color);
      return Ok(StartElement(C, map[R := address, S := JavaText.IntToString(style)]));
    }

    /**
     * `modifyRowStart`: a row start tag of the sheet. A redundant row is repainted: its style
     * (0 when it has none) painted the redundant colour, plus a custom format; its other
     * attributes are kept. Any other row is returned as it is. A missing `r` attribute is a
     * NullPointer; a malformed number a NumberFormat.
     */
    method ModifyRowStart(original: StartElement) returns (e: Result<StartElement>)
      requires styles.Valid()
      modifies styles
      ensures styles.Valid()
      ensures R !in original.attributes ==> e == Err(NullPointer) && unchanged(styles)
      ensures R in original.attributes ==>
        var rowIdx := JavaText.ParseInt(original.attributes[R]);
        && (rowIdx.Err? ==> e == Err(NumberFormat) && unchanged(styles))
        && (rowIdx.Ok? && rowIdx.value - 1 !in redundantRows ==> e == Ok(original) && unchanged(styles))
        && (rowIdx.Ok? && rowIdx.value - 1 in redundantRows ==>
              && (CurrentStyle(original).Err? ==> e == Err(NumberFormat) && unchanged(styles))
              && (CurrentStyle(original).Ok? ==>
                    var key := (CurrentStyle(original).value, redundantColor);
                    key in styles.xfsMap &&
                    e == Ok(StartElement(ROW, original.attributes[CUSTOM_FORMAT := "1"][S := JavaText.IntToString(styles.xfsMap[key])]))))
    {
      if R !in original.attributes {
        return Err(NullPointer);
      }
      var parsed :- JavaText.ParseInt(original.attributes[R]);
      var rowIdx := parsed - 1;
      if rowIdx in redundantRows {
        var currStyle :- CurrentStyle(original);
        var newStyle := styles.GetNewStyle(currStyle, redundantColor);
        return Ok(StartElement(ROW, original.attributes[CUSTOM_FORMAT := "1"][S := JavaText.IntToString(newStyle)]));
      } else {
        return Ok(original);
      }
    }

    /**
     * `modifyCStart`: a cell start tag of the sheet. A cell that may differ, or whose row or
     * column is redundant, is repainted: its style (0 when it has none) painted the redundant
     * colour when it is redundant and the diff colour otherwise; its other attributes are kept.
     * Any other cell is returned as it is.
     */
    method ModifyCStart(original: StartElement, maybeDiff: bool) returns (e: Result<StartElement>)
      requires styles.Valid()
      modifies styles
      ensures styles.Valid()
      ensures R !in original.attributes ==> e == Err(NullPointer) && unchanged(styles)
      ensures R in original.attributes ==>
        var idx := Cells.GetIndex(Some(original.attributes[R]));
        && (idx.Err? ==> e == Err(idx.error) && unchanged(styles))
        && (idx.Ok? ==>
              var redundant := Redundant(idx.value.a.value, idx.value.b.value);
              && (!maybeDiff && !redundant ==> e == Ok(original) && unchanged(styles))
              && (maybeDiff || redundant ==>
                    && (CurrentStyle(original).Err? ==> e == Err(NumberFormat) && unchanged(styles))
                    && (CurrentStyle(original).Ok? ==>
                          var key := (CurrentStyle(original).value, if redundant then redundantColor else diffColor);
                          key in styles.xfsMap &&
                          e == Ok(StartElement(C, original.attributes[S := JavaText.IntToString(styles.xfsMap[key])])))))
    {
      if R !in original.attributes {
        return Err(NullPointer);
      }
      var idx :- Cells.GetIndex(Some(original.attributes[R]));
      var redundant := Redundant(idx.a.value, idx.b.value);
      if maybeDiff || redundant {
        var currStyle :- CurrentStyle(original);
        var newStyle := styles.GetNewStyle(currStyle, if redundant then redundantColor else diffColor);
        return Ok(StartElement(C, original.attributes[S := JavaText.IntToString(newStyle)]));
      } else {
        return Ok(original);
      }
    }
  }

  // ---------------------------------------------------------------------------------------
  // SheetReader: the processor that drives it, and the queue of events it hands out.

  /** The processors `SheetReader` passes through, in this order. */
  datatype Stage = WaitingCol | ProcessingCol | WaitingRow | ProcessingRows | ProcessingRemaining

  /** The events up to and including the first `<sheetData>` start tag, or all of them. */
  function UpToSheetData(events: seq<Event>): (r: seq<Event>)
    ensures |r| <= |events| && r == events[..|r|]
    ensures forall k :: 0 <= k < |r| - 1 ==> !IsSheetDataStart(r[k])
    ensures |r| < |events| ==> r != [] && IsSheetDataStart(r[|r| - 1])
  {
    if events == [] then []
    else if IsSheetDataStart(events[0]) then [events[0]]
    else [events[0]] + UpToSheetData(events[1..])
  }

  predicate IsSheetDataStart(e: Event) {
    e.Start? && e.element.name == SHEET_DATA
  }

  /** Moving the head of `source` to the end of `moved`. */
  lemma MoveOne(prefix: seq<Event>, moved: seq<Event>, source: seq<Event>)
    requires source != []
    ensures (prefix + moved) + [source[0]] == prefix + (moved + [source[0]])
    ensures moved + source == (moved + [source[0]]) + source[1..]
  {
    assert source == [source[0]] + source[1..];
  }

  lemma DropMoved(source0: seq<Event>, moved: seq<Event>, source: seq<Event>)
    requires source0 == moved + source
    ensures source == source0[|moved|..]
  {
  }

  /** Moving one event over keeps what is left to move, and ends it at `<sheetData>`. */
  lemma UpToSheetDataStep(source: seq<Event>, moved: seq<Event>, total: seq<Event>)
    requires source != [] && total == moved + UpToSheetData(source)
    ensures IsSheetDataStart(source[0]) ==> total == moved + [source[0]]
    ensures !IsSheetDataStart(source[0]) ==> total == (moved + [source[0]]) + UpToSheetData(source[1..])
  {
  }

  class SheetReader {
    var source: seq<Event>
    var nexts: seq<Event>
    var processor: Stage
    const piece: Piece
    const styles: StylesManager
    const redundantColor: int
    const diffColor: int

    /**
     * The constructor: the columns are only visited when some column is redundant, so the
     * reader starts by waiting for `<cols>` then, and for `<sheetData>` otherwise.
     */
    constructor (source: seq<Event>, styles: StylesManager, piece: Piece, redundantColor: int, diffColor: int)
      ensures processor == (if piece.redundantColumns == [] then WaitingRow else WaitingCol)
      ensures this.source == source && nexts == []
      ensures this.styles == styles && this.piece == piece
      ensures this.redundantColor == redundantColor && this.diffColor == diffColor
    {
      this.source, nexts := source, [];
      this.styles, this.piece := styles, piece;
      this.redundantColor, this.diffColor := redundantColor, diffColor;
      processor := if piece.redundantColumns == [] then WaitingRow else WaitingCol;
    }

    /** `peek2`: the head of the queue, null (`None`) when it is empty. */
    method Peek2() returns (r: Option<Event>)
      ensures nexts == [] ==> r == None
      ensures nexts != [] ==> r == Some(nexts[0])
    {
      r := if nexts == [] then None else Some(nexts[0]);
    }

    /** `nextEvent2`: takes the head of the queue, null (`None`) when it is empty. */
    method NextEvent2() returns (r: Option<Event>)
      modifies this
      ensures old(nexts) == [] ==> r == None && nexts == []
      ensures old(nexts) != [] ==> r == Some(old(nexts)[0]) && nexts == old(nexts)[1..]
      ensures source == old(source) && processor == old(processor)
    {
      if nexts == [] {
        return None;
      }
      r := Some(nexts[0]);
      nexts := nexts[1..];
    }

    /**
     * `WaitingCol.process`: passes on one event of the source; at `<cols>` the columns are
     * entered, and at `<sheetData>`, when the sheet has no `<cols>`, an empty `<cols>` is
     * inserted before it and the columns are entered without consuming it. Peeking at the end
     * of the source gives null, a NullPointer.
     */
    method ProcessWaitingCol() returns (r: Result<()>)
      requires processor == WaitingCol
      modifies this
      ensures old(source) == [] ==> r == Err(NullPointer) && unchanged(this)
      ensures old(source) != [] ==> r.Ok?
      ensures old(source) != [] ==>
        var e := old(source)[0];
        if e.Start? && e.element.name == SHEET_DATA then
          nexts == old(nexts) + [Start(StartElement(COLS, map[]))] && source == old(source) && processor == ProcessingCol
        else
          nexts == old(nexts) + [e] && source == old(source)[1..] &&
          processor == (if e.Start? && e.element.name == COLS then ProcessingCol else WaitingCol)
    {
      if source == [] {
        return Err(NullPointer);
      }
      var event := source[0];
      r := Ok(());
      if !event.Start? {
        nexts, source := nexts + [event], source[1..];
        return;
      }
      if event.element.name == COLS {
        nexts, source := nexts + [event], source[1..];
        processor := ProcessingCol;
        return;
      }
      if event.element.name == SHEET_DATA {
        nexts := nexts + [Start(StartElement(COLS, map[]))];
        processor := ProcessingCol;
        return;
      }
      nexts, source := nexts + [event], source[1..];
    }

    /**
     * `WaitingRow.process`: passes on the events of the source up to and including
     * `<sheetData>`, then hands over to the rows.
     */
    method ProcessWaitingRow()
      requires processor == WaitingRow
      modifies this
      ensures nexts == old(nexts) + UpToSheetData(old(source))
      ensures source == old(source)[|UpToSheetData(old(source))|..]
      ensures processor == ProcessingRows
    {
      ghost var source0, nexts0 := source, nexts;
      ghost var moved: seq<Event> := [];
      while source != []
        invariant source0 == moved + source
        invariant nexts == nexts0 + moved
        invariant UpToSheetData(source0) == moved + UpToSheetData(source)
        decreases |source|
      {
        var event := source[0];
        UpToSheetDataStep(source, moved, UpToSheetData(source0));
        MoveOne(nexts0, moved, source);
        nexts, source := nexts + [event], source[1..];
        moved := moved + [event];
        if IsSheetDataStart(event) {
          assert UpToSheetData(source0) == moved;
          break;
        }
      }
      assert UpToSheetData(source0) == moved;
      DropMoved(source0, moved, source);
      processor := ProcessingRows;
    }

    /** `ProcessingRemaining.process`: passes on the next event of the source, if any. */
    method ProcessRemaining()
      requires processor == ProcessingRemaining
      modifies this
      ensures old(source) == [] ==> nexts == old(nexts) && source == []
      ensures old(source) != [] ==> nexts == old(nexts) + [old(source)[0]] && source == old(source)[1..]
      ensures processor == ProcessingRemaining
    {
      if source != [] {
        nexts, source := nexts + [source[0]], source[1..];
      }
    }
  }
}
