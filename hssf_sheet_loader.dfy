// Loading the cells of one sheet of a .xls workbook from its BIFF record stream
// (poi/HSSFSheetLoaderWithEventApi.java). The listener finds the sheet's position among the
// BoundSheet records, keeps the shared string table, counts substream BOFs up to that
// position and then turns each cell record of the sheet into a cell.

module HssfSheetLoading {
  import opened Wrappers
  import opened Files
  import opened Biff
  import BookTypes
  import Cells

  type Cell = Cells.Cell

  /** `ProcessingPhase`, in the order the listener goes through them. */
  datatype Phase = SearchingSheet | ReadingSstData | WaitingSheetBody | ReadingSheetData | Completed
  {
    /** The position of the phase in the order above. */
    function Rank(): (r: nat)
      ensures r <= 4
      ensures r == 4 <==> Completed?
    {
      match this
      case SearchingSheet => 0
      case ReadingSstData => 1
      case WaitingSheetBody => 2
      case ReadingSheetData => 3
      case Completed => 4
    }
  }

  /**
   * The listener's mutable fields: the phase, the position of the sheet among the BoundSheet
   * records, the count of sheet BOFs seen, the position of a string-result formula whose value
   * is still to come, the shared string table and the cells read.
   */
  datatype LoadState = LoadState(
    phase: Phase,
    sheetIdx: int,
    currIdx: int,
    prevFormula: Option<(nat, nat)>,
    sst: Option<seq<string>>,
    cells: set<Cell>)

  /** The fields of a new listener. */
  const INITIAL: LoadState := LoadState(SearchingSheet, 0, 0, None, None, {})

  /** What `getFormulaString` returns for every formula. */
  const FORMULA_PLACEHOLDER: string := "[formula]"

  /** `String.valueOf(boolean)`. */
  function BoolText(b: bool): string {
    if b then "true" else "false"
  }

  /** The value of a cell record: its text, or a string-result formula whose text comes next. */
  datatype Outcome = Value(text: string) | AwaitString

  /**
   * The inner switch of `processRecord` on a cell record: a shared-string index is looked up
   * (IndexOutOfBounds when out of range), numbers, booleans and errors become text, and a
   * formula gives the placeholder or, in cached-value mode, its cached value; a cached string
   * waits for the next StringRecord. Other cell records and other cached types are
   * AssertionErrors.
   */
  function CellOutcome(data: CellData, sst: Option<seq<string>>, extractCachedValue: bool): (r: Result<Outcome>)
    ensures r == Ok(AwaitString) <==> extractCachedValue && data.Formula? && data.cachedType == StringResult
    ensures data.LabelSst? && sst.Some? ==> (r.Ok? <==> 0 <= data.sstIndex < |sst.value|)
    ensures data.LabelSst? && r.Ok? ==> sst.Some? && r == Ok(Value(sst.value[data.sstIndex]))
    ensures data.Formula? && !extractCachedValue ==> r == Ok(Value(FORMULA_PLACEHOLDER))
    ensures r.Err? ==> r.error in {NullPointer, IndexOutOfBounds, Assertion}
  {
    match data
    case LabelSst(i) =>
      if sst.None? then Err(NullPointer)
      else if 0 <= i < |sst.value| then Ok(Value(sst.value[i]))
      else Err(IndexOutOfBounds)
    case Number(text) => Ok(Value(text))
    case Rk(text) => Ok(Value(text))
    case BoolErr(isError, errorText, b) => Ok(Value(if isError then errorText else BoolText(b)))
    case Formula(cachedType, numericText, b, errorText) =>
      if !extractCachedValue then Ok(Value(FORMULA_PLACEHOLDER))
      else
        (match cachedType
         case Numeric => Ok(Value(numericText))
         case StringResult => Ok(AwaitString)
         case Boolean => Ok(Value(BoolText(b)))
         case ErrorResult => Ok(Value(errorText))
         case OtherType => Err(Assertion))
    case OtherCell => Err(Assertion)
  }

  /** `processRecord` on the listener's fields for sheet `sheetName`; `Err` is what it throws. */
  function Step(sheetName: string, extractCachedValue: bool, st: LoadState, record: Record): Result<LoadState> {
    match st.phase
    case SearchingSheet =>
      if record.BoundSheet? then
        if record.sheetName == sheetName then Ok(st.(phase := ReadingSstData))
        else Ok(st.(sheetIdx := st.sheetIdx + 1))
      else if record.Eof? then Err(NoSuchElement)
      else Ok(st)
    case ReadingSstData =>
      if record.Sst? then Ok(st.(sst := Some(record.strings), phase := WaitingSheetBody))
      else if record.Eof? then Err(Assertion)
      else Ok(st)
    case WaitingSheetBody =>
      if record.Bof? && (record.bofType == Worksheet || record.bofType == Chart) then
        if st.currIdx == st.sheetIdx && record.bofType == Worksheet then Ok(st.(phase := ReadingSheetData))
        else if st.currIdx == st.sheetIdx && record.bofType == Chart then Ok(st.(phase := Completed))
        else if st.currIdx < st.sheetIdx then Ok(st.(currIdx := st.currIdx + 1))
        else Err(Assertion)
      else Ok(st)
    case ReadingSheetData =>
      if record.CellRecord? then
        var outcome :- CellOutcome(record.data, st.sst, extractCachedValue);
        var prev := if outcome.AwaitString? then Some((record.row, record.column)) else st.prevFormula;
        if prev.None? && outcome.Value? then
          Ok(st.(cells := st.cells + {Cells.Cell(record.row, record.column, outcome.text)}))
        else Ok(st.(prevFormula := prev))
      else if record.StringRecord? && st.prevFormula.Some? then
        Ok(st.(cells := st.cells + {Cells.Cell(st.prevFormula.value.0, st.prevFormula.value.1, record.text)},
               prevFormula := None))
      else if record.Eof? then Ok(st.(phase := Completed))
      else Ok(st)
    case Completed => Ok(st)
  }

  /** The records delivered one by one from `st`; the first exception stops the stream. */
  function Run(sheetName: string, extractCachedValue: bool, st: LoadState, records: seq<Record>): Result<LoadState>
    decreases |records|
  {
    if records == [] then Ok(st)
    else
      var next :- Step(sheetName, extractCachedValue, st, records[0]);
      Run(sheetName, extractCachedValue, next, records[1..])
  }

  /** `HSSFSheetLoadingListener`. */
  class HSSFSheetLoadingListener {
    const sheetName: string
    const extractCachedValue: bool
    var phase: Phase
    var sheetIdx: int
    var currIdx: int
    var prevFormula: Option<(nat, nat)>
    var sst: Option<seq<string>>
    var cells: set<Cell>

    /** The fields as a `Step` state. */
    function State(): LoadState
      reads this
    {
      LoadState(phase, sheetIdx, currIdx, prevFormula, sst, cells)
    }

    constructor (sheetName: string, extractCachedValue: bool)
      ensures this.sheetName == sheetName && this.extractCachedValue == extractCachedValue
      ensures State() == INITIAL
    {
      this.sheetName := sheetName;
      this.extractCachedValue := extractCachedValue;
      phase := SearchingSheet;
      sheetIdx := 0;
      currIdx := 0;
      prevFormula := None;
      sst := None;
      cells := {};
    }

    /** `processRecord`: one step of the phase machine. */
    method ProcessRecord(record: Record) returns (r: Result<()>)
      modifies this
      ensures r.Ok? <==> Step(sheetName, extractCachedValue, old(State()), record).Ok?
      ensures r.Ok? ==> Step(sheetName, extractCachedValue, old(State()), record) == Ok(State())
      ensures r.Err? ==> Step(sheetName, extractCachedValue, old(State()), record) == Err(r.error)
    {
      match phase {
        case SearchingSheet =>
          if record.BoundSheet? {
            if sheetName == record.sheetName {
              phase := ReadingSstData;
            } else {
              sheetIdx := sheetIdx + 1;
            }
          } else if record.Eof? {
            return Err(NoSuchElement);
          }
        case ReadingSstData =>
          if record.Sst? {
            sst := Some(record.strings);
            phase := WaitingSheetBody;
          } else if record.Eof? {
            return Err(Assertion);
          }
        case WaitingSheetBody =>
          if record.Bof? && (record.bofType == Worksheet || record.bofType == Chart) {
            if currIdx == sheetIdx && record.bofType == Worksheet {
              phase := ReadingSheetData;
            } else if currIdx == sheetIdx && record.bofType == Chart {
              phase := Completed;
            } else if currIdx < sheetIdx {
              currIdx := currIdx + 1;
            } else {
              return Err(Assertion);
            }
          }
        case ReadingSheetData =>
          if record.CellRecord? {
            var outcome := CellOutcome(record.data, sst, extractCachedValue);
            if outcome.Err? {
              return Err(outcome.error);
            }
            if outcome.value.AwaitString? {
              prevFormula := Some((record.row, record.column));
            }
            if prevFormula.None? {
              cells := cells + {Cells.Cell(record.row, record.column, outcome.value.text)};
            }
          } else if record.StringRecord? && prevFormula.Some? {
            cells := cells + {Cells.Cell(prevFormula.value.0, prevFormula.value.1, record.text)};
            prevFormula := None;
          } else if record.Eof? {
            phase := Completed;
          }
        case Completed =>
      }
      r := Ok(());
    }
  }

  /** The only format this loader reads. */
  const SUPPORTED: seq<BookTypes.BookType> := [BookTypes.XLS]

  /** `isSupported`: the file name ends with ".xls"; NullPointer for a null file. */
  function IsSupported(file: Option<File>): (r: Result<bool>)
    ensures file.None? <==> r == Err(NullPointer)
    ensures file.Some? ==> r == Ok(BookTypes.Matches(file.value.name, BookTypes.XLS))
  {
    if file.None? then Err(NullPointer)
    else
      assert SUPPORTED[0] == BookTypes.XLS;
      Ok(exists k :: 0 <= k < |SUPPORTED| && BookTypes.Matches(file.value.name, SUPPORTED[k]))
  }

  /**
   * `loadSheet(book, sheetName)` of a loader made with `extractCachedValue`, with the workbook's
   * record stream as `records`: NullPointer for a null book or sheet name, IllegalArgument for
   * a name not ending in ".xls", a NoSuchElement passed through as it is, an AssertionError
   * passing uncaught (it is no `Exception`), every other failure wrapped in an
   * ApplicationException, and otherwise the cells the listener collected.
   */
  method LoadSheet(extractCachedValue: bool, book: Option<File>, sheetName: Option<string>, records: seq<Record>)
    returns (r: Result<set<Cell>>)
    ensures book.None? || sheetName.None? ==> r == Err(NullPointer)
    ensures book.Some? && sheetName.Some? && !BookTypes.Matches(book.value.name, BookTypes.XLS) ==>
      r == Err(IllegalArgument)
    ensures book.Some? && sheetName.Some? && BookTypes.Matches(book.value.name, BookTypes.XLS) ==>
      r == match Run(sheetName.value, extractCachedValue, INITIAL, records)
           case Ok(st) => Ok(st.cells)
           case Err(e) => Err(if e == NoSuchElement || e == Assertion then e else Application)
  {
    if book.None? || sheetName.None? {
      return Err(NullPointer);
    }
    var supported := IsSupported(book).value;
    if !supported {
      return Err(IllegalArgument);
    }
    var listener := new HSSFSheetLoadingListener(sheetName.value, extractCachedValue);
    var i := 0;
    while i < |records|
      invariant 0 <= i <= |records|
      invariant Run(sheetName.value, extractCachedValue, INITIAL, records) ==
        Run(sheetName.value, extractCachedValue, listener.State(), records[i..])
    {
      assert records[i..][1..] == records[i + 1..];
      var step := listener.ProcessRecord(records[i]);
      if step.Err? {
        return Err(if step.error == NoSuchElement || step.error == Assertion then step.error else Application);
      }
      i := i + 1;
    }
    r := Ok(listener.cells);
  }

  // ---------------------------------------------------------------------------------------
  // What the phase machine guarantees.

  /**
   * One record moves the phase forward or leaves it, along the edges SEARCHING_SHEET ->
   * READING_SST_DATA -> WAITING_SHEET_BODY -> READING_SHEET_DATA or COMPLETED, and
   * READING_SHEET_DATA -> COMPLETED; the cells never shrink, and COMPLETED ignores every record.
   */
  lemma StepMovesForward(sheetName: string, extract: bool, st: LoadState, record: Record)
    requires Step(sheetName, extract, st, record).Ok?
    ensures var next := Step(sheetName, extract, st, record).value;
      && st.phase.Rank() <= next.phase.Rank()
      && (next.phase != st.phase ==> Edge(st.phase, next.phase))
      && st.cells <= next.cells
      && |next.cells - st.cells| <= 1
      && (st.phase == Completed ==> next == st)
  {
    var next := Step(sheetName, extract, st, record).value;
    if st.phase == ReadingSheetData && record.CellRecord? {
      var outcome := CellOutcome(record.data, st.sst, extract).value;
      if outcome.Value? && st.prevFormula.None? {
        var c := Cells.Cell(record.row, record.column, outcome.text);
        assert next.cells - st.cells <= {c};
      }
    } else if st.phase == ReadingSheetData && record.StringRecord? && st.prevFormula.Some? {
      var c := Cells.Cell(st.prevFormula.value.0, st.prevFormula.value.1, record.text);
      assert next.cells - st.cells <= {c};
    }
  }

  /** The phase changes the listener can make. */
  predicate Edge(from: Phase, to: Phase) {
    || (from == SearchingSheet && to == ReadingSstData)
    || (from == ReadingSstData && to == WaitingSheetBody)
    || (from == WaitingSheetBody && (to == ReadingSheetData || to == Completed))
    || (from == ReadingSheetData && to == Completed)
  }

  /** Over a whole stream the phase only moves forward and the cells only grow. */
  lemma {:induction false} RunMovesForward(sheetName: string, extract: bool, st: LoadState, records: seq<Record>)
    requires Run(sheetName, extract, st, records).Ok?
    ensures st.phase.Rank() <= Run(sheetName, extract, st, records).value.phase.Rank()
    ensures st.cells <= Run(sheetName, extract, st, records).value.cells
    decreases |records|
  {
    if records != [] {
      StepMovesForward(sheetName, extract, st, records[0]);
      RunMovesForward(sheetName, extract, Step(sheetName, extract, st, records[0]).value, records[1..]);
    }
  }

  /** Once COMPLETED, the rest of the stream changes nothing. */
  lemma {:induction false} CompletedIgnoresRest(sheetName: string, extract: bool, st: LoadState, records: seq<Record>)
    requires st.phase == Completed
    ensures Run(sheetName, extract, st, records) == Ok(st)
    decreases |records|
  {
    if records != [] {
      CompletedIgnoresRest(sheetName, extract, st, records[1..]);
    }
  }

  /**
   * While searching, the BoundSheet records before the one named `sheetName` are counted in
   * `sheetIdx`; the matching one starts reading the string table.
   */
  lemma {:induction false} SearchCountsEarlierSheets(sheetName: string, extract: bool, st: LoadState, names: seq<string>)
    requires st.phase == SearchingSheet
    requires sheetName in names
    ensures var k := IndexOf(names, sheetName);
      Run(sheetName, extract, st, BoundSheets(names[..k + 1])) ==
        Ok(st.(sheetIdx := st.sheetIdx + k, phase := ReadingSstData))
    decreases |names|
  {
    var k := IndexOf(names, sheetName);
    var records := BoundSheets(names[..k + 1]);
    assert records[0] == BoundSheet(names[0]);
    if names[0] == sheetName {
      assert records[1..] == [];
    } else {
      assert records[1..] == BoundSheets(names[1..][..k]);
      var next := st.(sheetIdx := st.sheetIdx + 1);
      SearchCountsEarlierSheets(sheetName, extract, next, names[1..]);
      assert IndexOf(names[1..], sheetName) == k - 1;
    }
  }

  /** The position of the first occurrence of `x` in `s`. */
  function IndexOf(s: seq<string>, x: string): (k: nat)
    requires x in s
    ensures k < |s| && s[k] == x && x !in s[..k]
  {
    if s[0] == x then 0
    else
      var k := IndexOf(s[1..], x);
      assert s[..k + 1] == [s[0]] + s[1..][..k];
      k + 1
  }

  /** An end-of-stream record before any BoundSheet record names the sheet: NoSuchElement. */
  lemma {:induction false} MissingSheetFails(sheetName: string, extract: bool, st: LoadState, names: seq<string>)
    requires st.phase == SearchingSheet
    requires sheetName !in names
    ensures Run(sheetName, extract, st, BoundSheets(names) + [Eof]) == Err(NoSuchElement)
    decreases |names|
  {
    var records := BoundSheets(names) + [Eof];
    if names == [] {
      assert records == [Eof];
    } else {
      assert records[0] == BoundSheet(names[0]);
      assert records[1..] == BoundSheets(names[1..]) + [Eof];
      MissingSheetFails(sheetName, extract, st.(sheetIdx := st.sheetIdx + 1), names[1..]);
    }
  }

  /**
   * Waiting for the body, the listener skips the sheet BOFs before position `sheetIdx` and
   * stops at the one there: a worksheet starts reading cells, a chart sheet completes with the
   * cells it has, none.
   */
  lemma {:induction false} WaitCountsBofs(sheetName: string, extract: bool, st: LoadState, charts: seq<bool>)
    requires st.phase == WaitingSheetBody
    requires 0 <= st.currIdx <= st.sheetIdx && |charts| == st.sheetIdx - st.currIdx + 1
    ensures Run(sheetName, extract, st, SheetBofs(charts)) ==
      Ok(st.(currIdx := st.sheetIdx, phase := if charts[|charts| - 1] then Completed else ReadingSheetData))
    decreases |charts|
  {
    var records := SheetBofs(charts);
    assert records[1..] == SheetBofs(charts[1..]);
    if |charts| == 1 {
      assert records[1..] == [];
    } else {
      WaitCountsBofs(sheetName, extract, st.(currIdx := st.currIdx + 1), charts[1..]);
    }
  }

  /**
   * A whole stream: the workbook BOF, BoundSheet records naming `names`, the string table and
   * the end of the globals, then one BOF per sheet. The listener stops at the sheet named
   * `sheetName`: a chart sheet is complete and yields no cells, a worksheet is ready to read.
   */
  lemma ChartSheetHasNoCells(sheetName: string, extract: bool, names: seq<string>, strings: seq<string>, charts: seq<bool>)
    requires sheetName in names && |charts| == |names|
    ensures var k := IndexOf(names, sheetName);
      var records := [Bof(Workbook)] + BoundSheets(names) + [Sst(strings), Eof] + SheetBofs(charts[..k + 1]);
      Run(sheetName, extract, INITIAL, records).Ok? &&
      Run(sheetName, extract, INITIAL, records).value.cells == {} &&
      Run(sheetName, extract, INITIAL, records).value.phase == (if charts[k] then Completed else ReadingSheetData)
  {
    var k := IndexOf(names, sheetName);
    var globals := [Bof(Workbook)] + BoundSheets(names) + [Sst(strings), Eof];
    var st2 := Globals(sheetName, extract, names, strings);
    WaitCountsBofs(sheetName, extract, st2, charts[..k + 1]);
    RunThen(sheetName, extract, INITIAL, globals, SheetBofs(charts[..k + 1]), st2);
  }

  /**
   * The workbook globals: the workbook BOF, the BoundSheet records and the string table. The
   * listener then knows the position of its sheet and the strings, and waits for the sheet BOFs.
   */
  lemma Globals(sheetName: string, extract: bool, names: seq<string>, strings: seq<string>) returns (st2: LoadState)
    requires sheetName in names
    ensures st2 == INITIAL.(sheetIdx := IndexOf(names, sheetName), sst := Some(strings), phase := WaitingSheetBody)
    ensures Run(sheetName, extract, INITIAL, [Bof(Workbook)] + BoundSheets(names) + [Sst(strings), Eof]) == Ok(st2)
  {
    var st0 := INITIAL;
    var st1 := BoundSheetsFindSheet(sheetName, extract, names);
    st2 := st1.(sst := Some(strings), phase := WaitingSheetBody);
    assert Run(sheetName, extract, st1, [Sst(strings), Eof]) == Ok(st2) by {
      assert [Sst(strings), Eof][1..] == [Eof];
      assert Step(sheetName, extract, st1, Sst(strings)) == Ok(st2);
      assert Step(sheetName, extract, st2, Eof) == Ok(st2);
      assert Run(sheetName, extract, st2, [Eof]) == Ok(st2);
    }
    var a := [Bof(Workbook)];
    assert Run(sheetName, extract, st0, a) == Ok(st0);
    RunThen(sheetName, extract, st0, a, BoundSheets(names), st0);
    RunThen(sheetName, extract, st0, a + BoundSheets(names), [Sst(strings), Eof], st1);
  }

  /** The BoundSheet records find the sheet's position; those after it are ignored. */
  lemma BoundSheetsFindSheet(sheetName: string, extract: bool, names: seq<string>) returns (st1: LoadState)
    requires sheetName in names
    ensures st1 == INITIAL.(sheetIdx := IndexOf(names, sheetName), phase := ReadingSstData)
    ensures Run(sheetName, extract, INITIAL, BoundSheets(names)) == Ok(st1)
  {
    var k := IndexOf(names, sheetName);
    st1 := INITIAL.(sheetIdx := k, phase := ReadingSstData);
    var before, after := BoundSheets(names[..k + 1]), BoundSheets(names[k + 1..]);
    assert Run(sheetName, extract, INITIAL, before) == Ok(st1) by {
      SearchCountsEarlierSheets(sheetName, extract, INITIAL, names);
    }
    assert Run(sheetName, extract, st1, after) == Ok(st1) by {
      IgnoredWhileReadingSst(sheetName, extract, st1, names[k + 1..]);
    }
    assert BoundSheets(names) == before + after by {
      BoundSheetsSplit(names, k + 1);
    }
    RunThen(sheetName, extract, INITIAL, before, after, st1);
  }

  /** Before the string table, BoundSheet records change nothing. */
  lemma {:induction false} IgnoredWhileReadingSst(sheetName: string, extract: bool, st: LoadState, names: seq<string>)
    requires st.phase == ReadingSstData
    ensures Run(sheetName, extract, st, BoundSheets(names)) == Ok(st)
    decreases |names|
  {
    if names != [] {
      assert BoundSheets(names)[1..] == BoundSheets(names[1..]);
      IgnoredWhileReadingSst(sheetName, extract, st, names[1..]);
    }
  }

  /** The BoundSheet records of a list of names, split at `k`. */
  lemma BoundSheetsSplit(names: seq<string>, k: nat)
    requires k <= |names|
    ensures BoundSheets(names) == BoundSheets(names[..k]) + BoundSheets(names[k..])
  {
  }

  /** Running `a + b` is running `a`, then `b` from where `a` stopped. */
  lemma {:induction false} RunAppend(sheetName: string, extract: bool, st: LoadState, a: seq<Record>, b: seq<Record>)
    ensures Run(sheetName, extract, st, a + b) ==
      if Run(sheetName, extract, st, a).Err? then Run(sheetName, extract, st, a)
      else Run(sheetName, extract, Run(sheetName, extract, st, a).value, b)
    decreases |a|
  {
    if a == [] {
      assert a + b == b;
    } else {
      assert (a + b)[0] == a[0] && (a + b)[1..] == a[1..] + b;
      var next := Step(sheetName, extract, st, a[0]);
      if next.Ok? {
        RunAppend(sheetName, extract, next.value, a[1..], b);
      }
    }
  }

  lemma RunThen(sheetName: string, extract: bool, st: LoadState, a: seq<Record>, b: seq<Record>, mid: LoadState)
    requires Run(sheetName, extract, st, a) == Ok(mid)
    ensures Run(sheetName, extract, st, a + b) == Run(sheetName, extract, mid, b)
  {
    RunAppend(sheetName, extract, st, a, b);
  }

  /** Each cell record of the sheet adds exactly the cell at its row and column. */
  lemma CellRecordAddsCell(sheetName: string, extract: bool, st: LoadState, row: nat, column: nat, data: CellData)
    requires st.phase == ReadingSheetData && st.prevFormula.None?
    requires CellOutcome(data, st.sst, extract).Ok? && CellOutcome(data, st.sst, extract).value.Value?
    ensures Step(sheetName, extract, st, CellRecord(row, column, data)) ==
      Ok(st.(cells := st.cells + {Cells.Cell(row, column, CellOutcome(data, st.sst, extract).value.text)}))
  {
  }

  /**
   * In cached-value mode a string-result formula adds no cell by itself; the StringRecord after
   * it adds the formula's cell with the string as its value.
   */
  lemma StringFormulaTakesNextString(sheetName: string, st: LoadState, row: nat, column: nat,
                                     numericText: string, b: bool, errorText: string, text: string)
    requires st.phase == ReadingSheetData && st.prevFormula.None?
    ensures var formula := CellRecord(row, column, Formula(StringResult, numericText, b, errorText));
      Run(sheetName, true, st, [formula, StringRecord(text)]) ==
        Ok(st.(cells := st.cells + {Cells.Cell(row, column, text)}))
  {
    var formula := CellRecord(row, column, Formula(StringResult, numericText, b, errorText));
    var mid := st.(prevFormula := Some((row, column)));
    assert CellOutcome(formula.data, st.sst, true) == Ok(AwaitString);
    assert Step(sheetName, true, st, formula) == Ok(mid);
    var done := st.(cells := st.cells + {Cells.Cell(row, column, text)});
    assert Step(sheetName, true, mid, StringRecord(text)) == Ok(done);
    assert Run(sheetName, true, mid, [StringRecord(text)]) == Ok(done);
    assert [formula, StringRecord(text)][1..] == [StringRecord(text)];
  }

  /** Without cached-value mode every formula cell reads "[formula]". */
  lemma FormulaPlaceholder(sheetName: string, st: LoadState, row: nat, column: nat,
                           cachedType: CachedType, numericText: string, b: bool, errorText: string)
    requires st.phase == ReadingSheetData && st.prevFormula.None?
    ensures Step(sheetName, false, st, CellRecord(row, column, Formula(cachedType, numericText, b, errorText))) ==
      Ok(st.(cells := st.cells + {Cells.Cell(row, column, FORMULA_PLACEHOLDER)}))
  {
    assert CellOutcome(Formula(cachedType, numericText, b, errorText), st.sst, false) == Ok(Value(FORMULA_PLACEHOLDER));
  }
}
