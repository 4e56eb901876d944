// Loading the cells of one sheet of an .xlsx/.xlsm workbook from the SAX events of its sheet
// part (poi/XSSFSheetLoaderWithEventApi.java). Each <c> element of Office Open XML (ECMA-376
// Part 1, section 18.3.1.4) is a cell: its `r` attribute is the address, its `t` attribute
// the cell type of section 18.18.11 (ST_CellType), its <f> child the formula and its <v>
// child the cached value.

module XssfSheetLoading {
  import opened Wrappers
  import opened Files
  import opened Sax
  import BookTypes
  import JavaText
  import Cells
  import ExcelUtils

  type Cell = Cells.Cell

  /** `CellType`: the values of the `t` attribute. */
  datatype CellType = B | D | E | InlineStr | N | S | Str
  {
    /** The constant's name, which is the attribute value it stands for. */
    function Name(): string {
      match this
      case B => "b"
      case D => "d"
      case E => "e"
      case InlineStr => "inlineStr"
      case N => "n"
      case S => "s"
      case Str => "str"
    }
  }

  /** `values()`, in declaration order. */
  const CELL_TYPES: seq<CellType> := [B, D, E, InlineStr, N, S, Str]

  /** `CellType.of`: an absent attribute is `n`; otherwise `valueOf`, IllegalArgument for an unknown name. */
  function CellTypeOf(t: Option<string>): (r: Result<CellType>)
    ensures t.None? ==> r == Ok(N)
    ensures t.Some? ==> (r.Ok? <==> exists ct: CellType :: ct.Name() == t.value)
    ensures t.Some? && r.Ok? ==> r.value.Name() == t.value
    ensures r.Err? ==> r.error == IllegalArgument
  {
    if t.None? then Ok(N)
    else
      var k := FirstNamed(CELL_TYPES, t.value);
      if k < |CELL_TYPES| then Ok(CELL_TYPES[k])
      else
        assert forall ct: CellType :: ct.Name() != t.value by {
          forall ct: CellType ensures ct.Name() != t.value {
            Listed(ct);
          }
        }
        Err(IllegalArgument)
  }

  /** The index of the first of `types` named `name`, or `|types|`. */
  function FirstNamed(types: seq<CellType>, name: string): (k: nat)
    ensures k <= |types|
    ensures k < |types| ==> types[k].Name() == name
    ensures k == |types| ==> forall j :: 0 <= j < |types| ==> types[j].Name() != name
  {
    if types == [] then 0
    else if types[0].Name() == name then 0
    else 1 + FirstNamed(types[1..], name)
  }

  /** `values()` lists every constant. */
  lemma Listed(ct: CellType)
    ensures ct in CELL_TYPES
  {
    match ct
    case B => assert CELL_TYPES[0] == ct;
    case D => assert CELL_TYPES[1] == ct;
    case E => assert CELL_TYPES[2] == ct;
    case InlineStr => assert CELL_TYPES[3] == ct;
    case N => assert CELL_TYPES[4] == ct;
    case S => assert CELL_TYPES[5] == ct;
    case Str => assert CELL_TYPES[6] == ct;
  }

  /** Every constant is found again from its name. */
  lemma CellTypeOfName(ct: CellType)
    ensures CellTypeOf(Some(ct.Name())) == Ok(ct)
  {
    var r := CellTypeOf(Some(ct.Name()));
    assert r.Ok? && r.value.Name() == ct.Name();
  }

  /** The handler's mutable fields as a value. */
  datatype HandlerState = HandlerState(
    result: set<Cell>,
    address: Option<string>,
    cellType: Option<CellType>,
    value: Option<string>,
    getNextString: bool)

  /** The fields as `startDocument` leaves them. */
  const FRESH: HandlerState := HandlerState({}, None, None, None, false)

  /** The types whose captured text is a formula or a number, normalised before it is stored. */
  predicate Normalised(t: Option<CellType>) {
    t == Some(E) || t == Some(N) || t == Some(Str)
  }

  /** The text stored for a captured value: normalised for types e, n and str. */
  function StoredValue(t: Option<CellType>, captured: string): string {
    if Normalised(t) then ExcelUtils.Normalized(captured) else captured
  }

  /** `startElement`. */
  function StartStep(extractCachedValue: bool, st: HandlerState, qName: string, attributes: Attributes): Result<HandlerState> {
    if qName == "c" then
      var t :- CellTypeOf(GetValue(attributes, "t"));
      Ok(st.(address := GetValue(attributes, "r"), cellType := Some(t), getNextString := false))
    else if qName == "f" then Ok(st.(getNextString := !extractCachedValue))
    else if qName == "v" then Ok(st.(getNextString := st.value.None?))
    else Ok(st.(getNextString := false))
  }

  /** `characters`. */
  function CharactersStep(table: seq<string>, st: HandlerState, text: string): Result<HandlerState> {
    if !st.getNextString then Ok(st)
    else if st.cellType.None? then Err(NullPointer)
    else
      match st.cellType.value
      case S =>
        var idx :- JavaText.ParseInt(text);
        if 0 <= idx < |table| then Ok(st.(value := Some(table[idx]))) else Err(IndexOutOfBounds)
      case B => Ok(st.(value := Some(if text == "1" then "true" else "false")))
      case _ => Ok(st.(value := Some(if st.value.None? then text else st.value.value + text)))
  }

  /** `endElement`. */
  function EndStep(st: HandlerState, qName: string): Result<HandlerState> {
    if qName == "c" then
      if st.value.Some? then
        var cell :- Cells.OfAddress(st.address, Some(StoredValue(st.cellType, st.value.value)));
        Ok(HandlerState(st.result + {cell}, None, None, None, false))
      else Ok(HandlerState(st.result, None, None, None, false))
    else Ok(st.(getNextString := false))
  }

  /** One callback of the parser. */
  function Step(extractCachedValue: bool, table: seq<string>, st: HandlerState, e: Event): Result<HandlerState> {
    match e
    case StartDocument => Ok(FRESH)
    case StartElement(qName, attributes) => StartStep(extractCachedValue, st, qName, attributes)
    case Characters(text) => CharactersStep(table, st, text)
    case EndElement(qName) => EndStep(st, qName)
  }

  /** The callbacks one by one from `st`; the first exception ends the parse. */
  function Run(extractCachedValue: bool, table: seq<string>, st: HandlerState, events: seq<Event>): Result<HandlerState>
    decreases |events|
  {
    if events == [] then Ok(st)
    else
      var next :- Step(extractCachedValue, table, st, events[0]);
      Run(extractCachedValue, table, next, events[1..])
  }

  /**
   * `XSSFSheetLoadingHandler`, over the workbook's shared string table, given as the text of
   * each entry.
   */
  class XSSFSheetLoadingHandler {
    const extractCachedValue: bool
    const table: seq<string>
    var result: set<Cell>
    var address: Option<string>
    var cellType: Option<CellType>
    var value: Option<string>
    var getNextString: bool

    function State(): HandlerState
      reads this
    {
      HandlerState(result, address, cellType, value, getNextString)
    }

    constructor (extractCachedValue: bool, table: seq<string>)
      ensures this.extractCachedValue == extractCachedValue && this.table == table
      ensures State() == FRESH
    {
      this.extractCachedValue := extractCachedValue;
      this.table := table;
      result := {};
      address := None;
      cellType := None;
      value := None;
      getNextString := false;
    }

    /** `startDocument`: a new empty result and no cell in progress. */
    method StartDocument()
      modifies this
      ensures State() == FRESH
    {
      result := {};
      address := None;
      cellType := None;
      value := None;
      getNextString := false;
    }

    /**
     * `startElement`: <c> starts a cell with its address and type; <f> captures the formula
     * text unless cached values are wanted; <v> captures the cached value unless something was
     * captured already; any other tag stops capturing.
     */
    method StartElement(qName: string, attributes: Attributes) returns (r: Result<()>)
      modifies this
      ensures qName == "c" ==> (r.Ok? <==> CellTypeOf(GetValue(attributes, "t")).Ok?)
      ensures qName == "c" && r.Ok? ==>
        address == GetValue(attributes, "r") && cellType == Some(CellTypeOf(GetValue(attributes, "t")).value)
        && value == old(value) && !getNextString
      ensures qName == "c" && r.Err? ==> r.error == IllegalArgument
      ensures qName != "c" ==> r.Ok? && address == old(address) && cellType == old(cellType) && value == old(value)
      ensures qName == "f" ==> (getNextString <==> !extractCachedValue)
      ensures qName == "v" ==> (getNextString <==> old(value).None?)
      ensures qName != "c" && qName != "f" && qName != "v" ==> !getNextString
      ensures result == old(result)
      ensures r.Ok? ==> StartStep(extractCachedValue, old(State()), qName, attributes) == Ok(State())
    {
      match qName {
        case "c" =>
          address := GetValue(attributes, "r");
          var t := CellTypeOf(GetValue(attributes, "t"));
          if t.Err? {
            return Err(t.error);
          }
          cellType := Some(t.value);
          getNextString := false;
        case "f" =>
          getNextString := !extractCachedValue;
        case "v" =>
          getNextString := value.None?;
        case _ =>
          getNextString := false;
      }
      r := Ok(());
    }

    /**
     * `characters`: while capturing, a shared-string cell takes the table entry the text
     * indexes, a boolean cell "true" exactly when the text is "1", and every other cell
     * appends the text to what it has.
     */
    method Characters(text: string) returns (r: Result<()>)
      modifies this
      ensures !old(getNextString) ==> r.Ok? && State() == old(State())
      ensures old(getNextString) && old(cellType) == Some(S) ==>
        (r.Ok? <==> JavaText.ParseInt(text).Ok? && 0 <= JavaText.ParseInt(text).value < |table|)
      ensures old(getNextString) && old(cellType) == Some(S) && r.Ok? ==>
        value == Some(table[JavaText.ParseInt(text).value])
      ensures old(getNextString) && old(cellType) == Some(B) ==>
        r.Ok? && value == Some(if text == "1" then "true" else "false")
      ensures old(getNextString) && old(cellType).Some? && old(cellType) != Some(S) && old(cellType) != Some(B) ==>
        r.Ok? && value == Some(if old(value).None? then text else old(value).value + text)
      ensures result == old(result) && address == old(address) && cellType == old(cellType)
        && getNextString == old(getNextString)
      ensures r.Ok? ==> CharactersStep(table, old(State()), text) == Ok(State())
      ensures r.Err? ==> CharactersStep(table, old(State()), text) == Err(r.error)
    {
      if !getNextString {
        return Ok(());
      }
      if cellType.None? {
        return Err(NullPointer);
      }
      match cellType.value {
        case S =>
          var idx := JavaText.ParseInt(text);
          if idx.Err? {
            return Err(idx.error);
          }
          if !(0 <= idx.value < |table|) {
            return Err(IndexOutOfBounds);
          }
          value := Some(table[idx.value]);
        case B =>
          value := Some(if text == "1" then "true" else "false");
        case _ =>
          value := Some(if value.None? then text else value.value + text);
      }
      r := Ok(());
    }

    /**
     * `endElement`: at </c>, a cell with a captured value is added at its address, its value
     * normalised for types e, n and str, and the cell in progress is cleared; every end tag
     * stops capturing.
     */
    method EndElement(qName: string) returns (r: Result<()>)
      modifies this
      ensures qName == "c" && old(value).None? ==> r.Ok? && result == old(result)
      ensures qName == "c" && old(value).Some? ==>
        (r.Ok? <==> Cells.OfAddress(old(address), Some(StoredValue(old(cellType), old(value).value))).Ok?)
      ensures qName == "c" && old(value).Some? && r.Ok? ==>
        result == old(result) + {Cells.OfAddress(old(address), Some(StoredValue(old(cellType), old(value).value))).value}
      ensures qName == "c" && r.Ok? ==> address.None? && cellType.None? && value.None?
      ensures qName != "c" ==> r.Ok? && State() == old(State()).(getNextString := false)
      ensures r.Ok? ==> !getNextString
      ensures r.Ok? ==> EndStep(old(State()), qName) == Ok(State())
      ensures r.Err? ==> EndStep(old(State()), qName) == Err(r.error)
    {
      if qName == "c" {
        if value.Some? {
          var cell := Cells.OfAddress(address, Some(StoredValue(cellType, value.value)));
          if cell.Err? {
            return Err(cell.error);
          }
          result := result + {cell.value};
        }
        address := None;
        cellType := None;
        value := None;
      }
      getNextString := false;
      r := Ok(());
    }
  }

  /** `parser.parse` driving `handler` over the events of a sheet part. */
  method Parse(handler: XSSFSheetLoadingHandler, events: seq<Event>) returns (r: Result<()>)
    modifies handler
    ensures r.Ok? <==> Run(handler.extractCachedValue, handler.table, old(handler.State()), events).Ok?
    ensures r.Ok? ==> Run(handler.extractCachedValue, handler.table, old(handler.State()), events) == Ok(handler.State())
    ensures r.Err? ==> Run(handler.extractCachedValue, handler.table, old(handler.State()), events) == Err(r.error)
  {
    var i := 0;
    while i < |events|
      invariant 0 <= i <= |events|
      invariant Run(handler.extractCachedValue, handler.table, old(handler.State()), events) ==
        Run(handler.extractCachedValue, handler.table, handler.State(), events[i..])
    {
      assert events[i..][1..] == events[i + 1..];
      var step: Result<()>;
      match events[i] {
        case StartDocument =>
          handler.StartDocument();
          step := Ok(());
        case StartElement(qName, attributes) =>
          step := handler.StartElement(qName, attributes);
          if step.Err? {
            return Err(step.error);
          }
        case Characters(text) =>
          step := handler.Characters(text);
        case EndElement(qName) =>
          step := handler.EndElement(qName);
      }
      if step.Err? {
        return Err(step.error);
      }
      i := i + 1;
    }
    r := Ok(());
  }

  /** The formats this loader reads. */
  const SUPPORTED: seq<BookTypes.BookType> := [BookTypes.XLSX, BookTypes.XLSM]

  /** `isSupported`: the file name ends with ".xlsx" or ".xlsm"; NullPointer for a null file. */
  function IsSupported(file: Option<File>): (r: Result<bool>)
    ensures file.None? <==> r == Err(NullPointer)
    ensures file.Some? ==> r == Ok(BookTypes.Matches(file.value.name, BookTypes.XLSX) || BookTypes.Matches(file.value.name, BookTypes.XLSM))
  {
    if file.None? then Err(NullPointer)
    else
      assert SUPPORTED[0] == BookTypes.XLSX && SUPPORTED[1] == BookTypes.XLSM;
      Ok(exists k :: 0 <= k < |SUPPORTED| && BookTypes.Matches(file.value.name, SUPPORTED[k]))
  }

  /**
   * How `loadSheetById` reports a failure of the parse: an IllegalArgumentException, which
   * includes the NumberFormatException of a malformed shared-string index and an unknown cell
   * type, becomes NoSuchElement; anything else an ApplicationException.
   */
  function Reported(e: Error): (r: Error)
    ensures r == NoSuchElement <==> e == IllegalArgument || e == NumberFormat
    ensures r != NoSuchElement ==> r == Application
  {
    if e == IllegalArgument || e == NumberFormat then NoSuchElement else Application
  }

  /**
   * `loadSheetById(book, relId)` of a loader made with `extractCachedValue`, with the sheet
   * parts of the workbook as SAX events by relationship id and the shared string table:
   * NullPointer for a null argument, IllegalArgument for an unsupported extension,
   * NoSuchElement for an unknown id, and otherwise the cells the handler collected.
   */
  method LoadSheetById(extractCachedValue: bool, book: Option<File>, relId: Option<string>,
                       sheets: map<string, seq<Event>>, table: seq<string>)
    returns (r: Result<set<Cell>>)
    ensures book.None? || relId.None? ==> r == Err(NullPointer)
    ensures book.Some? && relId.Some? && !IsSupported(book).value ==> r == Err(IllegalArgument)
    ensures book.Some? && relId.Some? && IsSupported(book).value && relId.value !in sheets ==> r == Err(NoSuchElement)
    ensures book.Some? && relId.Some? && IsSupported(book).value && relId.value in sheets ==>
      r == match Run(extractCachedValue, table, FRESH, [StartDocument] + sheets[relId.value])
           case Ok(st) => Ok(st.result)
           case Err(e) => Err(Reported(e))
  {
    if book.None? || relId.None? {
      return Err(NullPointer);
    }
    if !IsSupported(book).value {
      return Err(IllegalArgument);
    }
    if relId.value !in sheets {
      return Err(NoSuchElement);
    }
    var handler := new XSSFSheetLoadingHandler(extractCachedValue, table);
    var parsed := Parse(handler, [StartDocument] + sheets[relId.value]);
    if parsed.Err? {
      return Err(Reported(parsed.error));
    }
    r := Ok(handler.result);
  }

  /**
   * `loadSheet(book, sheetName)`, with the sheet name -> relationship id map of the workbook:
   * the null and format checks, NoSuchElement for a name without an id, then `loadSheetById`.
   */
  method LoadSheet(extractCachedValue: bool, book: Option<File>, sheetName: Option<string>,
                   sheetsId: map<string, string>, sheets: map<string, seq<Event>>, table: seq<string>)
    returns (r: Result<set<Cell>>)
    ensures book.None? || sheetName.None? ==> r == Err(NullPointer)
    ensures book.Some? && sheetName.Some? && !IsSupported(book).value ==> r == Err(IllegalArgument)
    ensures book.Some? && sheetName.Some? && IsSupported(book).value && sheetName.value !in sheetsId ==>
      r == Err(NoSuchElement)
    ensures book.Some? && sheetName.Some? && IsSupported(book).value && sheetName.value in sheetsId ==>
      var relId := sheetsId[sheetName.value];
      && (relId !in sheets ==> r == Err(NoSuchElement))
      && (relId in sheets ==> r == match Run(extractCachedValue, table, FRESH, [StartDocument] + sheets[relId])
                                   case Ok(st) => Ok(st.result)
                                   case Err(e) => Err(Reported(e)))
  {
    if book.None? || sheetName.None? {
      return Err(NullPointer);
    }
    if !IsSupported(book).value {
      return Err(IllegalArgument);
    }
    if sheetName.value !in sheetsId {
      return Err(NoSuchElement);
    }
    r := LoadSheetById(extractCachedValue, book, Some(sheetsId[sheetName.value]), sheets, table);
  }

  // ---------------------------------------------------------------------------------------
  // Whole cells.

  /** The events of a cell element `<c r="..." [t="..."]>` with an optional formula and value. */
  function CellEvents(address: string, t: Option<string>, formula: Option<string>, cached: Option<string>): seq<Event> {
    var attributes := if t.Some? then map["r" := address, "t" := t.value] else map["r" := address];
    [StartElement("c", attributes)]
    + (if formula.Some? then [StartElement("f", map[]), Characters(formula.value), EndElement("f")] else [])
    + (if cached.Some? then [StartElement("v", map[]), Characters(cached.value), EndElement("v")] else [])
    + [EndElement("c")]
  }

  /** Running `a + b` is running `a`, then `b` from where `a` stopped. */
  lemma {:induction false} RunAppend(extract: bool, table: seq<string>, st: HandlerState, a: seq<Event>, b: seq<Event>)
    ensures Run(extract, table, st, a + b) ==
      if Run(extract, table, st, a).Err? then Run(extract, table, st, a)
      else Run(extract, table, Run(extract, table, st, a).value, b)
    decreases |a|
  {
    if a == [] {
      assert a + b == b;
    } else {
      assert (a + b)[0] == a[0] && (a + b)[1..] == a[1..] + b;
      var next := Step(extract, table, st, a[0]);
      if next.Ok? {
        RunAppend(extract, table, next.value, a[1..], b);
      }
    }
  }

  lemma RunThen(extract: bool, table: seq<string>, st: HandlerState, a: seq<Event>, b: seq<Event>, mid: HandlerState)
    requires Run(extract, table, st, a) == Ok(mid)
    ensures Run(extract, table, st, a + b) == Run(extract, table, mid, b)
  {
    RunAppend(extract, table, st, a, b);
  }

  /** Three callbacks in a row. */
  lemma RunThree(extract: bool, table: seq<string>, st: HandlerState, e1: Event, e2: Event, e3: Event,
                 s1: HandlerState, s2: HandlerState, s3: HandlerState)
    requires Step(extract, table, st, e1) == Ok(s1)
    requires Step(extract, table, s1, e2) == Ok(s2)
    requires Step(extract, table, s2, e3) == Ok(s3)
    ensures Run(extract, table, st, [e1, e2, e3]) == Ok(s3)
  {
    assert [e1, e2, e3][1..] == [e2, e3];
    assert [e2, e3][1..] == [e3];
    assert Run(extract, table, s2, [e3]) == Ok(s3);
  }

  /** The start tag of a cell with a type attribute records its address and type. */
  lemma CellStart(extract: bool, table: seq<string>, st: HandlerState, address: string, t: CellType)
    ensures Run(extract, table, st, [StartElement("c", map["r" := address, "t" := t.Name()])]) ==
      Ok(st.(address := Some(address), cellType := Some(t), getNextString := false))
  {
    CellTypeOfName(t);
    var s0 := st.(address := Some(address), cellType := Some(t), getNextString := false);
    assert Step(extract, table, st, StartElement("c", map["r" := address, "t" := t.Name()])) == Ok(s0);
  }

  /** Text captured for a cell of a type that is neither shared string nor boolean is appended. */
  lemma CaptureText(extract: bool, table: seq<string>, st: HandlerState, text: string)
    requires st.getNextString && st.cellType.Some? && st.cellType != Some(S) && st.cellType != Some(B)
    ensures CharactersStep(table, st, text) ==
      Ok(st.(value := Some(if st.value.None? then text else st.value.value + text)))
  {
  }

  /**
   * A child element `<f>` or `<v>` of a cell holding `text`: `<f>` captures in formula mode,
   * `<v>` only when nothing was captured before it; its end tag stops capturing.
   */
  lemma Child(extract: bool, table: seq<string>, st: HandlerState, tag: string, text: string, after: HandlerState)
    requires tag == "f" || tag == "v"
    requires CharactersStep(table, st.(getNextString := if tag == "f" then !extract else st.value.None?), text) == Ok(after)
    ensures Run(extract, table, st, [StartElement(tag, map[]), Characters(text), EndElement(tag)]) ==
      Ok(after.(getNextString := false))
  {
    var s1 := st.(getNextString := if tag == "f" then !extract else st.value.None?);
    assert Step(extract, table, st, StartElement(tag, map[])) == Ok(s1);
    RunThree(extract, table, st, StartElement(tag, map[]), Characters(text), EndElement(tag),
             s1, after, after.(getNextString := false));
  }

  /** The end tag of a cell with a captured value at its own address adds that cell. */
  lemma CellEnd(extract: bool, table: seq<string>, st: HandlerState, cell: Cell)
    requires st.address == Some(cell.Address()) && st.value.Some?
    requires cell.value == StoredValue(st.cellType, st.value.value) && cell.row + 1 <= INT_MAX
    ensures Run(extract, table, st, [EndElement("c")]) == Ok(HandlerState(st.result + {cell}, None, None, None, false))
  {
    Cells.OfOwnAddress(cell.row, cell.column, cell.value);
    assert Step(extract, table, st, EndElement("c")) == Ok(HandlerState(st.result + {cell}, None, None, None, false));
  }

  /**
   * A cell element with a formula and a cached value, of a type that is neither shared string
   * nor boolean: in formula mode the formula text is the cell's value, in cached-value mode the
   * cached value is; it is normalised for types e, n and str and stored at the cell's address.
   */
  lemma FormulaOrCachedValue(extract: bool, table: seq<string>, st: HandlerState, cell: Cell,
                             t: CellType, formula: string, cached: string)
    requires st.value.None?
    requires t != S && t != B && cell.row + 1 <= INT_MAX
    requires cell.value == StoredValue(Some(t), if extract then cached else formula)
    ensures Run(extract, table, st, CellEvents(cell.Address(), Some(t.Name()), Some(formula), Some(cached))) ==
      Ok(HandlerState(st.result + {cell}, None, None, None, false))
  {
    var a := [StartElement("c", map["r" := cell.Address(), "t" := t.Name()])];
    var f := [StartElement("f", map[]), Characters(formula), EndElement("f")];
    var c := [StartElement("v", map[]), Characters(cached), EndElement("v")];
    var s0 := st.(address := Some(cell.Address()), cellType := Some(t), getNextString := false);
    CellStart(extract, table, st, cell.Address(), t);
    var s3 := s0.(value := if extract then None else Some(formula), getNextString := false);
    if !extract {
      CaptureText(extract, table, s0.(getNextString := true), formula);
    }
    Child(extract, table, s0, "f", formula, s3.(getNextString := !extract));
    RunThen(extract, table, st, a, f, s0);
    var s6 := s3.(value := if s3.value.None? then Some(cached) else s3.value, getNextString := false);
    if extract {
      CaptureText(extract, table, s3.(getNextString := true), cached);
    }
    Child(extract, table, s3, "v", cached, s6.(getNextString := extract));
    RunThen(extract, table, st, a + f, c, s3);
    CellEnd(extract, table, s6, cell);
    RunThen(extract, table, st, a + f + c, [EndElement("c")], s6);
    assert CellEvents(cell.Address(), Some(t.Name()), Some(formula), Some(cached)) == a + f + c + [EndElement("c")];
  }

  /** A cell element with neither formula nor value adds no cell. */
  lemma EmptyCellAddsNothing(extract: bool, table: seq<string>, st: HandlerState, address: string)
    requires st.value.None?
    ensures Run(extract, table, st, CellEvents(address, None, None, None)) ==
      Ok(HandlerState(st.result, None, None, None, false))
  {
    var s0 := st.(address := Some(address), cellType := Some(N), getNextString := false);
    var s1 := HandlerState(st.result, None, None, None, false);
    assert Step(extract, table, st, StartElement("c", map["r" := address])) == Ok(s0);
    assert Step(extract, table, s0, EndElement("c")) == Ok(s1);
    var events := CellEvents(address, None, None, None);
    assert events == [StartElement("c", map["r" := address]), EndElement("c")];
    assert events[1..] == [EndElement("c")];
    assert Run(extract, table, s0, [EndElement("c")]) == Ok(s1);
  }

  /** A boolean cell without a formula holds "true" exactly when its value is "1". */
  lemma BooleanCell(extract: bool, table: seq<string>, st: HandlerState, cell: Cell, cached: string)
    requires st.value.None? && cell.row + 1 <= INT_MAX
    requires cell.value == if cached == "1" then "true" else "false"
    ensures Run(extract, table, st, CellEvents(cell.Address(), Some("b"), None, Some(cached))) ==
      Ok(HandlerState(st.result + {cell}, None, None, None, false))
  {
    var a := [StartElement("c", map["r" := cell.Address(), "t" := B.Name()])];
    var c := [StartElement("v", map[]), Characters(cached), EndElement("v")];
    var s0 := st.(address := Some(cell.Address()), cellType := Some(B), getNextString := false);
    CellStart(extract, table, st, cell.Address(), B);
    var s3 := s0.(value := Some(cell.value));
    Child(extract, table, s0, "v", cached, s3.(getNextString := true));
    RunThen(extract, table, st, a, c, s0);
    CellEnd(extract, table, s3, cell);
    RunThen(extract, table, st, a + c, [EndElement("c")], s3);
    assert CellEvents(cell.Address(), Some("b"), None, Some(cached)) == a + c + [EndElement("c")];
  }

  /**
   * In formula mode a boolean cell with a formula holds "true" exactly when the formula text is
   * "1": the text under `<f>` goes through the boolean conversion, and the cached value is
   * then not read.
   */
  lemma BooleanFormulaInFormulaMode(table: seq<string>, st: HandlerState, cell: Cell, formula: string, cached: string)
    requires st.value.None? && cell.row + 1 <= INT_MAX
    requires cell.value == if formula == "1" then "true" else "false"
    ensures Run(false, table, st, CellEvents(cell.Address(), Some("b"), Some(formula), Some(cached))) ==
      Ok(HandlerState(st.result + {cell}, None, None, None, false))
  {
    var a := [StartElement("c", map["r" := cell.Address(), "t" := B.Name()])];
    var f := [StartElement("f", map[]), Characters(formula), EndElement("f")];
    var c := [StartElement("v", map[]), Characters(cached), EndElement("v")];
    var s0 := st.(address := Some(cell.Address()), cellType := Some(B), getNextString := false);
    CellStart(false, table, st, cell.Address(), B);
    var s3 := s0.(value := Some(cell.value));
    Child(false, table, s0, "f", formula, s3.(getNextString := true));
    RunThen(false, table, st, a, f, s0);
    Child(false, table, s3, "v", cached, s3);
    RunThen(false, table, st, a + f, c, s3);
    CellEnd(false, table, s3, cell);
    RunThen(false, table, st, a + f + c, [EndElement("c")], s3);
    assert CellEvents(cell.Address(), Some("b"), Some(formula), Some(cached)) == a + f + c + [EndElement("c")];
  }

  /** The text of a shared-string value is the index of the table entry it stands for. */
  lemma SharedStringText(table: seq<string>, st: HandlerState, k: nat)
    requires st.getNextString && st.cellType == Some(S) && k < |table| && k <= INT_MAX
    ensures CharactersStep(table, st, JavaText.NatToString(k)) == Ok(st.(value := Some(table[k])))
  {
    JavaText.ParseIntOfNatToString(k);
  }

  /**
   * A cell with only a `<v>` child whose text the handler reads as `v`: the cell is added with
   * the stored form of `v`.
   */
  lemma ValueOnlyCell(extract: bool, table: seq<string>, st: HandlerState, cell: Cell, t: CellType, text: string, v: string)
    requires st.value.None? && cell.row + 1 <= INT_MAX && cell.value == StoredValue(Some(t), v)
    requires var s1 := st.(address := Some(cell.Address()), cellType := Some(t), getNextString := true);
      CharactersStep(table, s1, text) == Ok(s1.(value := Some(v)))
    ensures Run(extract, table, st, CellEvents(cell.Address(), Some(t.Name()), None, Some(text))) ==
      Ok(HandlerState(st.result + {cell}, None, None, None, false))
  {
    var a := [StartElement("c", map["r" := cell.Address(), "t" := t.Name()])];
    var c := [StartElement("v", map[]), Characters(text), EndElement("v")];
    var s0 := st.(address := Some(cell.Address()), cellType := Some(t), getNextString := false);
    CellStart(extract, table, st, cell.Address(), t);
    var s3 := s0.(value := Some(v));
    Child(extract, table, s0, "v", text, s3.(getNextString := true));
    RunThen(extract, table, st, a, c, s0);
    CellEnd(extract, table, s3, cell);
    RunThen(extract, table, st, a + c, [EndElement("c")], s3);
    assert CellEvents(cell.Address(), Some(t.Name()), None, Some(text)) == a + c + [EndElement("c")];
  }

  /** A shared-string cell holds the table entry its value indexes. */
  lemma SharedStringCell(extract: bool, table: seq<string>, st: HandlerState, cell: Cell, k: nat)
    requires st.value.None? && cell.row + 1 <= INT_MAX
    requires k < |table| && k <= INT_MAX && cell.value == table[k]
    ensures Run(extract, table, st, CellEvents(cell.Address(), Some("s"), None, Some(JavaText.NatToString(k)))) ==
      Ok(HandlerState(st.result + {cell}, None, None, None, false))
  {
    var s1 := st.(address := Some(cell.Address()), cellType := Some(S), getNextString := true);
    SharedStringText(table, s1, k);
    ValueOnlyCell(extract, table, st, cell, S, JavaText.NatToString(k), table[k]);
  }

  /** An index past the end of the shared string table ends the parse with IndexOutOfBounds. */
  lemma SharedStringOutOfRange(extract: bool, table: seq<string>, st: HandlerState, address: string, k: nat)
    requires st.value.None? && |table| <= k <= INT_MAX
    ensures Run(extract, table, st, CellEvents(address, Some("s"), None, Some(JavaText.NatToString(k)))) ==
      Err(IndexOutOfBounds)
  {
    var text := JavaText.NatToString(k);
    var a := [StartElement("c", map["r" := address, "t" := S.Name()])];
    var v := [StartElement("v", map[]), Characters(text)];
    var s0 := st.(address := Some(address), cellType := Some(S), getNextString := false);
    CellStart(extract, table, st, address, S);
    JavaText.ParseIntOfNatToString(k);
    var s1 := s0.(getNextString := true);
    assert Step(extract, table, s0, StartElement("v", map[])) == Ok(s1);
    assert Step(extract, table, s1, Characters(text)) == Err(IndexOutOfBounds);
    assert v[1..] == [Characters(text)];
    RunThen(extract, table, st, a, v + [EndElement("v"), EndElement("c")], s0);
    assert CellEvents(address, Some("s"), None, Some(text)) == a + (v + [EndElement("v"), EndElement("c")]);
  }

  /** A `t` attribute naming no cell type ends the parse with IllegalArgument at the cell's start tag. */
  lemma UnknownCellTypeFails(extract: bool, table: seq<string>, st: HandlerState, address: string,
                             t: string, formula: Option<string>, cached: Option<string>)
    requires forall ct: CellType :: ct.Name() != t
    ensures Run(extract, table, st, CellEvents(address, Some(t), formula, cached)) == Err(IllegalArgument)
  {
    var events := CellEvents(address, Some(t), formula, cached);
    assert events[0] == StartElement("c", map["r" := address, "t" := t]);
  }

  /** Without a new document, every callback keeps the cells collected so far. */
  lemma StepKeepsResult(extract: bool, table: seq<string>, st: HandlerState, e: Event)
    requires !e.StartDocument? && Step(extract, table, st, e).Ok?
    ensures st.result <= Step(extract, table, st, e).value.result
  {
    if e.EndElement? && e.endName == "c" && st.value.Some? {
      assert Step(extract, table, st, e).value.result == st.result + {Cells.OfAddress(st.address, Some(StoredValue(st.cellType, st.value.value))).value};
    }
  }

  /** Within one document the set of collected cells only grows. */
  lemma {:induction false} RunKeepsResult(extract: bool, table: seq<string>, st: HandlerState, events: seq<Event>)
    requires forall i :: 0 <= i < |events| ==> !events[i].StartDocument?
    requires Run(extract, table, st, events).Ok?
    ensures st.result <= Run(extract, table, st, events).value.result
    decreases |events|
  {
    if events != [] {
      StepKeepsResult(extract, table, st, events[0]);
      var next := Step(extract, table, st, events[0]).value;
      assert forall i :: 0 <= i < |events[1..]| ==> events[1..][i] == events[i + 1];
      RunKeepsResult(extract, table, next, events[1..]);
    }
  }
}
