// The BIFF8 records of a .xls workbook stream that the event-model listeners react to, with
// the values the spreadsheet library decodes from them already in hand.

module Biff {
  /** The substream kind a BOF record announces. */
  datatype BofType = Workbook | Worksheet | Chart | OtherBof

  /** The result type a formula record caches (`CellType.forInt(getCachedResultType())`). */
  datatype CachedType = Numeric | StringResult | Boolean | ErrorResult | OtherType

  /**
   * The payload of a cell record. Numbers arrive as the text `NumberToTextConverter.toText`
   * makes of them, error codes as the text `FormulaError`/`ErrorEval` give them.
   */
  datatype CellData =
    | LabelSst(sstIndex: int)
    | Number(numberText: string)
    | Rk(rkText: string)
    | BoolErr(isError: bool, errorText: string, booleanValue: bool)
    | Formula(cachedType: CachedType, numericText: string, cachedBoolean: bool, cachedErrorText: string)
    | OtherCell

  /** A record of the stream; the ones no listener inspects are `Other`. */
  datatype Record =
    | Bof(bofType: BofType)
    | BoundSheet(sheetName: string)
    | Sst(strings: seq<string>)
    | CellRecord(row: nat, column: nat, data: CellData)
    | StringRecord(text: string)
    | Eof
    | Other

  /** The BoundSheet records announcing `names`, in order. */
  function BoundSheets(names: seq<string>): (r: seq<Record>)
    ensures |r| == |names|
    ensures forall k :: 0 <= k < |names| ==> r[k] == BoundSheet(names[k])
  {
    if names == [] then [] else [BoundSheet(names[0])] + BoundSheets(names[1..])
  }

  /** The BOF records opening one substream per sheet; `charts[k]` says whether sheet k is a chart. */
  function SheetBofs(charts: seq<bool>): (r: seq<Record>)
    ensures |r| == |charts|
    ensures forall k :: 0 <= k < |charts| ==> r[k] == Bof(if charts[k] then Chart else Worksheet)
  {
    if charts == [] then [] else [Bof(if charts[0] then Chart else Worksheet)] + SheetBofs(charts[1..])
  }
}
