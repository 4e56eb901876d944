// The StAX events the sheet readers consume and produce, reduced to what they inspect.

module XmlEvents {
  /** A qualified element name, compared by value as `QName.equals` does. */
  type QName = string

  /** A start tag: its name and its attributes. */
  datatype StartElement = StartElement(name: QName, attributes: map<QName, string>)

  /**
   * An event of an `XMLEventReader`: start and end tags, character data, and every other kind
   * (document start and end, comments, processing instructions) as `Other`.
   */
  datatype Event =
    | Start(element: StartElement)
    | End(name: QName)
    | Characters(text: string)
    | Other

  // ---------------------------------------------------------------------------------------
  // The SpreadsheetML names the sheet readers look for, in Clark notation "{namespace}local".

  const XMLNS: string := "http://schemas.openxmlformats.org/spreadsheetml/2006/main"

  function Main(local: string): QName {
    "{" + XMLNS + "}" + local
  }

  const C: QName := Main("c")
  const COLS: QName := Main("cols")
  const ROW: QName := Main("row")
  const SHEET_DATA: QName := Main("sheetData")

  /** Attribute names, which carry no namespace. */
  const R: QName := "r"
  const S: QName := "s"
  const CUSTOM_FORMAT: QName := "customFormat"
}
