// The SAX callbacks the workbook handlers receive, as plain values.

module Sax {
  import opened Wrappers

  /** The attributes of a start tag, by qualified name. */
  type Attributes = map<string, string>

  /** `Attributes.getValue(qName)`: null when the tag has no such attribute. */
  function GetValue(attributes: Attributes, qName: string): (r: Option<string>)
    ensures r.Some? <==> qName in attributes
    ensures r.Some? ==> r.value == attributes[qName]
  {
    if qName in attributes then Some(attributes[qName]) else None
  }

  /**
   * One call the parser makes on its content handler: `startDocument`, `startElement` with the
   * tag's qualified name and attributes, `characters` with one chunk of text, `endElement`.
   */
  datatype Event =
    | StartDocument
    | StartElement(qName: string, attributes: Attributes)
    | Characters(text: string)
    | EndElement(endName: string)
}
