// The sheet directory of an .xlsx/.xlsm workbook (excel/xssf/XSSFSheetEntryManager.java): sheet
// name -> relationship id from xl/workbook.xml, and relationship id -> zip entry from
// xl/_rels/workbook.xml.rels.

module SheetEntries {
  import opened Wrappers
  import JavaText
  import opened Sax

  /** A Java `String` reference: `None` is null. */
  type JString = Option<string>

  /** Java's `"xl/" + s` for a possibly-null `s`: string concatenation renders null as "null". */
  function EntryPath(target: JString): (r: string)
    ensures JavaText.StartsWith(r, "xl/")
    ensures target.Some? ==> r[3..] == target.value
    ensures target.None? ==> r == "xl/null"
  {
    "xl/" + (if target.Some? then target.value else "null")
  }

  // ---------------------------------------------------------------------------------------
  // What the two handlers collect from a whole document.

  /** `e` is a start tag named `qName`. */
  predicate IsStart(e: Event, qName: string) {
    e.StartElement? && e.qName == qName
  }

  /** The `name` attributes of the `sheet` tags of `doc`, in document order. */
  function SheetNames(doc: seq<Event>): seq<JString> {
    if doc == [] then []
    else
      var e := doc[|doc| - 1];
      SheetNames(doc[..|doc| - 1]) + (if IsStart(e, "sheet") then [GetValue(e.attributes, "name")] else [])
  }

  /** name -> r:id over the `sheet` tags of `doc`; a later tag with the same name wins. */
  function NameToId(doc: seq<Event>): map<JString, JString> {
    if doc == [] then map[]
    else
      var e := doc[|doc| - 1];
      var m := NameToId(doc[..|doc| - 1]);
      if IsStart(e, "sheet") then m[GetValue(e.attributes, "name") := GetValue(e.attributes, "r:id")] else m
  }

  /** Id -> "xl/" + Target over the `Relationship` tags of `doc`; a later tag with the same Id wins. */
  function IdToSource(doc: seq<Event>): map<JString, string> {
    if doc == [] then map[]
    else
      var e := doc[|doc| - 1];
      var m := IdToSource(doc[..|doc| - 1]);
      if IsStart(e, "Relationship") then m[GetValue(e.attributes, "Id") := EntryPath(GetValue(e.attributes, "Target"))] else m
  }

  // ---------------------------------------------------------------------------------------
  // The SAX handlers.

  /** `Handler1`: collects the sheet names and their relationship ids from xl/workbook.xml. */
  class Handler1 {
    var names: seq<JString>
    var nameToId: map<JString, JString>

    constructor ()
      ensures names == [] && nameToId == map[]
    {
      names := [];
      nameToId := map[];
    }

    /** `startDocument`: starts both collections afresh. */
    method StartDocument()
      modifies this
      ensures names == [] && nameToId == map[]
    {
      names := [];
      nameToId := map[];
    }

    /** `startElement`: a `sheet` tag appends its name and maps it to its r:id; others are ignored. */
    method StartElement(qName: string, attributes: Attributes)
      modifies this
      ensures qName == "sheet" ==> names == old(names) + [GetValue(attributes, "name")]
      ensures qName == "sheet" ==>
        nameToId == old(nameToId)[GetValue(attributes, "name") := GetValue(attributes, "r:id")]
      ensures qName != "sheet" ==> names == old(names) && nameToId == old(nameToId)
    {
      if qName == "sheet" {
        names := names + [GetValue(attributes, "name")];
        nameToId := nameToId[GetValue(attributes, "name") := GetValue(attributes, "r:id")];
      }
    }
  }

  /** `Handler2`: collects the zip entry of each relationship id from xl/_rels/workbook.xml.rels. */
  class Handler2 {
    var idToSource: map<JString, string>

    constructor ()
      ensures idToSource == map[]
    {
      idToSource := map[];
    }

    /** `startDocument`: starts the map afresh. */
    method StartDocument()
      modifies this
      ensures idToSource == map[]
    {
      idToSource := map[];
    }

    /** `startElement`: a `Relationship` tag maps its Id to "xl/" + its Target; others are ignored. */
    method StartElement(qName: string, attributes: Attributes)
      modifies this
      ensures qName == "Relationship" ==>
        idToSource == old(idToSource)[GetValue(attributes, "Id") := EntryPath(GetValue(attributes, "Target"))]
      ensures qName != "Relationship" ==> idToSource == old(idToSource)
    {
      if qName == "Relationship" {
        idToSource := idToSource[GetValue(attributes, "Id") := EntryPath(GetValue(attributes, "Target"))];
      }
    }
  }

  /**
   * `parser.parse` driving a fresh `Handler1` over the events of xl/workbook.xml: the handler
   * inherits no-op callbacks for everything but the document and tag starts.
   */
  method ParseWorkbook(doc: seq<Event>) returns (h: Handler1)
    ensures fresh(h)
    ensures h.names == SheetNames(doc) && h.nameToId == NameToId(doc)
  {
    h := new Handler1();
    h.StartDocument();
    for i := 0 to |doc|
      invariant h.names == SheetNames(doc[..i]) && h.nameToId == NameToId(doc[..i])
    {
      if doc[i].StartElement? {
        h.StartElement(doc[i].qName, doc[i].attributes);
      }
      assert doc[..i + 1][..i] == doc[..i];
    }
    assert doc[..|doc|] == doc;
  }

  /** `parser.parse` driving a fresh `Handler2` over the events of xl/_rels/workbook.xml.rels. */
  method ParseRels(doc: seq<Event>) returns (h: Handler2)
    ensures fresh(h)
    ensures h.idToSource == IdToSource(doc)
  {
    h := new Handler2();
    h.StartDocument();
    for i := 0 to |doc|
      invariant h.idToSource == IdToSource(doc[..i])
    {
      if doc[i].StartElement? {
        h.StartElement(doc[i].qName, doc[i].attributes);
      }
      assert doc[..i + 1][..i] == doc[..i];
    }
    assert doc[..|doc|] == doc;
  }

  // ---------------------------------------------------------------------------------------
  // What the handlers collect.

  /** A name is collected exactly when some `sheet` tag carries it. */
  lemma {:induction false} SheetNamesFromTags(doc: seq<Event>, n: JString)
    ensures n in SheetNames(doc) <==>
      exists k :: 0 <= k < |doc| && IsStart(doc[k], "sheet") && GetValue(doc[k].attributes, "name") == n
  {
    if doc != [] {
      var init := doc[..|doc| - 1];
      SheetNamesFromTags(init, n);
      assert forall k :: 0 <= k < |init| ==> init[k] == doc[k];
    }
  }

  /**
   * The names follow document order: the names of a document are those of its first part,
   * then those of the rest.
   */
  lemma {:induction false} SheetNamesInOrder(first: seq<Event>, rest: seq<Event>)
    ensures SheetNames(first + rest) == SheetNames(first) + SheetNames(rest)
    decreases |rest|
  {
    if rest != [] {
      var init := rest[..|rest| - 1];
      SheetNamesInOrder(first, init);
      assert (first + rest)[..|first + rest| - 1] == first + init;
    } else {
      assert first + rest == first;
    }
  }

  /**
   * Every collected name is a key of the id map and every key is a collected name: the first
   * assertion of the manager's constructor always holds for what `Handler1` collects.
   */
  lemma {:induction false} NameToIdKeys(doc: seq<Event>)
    ensures forall n :: n in NameToId(doc) <==> n in SheetNames(doc)
  {
    if doc != [] {
      NameToIdKeys(doc[..|doc| - 1]);
    }
  }

  /** The id of a name is the r:id of the last `sheet` tag carrying that name. */
  lemma {:induction false} NameToIdLastWins(doc: seq<Event>, k: nat)
    requires k < |doc| && IsStart(doc[k], "sheet")
    requires forall j :: k < j < |doc| && IsStart(doc[j], "sheet") ==>
      GetValue(doc[j].attributes, "name") != GetValue(doc[k].attributes, "name")
    ensures GetValue(doc[k].attributes, "name") in NameToId(doc)
    ensures NameToId(doc)[GetValue(doc[k].attributes, "name")] == GetValue(doc[k].attributes, "r:id")
  {
    if k < |doc| - 1 {
      var init := doc[..|doc| - 1];
      assert init[k] == doc[k];
      NameToIdLastWins(init, k);
    }
  }

  /** Every collected source is a path under "xl/". */
  lemma {:induction false} SourcesUnderXl(doc: seq<Event>)
    ensures forall id :: id in IdToSource(doc) ==> JavaText.StartsWith(IdToSource(doc)[id], "xl/")
  {
    if doc != [] {
      SourcesUnderXl(doc[..|doc| - 1]);
    }
  }

  // ---------------------------------------------------------------------------------------
  // The manager.

  /** An immutable `XSSFSheetEntryManager`; its collections are private copies. */
  datatype SheetEntryManager = SheetEntryManager(
    names: seq<JString>,
    nameToId: map<JString, JString>,
    idToSource: map<JString, string>)
  {
    /** The two assertions of the constructor: every name has an id, and every such id a source. */
    predicate Valid() {
      && (forall k :: 0 <= k < |names| ==> names[k] in nameToId)
      && (forall k :: 0 <= k < |names| ==> nameToId[names[k]] in idToSource)
    }

    /** `getNames`: worksheet and chart sheet names alike, in workbook order. */
    function GetNames(): seq<JString> {
      names
    }

    /** `getIdByName`: NullPointer for null, NoSuchElement when the name has no (non-null) id. */
    function GetIdByName(name: JString): (r: Result<string>)
      ensures name.None? ==> r == Err(NullPointer)
      ensures name.Some? ==> (r.Ok? <==> name in nameToId && nameToId[name].Some?)
      ensures name.Some? && r.Err? ==> r.error == NoSuchElement
      ensures r.Ok? ==> nameToId[name] == Some(r.value)
    {
      if name.None? then Err(NullPointer)
      else if name in nameToId && nameToId[name].Some? then Ok(nameToId[name].value)
      else Err(NoSuchElement)
    }

    /**
     * `getSourceByName`: the source of the name's id; the errors of `getIdByName` pass through,
     * and an id without a source is an AssertionError.
     */
    function GetSourceByName(name: JString): (r: Result<string>)
      ensures GetIdByName(name).Err? ==> r == Err(GetIdByName(name).error)
      ensures GetIdByName(name).Ok? ==>
        (r.Ok? <==> Some(GetIdByName(name).value) in idToSource)
      ensures GetIdByName(name).Ok? && r.Err? ==> r.error == Assertion
      ensures r.Ok? ==> GetIdByName(name).Ok? && r.value == idToSource[Some(GetIdByName(name).value)]
    {
      var id :- GetIdByName(name);
      if Some(id) in idToSource then Ok(idToSource[Some(id)]) else Err(Assertion)
    }

    /** The name's source lies under xl/worksheets/: a worksheet, not a chart sheet. */
    predicate IsWorksheet(name: JString) {
      GetSourceByName(name).Ok? && JavaText.StartsWith(GetSourceByName(name).value, WORKSHEETS)
    }

    /** The stream filter of `getWorksheetNames` over `ns`; the first failing lookup decides the error. */
    function FilterWorksheets(ns: seq<JString>): (r: Result<seq<JString>>)
      ensures r.Ok? <==> forall k :: 0 <= k < |ns| ==> GetSourceByName(ns[k]).Ok?
      ensures r.Err? ==>
        exists k :: 0 <= k < |ns| && GetSourceByName(ns[k]) == Err(r.error) && (forall j :: 0 <= j < k ==> GetSourceByName(ns[j]).Ok?)
      ensures r.Ok? ==> Sublist(r.value, ns)
      ensures r.Ok? ==> forall n :: n in r.value <==> n in ns && IsWorksheet(n)
    {
      if ns == [] then Ok([])
      else
        var source :- GetSourceByName(ns[0]);
        var rest := FilterWorksheets(ns[1..]);
        assert forall k :: 1 <= k < |ns| ==> ns[k] == ns[1..][k - 1];
        if rest.Err? then
          var k :| 0 <= k < |ns[1..]| && GetSourceByName(ns[1..][k]) == Err(rest.error)
            && (forall j :: 0 <= j < k ==> GetSourceByName(ns[1..][j]).Ok?);
          assert GetSourceByName(ns[k + 1]) == Err(rest.error);
          Err(rest.error)
        else if JavaText.StartsWith(source, WORKSHEETS) then
          assert ([ns[0]] + rest.value)[1..] == rest.value;
          Ok([ns[0]] + rest.value)
        else
          Ok(rest.value)
    }

    /**
     * `getWorksheetNames`: the names, in order, whose source lies under xl/worksheets/. Chart
     * sheets live under xl/chartsheets/ and are left out.
     */
    function GetWorksheetNames(): Result<seq<JString>> {
      FilterWorksheets(names)
    }
  }

  const WORKSHEETS: string := "xl/worksheets/"

  /** `a` is `b` with some elements deleted: the order of what remains is kept. */
  predicate Sublist<T(==)>(a: seq<T>, b: seq<T>)
    decreases |b|
  {
    a == [] || (b != [] && ((a[0] == b[0] && Sublist(a[1..], b[1..])) || Sublist(a, b[1..])))
  }

  /**
   * `generate` once both entries are parsed: the manager of the two handlers' collections. The
   * constructor's assertions are not enforced here (they are off in a default JVM).
   */
  method Generate(workbook: seq<Event>, rels: seq<Event>) returns (m: SheetEntryManager)
    ensures m.names == SheetNames(workbook)
    ensures m.nameToId == NameToId(workbook)
    ensures m.idToSource == IdToSource(rels)
    ensures forall k :: 0 <= k < |m.names| ==> m.names[k] in m.nameToId
  {
    var handler1 := ParseWorkbook(workbook);
    var handler2 := ParseRels(rels);
    m := SheetEntryManager(handler1.names, handler1.nameToId, handler2.idToSource);
    NameToIdKeys(workbook);
  }

  // ---------------------------------------------------------------------------------------
  // What a valid manager guarantees.

  /** In a valid manager, every non-null name with a non-null id has a source. */
  lemma ValidSourceFound(m: SheetEntryManager, k: nat)
    requires m.Valid() && k < |m.names|
    requires m.names[k].Some? && m.nameToId[m.names[k]].Some?
    ensures m.GetSourceByName(m.names[k]).Ok?
    ensures m.GetSourceByName(m.names[k]).value == m.idToSource[m.nameToId[m.names[k]]]
  {
  }

  /**
   * A valid manager whose names are non-null and have non-null ids lists its worksheets
   * without failing: exactly the worksheets among its names, in order.
   */
  lemma ValidWorksheetNames(m: SheetEntryManager)
    requires m.Valid()
    requires forall k :: 0 <= k < |m.names| ==> m.names[k].Some? && m.nameToId[m.names[k]].Some?
    ensures m.GetWorksheetNames().Ok?
    ensures Sublist(m.GetWorksheetNames().value, m.names)
    ensures forall n :: n in m.GetWorksheetNames().value <==> n in m.names && m.IsWorksheet(n)
  {
    forall k | 0 <= k < |m.names|
      ensures m.GetSourceByName(m.names[k]).Ok?
    {
      ValidSourceFound(m, k);
    }
  }
}
