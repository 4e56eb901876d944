// Listing the sheet names of a .xls workbook from its BIFF record stream
// (excel/hssf/HSSFSheetListerWithEventApi.java). The workbook globals announce every sheet
// with a BoundSheet record; each sheet's own substream then opens with a BOF record that
// says whether it is a worksheet or a chart sheet, in the same order.

module HssfSheetListing {
  import opened Wrappers
  import opened Files
  import BookTypes
  import opened Biff

  /** The listener's two fields once the workbook BOF has created them. */
  datatype Listing = Listing(queue: seq<string>, sheetNames: seq<string>)

  /**
   * `processRecord` on the listener's fields, `None` standing for both still being null: a
   * workbook BOF starts both afresh, a BoundSheet enqueues its name, a worksheet BOF moves the
   * queue head to the names and a chart BOF drops it. A null queue is a NullPointer and an
   * empty one a NoSuchElement (`Queue.remove`).
   */
  function Step(st: Option<Listing>, record: Record): Result<Option<Listing>> {
    match record
    case Bof(Workbook) => Ok(Some(Listing([], [])))
    case Bof(Worksheet) =>
      if st.None? then Err(NullPointer)
      else if st.value.queue == [] then Err(NoSuchElement)
      else Ok(Some(Listing(st.value.queue[1..], st.value.sheetNames + [st.value.queue[0]])))
    case Bof(Chart) =>
      if st.None? then Err(NullPointer)
      else if st.value.queue == [] then Err(NoSuchElement)
      else Ok(Some(Listing(st.value.queue[1..], st.value.sheetNames)))
    case Bof(OtherBof) => Ok(st)
    case BoundSheet(name) =>
      if st.None? then Err(NullPointer)
      else Ok(Some(Listing(st.value.queue + [name], st.value.sheetNames)))
    case _ => Ok(st)
  }

  /** The records delivered one by one from state `st`; the first exception stops the stream. */
  function Run(st: Option<Listing>, records: seq<Record>): Result<Option<Listing>>
    decreases |records|
  {
    if records == [] then Ok(st)
    else
      var next :- Step(st, records[0]);
      Run(next, records[1..])
  }

  /** `HSSFSheetListingListener`: the queue of announced names and the names listed so far. */
  class HSSFSheetListingListener {
    var queue: Option<seq<string>>
    var sheetNames: Option<seq<string>>

    /** Both fields are created together by the workbook BOF. */
    predicate Valid()
      reads this
    {
      queue.Some? <==> sheetNames.Some?
    }

    /** The fields as a `Step` state. */
    function State(): Option<Listing>
      reads this
    {
      if queue.Some? && sheetNames.Some? then Some(Listing(queue.value, sheetNames.value)) else None
    }

    constructor ()
      ensures Valid() && State() == None
    {
      queue := None;
      sheetNames := None;
    }

    /** `processRecord`: one step of the listing; `Err` is the exception it throws. */
    method ProcessRecord(record: Record) returns (r: Result<()>)
      requires Valid()
      modifies this
      ensures Valid()
      ensures r.Ok? <==> Step(old(State()), record).Ok?
      ensures r.Ok? ==> Step(old(State()), record) == Ok(State())
      ensures r.Err? ==> Step(old(State()), record) == Err(r.error)
    {
      match record {
        case Bof(Workbook) =>
          queue := Some([]);
          sheetNames := Some([]);
        case Bof(Worksheet) =>
          if queue.None? {
            return Err(NullPointer);
          }
          if queue.value == [] {
            return Err(NoSuchElement);
          }
          var head := queue.value[0];
          queue := Some(queue.value[1..]);
          sheetNames := Some(sheetNames.value + [head]);
        case Bof(Chart) =>
          if queue.None? {
            return Err(NullPointer);
          }
          if queue.value == [] {
            return Err(NoSuchElement);
          }
          queue := Some(queue.value[1..]);
        case Bof(OtherBof) =>
        case BoundSheet(name) =>
          if queue.None? {
            return Err(NullPointer);
          }
          queue := Some(queue.value + [name]);
        case _ =>
      }
      r := Ok(());
    }
  }

  /** The only format this lister reads. */
  const SUPPORTED: seq<BookTypes.BookType> := [BookTypes.XLS]

  /** `isSupported`: the file name ends with ".xls"; NullPointer for a null file. */
  function IsSupported(file: Option<File>): (r: Result<bool>)
    ensures file.None? <==> r == Err(NullPointer)
    ensures file.Some? ==> r == Ok(BookTypes.Matches(file.value.name, BookTypes.XLS))
  {
    if file.None? then Err(NullPointer)
    else
      assert SUPPORTED[0] == BookTypes.XLS;
      Ok(exists k :: 0 <= k < |SUPPORTED| && BookTypes.Matches(file.value.name, SUPPORTED[k]))
  }

  /**
   * `getSheetNames(book)`, with the workbook's record stream as `records`: NullPointer for a
   * null book, IllegalArgument for a name not ending in ".xls", an ApplicationException when a
   * record handler throws, and otherwise the listener's name list, null if the stream held no
   * workbook BOF.
   */
  method GetSheetNames(book: Option<File>, records: seq<Record>) returns (r: Result<Option<seq<string>>>)
    ensures book.None? ==> r == Err(NullPointer)
    ensures book.Some? && !BookTypes.Matches(book.value.name, BookTypes.XLS) ==> r == Err(IllegalArgument)
    ensures book.Some? && BookTypes.Matches(book.value.name, BookTypes.XLS) ==>
      r == match Run(None, records)
           case Err(_) => Err(Application)
           case Ok(st) => Ok(if st.Some? then Some(st.value.sheetNames) else None)
  {
    var supported :- IsSupported(book);
    if !supported {
      return Err(IllegalArgument);
    }
    var listener := new HSSFSheetListingListener();
    var i := 0;
    while i < |records|
      invariant 0 <= i <= |records| && listener.Valid()
      invariant Run(None, records) == Run(listener.State(), records[i..])
    {
      assert records[i..][1..] == records[i + 1..];
      var step := listener.ProcessRecord(records[i]);
      if step.Err? {
        return Err(Application);
      }
      i := i + 1;
    }
    r := Ok(listener.sheetNames);
  }

  // ---------------------------------------------------------------------------------------
  // What the listing computes.

  /** The names whose sheet is not a chart, in order. */
  function Worksheets(names: seq<string>, charts: seq<bool>): (r: seq<string>)
    requires |names| == |charts|
    ensures |r| <= |names|
    ensures forall n :: n in r ==> n in names
  {
    if names == [] then []
    else (if charts[0] then [] else [names[0]]) + Worksheets(names[1..], charts[1..])
  }

  /** Running `a + b` is running `a`, then `b` from where `a` stopped. */
  lemma {:induction false} RunAppend(st: Option<Listing>, a: seq<Record>, b: seq<Record>)
    ensures Run(st, a + b) == (if Run(st, a).Err? then Run(st, a) else Run(Run(st, a).value, b))
    decreases |a|
  {
    if a != [] {
      assert (a + b)[0] == a[0] && (a + b)[1..] == a[1..] + b;
      var next := Step(st, a[0]);
      if next.Ok? {
        RunAppend(next.value, a[1..], b);
      }
    } else {
      assert a + b == b;
    }
  }

  /** After a prefix that ends in state `mid`, the rest runs from `mid`. */
  lemma RunThen(st: Option<Listing>, a: seq<Record>, b: seq<Record>, mid: Option<Listing>)
    requires Run(st, a) == Ok(mid)
    ensures Run(st, a + b) == Run(mid, b)
  {
    RunAppend(st, a, b);
  }

  /** The BoundSheet records append their names to the queue. */
  lemma {:induction false} RunBoundSheets(q: seq<string>, s: seq<string>, names: seq<string>)
    ensures Run(Some(Listing(q, s)), BoundSheets(names)) == Ok(Some(Listing(q + names, s)))
    decreases |names|
  {
    if names != [] {
      assert BoundSheets(names)[1..] == BoundSheets(names[1..]);
      RunBoundSheets(q + [names[0]], s, names[1..]);
      assert (q + [names[0]]) + names[1..] == q + names;
    } else {
      assert q + names == q;
    }
  }

  /**
   * The sheet BOFs consume the queue head by head, keeping the worksheets' names and dropping
   * the charts'.
   */
  lemma {:induction false} RunSheetBofs(q: seq<string>, s: seq<string>, charts: seq<bool>)
    requires |charts| <= |q|
    ensures Run(Some(Listing(q, s)), SheetBofs(charts)) ==
      Ok(Some(Listing(q[|charts|..], s + Worksheets(q[..|charts|], charts))))
    decreases |charts|
  {
    if charts != [] {
      var bofs := SheetBofs(charts);
      assert bofs[1..] == SheetBofs(charts[1..]);
      var kept := if charts[0] then [] else [q[0]];
      assert Step(Some(Listing(q, s)), bofs[0]) == Ok(Some(Listing(q[1..], s + kept)));
      RunSheetBofs(q[1..], s + kept, charts[1..]);
      assert q[1..][|charts| - 1..] == q[|charts|..];
      var front := q[..|charts|];
      assert front[0] == q[0] && q[1..][..|charts| - 1] == front[1..];
      assert Worksheets(front, charts) == kept + Worksheets(front[1..], charts[1..]);
      assert (s + kept) + Worksheets(front[1..], charts[1..]) == s + (kept + Worksheets(front[1..], charts[1..]));
    } else {
      assert q[0..] == q && s + [] == s;
    }
  }

  /** More sheet BOFs than announced names: the queue runs dry and `remove` throws. */
  lemma {:induction false} RunSheetBofsTooMany(q: seq<string>, s: seq<string>, charts: seq<bool>)
    requires |charts| > |q|
    ensures Run(Some(Listing(q, s)), SheetBofs(charts)) == Err(NoSuchElement)
    decreases |q|
  {
    var bofs := SheetBofs(charts);
    assert bofs[1..] == SheetBofs(charts[1..]);
    if q != [] {
      var s' := if charts[0] then s else s + [q[0]];
      assert Step(Some(Listing(q, s)), bofs[0]) == Ok(Some(Listing(q[1..], s')));
      RunSheetBofsTooMany(q[1..], s', charts[1..]);
    } else {
      assert Step(Some(Listing(q, s)), bofs[0]) == Err(NoSuchElement);
    }
  }

  /**
   * For a workbook BOF, the BoundSheet records of `names`, and one substream BOF per sheet, the
   * listing is the names of the worksheets in workbook order, chart sheets removed.
   */
  lemma ListsWorksheetsInOrder(names: seq<string>, charts: seq<bool>)
    requires |names| == |charts|
    ensures Run(None, [Bof(Workbook)] + BoundSheets(names) + SheetBofs(charts)) ==
      Ok(Some(Listing([], Worksheets(names, charts))))
  {
    var announced := AnnounceSheets(names);
    RunThen(None, [Bof(Workbook)] + BoundSheets(names), SheetBofs(charts), Some(Listing(names, [])));
    RunSheetBofs(names, [], charts);
    assert names[..|charts|] == names && names[|charts|..] == [];
    assert [] + Worksheets(names, charts) == Worksheets(names, charts);
  }

  /** A sheet BOF more than the workbook announced makes the listing fail. */
  lemma TooManySheetsFail(names: seq<string>, charts: seq<bool>)
    requires |names| < |charts|
    ensures Run(None, [Bof(Workbook)] + BoundSheets(names) + SheetBofs(charts)) == Err(NoSuchElement)
  {
    var announced := AnnounceSheets(names);
    RunThen(None, [Bof(Workbook)] + BoundSheets(names), SheetBofs(charts), Some(Listing(names, [])));
    RunSheetBofsTooMany(names, [], charts);
  }

  /** The workbook BOF and the BoundSheet records leave exactly the announced names queued. */
  lemma AnnounceSheets(names: seq<string>) returns (r: Result<Option<Listing>>)
    ensures r == Run(None, [Bof(Workbook)] + BoundSheets(names))
    ensures r == Ok(Some(Listing(names, [])))
  {
    RunAppend(None, [Bof(Workbook)], BoundSheets(names));
    assert Run(None, [Bof(Workbook)]) == Ok(Some(Listing([], [])));
    RunBoundSheets([], [], names);
    assert [] + names == names;
    r := Run(None, [Bof(Workbook)] + BoundSheets(names));
  }

  /** A second workbook BOF discards everything listed before it. */
  lemma WorkbookBofResets(before: seq<Record>, after: seq<Record>)
    requires Run(None, before).Ok?
    ensures Run(None, before + [Bof(Workbook)] + after) == Run(Some(Listing([], [])), after)
  {
    RunAppend(None, before + [Bof(Workbook)], after);
    RunAppend(None, before, [Bof(Workbook)]);
    assert Run(Run(None, before).value, [Bof(Workbook)]) == Ok(Some(Listing([], [])));
  }
}
