/**
 * A file as the modelled code sees it: its path and `File.getName()`, the last name of the path.
 * Opening and reading files is not modelled.
 */
module Files {
  datatype File = File(path: string, name: string)
}

/** Excel workbook formats recognised by file-name extension (common/BookType.java). */
module BookTypes {
  import opened Wrappers
  import opened JavaText
  import opened Files

  datatype BookType = XLSX | XLSM | XLSB | XLS
  {
    /** `extension()`: the suffix given to the constant. */
    function Extension(): (r: string)
      ensures |r| == (if XLS? then 4 else 5)
      ensures StartsWith(r, ".xls")
    {
      match this
      case XLSX => ".xlsx"
      case XLSM => ".xlsm"
      case XLSB => ".xlsb"
      case XLS => ".xls"
    }
  }

  /** `values()`: the constants in declaration order. */
  function Values(): (r: seq<BookType>)
    ensures |r| == 4
  {
    [XLSX, XLSM, XLSB, XLS]
  }

  /** The file name ends with the extension of `t`. */
  predicate Matches(name: string, t: BookType)
  {
    EndsWith(name, t.Extension())
  }

  /** The first of `types` whose extension ends `name`. */
  function FirstMatch(types: seq<BookType>, name: string): (r: Option<nat>)
    ensures r.Some? ==> r.value < |types| && Matches(name, types[r.value])
    ensures r.Some? ==> forall k :: 0 <= k < r.value ==> !Matches(name, types[k])
    ensures r.None? ==> forall k :: 0 <= k < |types| ==> !Matches(name, types[k])
  {
    if types == [] then None
    else if Matches(name, types[0]) then Some(0)
    else
      var rest := FirstMatch(types[1..], name);
      assert forall k :: 1 <= k < |types| ==> types[k] == types[1..][k - 1];
      if rest.Some? then Some(rest.value + 1) else None
  }

  /**
   * `of(file)`: the first type in declaration order whose extension is a suffix of the file
   * name; NullPointer for a null file and NoSuchElement when no extension matches.
   */
  function Of(file: Option<File>): (r: Result<BookType>)
    ensures file.None? ==> r == Err(NullPointer)
    ensures file.Some? && r.Ok? ==> Matches(file.value.name, r.value)
    ensures file.Some? && r.Ok? ==> forall k :: 0 <= k < IndexOf(r.value) ==> !Matches(file.value.name, Values()[k])
    ensures file.Some? && r.Err? ==> r.error == NoSuchElement
    ensures file.Some? ==> (r.Err? <==> forall t: BookType :: !Matches(file.value.name, t))
  {
    if file.None? then Err(NullPointer)
    else
      var k := FirstMatch(Values(), file.value.name);
      if k.Some? then
        FirstIndex(k.value);
        Ok(Values()[k.value])
      else
        NoneMatches(file.value.name);
        Err(NoSuchElement)
  }

  lemma FirstIndex(k: nat)
    requires k < 4
    ensures IndexOf(Values()[k]) == k
  {
  }

  lemma NoneMatches(name: string)
    requires forall k :: 0 <= k < 4 ==> !Matches(name, Values()[k])
    ensures forall t: BookType :: !Matches(name, t)
  {
    forall t: BookType ensures !Matches(name, t) {
      assert Values()[IndexOf(t)] == t;
    }
  }

  function IndexOf(t: BookType): (k: nat)
    ensures k < 4 && Values()[k] == t
  {
    match t
    case XLSX => 0
    case XLSM => 1
    case XLSB => 2
    case XLS => 3
  }

  /**
   * The four extensions end in four different letters, so no name ends in two of them:
   * declaration order never decides between two matches ("x.xlsx" is not an .xls name).
   */
  lemma AtMostOneMatches(name: string, t1: BookType, t2: BookType)
    requires Matches(name, t1) && Matches(name, t2)
    ensures t1 == t2
  {
    var e1, e2 := t1.Extension(), t2.Extension();
    assert name[|name| - 1] == e1[|e1| - 1];
    assert name[|name| - 1] == e2[|e2| - 1];
  }

  /** Hence `of(file)` returns the one type whose extension ends the name, whichever it is. */
  lemma OfIsTheMatchingType(file: File, t: BookType)
    requires Matches(file.name, t)
    ensures Of(Some(file)) == Ok(t)
  {
    var r := Of(Some(file));
    assert r.Ok?;
    AtMostOneMatches(file.name, r.value, t);
  }
}
