// The result of comparing two books (excel/BResult.java): the two files, the sheet-name pairs
// in comparison order, and the result of each compared pair. Files are represented by their
// paths; lists and maps are values, so the defensive copies of the source hold by construction.

module BResults {
  import opened Wrappers
  import opened Pairs
  import JavaText
  import SResults

  type SResult = SResults.SResult

  const BR: string := SResults.BR
  const NONE: string := SResults.NONE

  datatype BResult = BResult(files: Pair<string>, sheetNamePairs: seq<Pair<string>>, sResults: map<Pair<string>, SResult>)
  {
    /** Every sheet result was built by `SResult.of`. */
    predicate Valid() {
      forall p :: p in sResults ==> sResults[p].Valid()
    }
  }

  /** `BResult.of`: NullPointer for any null argument; otherwise the files as a pair and the given collections. */
  function Of(file1: Option<string>, file2: Option<string>, sheetNamePairs: Option<seq<Pair<string>>>, sResults: Option<map<Pair<string>, SResult>>): (r: Result<BResult>)
    ensures r.Ok? <==> file1.Some? && file2.Some? && sheetNamePairs.Some? && sResults.Some?
    ensures r.Err? ==> r.error == NullPointer
    ensures r.Ok? ==> r.value.files.IsPaired() && r.value.files.GetA() == Ok(file1.value) && r.value.files.GetB() == Ok(file2.value)
    ensures r.Ok? ==> r.value.sheetNamePairs == sheetNamePairs.value && r.value.sResults == sResults.value
  {
    if file1.None? || file2.None? || sheetNamePairs.None? || sResults.None? then Err(NullPointer)
    else Ok(BResult(Both(file1.value, file2.value), sheetNamePairs.value, sResults.value))
  }

  /** Which text of a sheet result `getResult` collects. */
  datatype Recorder = Summary | Detail

  function Record(recorder: Recorder, s: SResult): Result<string>
    requires s.Valid()
  {
    match recorder
    case Summary => Ok(SResults.GetSummary(s))
    case Detail => SResults.Detail(s)
  }

  /** The two sheet names of a pair, "（なし）" standing in for an absent one. */
  function Heading(p: Pair<string>): string {
    "シートA : " + p.AOrElse(NONE) + BR + "シートB : " + p.BOrElse(NONE) + BR
  }

  /**
   * The block of one sheet-name pair: the heading, then the sheet result when the pair is
   * paired. A paired name pair without a result hands null to the recorder: NullPointer.
   */
  function Block(b: BResult, recorder: Recorder, p: Pair<string>): Result<string>
    requires b.Valid()
  {
    if !p.IsPaired() then Ok(Heading(p))
    else if p !in b.sResults then Err(NullPointer)
    else
      var text :- Record(recorder, b.sResults[p]);
      Ok(Heading(p) + text)
  }

  /** The blocks of the pairs, in list order; the first failing block fails them all. */
  function Blocks(b: BResult, recorder: Recorder, pairs: seq<Pair<string>>): (r: Result<seq<string>>)
    requires b.Valid()
    ensures r.Ok? <==> forall i :: 0 <= i < |pairs| ==> Block(b, recorder, pairs[i]).Ok?
    ensures r.Ok? ==> |r.value| == |pairs| && forall i :: 0 <= i < |pairs| ==> Block(b, recorder, pairs[i]) == Ok(r.value[i])
  {
    if pairs == [] then Ok([])
    else
      var first :- Block(b, recorder, pairs[0]);
      var rest :- Blocks(b, recorder, pairs[1..]);
      assert forall i :: 1 <= i < |pairs| ==> pairs[i] == pairs[1..][i - 1];
      Ok([first] + rest)
  }

  /** `getResult`: one block per sheet-name pair, joined by line separators. */
  function GetResult(b: BResult, recorder: Recorder): Result<string>
    requires b.Valid()
  {
    var blocks :- Blocks(b, recorder, b.sheetNamePairs);
    Ok(JavaText.Join(blocks, BR))
  }

  /** `toString`: the two paths, the summary of every pair, then the detail of every pair. */
  function ToString(b: BResult): Result<string>
    requires b.Valid() && b.files.IsPaired()
  {
    var summary :- GetResult(b, Summary);
    var detail :- GetResult(b, Detail);
    Ok(PathLines(b.files) + Sections(summary, detail))
  }

  /** The two book paths, one line each. */
  function PathLines(files: Pair<string>): string
    requires files.IsPaired()
  {
    "ブックA : " + files.a.value + BR + "ブックB : " + files.b.value + BR
  }

  /** The summary section, then the detail section, each under its banner. */
  function Sections(summary: string, detail: string): string {
    BR + "■サマリ========================================================================" + BR + summary + BR
      + "■詳細==========================================================================" + BR + detail
  }

  /**
   * Only paired entries look results up: two book results with the same pairs whose maps
   * agree on the paired entries produce the same text, whatever else their maps hold.
   */
  lemma {:induction false} BlocksIgnoreUnpaired(b1: BResult, b2: BResult, recorder: Recorder, pairs: seq<Pair<string>>)
    requires b1.Valid() && b2.Valid()
    requires forall p :: p in pairs && p.IsPaired() ==>
      (p in b1.sResults <==> p in b2.sResults) && (p in b1.sResults ==> b1.sResults[p] == b2.sResults[p])
    ensures Blocks(b1, recorder, pairs) == Blocks(b2, recorder, pairs)
  {
    if pairs != [] {
      assert pairs[0] in pairs;
      BlockIgnoresUnpaired(b1, b2, recorder, pairs[0]);
      assert forall p :: p in pairs[1..] ==> p in pairs;
      BlocksIgnoreUnpaired(b1, b2, recorder, pairs[1..]);
    }
  }

  lemma BlockIgnoresUnpaired(b1: BResult, b2: BResult, recorder: Recorder, p: Pair<string>)
    requires b1.Valid() && b2.Valid()
    requires p.IsPaired() ==> (p in b1.sResults <==> p in b2.sResults) && (p in b1.sResults ==> b1.sResults[p] == b2.sResults[p])
    ensures Block(b1, recorder, p) == Block(b2, recorder, p)
  {
  }

  lemma GetResultIgnoresUnpaired(b1: BResult, b2: BResult, recorder: Recorder)
    requires b1.Valid() && b2.Valid() && b1.sheetNamePairs == b2.sheetNamePairs
    requires forall p :: p in b1.sheetNamePairs && p.IsPaired() ==>
      (p in b1.sResults <==> p in b2.sResults) && (p in b1.sResults ==> b1.sResults[p] == b2.sResults[p])
    ensures GetResult(b1, recorder) == GetResult(b2, recorder)
  {
    BlocksIgnoreUnpaired(b1, b2, recorder, b1.sheetNamePairs);
  }

  /**
   * The summary text exists exactly when every paired sheet-name pair has a result; it has one
   * block per pair, in list order, each opening with the pair's heading.
   */
  lemma SummaryBlocks(b: BResult)
    requires b.Valid()
    ensures GetResult(b, Summary).Ok? <==> forall p :: p in b.sheetNamePairs && p.IsPaired() ==> p in b.sResults
    ensures GetResult(b, Summary).Ok? ==>
      var blocks := Blocks(b, Summary, b.sheetNamePairs).value;
      && GetResult(b, Summary).value == JavaText.Join(blocks, BR)
      && |blocks| == |b.sheetNamePairs|
      && forall i :: 0 <= i < |blocks| ==> JavaText.StartsWith(blocks[i], Heading(b.sheetNamePairs[i]))
  {
    var pairs := b.sheetNamePairs;
    if GetResult(b, Summary).Ok? {
      var blocks := Blocks(b, Summary, pairs).value;
      forall i | 0 <= i < |blocks|
        ensures JavaText.StartsWith(blocks[i], Heading(pairs[i]))
      {
        var h := Heading(pairs[i]);
        assert Block(b, Summary, pairs[i]) == Ok(blocks[i]);
        if pairs[i].IsPaired() {
          assert blocks[i] == h + SResults.GetSummary(b.sResults[pairs[i]]);
        } else {
          assert blocks[i] == h;
        }
        assert blocks[i][..|h|] == h;
      }
    }
    assert forall p :: p in pairs <==> exists i :: 0 <= i < |pairs| && pairs[i] == p;
  }

  /**
   * `toString` succeeds exactly when both the summary and the detail do, and then opens with
   * the two book paths, A first.
   */
  lemma ToStringOpensWithPaths(b: BResult)
    requires b.Valid() && b.files.IsPaired()
    ensures ToString(b).Ok? <==> GetResult(b, Summary).Ok? && GetResult(b, Detail).Ok?
    ensures ToString(b).Ok? ==>
      JavaText.StartsWith(ToString(b).value, "ブックA : " + b.files.a.value + BR + "ブックB : " + b.files.b.value + BR)
  {
    if ToString(b).Ok? {
      var head, tail := PathLines(b.files), Sections(GetResult(b, Summary).value, GetResult(b, Detail).value);
      assert (head + tail)[..|head|] == head;
    }
  }
}
