// The two menus of the application (Menu.java): when their targets are worth comparing, and
// which sheet names they compare. What the context supplies (the two book paths and the two
// sheet names) and the sheet names read from the books are parameters.

module Menus {
  import opened Wrappers
  import opened Pairs
  import SequentialCorrelation
  import ShufflingCorrelation
  import Correlators
  import Evaluators

  datatype Menu = CompareBooks | CompareSheets

  /** The current targets held by the context. */
  datatype Targets = Targets(path1: string, path2: string, sheetName1: string, sheetName2: string)

  /** `isValidTargets`: two books must be different files; two sheets must differ in file or in name. */
  function IsValidTargets(m: Menu, t: Targets): bool {
    match m
    case CompareBooks => t.path1 != t.path2
    case CompareSheets => t.path1 != t.path2 || t.sheetName1 != t.sheetName2
  }

  /** Nothing is ever compared with itself, and two books worth comparing hold sheets worth comparing. */
  lemma ValidTargetsDiffer(m: Menu, t: Targets)
    ensures IsValidTargets(m, t) ==> t.path1 != t.path2 || t.sheetName1 != t.sheetName2
    ensures t.path1 != t.path2 <==> IsValidTargets(CompareBooks, t)
    ensures IsValidTargets(CompareBooks, t) ==> IsValidTargets(CompareSheets, t)
    ensures IsValidTargets(CompareSheets, t) <==> !(t.path1 == t.path2 && t.sheetName1 == t.sheetName2)
  {
  }

  /** The greedy correlator `COMPARE_BOOKS` builds for sheet names. */
  function NameCorrelator(): (c: Correlators.Correlator<string>)
    ensures c.Shuffling?
  {
    Correlators.WithShuffling(Some(Evaluators.StringGapEvaluator), Some(Evaluators.StringDiffEvaluator)).value
  }

  /** Every present index of every entry indexes its side's list. */
  predicate Within(r: seq<Pair<int>>, n1: nat, n2: nat) {
    forall k :: 0 <= k < |r| ==> (r[k].a.Some? ==> 0 <= r[k].a.value < n1) && (r[k].b.Some? ==> 0 <= r[k].b.value < n2)
  }

  /** The correlator output for the two name lists, whose indices all lie within the lists. */
  function IndexPairs(names1: seq<string>, names2: seq<string>): (r: seq<Pair<int>>)
    ensures Within(r, |names1|, |names2|)
    ensures multiset(SequentialCorrelation.AIndices(r)) == multiset(SequentialCorrelation.Range(|names1|))
    ensures multiset(SequentialCorrelation.BIndices(r)) == multiset(SequentialCorrelation.Range(|names2|))
  {
    var r := Correlators.Correlation(NameCorrelator(), names1, names2);
    Correlators.CorrelationPartitions(NameCorrelator(), names1, names2);
    forall k | 0 <= k < |r|
      ensures (r[k].a.Some? ==> 0 <= r[k].a.value < |names1|) && (r[k].b.Some? ==> 0 <= r[k].b.value < |names2|)
    {
      SequentialCorrelation.PresentIndices(r, k);
      if r[k].a.Some? {
        assert r[k].a.value in multiset(SequentialCorrelation.Range(|names1|));
      }
      if r[k].b.Some? {
        assert r[k].b.value in multiset(SequentialCorrelation.Range(|names2|));
      }
    }
    r
  }

  /** `Pair.ofNullable` of the names at the present indices of each entry. */
  function Named(r: seq<Pair<int>>, names1: seq<string>, names2: seq<string>): (named: seq<Pair<string>>)
    requires Within(r, |names1|, |names2|)
    ensures |named| == |r|
    ensures forall k :: 0 <= k < |r| ==>
      && (named[k].a.Some? <==> r[k].a.Some?) && (named[k].b.Some? <==> r[k].b.Some?)
      && (r[k].a.Some? ==> named[k].a.value == names1[r[k].a.value])
      && (r[k].b.Some? ==> named[k].b.value == names2[r[k].b.value])
  {
    seq(|r|, k requires 0 <= k < |r| =>
      Pair(if r[k].a.Some? then Some(names1[r[k].a.value]) else None,
           if r[k].b.Some? then Some(names2[r[k].b.value]) else None))
  }

  /** `getPairsOfSheetNames`; `names1` and `names2` are the sheet names read from the two books. */
  function GetPairsOfSheetNames(m: Menu, t: Targets, names1: seq<string>, names2: seq<string>): seq<Pair<string>>
  {
    match m
    case CompareSheets => [Both(t.sheetName1, t.sheetName2)]
    case CompareBooks => Named(IndexPairs(names1, names2), names1, names2)
  }

  /** `COMPARE_SHEETS` compares exactly the two chosen sheets, with each other. */
  lemma SheetsPairOnlyTheChosen(t: Targets, names1: seq<string>, names2: seq<string>)
    ensures var r := GetPairsOfSheetNames(CompareSheets, t, names1, names2);
      |r| == 1 && r[0].IsPaired() && r[0].GetA() == Ok(t.sheetName1) && r[0].GetB() == Ok(t.sheetName2)
  {
  }

  /** The names present on side A (or B) of the entries, in entry order. */
  function NamesA(r: seq<Pair<string>>): seq<string> {
    if r == [] then [] else NamesA(r[..|r| - 1]) + (if r[|r| - 1].a.Some? then [r[|r| - 1].a.value] else [])
  }

  function NamesB(r: seq<Pair<string>>): seq<string> {
    if r == [] then [] else NamesB(r[..|r| - 1]) + (if r[|r| - 1].b.Some? then [r[|r| - 1].b.value] else [])
  }

  /** The name at index `i`, and "" outside the list. */
  function NameAt(names: seq<string>, i: int): string {
    if 0 <= i < |names| then names[i] else ""
  }

  /** The names at the given indices. */
  function At(names: seq<string>, idxs: seq<int>): (r: seq<string>)
    ensures |r| == |idxs| && forall k :: 0 <= k < |idxs| ==> r[k] == NameAt(names, idxs[k])
  {
    seq(|idxs|, k requires 0 <= k < |idxs| => NameAt(names, idxs[k]))
  }

  /** `At` distributes over concatenation. */
  lemma AtConcat(names: seq<string>, a: seq<int>, b: seq<int>)
    ensures At(names, a + b) == At(names, a) + At(names, b)
  {
    assert forall k :: 0 <= k < |a + b| ==> (a + b)[k] == if k < |a| then a[k] else b[k - |a|];
  }

  lemma {:induction false} NamesAreIndexed(r: seq<Pair<int>>, names1: seq<string>, names2: seq<string>)
    requires Within(r, |names1|, |names2|)
    ensures NamesA(Named(r, names1, names2)) == At(names1, SequentialCorrelation.AIndices(r))
    ensures NamesB(Named(r, names1, names2)) == At(names2, SequentialCorrelation.BIndices(r))
  {
    if r != [] {
      var rest, e := r[..|r| - 1], r[|r| - 1];
      NamesAreIndexed(rest, names1, names2);
      assert Named(r, names1, names2)[..|r| - 1] == Named(rest, names1, names2);
      AtConcat(names1, SequentialCorrelation.AIndices(rest), if e.a.Some? then [e.a.value] else []);
      AtConcat(names2, SequentialCorrelation.BIndices(rest), if e.b.Some? then [e.b.value] else []);
    }
  }

  /** Taking out the index at position `j` takes out its name. */
  lemma RemoveIndex(names: seq<string>, ys: seq<int>, j: nat)
    requires j < |ys|
    ensures var ys' := ys[..j] + ys[j + 1..];
      && multiset(ys) == multiset(ys') + multiset{ys[j]}
      && multiset(At(names, ys)) == multiset(At(names, ys')) + multiset{NameAt(names, ys[j])}
  {
    SplitAt(ys, j);
    var r := At(names, ys);
    SplitAt(r, j);
    assert r[..j] + r[j + 1..] == At(names, ys[..j] + ys[j + 1..]);
  }

  lemma SplitAt<T>(s: seq<T>, j: nat)
    requires j < |s|
    ensures multiset(s) == multiset(s[..j] + s[j + 1..]) + multiset{s[j]}
  {
    assert s == s[..j] + [s[j]] + s[j + 1..];
  }

  /** Taking out the first index takes out its name. */
  lemma RemoveHead(names: seq<string>, xs: seq<int>)
    requires xs != []
    ensures multiset(xs) == multiset(xs[1..]) + multiset{xs[0]}
    ensures multiset(At(names, xs)) == multiset(At(names, xs[1..])) + multiset{NameAt(names, xs[0])}
  {
    SplitHead(xs);
    var r := At(names, xs);
    SplitHead(r);
    assert r[1..] == At(names, xs[1..]);
  }

  lemma SplitHead<T>(s: seq<T>)
    requires s != []
    ensures multiset(s) == multiset(s[1..]) + multiset{s[0]}
  {
    assert s == [s[0]] + s[1..];
  }

  /** Removing the same element from two equal multisets leaves equal multisets. */
  lemma Cancel(m1: multiset<int>, m2: multiset<int>, x: int)
    requires m1 + multiset{x} == m2 + multiset{x}
    ensures m1 == m2
  {
    forall e
      ensures m1[e] == m2[e]
    {
      assert (m1 + multiset{x})[e] == (m2 + multiset{x})[e];
    }
  }

  /** Permuting the indices permutes the names. */
  lemma {:induction false} PermutedIndices(names: seq<string>, xs: seq<int>, ys: seq<int>)
    requires multiset(xs) == multiset(ys)
    ensures multiset(At(names, xs)) == multiset(At(names, ys))
    decreases |xs|
  {
    if xs == [] {
      assert |ys| == |multiset(ys)| == 0;
    } else {
      var x := xs[0];
      assert x in multiset(ys);
      var j :| 0 <= j < |ys| && ys[j] == x;
      var ys' := ys[..j] + ys[j + 1..];
      RemoveIndex(names, ys, j);
      RemoveHead(names, xs);
      Cancel(multiset(xs[1..]), multiset(ys'), x);
      PermutedIndices(names, xs[1..], ys');
    }
  }

  /** The names at indices 0, 1, ..., n - 1 are the list itself. */
  lemma AtRange(names: seq<string>)
    ensures At(names, SequentialCorrelation.Range(|names|)) == names
  {
  }

  /**
   * `COMPARE_BOOKS` keeps every sheet of each book exactly once: the names present on side A
   * are a permutation of the first book's names, and likewise for B.
   */
  lemma BooksPairEverySheetOnce(t: Targets, names1: seq<string>, names2: seq<string>)
    ensures multiset(NamesA(GetPairsOfSheetNames(CompareBooks, t, names1, names2))) == multiset(names1)
    ensures multiset(NamesB(GetPairsOfSheetNames(CompareBooks, t, names1, names2))) == multiset(names2)
  {
    var r := IndexPairs(names1, names2);
    NamesAreIndexed(r, names1, names2);
    PermutedIndices(names1, SequentialCorrelation.AIndices(r), SequentialCorrelation.Range(|names1|));
    PermutedIndices(names2, SequentialCorrelation.BIndices(r), SequentialCorrelation.Range(|names2|));
    AtRange(names1);
    AtRange(names2);
  }
}
