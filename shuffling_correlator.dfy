// The order-agnostic greedy correlator (diff/list/ShufflingCorrelator.java): every gap and
// pair candidate is costed, the candidates are sorted by a seven-rule comparator, and the
// cheapest remaining candidate is taken again and again, discarding every candidate that
// shares one of its indices.

module ShufflingCorrelation {
  import opened Wrappers
  import opened Pairs
  import opened JavaLists
  import SequentialCorrelation

  /** `Cost`: an A index, a B index or both, with the gap or diff cost of that entry. */
  datatype Candidate = Candidate(idxA: Option<int>, idxB: Option<int>, cost: int) {
    /** What the constructor asserts: at least one side, no negative index. */
    predicate Valid() {
      (idxA.Some? || idxB.Some?)
      && (idxA.Some? ==> 0 <= idxA.value)
      && (idxB.Some? ==> 0 <= idxB.value)
    }

    predicate IsPaired() {
      idxA.Some? && idxB.Some?
    }
  }

  function Abs(x: int): int {
    if x < 0 then -x else x
  }

  /**
   * `Cost.compareTo`: by cost; then a pair before a gap; between pairs by |i - j|, then by
   * i + j, then by i; between gaps an A gap before a B gap, then by index. A comparison that
   * none of the rules decides reaches the AssertionError.
   */
  function CompareTo(x: Candidate, y: Candidate): (r: Result<int>)
    requires x.Valid() && y.Valid()
    ensures r.Ok? ==> r.value == -1 || r.value == 1
    ensures r.Err? ==> r.error == Assertion
    ensures x.cost < y.cost ==> r == Ok(-1)
    ensures x.cost == y.cost && x.IsPaired() && !y.IsPaired() ==> r == Ok(-1)
  {
    if x.cost != y.cost then
      Ok(if x.cost < y.cost then -1 else 1)
    else if x.IsPaired() && y.IsPaired() then
      var iA, iB, oA, oB := x.idxA.value, x.idxB.value, y.idxA.value, y.idxB.value;
      if Abs(iA - iB) != Abs(oA - oB) then
        Ok(if Abs(iA - iB) < Abs(oA - oB) then -1 else 1)
      else if iA + iB != oA + oB then
        Ok(if iA + iB < oA + oB then -1 else 1)
      else if iA != oA then
        Ok(if iA < oA then -1 else 1)
      else
        Err(Assertion)
    else if x.IsPaired() != y.IsPaired() then
      Ok(if x.IsPaired() then -1 else 1)
    else if x.idxA.None? != y.idxA.None? then
      Ok(if x.idxA.Some? then -1 else 1)
    else
      var i := if x.idxA.Some? then x.idxA.value else x.idxB.value;
      var o := if y.idxA.Some? then y.idxA.value else y.idxB.value;
      if i != o then Ok(if i < o then -1 else 1) else Err(Assertion)
  }

  // ---------------------------------------------------------------------------------------
  // The comparator is the lexicographic order of a key.

  /** The sort key of a candidate: (cost, pair 0 / gap 1, then the rule-specific fields). */
  datatype Key = Key(cost: int, kind: int, k1: int, k2: int, k3: int)

  function KeyOf(c: Candidate): Key
    requires c.Valid()
  {
    if c.IsPaired() then Key(c.cost, 0, Abs(c.idxA.value - c.idxB.value), c.idxA.value + c.idxB.value, c.idxA.value)
    else if c.idxA.Some? then Key(c.cost, 1, 0, c.idxA.value, 0)
    else Key(c.cost, 1, 1, c.idxB.value, 0)
  }

  /** Strict lexicographic order on keys. */
  predicate KeyLess(k: Key, l: Key) {
    k.cost < l.cost
    || (k.cost == l.cost && k.kind < l.kind)
    || (k.cost == l.cost && k.kind == l.kind && k.k1 < l.k1)
    || (k.cost == l.cost && k.kind == l.kind && k.k1 == l.k1 && k.k2 < l.k2)
    || (k.cost == l.cost && k.kind == l.kind && k.k1 == l.k1 && k.k2 == l.k2 && k.k3 < l.k3)
  }

  /** Distinct valid candidates have distinct keys. */
  lemma KeyOfInjective(x: Candidate, y: Candidate)
    requires x.Valid() && y.Valid()
    ensures KeyOf(x) == KeyOf(y) <==> x == y
  {
  }

  /**
   * `compareTo` answers -1 exactly when the key of `x` is smaller, 1 exactly when it is larger,
   * and reaches the AssertionError exactly when the two candidates are equal.
   */
  lemma CompareToIsKeyOrder(x: Candidate, y: Candidate)
    requires x.Valid() && y.Valid()
    ensures CompareTo(x, y) == Ok(-1) <==> KeyLess(KeyOf(x), KeyOf(y))
    ensures CompareTo(x, y) == Ok(1) <==> KeyLess(KeyOf(y), KeyOf(x))
    ensures CompareTo(x, y).Err? <==> x == y
  {
    KeyOfInjective(x, y);
  }

  /** Antisymmetry: swapping the arguments negates the answer. */
  lemma CompareToAntisymmetric(x: Candidate, y: Candidate)
    requires x.Valid() && y.Valid()
    ensures CompareTo(x, y).Ok? <==> CompareTo(y, x).Ok?
    ensures CompareTo(x, y).Ok? ==> CompareTo(y, x).value == -CompareTo(x, y).value
  {
    CompareToIsKeyOrder(x, y);
    CompareToIsKeyOrder(y, x);
  }

  /** Transitivity of "smaller". */
  lemma CompareToTransitive(x: Candidate, y: Candidate, z: Candidate)
    requires x.Valid() && y.Valid() && z.Valid()
    requires CompareTo(x, y) == Ok(-1) && CompareTo(y, z) == Ok(-1)
    ensures CompareTo(x, z) == Ok(-1)
  {
    CompareToIsKeyOrder(x, y);
    CompareToIsKeyOrder(y, z);
    CompareToIsKeyOrder(x, z);
  }

  /** `k` is at most `l` in the lexicographic order. */
  predicate KeyLe(k: Key, l: Key) {
    k == l || KeyLess(k, l)
  }

  /** `x` may come before `y` in a sorted list: `compareTo(x, y)` does not answer 1. */
  predicate Precedes(x: Candidate, y: Candidate)
    requires x.Valid() && y.Valid()
  {
    KeyLe(KeyOf(x), KeyOf(y))
  }

  lemma PrecedesIsCompareTo(x: Candidate, y: Candidate)
    requires x.Valid() && y.Valid()
    ensures Precedes(x, y) <==> CompareTo(x, y) != Ok(1)
  {
    CompareToIsKeyOrder(x, y);
  }

  lemma PrecedesTotal(x: Candidate, y: Candidate)
    requires x.Valid() && y.Valid()
    ensures Precedes(x, y) || Precedes(y, x)
  {
  }

  lemma PrecedesTransitive(x: Candidate, y: Candidate, z: Candidate)
    requires x.Valid() && y.Valid() && z.Valid()
    requires Precedes(x, y) && Precedes(y, z)
    ensures Precedes(x, z)
  {
  }

  // ---------------------------------------------------------------------------------------
  // Candidate lists and sorting.

  predicate AllValid(s: seq<Candidate>) {
    forall c :: c in s ==> c.Valid()
  }

  /** Sorted by the comparator: no candidate is larger than one after it. */
  predicate Sorted(s: seq<Candidate>)
    requires AllValid(s)
  {
    forall i, j :: 0 <= i < j < |s| ==> Precedes(s[i], s[j])
  }

  lemma SortedCons(x: Candidate, r: seq<Candidate>)
    requires x.Valid() && AllValid(r) && Sorted(r)
    requires forall d :: d in r ==> Precedes(x, d)
    ensures AllValid([x] + r) && Sorted([x] + r)
  {
    var s := [x] + r;
    forall i, j | 0 <= i < j < |s| ensures Precedes(s[i], s[j]) {
      assert s[j] == r[j - 1];
      if i > 0 {
        assert s[i] == r[i - 1];
      }
    }
  }

  lemma SortedTail(s: seq<Candidate>)
    requires s != [] && AllValid(s) && Sorted(s)
    ensures AllValid(s[1..]) && Sorted(s[1..])
    ensures forall d :: d in s[1..] ==> Precedes(s[0], d)
  {
    forall i, j | 0 <= i < j < |s[1..]| ensures Precedes(s[1..][i], s[1..][j]) {
      assert s[1..][i] == s[i + 1] && s[1..][j] == s[j + 1];
    }
    forall d | d in s[1..] ensures Precedes(s[0], d) {
      var k :| 0 <= k < |s[1..]| && s[1..][k] == d;
      assert s[k + 1] == d;
    }
  }

  /** The problem the correlator solves: two lists and the two evaluators. */
  datatype Problem<!T> = Problem(A: seq<T>, B: seq<T>, gap: T -> int, diff: (T, T) -> int)

  /** The A-gap candidates, one per element of A. */
  function GapsA<T>(p: Problem<T>): (r: seq<Candidate>)
    ensures |r| == |p.A|
    ensures forall i :: 0 <= i < |p.A| ==> r[i] == Candidate(Some(i), None, p.gap(p.A[i]))
  {
    seq(|p.A|, i requires 0 <= i < |p.A| => Candidate(Some(i), None, p.gap(p.A[i])))
  }

  /** The B-gap candidates, one per element of B. */
  function GapsB<T>(p: Problem<T>): (r: seq<Candidate>)
    ensures |r| == |p.B|
    ensures forall j :: 0 <= j < |p.B| ==> r[j] == Candidate(None, Some(j), p.gap(p.B[j]))
  {
    seq(|p.B|, j requires 0 <= j < |p.B| => Candidate(None, Some(j), p.gap(p.B[j])))
  }

  /** The pair candidates of row i of A against all of B. */
  function PairRow<T>(p: Problem<T>, i: nat): (r: seq<Candidate>)
    requires i < |p.A|
    ensures |r| == |p.B|
    ensures forall j :: 0 <= j < |p.B| ==> r[j] == Candidate(Some(i), Some(j), p.diff(p.A[i], p.B[j]))
  {
    seq(|p.B|, j requires 0 <= j < |p.B| => Candidate(Some(i), Some(j), p.diff(p.A[i], p.B[j])))
  }

  /** The pair candidates of rows i.. of A, row by row. */
  function PairsFrom<T>(p: Problem<T>, i: nat): (r: seq<Candidate>)
    requires i <= |p.A|
    ensures |r| == (|p.A| - i) * |p.B|
    ensures forall c :: c in r ==> c.IsPaired() && i <= c.idxA.value < |p.A| && 0 <= c.idxB.value < |p.B|
    decreases |p.A| - i
  {
    if i == |p.A| then []
    else
      var row, rest := PairRow(p, i), PairsFrom(p, i + 1);
      assert |row + rest| == |p.B| + (|p.A| - (i + 1)) * |p.B| == (|p.A| - i) * |p.B|;
      row + rest
  }

  /** Every pair of indices has its pair candidate, costed by diff. */
  lemma {:induction false} PairsFromContains<T>(p: Problem<T>, i: nat, a: nat, b: nat)
    requires i <= a < |p.A| && b < |p.B|
    ensures Candidate(Some(a), Some(b), p.diff(p.A[a], p.B[b])) in PairsFrom(p, i)
    decreases |p.A| - i
  {
    if a == i {
      assert PairRow(p, i)[b] == Candidate(Some(a), Some(b), p.diff(p.A[a], p.B[b]));
    } else {
      PairsFromContains(p, i + 1, a, b);
    }
  }

  /** All candidates, in the order the streams are concatenated: A gaps, B gaps, pairs. */
  function Candidates<T>(p: Problem<T>): (r: seq<Candidate>)
    ensures |r| == |p.A| + |p.B| + |p.A| * |p.B|
    ensures AllValid(r)
  {
    GapsA(p) + GapsB(p) + PairsFrom(p, 0)
  }

  /** Inserts `c` into a sorted list before the first candidate it precedes. */
  function Insert(c: Candidate, s: seq<Candidate>): (r: seq<Candidate>)
    requires c.Valid() && AllValid(s)
    ensures multiset(r) == multiset(s) + multiset{c}
    ensures AllValid(r)
    ensures Sorted(s) ==> Sorted(r)
  {
    if s == [] then [c]
    else if Precedes(c, s[0]) then
      assert Sorted(s) ==> forall k :: 0 <= k < |s| ==> Precedes(c, s[k]) by {
        if Sorted(s) {
          forall k | 0 <= k < |s| ensures Precedes(c, s[k]) {
            if k > 0 {
              PrecedesTransitive(c, s[0], s[k]);
            }
          }
        }
      }
      [c] + s
    else
      PrecedesTotal(c, s[0]);
      var rest := Insert(c, s[1..]);
      assert s == [s[0]] + s[1..];
      assert multiset(rest) == multiset(s[1..]) + multiset{c};
      assert forall d :: d in rest ==> d == c || d in s[1..] by {
        forall d | d in rest ensures d == c || d in s[1..] {
          assert d in multiset(rest);
        }
      }
      assert Sorted(s) ==> Sorted([s[0]] + rest) by {
        if Sorted(s) {
          SortedTail(s);
          SortedCons(s[0], rest);
        }
      }
      [s[0]] + rest
  }

  /**
   * The library sort, written as an insertion sort: a sorted permutation. The candidates of
   * one problem are pairwise distinct and the comparator is total on them, so there is only one.
   */
  function Sort(s: seq<Candidate>): (r: seq<Candidate>)
    requires AllValid(s)
    ensures multiset(r) == multiset(s)
    ensures AllValid(r) && Sorted(r)
  {
    if s == [] then []
    else
      assert s == [s[0]] + s[1..];
      Insert(s[0], Sort(s[1..]))
  }

  // ---------------------------------------------------------------------------------------
  // The greedy loop.

  /** `removeIf(c -> a.equals(c.idxA))`. */
  function DropA(s: seq<Candidate>, a: int): (r: seq<Candidate>)
    ensures |r| <= |s|
    ensures forall c :: c in r <==> c in s && c.idxA != Some(a)
    ensures AllValid(s) ==> AllValid(r) && (Sorted(s) ==> Sorted(r))
  {
    if s == [] then []
    else
      var rest := DropA(s[1..], a);
      assert forall c :: c in s <==> c == s[0] || c in s[1..];
      if s[0].idxA == Some(a) then rest
      else
        assert AllValid(s) && Sorted(s) ==> AllValid([s[0]] + rest) && Sorted([s[0]] + rest) by {
          if AllValid(s) && Sorted(s) {
            SortedTail(s);
            SortedCons(s[0], rest);
          }
        }
        [s[0]] + rest
  }

  /** `removeIf(c -> b.equals(c.idxB))`. */
  function DropB(s: seq<Candidate>, b: int): (r: seq<Candidate>)
    ensures |r| <= |s|
    ensures forall c :: c in r <==> c in s && c.idxB != Some(b)
    ensures AllValid(s) ==> AllValid(r) && (Sorted(s) ==> Sorted(r))
  {
    if s == [] then []
    else
      var rest := DropB(s[1..], b);
      assert forall c :: c in s <==> c == s[0] || c in s[1..];
      if s[0].idxB == Some(b) then rest
      else
        assert AllValid(s) && Sorted(s) ==> AllValid([s[0]] + rest) && Sorted([s[0]] + rest) by {
          if AllValid(s) && Sorted(s) {
            SortedTail(s);
            SortedCons(s[0], rest);
          }
        }
        [s[0]] + rest
  }

  /** What remains after taking `c`: every candidate sharing its A index or its B index is gone. */
  function Discard(s: seq<Candidate>, c: Candidate): (r: seq<Candidate>)
    ensures |r| <= |s|
    ensures forall d :: d in r <==> d in s && (c.idxA.Some? ==> d.idxA != c.idxA) && (c.idxB.Some? ==> d.idxB != c.idxB)
    ensures AllValid(s) ==> AllValid(r) && (Sorted(s) ==> Sorted(r))
  {
    var afterA := if c.idxA.Some? then DropA(s, c.idxA.value) else s;
    if c.idxB.Some? then DropB(afterA, c.idxB.value) else afterA
  }

  /** The candidates the greedy loop takes, in the order it takes them. */
  function Picks(s: seq<Candidate>): seq<Candidate>
    decreases |s|
  {
    if s == [] then [] else [s[0]] + Picks(Discard(s[1..], s[0]))
  }

  /** The entries `Pair.ofNullable(idxA, idxB)` of the taken candidates. */
  function Entries(picks: seq<Candidate>): (r: seq<Pair<int>>)
    ensures |r| == |picks|
  {
    if picks == [] then [] else [OfNullable(picks[0].idxA, picks[0].idxB)] + Entries(picks[1..])
  }

  /** One turn of the loop: the head's entry, then the entries of what survives the head. */
  lemma EntriesOfPicks(s: seq<Candidate>)
    requires s != []
    ensures Entries(Picks(s)) == [Pair(s[0].idxA, s[0].idxB)] + Entries(Picks(Discard(s[1..], s[0])))
  {
    var picks := Picks(s);
    assert picks[1..] == Picks(Discard(s[1..], s[0]));
  }

  /** The result of `correlate` on the two lists. */
  function GreedyCorrelation<T>(p: Problem<T>): seq<Pair<int>>
  {
    Entries(Picks(Sort(Candidates(p))))
  }

  /** A correlator holding its gap and diff evaluators. */
  datatype ShufflingCorrelator<!T> = ShufflingCorrelator(gap: T -> int, diff: (T, T) -> int)

  /** The constructor: a null evaluator is NullPointer. */
  function NewShufflingCorrelator<T>(gap: Option<T -> int>, diff: Option<(T, T) -> int>): (r: Result<ShufflingCorrelator<T>>)
    ensures r.Ok? <==> gap.Some? && diff.Some?
    ensures r.Err? ==> r.error == NullPointer
    ensures r.Ok? ==> r.value.gap == gap.value && r.value.diff == diff.value
  {
    if gap.None? || diff.None? then Err(NullPointer)
    else Ok(ShufflingCorrelator(gap.value, diff.value))
  }

  /**
   * `correlate`: NullPointer for a null list, IllegalArgument when both arguments are the same
   * list object, and otherwise the greedy loop over the sorted candidates: take the head,
   * emit it, and discard the candidates that share an index with it.
   */
  method Correlate<T>(c: ShufflingCorrelator<T>, listA: JList?<T>, listB: JList?<T>) returns (r: Result<seq<Pair<int>>>)
    ensures listA == null || listB == null ==> r == Err(NullPointer)
    ensures listA != null && listB != null && listA == listB ==> r == Err(IllegalArgument)
    ensures listA != null && listB != null && listA != listB ==>
      r == Ok(GreedyCorrelation(Problem(listA.elems, listB.elems, c.gap, c.diff)))
  {
    if listA == null || listB == null {
      return Err(NullPointer);
    }
    if listA == listB {
      return Err(IllegalArgument);
    }
    var p := Problem(listA.elems, listB.elems, c.gap, c.diff);
    var costs := Sort(Candidates(p));
    ghost var sorted := costs;
    var pairs: seq<Pair<int>> := [];
    while 0 < |costs|
      invariant pairs + Entries(Picks(costs)) == Entries(Picks(sorted))
      decreases |costs|
    {
      var cost := costs[0];
      ghost var rest := Discard(costs[1..], cost);
      EntriesOfPicks(costs);
      assert pairs + Entries(Picks(costs)) == (pairs + [Pair(cost.idxA, cost.idxB)]) + Entries(Picks(rest));
      costs := costs[1..];
      pairs := pairs + [OfNullable(cost.idxA, cost.idxB)];
      if cost.idxA.Some? {
        costs := DropA(costs, cost.idxA.value);
      }
      if cost.idxB.Some? {
        costs := DropB(costs, cost.idxB.value);
      }
      assert costs == rest;
    }
    assert Entries(Picks(costs)) == [];
    assert pairs == GreedyCorrelation(p);
    r := Ok(pairs);
  }

  // ---------------------------------------------------------------------------------------
  // What the greedy loop guarantees.

  /** The A indices that occur in a candidate list. */
  function AOf(s: seq<Candidate>): set<int>
  {
    set c | c in s && c.idxA.Some? :: c.idxA.value
  }

  /** The B indices that occur in a candidate list. */
  function BOf(s: seq<Candidate>): set<int>
  {
    set c | c in s && c.idxB.Some? :: c.idxB.value
  }

  /** The A indices that have their gap candidate in the list. */
  function GapAOf(s: seq<Candidate>): set<int>
  {
    set c | c in s && c.idxA.Some? && c.idxB.None? :: c.idxA.value
  }

  /** The B indices that have their gap candidate in the list. */
  function GapBOf(s: seq<Candidate>): set<int>
  {
    set c | c in s && c.idxB.Some? && c.idxA.None? :: c.idxB.value
  }

  /** Every index that occurs in the list still has its gap candidate there. */
  predicate GapsKept(s: seq<Candidate>) {
    AOf(s) <= GapAOf(s) && BOf(s) <= GapBOf(s)
  }

  /** Taking the head removes exactly its indices, and every other index keeps its gap candidate. */
  lemma DiscardKeepsGaps(s: seq<Candidate>)
    requires s != [] && GapsKept(s)
    ensures var h, rest := s[0], Discard(s[1..], s[0]);
      && GapsKept(rest)
      && AOf(rest) == AOf(s) - (if h.idxA.Some? then {h.idxA.value} else {})
      && BOf(rest) == BOf(s) - (if h.idxB.Some? then {h.idxB.value} else {})
  {
    var h, t, rest := s[0], s[1..], Discard(s[1..], s[0]);
    var keptA := AOf(s) - (if h.idxA.Some? then {h.idxA.value} else {});
    var keptB := BOf(s) - (if h.idxB.Some? then {h.idxB.value} else {});
    assert forall c :: c in s <==> c == h || c in t;
    // The gap candidate of an index other than the head's survives the discarding.
    forall a | a in keptA ensures a in GapAOf(rest) {
      var g :| g in s && g.idxA.Some? && g.idxB.None? && g.idxA.value == a;
      assert g in rest;
    }
    forall b | b in keptB ensures b in GapBOf(rest) {
      var g :| g in s && g.idxB.Some? && g.idxA.None? && g.idxB.value == b;
      assert g in rest;
    }
    assert AOf(rest) <= keptA;
    assert BOf(rest) <= keptB;
  }

  lemma AIndicesCons(e: Pair<int>, r: seq<Pair<int>>)
    ensures SequentialCorrelation.AIndices([e] + r) == (if e.a.Some? then [e.a.value] else []) + SequentialCorrelation.AIndices(r)
    decreases |r|
  {
    if r != [] {
      assert ([e] + r)[..|[e] + r| - 1] == [e] + r[..|r| - 1];
      AIndicesCons(e, r[..|r| - 1]);
    }
  }

  lemma BIndicesCons(e: Pair<int>, r: seq<Pair<int>>)
    ensures SequentialCorrelation.BIndices([e] + r) == (if e.b.Some? then [e.b.value] else []) + SequentialCorrelation.BIndices(r)
    decreases |r|
  {
    if r != [] {
      assert ([e] + r)[..|[e] + r| - 1] == [e] + r[..|r| - 1];
      BIndicesCons(e, r[..|r| - 1]);
    }
  }

  /**
   * From a list in which every occurring index has its gap candidate, the greedy loop emits
   * every occurring A index exactly once and every occurring B index exactly once.
   */
  lemma {:induction false} PicksPartition(s: seq<Candidate>)
    requires GapsKept(s)
    ensures multiset(SequentialCorrelation.AIndices(Entries(Picks(s)))) == multiset(AOf(s))
    ensures multiset(SequentialCorrelation.BIndices(Entries(Picks(s)))) == multiset(BOf(s))
    decreases |s|
  {
    if s != [] {
      var h, rest := s[0], Discard(s[1..], s[0]);
      DiscardKeepsGaps(s);
      PicksPartition(rest);
      var e := Pair(h.idxA, h.idxB);
      EntriesOfPicks(s);
      AIndicesCons(e, Entries(Picks(rest)));
      BIndicesCons(e, Entries(Picks(rest)));
      IndicesStep(s);
    }
  }

  /** As multisets, the indices of a list are the head's plus those of what survives the head. */
  lemma IndicesStep(s: seq<Candidate>)
    requires s != [] && GapsKept(s)
    ensures var h, rest := s[0], Discard(s[1..], s[0]);
      && multiset(AOf(s)) == (if h.idxA.Some? then multiset{h.idxA.value} else multiset{}) + multiset(AOf(rest))
      && multiset(BOf(s)) == (if h.idxB.Some? then multiset{h.idxB.value} else multiset{}) + multiset(BOf(rest))
  {
    var h, rest := s[0], Discard(s[1..], s[0]);
    DiscardKeepsGaps(s);
    if h.idxA.Some? {
      assert h.idxA.value in AOf(s);
      assert AOf(s) == AOf(rest) + {h.idxA.value};
    }
    if h.idxB.Some? {
      assert h.idxB.value in BOf(s);
      assert BOf(s) == BOf(rest) + {h.idxB.value};
    }
  }

  /** The greedy loop takes candidates of the list, in the list's order. */
  lemma {:induction false} PicksSorted(s: seq<Candidate>)
    requires AllValid(s) && Sorted(s)
    ensures forall c :: c in Picks(s) ==> c in s
    ensures AllValid(Picks(s)) && Sorted(Picks(s))
    decreases |s|
  {
    if s != [] {
      var rest := Discard(s[1..], s[0]);
      SortedTail(s);
      PicksSorted(rest);
      SortedCons(s[0], Picks(rest));
    }
  }

  /** The candidate list holds an A gap for each element of A and a B gap for each of B. */
  lemma CandidatesIndices<T>(p: Problem<T>)
    ensures GapsKept(Candidates(p))
    ensures forall i :: i in AOf(Candidates(p)) <==> 0 <= i < |p.A|
    ensures forall j :: j in BOf(Candidates(p)) <==> 0 <= j < |p.B|
  {
    CandidatesA(p);
    CandidatesB(p);
  }

  /** A candidate is a gap of A, a gap of B, or a pairing. */
  lemma CandidatesMembers<T>(p: Problem<T>)
    ensures forall c :: c in Candidates(p) <==> c in GapsA(p) || c in GapsB(p) || c in PairsFrom(p, 0)
  {
  }

  lemma CandidatesA<T>(p: Problem<T>)
    ensures AOf(Candidates(p)) <= GapAOf(Candidates(p))
    ensures forall i :: i in AOf(Candidates(p)) <==> 0 <= i < |p.A|
  {
    var s := Candidates(p);
    CandidatesMembers(p);
    forall i | i in AOf(s) ensures 0 <= i < |p.A| && i in GapAOf(s) {
      var c :| c in s && c.idxA.Some? && c.idxA.value == i;
      assert GapsA(p)[i] in s;
    }
    forall i | 0 <= i < |p.A| ensures i in AOf(s) {
      assert GapsA(p)[i] in s;
    }
  }

  lemma CandidatesB<T>(p: Problem<T>)
    ensures BOf(Candidates(p)) <= GapBOf(Candidates(p))
    ensures forall j :: j in BOf(Candidates(p)) <==> 0 <= j < |p.B|
  {
    var s := Candidates(p);
    CandidatesMembers(p);
    forall j | j in BOf(s) ensures 0 <= j < |p.B| && j in GapBOf(s) {
      var c :| c in s && c.idxB.Some? && c.idxB.value == j;
      assert GapsB(p)[j] in s;
    }
    forall j | 0 <= j < |p.B| ensures j in BOf(s) {
      assert GapsB(p)[j] in s;
    }
  }

  /** Lists with the same elements have the same indices and the same gap candidates. */
  lemma SameElementsSameIndices(r: seq<Candidate>, s: seq<Candidate>)
    requires forall c :: c in r <==> c in s
    ensures AOf(r) == AOf(s) && BOf(r) == BOf(s) && GapAOf(r) == GapAOf(s) && GapBOf(r) == GapBOf(s)
  {
  }

  lemma SortKeepsIndices(s: seq<Candidate>)
    requires AllValid(s)
    ensures AOf(Sort(s)) == AOf(s) && BOf(Sort(s)) == BOf(s)
    ensures GapsKept(s) ==> GapsKept(Sort(s))
  {
    var r := Sort(s);
    forall c ensures c in r <==> c in s {
      assert c in r <==> c in multiset(r);
    }
    SameElementsSameIndices(r, s);
  }

  /** A set holding exactly 0 .. n - 1 is, as a multiset, the range 0 .. n - 1. */
  lemma {:induction false} RangeAsSet(n: nat, indices: set<int>)
    requires forall i :: i in indices <==> 0 <= i < n
    ensures multiset(indices) == multiset(SequentialCorrelation.Range(n))
  {
    if n > 0 {
      var smaller := indices - {n - 1};
      RangeAsSet(n - 1, smaller);
      SequentialCorrelation.RangeSnoc(n - 1);
      assert indices == smaller + {n - 1};
      assert multiset(indices) == multiset(smaller) + multiset{n - 1};
      assert SequentialCorrelation.Range(n) == SequentialCorrelation.Range(n - 1) + [n - 1];
      assert multiset(SequentialCorrelation.Range(n))
        == multiset(SequentialCorrelation.Range(n - 1)) + multiset([n - 1]);
    } else {
      assert forall i :: i !in indices;
      assert indices == {};
    }
  }

  /**
   * In the result every index of A, and every index of B, appears in exactly one entry:
   * the A indices are a permutation of 0 .. |A| - 1, and likewise for B.
   */
  lemma GreedyPartitions<T>(p: Problem<T>)
    ensures multiset(SequentialCorrelation.AIndices(GreedyCorrelation(p))) == multiset(SequentialCorrelation.Range(|p.A|))
    ensures multiset(SequentialCorrelation.BIndices(GreedyCorrelation(p))) == multiset(SequentialCorrelation.Range(|p.B|))
  {
    CandidatesIndices(p);
    SortKeepsIndices(Candidates(p));
    PicksPartition(Sort(Candidates(p)));
    RangeAsSet(|p.A|, AOf(Candidates(p)));
    RangeAsSet(|p.B|, BOf(Candidates(p)));
  }

  /**
   * The candidates behind the entries come out in comparator order, since the list is sorted
   * once and only filtered afterwards; in particular their costs never decrease.
   */
  lemma GreedyInComparatorOrder<T>(p: Problem<T>)
    ensures var picks := Picks(Sort(Candidates(p)));
      && GreedyCorrelation(p) == Entries(picks)
      && AllValid(picks) && Sorted(picks)
      && forall i, j :: 0 <= i < j < |picks| ==> picks[i].cost <= picks[j].cost
  {
    PicksSorted(Sort(Candidates(p)));
  }
}
