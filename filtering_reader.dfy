// The event reader that drops chosen elements from a sheet's XML stream
// (excel/xssf/readers/FilteringReader.java), with the hasNext/peek cache it inherits
// (excel/xssf/readers/AbstractCachingReader.java). The underlying reader is modelled by the
// events it has still to deliver.

module FilteringReaders {
  import opened Wrappers
  import opened XmlEvents

  /** A filter added to the builder; it excludes the start elements it accepts. */
  datatype Filter =
    | Path(qNames: seq<QName>)                          // addFilter(QName...)
    | OnElement(test: StartElement -> bool)             // addFilter(Predicate)
    | OnTree(treeTest: (seq<QName>, StartElement) -> bool)  // addFilter(BiPredicate)

  /**
   * A path filter [q0, ..., qk] accepts a start element named qk whose k innermost open
   * ancestors are q0, ..., q(k-1), outermost first. `tree` lists the open elements, outermost
   * first.
   */
  predicate PathMatches(qNames: seq<QName>, tree: seq<QName>, start: StartElement) {
    && |qNames| > 0
    && qNames[|qNames| - 1] == start.name
    && |tree| + 1 >= |qNames|
    && tree[|tree| - (|qNames| - 1)..] == qNames[..|qNames| - 1]
  }

  predicate Matches(f: Filter, tree: seq<QName>, start: StartElement) {
    match f
    case Path(qNames) => PathMatches(qNames, tree, start)
    case OnElement(test) => test(start)
    case OnTree(treeTest) => treeTest(tree, start)
  }

  predicate AnyMatches(filters: seq<Filter>, tree: seq<QName>, start: StartElement) {
    exists k :: 0 <= k < |filters| && Matches(filters[k], tree, start)
  }

  /** A filter built from a predicate does not look at the open elements. */
  lemma ElementFilterIgnoresTree(test: StartElement -> bool, tree1: seq<QName>, tree2: seq<QName>, start: StartElement)
    ensures Matches(OnElement(test), tree1, start) == Matches(OnElement(test), tree2, start) == test(start)
  {
  }

  /**
   * The lambda `addFilter(QName...)` registers: it compares the last name with the element
   * and then walks the open elements innermost first against the remaining names.
   */
  method TestPath(qNames: seq<QName>, tree: seq<QName>, start: StartElement) returns (r: bool)
    requires |qNames| > 0
    ensures r == PathMatches(qNames, tree, start)
  {
    var i := |qNames| - 1;
    if qNames[i] != start.name {
      return false;
    }
    if |tree| + 1 < |qNames| {
      return false;
    }
    var next := |tree|;
    while 0 < i
      invariant 0 <= i <= |qNames| - 1
      invariant next == |tree| - (|qNames| - 1 - i) && 0 <= next
      invariant tree[next..] == qNames[i..|qNames| - 1]
    {
      i := i - 1;
      next := next - 1;
      if qNames[i] != tree[next] {
        assert tree[|tree| - (|qNames| - 1)..][next - (|tree| - (|qNames| - 1))] == tree[next];
        return false;
      }
      assert tree[next..] == [tree[next]] + tree[next + 1..];
      assert qNames[i..|qNames| - 1] == [qNames[i]] + qNames[i + 1..|qNames| - 1];
    }
    return true;
  }

  // ---------------------------------------------------------------------------------------
  // The filtered stream.

  /** The nesting depth after one more event of a skipped subtree. */
  function Step(depth: nat, e: Event): int {
    if e.Start? then depth + 1 else if e.End? then depth - 1 else depth
  }

  /**
   * The inner loop of `seekNext`: having read the start of a skipped element, read on until
   * the depth is back to 0. `None` when the stream ends first.
   */
  function SkipSubtree(events: seq<Event>, depth: nat): (r: Option<seq<Event>>)
    requires depth > 0
    ensures r.Some? ==> |r.value| < |events|
    decreases |events|
  {
    if events == [] then None
    else
      var d := Step(depth, events[0]);
      if d == 0 then Some(events[1..])
      else
        SkipSubtree(events[1..], d)
  }

  /**
   * `seekNext` on the remaining events: every leading start element a filter accepts is
   * dropped together with its subtree; a subtree cut off by the end of the stream is an error.
   */
  function Seek(events: seq<Event>, tree: seq<QName>, filters: seq<Filter>): (r: Result<seq<Event>>)
    ensures r.Ok? ==> |r.value| <= |events|
    ensures r.Err? ==> r.error == XmlStream
    decreases |events|
  {
    if events == [] || !events[0].Start? || !AnyMatches(filters, tree, events[0].element) then Ok(events)
    else
      match SkipSubtree(events[1..], 1)
      case None => Err(XmlStream)
      case Some(rest) => Seek(rest, tree, filters)
  }

  /** `nextEvent2`'s update of the open elements: push on a start tag, pop on an end tag. */
  function Enter(tree: seq<QName>, e: Event): (r: Result<seq<QName>>)
    ensures e.Start? ==> r == Ok(tree + [e.element.name])
    ensures e.End? ==> (r.Ok? <==> tree != []) && (r.Ok? ==> r.value == tree[..|tree| - 1])
    ensures !e.Start? && !e.End? ==> r == Ok(tree)
    ensures r.Err? ==> r.error == NoSuchElement
  {
    match e
    case Start(element) => Ok(tree + [element.name])
    case End(_) => if tree == [] then Err(NoSuchElement) else Ok(tree[..|tree| - 1])
    case _ => Ok(tree)
  }

  /** Every event the reader delivers, from the given remaining events and open elements. */
  function Output(events: seq<Event>, tree: seq<QName>, filters: seq<Filter>): Result<seq<Event>>
    decreases |events|
  {
    var rest :- Seek(events, tree, filters);
    if rest == [] then Ok([])
    else
      var tree' :- Enter(tree, rest[0]);
      var out :- Output(rest[1..], tree', filters);
      Ok([rest[0]] + out)
  }

  /** The events already delivered, followed by those still to come. */
  function Prepend(done: seq<Event>, r: Result<seq<Event>>): Result<seq<Event>> {
    if r.Ok? then Ok(done + r.value) else r
  }

  /** Delivering the next event of a stream that has been sought. */
  lemma DeliverStep(events: seq<Event>, tree: seq<QName>, filters: seq<Filter>)
    requires Seek(events, tree, filters) == Ok(events) && events != []
    ensures Enter(tree, events[0]).Err? ==> Output(events, tree, filters).Err?
    ensures Enter(tree, events[0]).Ok? ==>
      Output(events, tree, filters) == Prepend([events[0]], Output(events[1..], Enter(tree, events[0]).value, filters))
  {
  }

  lemma PrependNothing(r: Result<seq<Event>>)
    ensures Prepend([], r) == r
  {
    if r.Ok? {
      assert [] + r.value == r.value;
    }
  }

  lemma PrependTwice(done: seq<Event>, e: Event, r: Result<seq<Event>>)
    ensures Prepend(done + [e], r) == Prepend(done, Prepend([e], r))
  {
    if r.Ok? {
      assert done + [e] + r.value == done + ([e] + r.value);
    }
  }

  /** A second seek finds nothing more to skip. */
  lemma {:induction false} SeekIdempotent(events: seq<Event>, tree: seq<QName>, filters: seq<Filter>)
    requires Seek(events, tree, filters).Ok?
    ensures var rest := Seek(events, tree, filters).value;
      Seek(rest, tree, filters) == Ok(rest)
    decreases |events|
  {
    if !(events == [] || !events[0].Start? || !AnyMatches(filters, tree, events[0].element)) {
      SeekIdempotent(SkipSubtree(events[1..], 1).value, tree, filters);
    }
  }

  /** Seeking does not change what is delivered. */
  lemma OutputAfterSeek(events: seq<Event>, tree: seq<QName>, filters: seq<Filter>)
    requires Seek(events, tree, filters).Ok?
    ensures Output(Seek(events, tree, filters).value, tree, filters) == Output(events, tree, filters)
  {
    SeekIdempotent(events, tree, filters);
  }

  /**
   * The first event the reader delivers is never a start tag a filter excludes at that point,
   * and the reader delivers no more events than the source holds.
   */
  lemma {:induction false} OutputIsFiltered(events: seq<Event>, tree: seq<QName>, filters: seq<Filter>)
    requires Output(events, tree, filters).Ok?
    ensures |Output(events, tree, filters).value| <= |events|
    ensures var out := Output(events, tree, filters).value;
      out != [] ==> !(out[0].Start? && AnyMatches(filters, tree, out[0].element))
    decreases |events|
  {
    var rest := Seek(events, tree, filters).value;
    SeekIdempotent(events, tree, filters);
    if rest != [] {
      OutputIsFiltered(rest[1..], Enter(tree, rest[0]).value, filters);
    }
  }

  // ---------------------------------------------------------------------------------------
  // The builder and the reader.

  class Builder {
    const source: seq<Event>
    var filters: seq<Filter>

    constructor (source: seq<Event>)
      ensures this.source == source && filters == []
    {
      this.source := source;
      filters := [];
    }

    /** `addFilter(QName...)`: NullPointer for null, IllegalArgument for no names. */
    method AddPath(qNames: Option<seq<QName>>) returns (r: Result<Builder>)
      modifies this
      ensures qNames.None? ==> r == Err(NullPointer) && filters == old(filters)
      ensures qNames.Some? && qNames.value == [] ==> r == Err(IllegalArgument) && filters == old(filters)
      ensures qNames.Some? && qNames.value != [] ==> r == Ok(this) && filters == old(filters) + [Path(qNames.value)]
    {
      if qNames.None? {
        return Err(NullPointer);
      }
      if |qNames.value| == 0 {
        return Err(IllegalArgument);
      }
      filters := filters + [Path(qNames.value)];
      return Ok(this);
    }

    /** `addFilter(Predicate)`: NullPointer for null. */
    method AddElementFilter(filter: Option<StartElement -> bool>) returns (r: Result<Builder>)
      modifies this
      ensures filter.None? ==> r == Err(NullPointer) && filters == old(filters)
      ensures filter.Some? ==> r == Ok(this) && filters == old(filters) + [OnElement(filter.value)]
    {
      if filter.None? {
        return Err(NullPointer);
      }
      filters := filters + [OnElement(filter.value)];
      return Ok(this);
    }

    /** `addFilter(BiPredicate)`: NullPointer for null. */
    method AddTreeFilter(filter: Option<(seq<QName>, StartElement) -> bool>) returns (r: Result<Builder>)
      modifies this
      ensures filter.None? ==> r == Err(NullPointer) && filters == old(filters)
      ensures filter.Some? ==> r == Ok(this) && filters == old(filters) + [OnTree(filter.value)]
    {
      if filter.None? {
        return Err(NullPointer);
      }
      filters := filters + [OnTree(filter.value)];
      return Ok(this);
    }

    /**
     * `build`: a reader over the source with the filters added so far and no open element. The
     * reader takes a snapshot of the filters, where the source shares the builder's list.
     */
    method Build() returns (reader: FilteringReader)
      ensures fresh(reader) && reader.Valid()
      ensures reader.source == reader.input == source && reader.filters == filters
      ensures reader.emitted == [] && reader.currTree == []
    {
      reader := new FilteringReader(source, filters);
    }
  }

  /** `FilteringReader.builder`: NullPointer for a null source. */
  method NewBuilder(source: Option<seq<Event>>) returns (r: Result<Builder>)
    ensures source.None? <==> r.Err?
    ensures r.Err? ==> r.error == NullPointer
    ensures r.Ok? ==> fresh(r.value) && r.value.source == source.value && r.value.filters == []
  {
    if source.None? {
      return Err(NullPointer);
    }
    var b := new Builder(source.value);
    return Ok(b);
  }

  class FilteringReader {
    /** The events the underlying reader has still to deliver. */
    var source: seq<Event>
    const filters: seq<Filter>
    /** The open elements delivered so far, outermost first. */
    var currTree: seq<QName>
    var cachedHasNext: Option<bool>
    var cachedPeek: Option<Event>

    /** The source as it was when the reader was built, and every event delivered since. */
    ghost const input: seq<Event>
    ghost var emitted: seq<Event>
    /** How often the caching layer has called down to `hasNext2`, `peek2` and `nextEvent2`. */
    ghost var hasNext2Calls: nat
    ghost var peek2Calls: nat
    ghost var nextEvent2Calls: nat

    /**
     * A cached `hasNext` was computed after seeking, so the source already starts at the next
     * event to deliver; a cached `peek` is that event; and the events delivered so far followed
     * by those still to come are the filtered input.
     */
    ghost predicate Valid()
      reads this
    {
      && (cachedHasNext.Some? ==>
            cachedHasNext.value == (source != []) && Seek(source, currTree, filters) == Ok(source))
      && (cachedPeek.Some? ==> cachedHasNext == Some(true) && cachedPeek.value == source[0])
      && Prepend(emitted, Output(source, currTree, filters)) == Output(input, [], filters)
    }

    constructor (source: seq<Event>, filters: seq<Filter>)
      ensures Valid()
      ensures this.source == input == source && this.filters == filters
      ensures currTree == [] && emitted == [] && cachedHasNext.None? && cachedPeek.None?
      ensures hasNext2Calls == peek2Calls == nextEvent2Calls == 0
    {
      this.source := source;
      this.filters := filters;
      currTree := [];
      cachedHasNext := None;
      cachedPeek := None;
      input := source;
      emitted := [];
      hasNext2Calls, peek2Calls, nextEvent2Calls := 0, 0, 0;
      new;
      PrependNothing(Output(source, [], filters));
    }

    /** Whether one of the filters excludes `start` under the current open elements. */
    method Excluded(start: StartElement) returns (r: bool)
      ensures r == AnyMatches(filters, currTree, start)
    {
      var k := 0;
      while k < |filters|
        invariant 0 <= k <= |filters|
        invariant forall j :: 0 <= j < k ==> !Matches(filters[j], currTree, start)
        decreases |filters| - k
      {
        var m: bool;
        match filters[k] {
          case Path(qNames) =>
            if |qNames| == 0 {
              m := false;
            } else {
              m := TestPath(qNames, currTree, start);
            }
          case OnElement(test) =>
            m := test(start);
          case OnTree(treeTest) =>
            m := treeTest(currTree, start);
        }
        if m {
          return true;
        }
        k := k + 1;
      }
      return false;
    }

    /**
     * `seekNext`: while the next event is a start element some filter excludes, read it and
     * its whole subtree; XmlStream when the stream ends inside that subtree.
     */
    method SeekNext() returns (r: Result<()>)
      modifies this
      ensures r.Ok? ==> Seek(old(source), currTree, filters) == Ok(source)
      ensures r.Err? ==> Seek(old(source), currTree, filters) == Err(XmlStream) && r.error == XmlStream
      ensures currTree == old(currTree) && emitted == old(emitted)
      ensures cachedHasNext == old(cachedHasNext) && cachedPeek == old(cachedPeek)
      ensures hasNext2Calls == old(hasNext2Calls) && peek2Calls == old(peek2Calls)
      ensures nextEvent2Calls == old(nextEvent2Calls)
    {
      var events := source;
      r := Ok(());
      while events != [] && events[0].Start?
        invariant unchanged(this)
        invariant Seek(events, currTree, filters) == Seek(old(source), currTree, filters)
        decreases |events|
      {
        var next := events[0].element;
        var excluded := Excluded(next);
        if !excluded {
          break;
        }
        ghost var subtree := events[1..];
        var depth: int := 0;
        var event := events[0];
        events := events[1..];
        depth := depth + 1;
        while events != [] && 0 < depth
          invariant unchanged(this)
          invariant 0 <= depth && |events| <= |subtree|
          invariant depth > 0 ==> SkipSubtree(events, depth) == SkipSubtree(subtree, 1)
          invariant depth == 0 ==> SkipSubtree(subtree, 1) == Some(events)
          decreases |events|
        {
          event := events[0];
          events := events[1..];
          if event.Start? {
            depth := depth + 1;
          } else if event.End? {
            depth := depth - 1;
          }
        }
        if depth != 0 {
          r := Err(XmlStream);
          break;
        }
      }
      source := events;
    }

    /** `hasNext2`: seek past the excluded elements, then ask the source. */
    method HasNext2() returns (r: Result<bool>)
      requires Valid()
      modifies this
      ensures r.Ok? ==> Seek(old(source), currTree, filters) == Ok(source) && r.value == (source != [])
      ensures r.Err? ==> r.error == XmlStream && Output(input, [], filters).Err?
      ensures currTree == old(currTree) && emitted == old(emitted)
      ensures cachedHasNext == old(cachedHasNext) && cachedPeek == old(cachedPeek)
      ensures hasNext2Calls == old(hasNext2Calls) && peek2Calls == old(peek2Calls)
      ensures nextEvent2Calls == old(nextEvent2Calls)
    {
      ghost var before := source;
      var s := SeekNext();
      if s.Err? {
        assert Output(before, currTree, filters).Err?;
        return Err(s.error);
      }
      return Ok(source != []);
    }

    /**
     * `hasNext`: the cached answer when there is one; otherwise `hasNext2`, once, whose answer
     * is cached until the next `nextEvent`.
     */
    method HasNext() returns (r: Result<bool>)
      requires Valid()
      modifies this
      ensures r.Ok? ==> Valid() && cachedHasNext == Some(r.value) && r.value == (source != [])
      ensures r.Err? ==> r.error == XmlStream && Output(input, [], filters).Err?
      ensures old(cachedHasNext).Some? ==> r == Ok(old(cachedHasNext).value) && source == old(source)
      ensures hasNext2Calls == old(hasNext2Calls) + (if old(cachedHasNext).None? then 1 else 0)
      ensures currTree == old(currTree) && emitted == old(emitted) && cachedPeek == old(cachedPeek)
      ensures peek2Calls == old(peek2Calls) && nextEvent2Calls == old(nextEvent2Calls)
      ensures r.Ok? ==> Output(source, currTree, filters) == Output(old(source), currTree, filters)
    {
      if cachedHasNext.None? {
        hasNext2Calls := hasNext2Calls + 1;
        ghost var before := source;
        var h := HasNext2();
        if h.Err? {
          return Err(h.error);
        }
        OutputAfterSeek(before, currTree, filters);
        SeekIdempotent(before, currTree, filters);
        cachedHasNext := Some(h.value);
      }
      return Ok(cachedHasNext.value);
    }

    /** `peek2`: the source's next event. */
    method Peek2() returns (e: Option<Event>)
      ensures source == [] ==> e.None?
      ensures source != [] ==> e == Some(source[0])
    {
      if source == [] {
        return None;
      }
      return Some(source[0]);
    }

    /**
     * `peek`: None at the end of the stream; otherwise the next event, asking `peek2` only
     * when none is cached. The source is not advanced.
     */
    method Peek() returns (r: Result<Option<Event>>)
      requires Valid()
      modifies this
      ensures r.Ok? ==> Valid() && (r.value.None? <==> source == []) && (r.value.Some? ==> r.value.value == source[0])
      ensures r.Err? ==> r.error == XmlStream && Output(input, [], filters).Err?
      ensures r.Ok? && r.value.Some? ==> cachedPeek == r.value
      ensures peek2Calls == old(peek2Calls) + (if r.Ok? && r.value.Some? && old(cachedPeek).None? then 1 else 0)
      ensures currTree == old(currTree) && emitted == old(emitted) && nextEvent2Calls == old(nextEvent2Calls)
      ensures Output(source, currTree, filters) == Output(old(source), currTree, filters) || r.Err?
    {
      var h :- HasNext();
      if !h {
        return Ok(None);
      }
      if cachedPeek.None? {
        peek2Calls := peek2Calls + 1;
        cachedPeek := Peek2();
      }
      return Ok(cachedPeek);
    }

    /**
     * `nextEvent2`: take the source's next event and keep the open elements up to date; an end
     * tag with no open element fails as `removeLast` on an empty deque does.
     */
    method NextEvent2() returns (r: Result<Event>)
      requires source != []
      modifies this
      ensures source == old(source)[1..]
      ensures Enter(old(currTree), old(source)[0]).Ok? ==>
        r == Ok(old(source)[0]) && currTree == Enter(old(currTree), old(source)[0]).value
      ensures Enter(old(currTree), old(source)[0]).Err? ==> r == Err(NoSuchElement) && currTree == old(currTree)
      ensures emitted == old(emitted) && cachedHasNext == old(cachedHasNext) && cachedPeek == old(cachedPeek)
      ensures hasNext2Calls == old(hasNext2Calls) && peek2Calls == old(peek2Calls)
      ensures nextEvent2Calls == old(nextEvent2Calls)
    {
      var event := source[0];
      source := source[1..];
      if event.Start? {
        currTree := currTree + [event.element.name];
      } else if event.End? {
        if currTree == [] {
          return Err(NoSuchElement);
        }
        currTree := currTree[..|currTree| - 1];
      }
      return Ok(event);
    }

    /**
     * `nextEvent`: None at the end of the stream; otherwise the next event of the filtered
     * stream, read through `nextEvent2` once, after which both caches are cleared.
     */
    method NextEvent() returns (r: Result<Option<Event>>)
      requires Valid()
      modifies this
      ensures r.Ok? ==> Valid()
      ensures r.Ok? ==> r.value.None? ==> emitted == old(emitted) && source == []
      ensures r.Ok? ==> r.value.Some? ==>
        emitted == old(emitted) + [r.value.value] && cachedHasNext.None? && cachedPeek.None?
      ensures r.Err? ==> Output(input, [], filters).Err?
      ensures r.Ok? ==> nextEvent2Calls == old(nextEvent2Calls) + (if r.value.Some? then 1 else 0)
    {
      var h :- HasNext();
      if !h {
        return Ok(None);
      }
      assert Seek(source, currTree, filters) == Ok(source);
      ghost var before, treeBefore := source, currTree;
      assert Prepend(emitted, Output(before, treeBefore, filters)) == Output(input, [], filters);
      nextEvent2Calls := nextEvent2Calls + 1;
      var e := NextEvent2();
      DeliverStep(before, treeBefore, filters);
      if e.Err? {
        return Err(e.error);
      }
      cachedHasNext := None;
      cachedPeek := None;
      PrependTwice(emitted, e.value, Output(source, currTree, filters));
      emitted := emitted + [e.value];
      return Ok(Some(e.value));
    }

    /** `next`: the same as `nextEvent`. */
    method Next() returns (r: Result<Option<Event>>)
      requires Valid()
      modifies this
      ensures r.Ok? ==> Valid()
      ensures r.Ok? ==> r.value.None? ==> emitted == old(emitted) && source == []
      ensures r.Ok? ==> r.value.Some? ==>
        emitted == old(emitted) + [r.value.value] && cachedHasNext.None? && cachedPeek.None?
      ensures r.Err? ==> Output(input, [], filters).Err?
    {
      r := NextEvent();
    }
  }
}
