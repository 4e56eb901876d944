/**
 * A two-sided value: side A and side B, each present or absent (common/Pair.java).
 * Java's `Optional` fields become `Option`; a Java reference argument that may be
 * null is passed as an `Option` so that the null checks of the factories can be stated.
 */
module Pairs {
  import opened Wrappers

  /** The two sides of a comparison. */
  datatype Side = A | B
  {
    function Opposite(): (r: Side)
      ensures r != this
    {
      if A? then B else A
    }
  }

  datatype Pair<T> = Pair(a: Option<T>, b: Option<T>)
  {
    /** `a()`: the value of side A, or NoSuchElement when it is absent. */
    function GetA(): (r: Result<T>)
      ensures r.Ok? <==> a.Some?
      ensures r.Ok? ==> a == Some(r.value)
      ensures r.Err? ==> r.error == NoSuchElement
    {
      if a.Some? then Ok(a.value) else Err(NoSuchElement)
    }

    /** `b()`: the value of side B, or NoSuchElement when it is absent. */
    function GetB(): (r: Result<T>)
      ensures r.Ok? <==> b.Some?
      ensures r.Ok? ==> b == Some(r.value)
      ensures r.Err? ==> r.error == NoSuchElement
    {
      if b.Some? then Ok(b.value) else Err(NoSuchElement)
    }

    function AOrElse(other: T): (r: T)
      ensures a.Some? ==> r == a.value
      ensures a.None? ==> r == other
    {
      a.UnwrapOr(other)
    }

    function BOrElse(other: T): (r: T)
      ensures b.Some? ==> r == b.value
      ensures b.None? ==> r == other
    {
      b.UnwrapOr(other)
    }

    /** The optional value of one side (the private `get2`). */
    function OptionOf(side: Side): Option<T>
    {
      if side.A? then a else b
    }

    /** `get(side)`: the value of the given side; a null side is NullPointer. */
    function Get(side: Option<Side>): (r: Result<T>)
      ensures side.None? ==> r == Err(NullPointer)
      ensures side == Some(Side.A) ==> r == GetA()
      ensures side == Some(Side.B) ==> r == GetB()
    {
      if side.None? then Err(NullPointer)
      else if side.value.A? then GetA() else GetB()
    }

    predicate IsPaired() { a.Some? && b.Some? }
    predicate IsOnlyA() { a.Some? && b.None? }
    predicate IsOnlyB() { a.None? && b.Some? }
    predicate IsEmpty() { a.None? && b.None? }
    predicate IsPresentA() { a.Some? }
    predicate IsPresentB() { b.Some? }

    /** `isOnly(side)`: the side is present and its opposite absent. */
    function IsOnly(side: Option<Side>): (r: Result<bool>)
      ensures side.None? ==> r == Err(NullPointer)
      ensures side == Some(Side.A) ==> r == Ok(IsOnlyA())
      ensures side == Some(Side.B) ==> r == Ok(IsOnlyB())
    {
      if side.None? then Err(NullPointer)
      else Ok(OptionOf(side.value).Some? && OptionOf(side.value.Opposite()).None?)
    }

    /** `map`: applies `f` to the present sides only. */
    function Map<U>(f: T -> U): (r: Pair<U>)
      ensures r.IsPresentA() == IsPresentA() && r.IsPresentB() == IsPresentB()
      ensures a.Some? ==> r.a == Some(f(a.value))
      ensures b.Some? ==> r.b == Some(f(b.value))
    {
      FlatOf(if a.Some? then Some(f(a.value)) else None,
             if b.Some? then Some(f(b.value)) else None)
    }

    /** `flatMap`: applies `f` to the present sides; `f` may make a side absent. */
    function FlatMap<U>(f: T -> Option<U>): (r: Pair<U>)
      ensures a.None? ==> r.a.None?
      ensures b.None? ==> r.b.None?
      ensures a.Some? ==> r.a == f(a.value)
      ensures b.Some? ==> r.b == f(b.value)
    {
      FlatOf(if a.Some? then f(a.value) else None,
             if b.Some? then f(b.value) else None)
    }

    /** `reverse`: the pair with its sides swapped. */
    function Reverse(): (r: Pair<T>)
      ensures r.IsOnlyA() == IsOnlyB() && r.IsOnlyB() == IsOnlyA()
      ensures r.IsPaired() == IsPaired() && r.IsEmpty() == IsEmpty()
      ensures forall s: Side :: r.OptionOf(s) == OptionOf(s.Opposite())
    {
      FlatOf(b, a)
    }
  }

  /** `of(a, b)`: both sides present; a null on either side is NullPointer. */
  function Of<T>(a: Option<T>, b: Option<T>): (r: Result<Pair<T>>)
    ensures r.Ok? <==> a.Some? && b.Some?
    ensures r.Ok? ==> r.value.IsPaired() && r.value.GetA() == Ok(a.value) && r.value.GetB() == Ok(b.value)
    ensures r.Err? ==> r.error == NullPointer
  {
    if a.None? || b.None? then Err(NullPointer) else Ok(Pair(a, b))
  }

  /** `of` for arguments known to be non-null. */
  function Both<T>(x: T, y: T): (r: Pair<T>)
    ensures Of(Some(x), Some(y)) == Ok(r)
  {
    Pair(Some(x), Some(y))
  }

  /** `ofNullable(a, b)`: either side may be absent. */
  function OfNullable<T>(a: Option<T>, b: Option<T>): (r: Pair<T>)
    ensures r.IsPresentA() <==> a.Some?
    ensures r.IsPresentB() <==> b.Some?
    ensures r.OptionOf(Side.A) == a && r.OptionOf(Side.B) == b
  {
    Pair(a, b)
  }

  /** `onlyA(a)`: side A present, side B absent; a null argument is NullPointer. */
  function OnlyA<T>(a: Option<T>): (r: Result<Pair<T>>)
    ensures r.Ok? <==> a.Some?
    ensures r.Ok? ==> r.value.IsOnlyA() && r.value.GetA() == Ok(a.value)
    ensures r.Err? ==> r.error == NullPointer
  {
    if a.None? then Err(NullPointer) else Ok(Pair(a, None))
  }

  /** `onlyB(b)`: side B present, side A absent; a null argument is NullPointer. */
  function OnlyB<T>(b: Option<T>): (r: Result<Pair<T>>)
    ensures r.Ok? <==> b.Some?
    ensures r.Ok? ==> r.value.IsOnlyB() && r.value.GetB() == Ok(b.value)
    ensures r.Err? ==> r.error == NullPointer
  {
    if b.None? then Err(NullPointer) else Ok(Pair(None, b))
  }

  /** `empty()`: both sides absent. */
  function Empty<T>(): (r: Pair<T>)
    ensures r.IsEmpty()
    ensures r.GetA().Err? && r.GetB().Err?
  {
    Pair(None, None)
  }

  /** `flatOf(a, b)`: a pair built from two optionals, absent stays absent. */
  function FlatOf<T>(a: Option<T>, b: Option<T>): (r: Pair<T>)
    ensures r == OfNullable(a, b)
  {
    Pair(a, b)
  }

  /** `equals`: value equality over both optional sides. */
  function Equals<T(==)>(p: Pair<T>, q: Pair<T>): (r: bool)
    ensures r <==> p == q
    ensures p.IsEmpty() && q.IsEmpty() ==> r
  {
    p.a == q.a && p.b == q.b
  }

  /** `Side.opposite` is an involution. */
  lemma OppositeInvolution(s: Side)
    ensures s.Opposite().Opposite() == s
  {
  }

  /** `reverse` is an involution. */
  lemma ReverseInvolution<T>(p: Pair<T>)
    ensures p.Reverse().Reverse() == p
  {
  }

  /** Every pair is in exactly one of the four presence states. */
  lemma ExactlyOneState<T>(p: Pair<T>)
    ensures p.IsPaired() || p.IsOnlyA() || p.IsOnlyB() || p.IsEmpty()
    ensures !(p.IsPaired() && p.IsOnlyA()) && !(p.IsPaired() && p.IsOnlyB()) && !(p.IsPaired() && p.IsEmpty())
    ensures !(p.IsOnlyA() && p.IsOnlyB()) && !(p.IsOnlyA() && p.IsEmpty()) && !(p.IsOnlyB() && p.IsEmpty())
  {
  }
}
