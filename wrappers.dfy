/**
 * Option and Result values standing for Java's nullable references and thrown exceptions.
 */
module Wrappers {

  datatype Option<T> = None | Some(value: T)
  {
    function UnwrapOr(default: T): T
    {
      if Some? then value else default
    }
  }

  /** The exception kinds the modelled code throws, by the Java class that carries them. */
  datatype Error =
    | NullPointer             // java.lang.NullPointerException (Objects.requireNonNull)
    | IllegalArgument         // java.lang.IllegalArgumentException
    | NoSuchElement           // java.util.NoSuchElementException
    | IllegalState            // java.lang.IllegalStateException (Collectors.toMap on a duplicate key)
    | IndexOutOfBounds        // java.lang.IndexOutOfBoundsException (List.get)
    | NumberFormat            // java.lang.NumberFormatException (Integer.parseInt)
    | UnsupportedOperation    // java.lang.UnsupportedOperationException
    | XmlStream               // javax.xml.stream.XMLStreamException
    | Assertion               // java.lang.AssertionError thrown explicitly by the code
    | Application             // xyz.hotchpotch.hogandiff.ApplicationException wrapping another failure

  datatype Result<T> = Ok(value: T) | Err(error: Error)
  {
    predicate IsFailure() { Err? }

    function PropagateFailure<U>(): Result<U>
      requires Err?
    {
      Err(error)
    }

    function Extract(): T
      requires Ok?
    {
      value
    }
  }

  /** Java's `int` range, used where the source checks it (Integer.parseInt). */
  const INT_MIN: int := -0x8000_0000
  const INT_MAX: int := 0x7fff_ffff
}

/**
 * A Java `List` reference: its contents never change in the modelled code, and its identity is
 * what the correlators' same-instance guard (`listA == listB`) compares.
 */
module JavaLists {
  class JList<T> {
    const elems: seq<T>

    constructor (elems: seq<T>)
      ensures this.elems == elems
    {
      this.elems := elems;
    }
  }
}
