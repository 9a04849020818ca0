/** Failure-compatible wrappers shared by the whole model, and the kinds of
    Python exception the modelled code can raise. */
module Wrappers {

  datatype Option<+T> = None | Some(value: T)

  /** The Python exceptions the modelled code raises, by class. */
  datatype Exception =
    | ValueError      // int() given text that is not a numeral
    | KeyError        // an enumeration looked up by a name it does not have
    | AttributeError  // an attribute read on None, on an int, or one never assigned
    | TypeError       // iterating None, or `**` applied to something that is not a mapping
    | OverflowError   // int.to_bytes given a value that does not fit
    | StructError     // struct.unpack_from without enough bytes
    | CursesError     // curses window.move outside the window
    | YamlError       // the YAML parser rejected the document

  datatype Result<+R> = Success(value: R) | Failure(error: Exception) {
    predicate IsFailure() { Failure? }

    function PropagateFailure<U>(): Result<U>
      requires Failure?
    {
      Failure(error)
    }

    function Extract(): R
      requires Success?
    {
      value
    }
  }

  /** The outcome of a call that returns nothing of interest: it either
      completes or raises. */
  datatype Outcome = Pass | Fail(error: Exception) {
    predicate IsFailure() { Fail? }

    function PropagateFailure(): Outcome
      requires Fail?
    {
      this
    }
  }
}
