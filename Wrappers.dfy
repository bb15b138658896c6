/** Option and Result types shared by every module: a Python call that returns
    None becomes `None`, and a call that raises becomes `Failure`. */
module Wrappers {

  datatype Option<+T> = None | Some(value: T)

  /** The kinds of exception the modelled Python code can raise. */
  datatype Error =
    | ZeroDivision   // ZeroDivisionError
    | Key            // KeyError (a dictionary lookup of a missing key)
    | Index          // IndexError (a list index out of range)
    | Type           // TypeError (for instance None + str, or int + None)
    | Attribute      // AttributeError (a method called on the wrong type)
    | Assertion      // AssertionError (a failed assert statement)

  datatype Result<+T> = Success(value: T) | Failure(error: Error)
}
