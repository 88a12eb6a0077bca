/** The four failure kinds of the library (include/vole/exception.hpp) and the
    wrappers that carry them in place of C++ exceptions. */
module Errors {

  /** duplicate_key_exception, invalid_operation_exception,
      no_such_element_exception and unsupported_element_exception. */
  datatype Error = DuplicateKey | InvalidOperation | NoSuchElement | UnsupportedElement

  datatype Option<+T> = None | Some(value: T)

  /** The value an operation returns, or the exception it raises. */
  datatype Result<+T> = Ok(value: T) | Err(error: Error)

  /** The outcome of an operation that returns nothing (a `void` member). */
  datatype Outcome = Pass | Fail(error: Error)
}
