/** The failure values of the pipeline: the two Python exceptions the core can
    raise on some inputs, and the usual Option/Result wrappers around them. */
module Outcomes {

  /** The exceptions the Python core raises.
      IndexError: `samesame[0] = False` on a zero-length array (server/app.py:88-89).
      ZeroDivisionError: `j / comparedLen` with `comparedLen == 0` (server/app.py:75, 82). */
  datatype PyError = IndexError | ZeroDivisionError

  datatype Option<T> = None | Some(value: T)

  /** Either a value or the exception the source raises instead. */
  datatype Result<T> = Ok(value: T) | Err(error: PyError)
}
