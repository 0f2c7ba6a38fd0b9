/** Option and Result values, used for Python's `None` and for rejected inputs. */
module Wrappers {

  /** `None` or a value: Python's optional returns (`str or None`). */
  datatype Option<+T> = None | Some(value: T)

  /** The outcome of an operation that can reject its input with a reason. */
  datatype Result<+R, +E> = Success(value: R) | Failure(error: E)
}
