/** The Python exceptions the extension raises, and the result shapes that carry them.
    `OSError` and `IOError` record which exception object the C code names;
    on Python 3 `PyExc_IOError` is an alias of `PyExc_OSError`, so a Python
    caller sees one class for both and tells them apart only by the errno and
    message. */
module Errors {

  datatype Error =
    /** `PyErr_SetFromErrno(PyExc_OSError)`: a file, socket or address-list call failed. */
    | OSError(errno: int)
    /** `PyErr_SetFromErrno(PyExc_IOError)`: the ioctl request itself failed. */
    | IOError(errno: int)
    /** IOError "Missing dict entry for field <field>", raised while encoding a block. */
    | MissingField(field: string)
    /** IOError "Invalid type size <size> for field <field>", raised while encoding a block. */
    | InvalidTypeSize(size: int, field: string)
    /** LookupError "Argument must be either a string, list or a tuple". */
    | LookupError

  /** A Python return value: the object, or NULL with an exception set. */
  datatype Result<+T> = Success(value: T) | Failure(error: Error)

  /** A C status code: 0, or -1 with an exception set. */
  datatype Outcome = Pass | Fail(error: Error)
}
