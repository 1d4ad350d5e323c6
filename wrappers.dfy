/** Option and Result types shared by the whole model, and the Python exceptions
    that the modelled code can raise. */
module Wrappers {

  datatype Option<T> = None | Some(value: T)

  /** The Python exceptions raised by the modelled code (the model's error path). */
  datatype PyError =
    | IndexError        // a list index past the end (`lines[i + 1]`, `split(...)[k]`)
    | NameError         // a name that is not bound where it is used
    | UnboundLocalError // a local read before any assignment
    | TypeError         // `int(None)`
    | ValueError        // `int("abc")`
    | UnicodeError      // `str.encode("ascii")` / `bytes.decode("ascii")` on a non-ASCII character
    | Base64Error       // `binascii.Error` from `base64.b64decode`
    | OperationalError  // sqlite3: a statement naming a table that does not exist
    | FileExistsError   // `os.makedirs` on a path that is a file
    | FileNotFoundError // `os.makedirs("")`, or `os.remove` of a missing path
    | IsADirectoryError // `os.remove` of a directory

  datatype Result<T> = Ok(value: T) | Err(error: PyError) {
    predicate IsFailure() { Err? }
    function PropagateFailure<U>(): Result<U>
      requires Err?
    {
      Err(error)
    }
    function Extract(): T
      requires Ok?
    {
      value
    }
  }

  /** The last element of a sequence and the elements before it: the model's
      loops are specified by functions that peel off the last element. */
  function Last<T>(s: seq<T>): T requires s != [] { s[|s| - 1] }
  function Init<T>(s: seq<T>): seq<T> requires s != [] { s[..|s| - 1] }
}
