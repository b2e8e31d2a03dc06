/** Option and Result, and the Python exceptions the modelled code raises or catches. */
module Outcomes {

  datatype Option<+T> = None | Some(value: T)

  /** The Python exception classes that appear in the core, by the name Python gives them. */
  datatype PyError =
    | FileNotFound      // FileNotFoundError
    | FileExists        // FileExistsError
    | IsADirectory      // IsADirectoryError, from reading or writing a directory as a file
    | NotADirectory     // NotADirectoryError, from a path that passes through a regular file
    | PermissionError   // PermissionError, from launching a program that cannot be run
    | JsonDecodeError   // json.JSONDecodeError, a subclass of ValueError
    | ValueError
    | TypeError
    | AttributeError
    | KeyError
    | IndexError
    | ZeroDivision      // ZeroDivisionError
    | RuntimeError
    | Unmodelled        // not a Python error: the source would build a value the model's types cannot hold

  /** `except ValueError` also catches json.JSONDecodeError. */
  predicate IsValueError(e: PyError) {
    e.JsonDecodeError? || e.ValueError?
  }

  /** A value, or the exception that the Python code lets escape. Usable with `:-`. */
  datatype Result<+T> = Ok(value: T) | Err(error: PyError) {

    predicate IsFailure() {
      Err?
    }

    function PropagateFailure<U>(): Result<U>
      requires Err?
    {
      Err(error)
    }

    function Extract(): T
      requires Ok?
    {
      value
    }
  }
}
