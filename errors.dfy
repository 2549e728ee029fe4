/** Error values and the two name-based error discriminators of src/lib/errors.ts.
    A JavaScript `Error` is modelled by the two properties the program reads: `name` and `message`. */
module Errors {

  datatype Error = Error(name: string, message: string)

  const NonsensicalRefactorErrorName: string := "NonsensicalRefactorError"
  const NoApplicableRefactorsName: string := "NoApplicableRefactors"

  /** `new Error(message)`: the built-in class names its instances "Error". */
  function PlainError(message: string): Error
  {
    Error("Error", message)
  }

  /** `new NonsensicalRefactorError()`: the subclass overrides `name`; no message is given. */
  function NewNonsensicalRefactorError(): Error
  {
    Error(NonsensicalRefactorErrorName, "")
  }

  /** `new NoApplicableRefactors()` */
  function NewNoApplicableRefactors(): Error
  {
    Error(NoApplicableRefactorsName, "")
  }

  /** `NonsensicalRefactorError.is`: looks at the name alone, not at the class. */
  predicate IsNonsensicalRefactorError(err: Error)
  {
    err.name == NonsensicalRefactorErrorName
  }

  /** `NoApplicableRefactors.is` */
  predicate IsNoApplicableRefactors(err: Error)
  {
    err.name == NoApplicableRefactorsName
  }

  lemma NewNonsensicalRefactorErrorIs()
    ensures IsNonsensicalRefactorError(NewNonsensicalRefactorError())
    ensures !IsNoApplicableRefactors(NewNonsensicalRefactorError())
  {
  }

  lemma NewNoApplicableRefactorsIs()
    ensures IsNoApplicableRefactors(NewNoApplicableRefactors())
    ensures !IsNonsensicalRefactorError(NewNoApplicableRefactors())
  {
  }

  /** The two names differ, so no error value satisfies both discriminators. */
  lemma DiscriminatorsDisjoint(err: Error)
    ensures !(IsNonsensicalRefactorError(err) && IsNoApplicableRefactors(err))
  {
  }

  /** Only the name is consulted: a plain `Error` matches neither, whatever its message,
      and any error whose name is "NonsensicalRefactorError" matches the first. */
  lemma DiscriminatorsReadOnlyName(message: string, other: Error)
    ensures !IsNonsensicalRefactorError(PlainError(message))
    ensures !IsNoApplicableRefactors(PlainError(message))
    ensures IsNonsensicalRefactorError(other) <==> other.name == NewNonsensicalRefactorError().name
    ensures IsNoApplicableRefactors(other) <==> other.name == NewNoApplicableRefactors().name
  {
  }
}

/** The value-or-error results the program passes around (`ts-error-as-value`'s Result, and a
    promise that resolves or rejects), and JavaScript's `null`/`undefined` as `None`. */
module Outcomes {
  import opened Errors

  datatype Option<T> = None | Some(value: T)
  {
    /** `x ?? fallback` */
    function GetOr(fallback: T): T
    {
      if Some? then value else fallback
    }
  }

  datatype Result<T> = Ok(value: T) | Err(error: Error)
}
