/** The errors that the modelled operations tell apart. */
module Errors {
  datatype Error =
    | NotExist
    | Exists
    | NotDirectory
    | IsDirectory
    | TooManyLinks
    | EscapesByLink
    | EscapesByDotDot
    | NotPermitted
    | Invalid
    | Failed
    | InvalidEntryName
    | InvalidLinkTarget
    | InvalidAufsHardlink
    | InvalidWhiteout
    | DeviceOutOfRange
    | UnhandledType
    | CannotOverwrite

  /** `isPathEscapes`. */
  predicate IsPathEscapes(e: Error) {
    e.EscapesByLink? || e.EscapesByDotDot?
  }

  datatype Lookup<+T> = Found(value: T) | Missing(error: Error)
  {
    predicate IsFailure() {
      Missing?
    }

    function PropagateFailure<U>(): Lookup<U>
      requires Missing?
    {
      Missing(error)
    }

    function Extract(): T
      requires Found?
    {
      value
    }
  }
}
