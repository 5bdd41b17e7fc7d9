/** The two failure kinds of the decimal type, and a result that carries one. */
module Outcomes {

  /** What the text parser objected to. */
  datatype ParseFailure =
    | RedundantDot
    | UnknownCharacter(inFraction: bool)

  datatype Error =
    | Malformed(failure: ParseFailure, index: nat)
    | ZeroDivision
    | NotImplemented

  datatype Result<+T> = Ok(value: T) | Err(error: Error)
}
