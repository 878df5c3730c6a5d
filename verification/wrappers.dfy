/** Option and Result, the failure-compatible datatypes the rest of the model returns.
    A C# `null` child becomes `None`; a thrown exception becomes a `Failure`. */
module Wrappers {

  datatype Option<+T> = None | Some(value: T)

  /** The exceptions the modelled code throws. The C# messages do not name the offending
      identifier or token, so neither do these. */
  datatype Error =
    | VariableNotGenerated            // "Variable name was not previously generated"
    | FunctionNotGenerated            // "Function name was not previously generated"
    | DuplicateKey                    // Dictionary.Add on a key already present
    | IndexOutOfRange                 // alphabet[num] on an empty alphabet
    | NegativeCount                   // Enumerable.Range with a negative count
    | AstIsReused                     // an AST constructor handed a node that already has a parent
    | NoIfClauses                     // Clauses.First() on an empty clause list
    | AssignmentOperatorNotSupported
    | FileRedirectionNotSupported
    | BinaryTokenNotSupported
    | UnaryTokenNotSupported
    | StringConstantTypeNotSupported

  datatype Result<+R> = Success(value: R) | Failure(error: Error) {

    predicate IsFailure() {
      Failure?
    }

    function PropagateFailure<U>(): Result<U>
      requires Failure?
    {
      Failure(error)
    }

    function Extract(): R
      requires Success?
    {
      value
    }
  }
}
