/** Option and Result datatypes shared by the model.
    The source signals failure by raising `Exception`; the model returns a
    `Failure` carrying which of the source's raise sites was reached. */
module Wrappers {

  datatype Option<+T> = None | Some(value: T)

  /** The distinct exceptions the modelled code can raise. */
  datatype Error =
    | NoNodesToSplit        // "No nodes to split"
    | InvalidSyntax         // "Not valid markdown syntax" (unknown delimiter)
    | IndexOutOfRange       // IndexError from indexing past the end of a string

  datatype Result<+T> = Success(value: T) | Failure(error: Error) {
    predicate IsFailure() {
      Failure?
    }

    function PropagateFailure<U>(): Result<U>
      requires Failure?
    {
      Failure(error)
    }

    function Extract(): T
      requires Success?
    {
      value
    }
  }
}
