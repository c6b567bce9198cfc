/**
 * The failure kinds of the asset manager and the result wrappers the rest of
 * the model returns instead of throwing.
 */
module Errors {

  /** The exceptions the manager and the registry raise. `CyclicDependency`
      stands for the unbounded recursion the source enters on a dependency or
      preset cycle that does not pass through the root of the walk;
      `TypeError` is PHP's refusal of an array where a string parameter is
      declared. */
  datatype Error =
    | UnknownAsset(assetType: string, name: string)
    | UnsatisfiedDependency(reference: string, asset: string, assetType: string)
    | InvalidAction
    | CyclicDependency(assetType: string, name: string)
    | TypeError(parameter: string)

  datatype Option<+T> = None | Some(value: T)

  /** A value or the error that prevented computing it. */
  datatype Result<+T> = Ok(value: T) | Err(error: Error) {
    predicate IsFailure() { Err? }

    function PropagateFailure<U>(): Result<U>
      requires Err?
    {
      Err(error)
    }

    function Extract(): T
      requires Ok?
    {
      value
    }
  }

  /** The outcome of an operation that returns nothing but may fail. */
  datatype Outcome = Pass | Fail(error: Error)
}
