/** Failure-carrying results for the operations of the territory planner
    whose Python counterparts raise. */
module Wrappers {

  /** The exceptions the modelled code can raise, named by what triggers them. */
  datatype Error =
    | KeyMissing(key: string)        // a dict lookup on an absent key
    | IntKeyMissing(intKey: nat)     // a dict lookup on an int key (JSON keys are strings)
    | IndexOutOfRange(index: nat)    // a list/str index past its end
    | NotIndexable                   // subscript or len() on a value without them
    | UnsupportedGridType            // get_functions: locals unbound at return
    | DuplicateGeoid                 // to_dict('index') on a non-unique index
    | UndefinedSpread                // int(nan) from std/mean of < 2 demands
    | EmptyGraph                     // is_connected on a graph without nodes

  datatype Result<+T> = Success(value: T) | Failure(error: Error) {
    predicate IsFailure() {
      Failure?
    }

    function PropagateFailure<U>(): Result<U>
      requires Failure?
    {
      Failure(error)
    }

    function Extract(): T
      requires Success?
    {
      value
    }
  }
}
