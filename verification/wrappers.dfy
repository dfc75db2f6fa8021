/** Option and Result, the value-level stand-ins for JavaScript's `undefined`
    and for thrown exceptions. Both are failure-compatible so that `:-` can be
    used to propagate an error through a sequence of steps. */
module Wrappers {

  datatype Option<+T> = None | Some(value: T) {

    predicate IsFailure() {
      None?
    }

    function PropagateFailure<U>(): Option<U>
      requires None?
    {
      None
    }

    function Extract(): T
      requires Some?
    {
      value
    }
  }

  /** The exceptions the modelled code throws, one constructor per cause. */
  datatype Error =
    | NoTableOpen      // a table operation called while no table is open
    | NoCurrentRow     // `addColumn` reaching `row.addCell()` before any row was started
    | NoCurrentList    // a list item flushed before any `ul`/`ol` was opened

  datatype Result<+R> = Success(value: R) | Failure(error: Error) {

    predicate IsFailure() {
      Failure?
    }

    function PropagateFailure<U>(): Result<U>
      requires Failure?
    {
      Failure(error)
    }

    function Extract(): R
      requires Success?
    {
      value
    }
  }
}
