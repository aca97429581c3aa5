/**
  Small failure-carrying datatypes shared by the other modules.
  - Option<T> marks a heatmap cell that has no value (pandas' NaN cell).
  - Result<T, E> carries either a computed value or the error the script raises.
 */
module Wrappers {

  datatype Option<+T> = None | Some(value: T)

  datatype Result<+T, +E> = Success(value: T) | Failure(error: E)
}
