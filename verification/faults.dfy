/** The one run-time fault the drawing core can raise, and a result type that
    carries it. */
module Faults {

  /** Reading a coordinate of an array element that does not exist: the
      element is `undefined` and the property read throws a TypeError, which
      aborts the handler that made it. */
  datatype Fault = UndefinedPoint

  /** Either the value an operation produced or the fault that aborted it. */
  datatype Result<+T> = Ok(value: T) | Err(fault: Fault)
}
