/** The exceptions the Sudoku model raises, as values: a Java method that throws is
    modelled as one that returns a failure. */
module Outcomes {

  /** One constructor per exception site of the model. */
  datatype Error =
    | InvalidValue      // a cell write outside [0,9] (IllegalArgumentException)
    | ImpossibleMove    // a final move that leaves the board illegal (IllegalArgumentException)
    | IndexOutOfBounds  // a row, column or box index outside [0,8] (IllegalArgumentException)
    | NullArgument      // compareTo with a null argument

  /** The outcome of a `void` method that may throw. */
  datatype Status = Done | Failed(error: Error)

  /** The outcome of a value-returning method that may throw. */
  datatype Result<T> = Ok(value: T) | Err(error: Error)
}
