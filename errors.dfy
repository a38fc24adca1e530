/** The error taxonomy of the core: each throw site of the headers raises
    one of these kinds. */
module Errors {

  datatype Error =
    | ZeroDimension     // a constructor given a row or column count of 0
    | LengthMismatch    // a store whose length is not the product of the dimensions
    | OutOfBounds       // row or column index at or beyond its dimension
    | NotSquare         // inversion of a matrix that is not square
    | Singular          // the pivot column is all zero during inversion
    | ShapeMismatch     // matrix + matrix of different shapes
    | InnerMismatch     // matrix * matrix whose inner dimensions differ
    | DivideByZero      // scalar division by exactly zero
    | NotColumnVector   // a normal distribution's mean with other than one column
    | NotCovariance     // a covariance that is not N x N for an N-row mean

  /** The outcome of an operation that yields a value or throws. */
  datatype Result<+T> = Ok(value: T) | Err(error: Error) {
    predicate IsFailure() { Err? }

    function PropagateFailure<U>(): Result<U>
      requires Err?
    {
      Err(error)
    }

    function Extract(): T
      requires Ok?
    {
      value
    }
  }

  /** The outcome of an operation that returns nothing or throws. */
  datatype Outcome = Pass | Fail(error: Error)
}
