/** The optional values, results and call outcomes the other modules share. */
module Wrappers {
  datatype Option<+T> = None | Some(value: T) {
    function GetOr(default: T): T {
      if None? then default else value
    }
  }

  datatype Result<+T, +E> = Ok(value: T) | Err(error: E)

  /** A call that leaves the program works, fails without effect, or takes effect and fails nevertheless. */
  datatype Fault = Works | FailsBefore | FailsAfter

  /** A number as JavaScript has it, rounding aside. */
  datatype Number = Finite(value: real) | PlusInfinity | MinusInfinity | NotANumber {
    predicate AtMostZero() {
      (Finite? && value <= 0.0) || MinusInfinity?
    }

    /** `x > this`, which is never so for a number that is none. */
    predicate Below(x: int) {
      (Finite? && value < x as real) || MinusInfinity?
    }
  }
}
