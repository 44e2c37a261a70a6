/** What asking the rest of the evaluator for something gives. */
module Outcomes {
  type Exception = nat

  datatype Outcome<+T, +E> = Done(value: T) | Throws(error: E)
}
