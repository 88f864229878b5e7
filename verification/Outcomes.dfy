/** How a step of a program ends when the program may refuse to go on or lose its power. */
module Outcomes {

  datatype Outcome<+T> = Done(value: T) | Refused | Crashed {
    predicate IsFailure() { !Done? }
    function PropagateFailure<U>(): Outcome<U> { if Crashed? then Crashed else Refused }
    function Extract(): T requires Done? { value }
  }
}
