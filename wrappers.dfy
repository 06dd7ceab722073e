/** Failure-compatible wrappers used throughout the model. */
module Wrappers {

  datatype Option<T> = None | Some(value: T)

  /** The reasons the source raises an exception, one tag per raising site. */
  datatype Error =
    | UnmatchedClose     // `bracketStack.pop()` on an empty stack
    | EmptyBrackets      // `bracketedNodes[0]` when nothing stands between the brackets
    | MissingOperand     // `nodeStack.pop()` for an `&` with no left operand
    | EmptyFormula       // `nodeStack[-1]` when no operand was parsed at all
    | NoChildren         // `childNodes[0]` of a conjunction without children
    | NoSortKey          // a conjunction or disjunction reaching the sort key, which reads `.negated`
    | NoTerms            // `dnf[0]` when every pairing of terms was contradictory
    | RecursionLimit     // the nesting of normal-form calls exceeded the depth budget

  datatype Result<T> = Ok(value: T) | Err(error: Error) {
    predicate IsFailure() { Err? }

    function PropagateFailure<U>(): Result<U>
      requires Err?
    {
      Err(error)
    }

    function Extract(): T
      requires Ok?
    {
      value
    }
  }
}
