/** Failures the interpreter raises and the result types its functions return.
    Every `throw` of the interpreter, and every host TypeError its property reads
    and calls can raise, becomes an `Err`. */
module Results {

  /** The conventional Some/None datatype; `None` stands for the host's `null`. */
  datatype Option<+T> = None | Some(value: T)

  /** The failures, with the text the interpreter throws for each of its own. */
  datatype Error =
    | ExpectedCloseParen           // "expected ')'": the tokens run out inside a list
    | UnboundVariable(key: string) // "unbound variable - " + key: lookup and assignment
    | TooManyArguments             // "Too many arguments supplied"
    | TooFewArguments              // "Too few arguments supplied"
    | ElseNotLast                  // "ELSE clause isn't last -- cond->if"
    | UnknownExpressionType        // "Unknown expression type -- EVAL"
    | TypeError                    // host error: a property read on undefined, a call of undefined
    | OutOfFuel                    // not raised by the interpreter: the model's bound on evaluation

  /** A value or the failure that aborted its computation; usable with `:-`. */
  datatype Result<+T> = Ok(value: T) | Err(error: Error) {

    predicate IsFailure() {
      Err?
    }

    function PropagateFailure<U>(): Result<U>
      requires Err?
    {
      Err(error)
    }

    function Extract(): T
      requires Ok?
    {
      value
    }
  }
}
