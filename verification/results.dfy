/** Failure-compatible wrappers and the error kinds of the configuration generator.
    Every `std::runtime_error` the generator throws becomes an `Error` value; the
    places where the C++ code has undefined behaviour become `UndefinedBehaviour`,
    so that the model never silently picks an outcome the program does not define. */
module Results {

  datatype Option<+T> = None | Some(value: T)

  datatype Result<+T> = Success(value: T) | Failure(error: Error) {

    predicate IsFailure() {
      Failure?
    }

    function PropagateFailure<U>(): Result<U>
      requires Failure?
    {
      Failure(error)
    }

    function Extract(): T
      requires Success?
    {
      value
    }
  }

  /** Where the C++ code would read outside a string. */
  datatype Hazard =
    | TrimOfBlankString        // right_trim's unsigned index wraps past 0
    | CompareBeyondEnd         // std::equal reads past the end of the shorter string

  datatype Error =
    // get_name_value_pair
    | NoSeparator
    | MultipleSeparators(count: nat)
    | EmptyName
    | EmptyValue
    // is_line_if_statement / is_line_endif_statement
    | IfNotAtStart
    | EndifWithExtraText
    // evaluate_if_statement_line and the operators it calls
    | BadWordCount(words: nat)
    | UnknownLogicalOperator(op: string)
    | UnknownConditionalOperator(op: string)
    // substitute_vars
    | EmptyVariable
    | UndefinedVariable(name: string)
    // generate_file
    | UnexpectedEndif
    | MissingEndif
    | AtLine(file: string, line: nat, inner: Error)
    // behaviour the C++ code leaves undefined
    | UndefinedBehaviour(hazard: Hazard)
  {
    /** The error is, or wraps, undefined behaviour. */
    predicate IsUndefined() {
      UndefinedBehaviour? || (AtLine? && inner.UndefinedBehaviour?)
    }
  }
}
