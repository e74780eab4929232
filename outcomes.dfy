/** The exceptions the evaluator can raise, and the Option/Result wrappers that
    stand for Python's `raise` and for a `try`/`except` around `float(...)`. */
module Outcomes {

  /** The Python exceptions that reach the caller of `evaluate`. */
  datatype Exception =
    | IndexError        // `list.pop()` on an empty list, or a list index past the end
    | ValueError        // `Operators.from_symbol` of an unknown symbol, `math.factorial` of a bad operand
    | TypeError         // calling the missing function of `Operators.LEFT_PARENTHESIS`
    | InvalidOperation  // `Decimal(...)` of a non-numeral, or `Decimal(0) / Decimal(0)`
    | DivisionByZero    // `Decimal(x) / Decimal(0)` with `x != 0`

  datatype Option<+T> = None | Some(value: T)

  datatype Result<+T> = Ok(value: T) | Err(error: Exception)
}
