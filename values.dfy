/** What the `results` stack of both `evaluate` functions holds, and the
    `Decimal` conversions and division they perform (exact arithmetic). */
module Values {
  import opened Outcomes
  import opened Numerals

  /** An entry of the `results` stack: a token pushed unchanged (a numeral, or a
      leftover parenthesis) keeps its string; a computed value is a `Decimal`. */
  datatype Entry = Text(text: string) | Dec(value: real)

  /** `Decimal(e)`: a computed value is itself; a string must be a numeral. */
  function ToDecimal(e: Entry): (r: Result<real>)
    ensures e.Dec? ==> r == Ok(e.value)
    ensures e.Text? ==> (r.Ok? <==> IsNumeric(e.text))
    ensures r.Err? ==> r.error == InvalidOperation
  {
    match e
    case Dec(v) => Ok(v)
    case Text(s) =>
      match ParseNumber(s)
      case Some(v) => Ok(v)
      case None => Err(InvalidOperation)
  }

  /** `operator.truediv(Decimal(a), Decimal(b))` without rounding: `x / 0` raises
      DivisionByZero, and `0 / 0` raises InvalidOperation. */
  function Quotient(a: real, b: real): (r: Result<real>)
    ensures r.Ok? <==> b != 0.0
    ensures r.Ok? ==> r.value * b == a
    ensures r.Err? ==> (r.error == DivisionByZero <==> a != 0.0)
    ensures r.Err? ==> (r.error == InvalidOperation <==> a == 0.0)
  {
    if b == 0.0 then
      if a == 0.0 then Err(InvalidOperation) else Err(DivisionByZero)
    else
      Ok(a / b)
  }
}
