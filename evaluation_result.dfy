/**
  * The values a filter-expression node evaluates to, the failures evaluation can raise,
  * and the `getString` coercion the `~` operator applies to both operands.
  */
module EvaluationResults {
  import opened Results

  /** Java's `long`. */
  newtype Int64 = x: int | -0x8000_0000_0000_0000 <= x < 0x8000_0000_0000_0000

  /** An evaluation result: a tagged value (floating-point results are not part of this model). */
  datatype EvaluationResult =
    | Bool(b: bool)
    | Long(l: Int64)
    | Str(s: string)

  /** The two shared boolean results (`BOOL_TRUE` and `BOOL_FALSE`). */
  const BoolTrue: EvaluationResult := Bool(true)
  const BoolFalse: EvaluationResult := Bool(false)

  /** The two checked exceptions `evaluate` declares. */
  datatype EvaluationError =
    | EvaluationException(reason: string)
    | DynamicTypeException(reason: string)

  /** How a non-string result is turned into a string, or refused; the rules live
      outside the node and are a parameter of the model. */
  type Rendering = EvaluationResult -> Result<string, EvaluationError>

  /** `getString()`: a string result is its own string; any other result goes through
      the rendering, which may fail. */
  function GetString(v: EvaluationResult, render: Rendering): Result<string, EvaluationError> {
    match v
    case Str(s) => Success(s)
    case _ => render(v)
  }
}
