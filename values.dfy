/** Values shared by the whole model: the JSON/Python values that the bot's
    settings document holds, the Python exceptions its code raises, and the
    usual Option/Result/Outcome wrappers used for error paths. */
module Values {

  datatype Option<+T> = None | Some(value: T)

  datatype Result<+T, +E> = Success(value: T) | Failure(error: E) {
    /** The value on success, `default` on failure. */
    function GetOr(default: T): T {
      match this
      case Success(v) => v
      case Failure(_) => default
    }

    /** Forgets the success value. */
    function ToOutcome(): Outcome<E> {
      match this
      case Success(_) => Pass
      case Failure(e) => Fail(e)
    }
  }

  datatype Outcome<+E> = Pass | Fail(error: E)

  /** A scalar JSON value as Python sees it after `json.load`: `null` is
      `None`, and booleans, integers and strings keep their kind. */
  datatype Value = Null | Bool(b: bool) | Int(i: int) | Str(s: string)

  /** The exceptions the modelled code can raise. */
  datatype PyError =
    | ValueError(message: string)
    | KeyError(key: Value)
    | NameError(name: string)

  /** Python truthiness (`if not x`). */
  predicate Truthy(v: Value) {
    match v
    case Null => false
    case Bool(b) => b
    case Int(i) => i != 0
    case Str(s) => s != ""
  }

  /** Python's `v == n` for an integer `n`: `True == 1` and `False == 0`,
      and a string or `None` never equals an integer. */
  predicate EqualsInt(v: Value, n: int) {
    match v
    case Int(i) => i == n
    case Bool(b) => (if b then 1 else 0) == n
    case _ => false
  }
}
