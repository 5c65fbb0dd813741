/** Shared vocabulary of the model: optional values, results carrying the
    application's error kinds, and JavaScript truthiness of optional strings. */
module Common {

  datatype Option<+T> = None | Some(value: T)

  /** The error classes the services throw. `TypeError` stands for a property
      access on `undefined` inside the service, which Node raises before any
      application error is built. */
  datatype AppError =
    | NotFound(message: string)
    | Conflict(message: string)
    | Unauthorized(message: string)
    | EmailParsing(message: string)
    | TypeError

  datatype Result<+T> = Ok(value: T) | Err(error: AppError)

  /** A value thrown inside a `try` block: an `Error` instance carries a
      message, anything else does not. */
  datatype Thrown = ErrorValue(message: string) | NonError

  /** `error instanceof Error ? error.message : fallback` */
  function MessageOf(t: Thrown, fallback: string): (m: string)
    ensures t.ErrorValue? ==> m == t.message
    ensures t.NonError? ==> m == fallback
  {
    match t
    case ErrorValue(msg) => msg
    case NonError => fallback
  }

  /** A string field is truthy in JavaScript when it is present and non-empty. */
  predicate Truthy(v: Option<string>) {
    v.Some? && v.value != ""
  }

  /** JavaScript `a || b` on optional strings. */
  function OrElse(a: Option<string>, b: Option<string>): (r: Option<string>)
    ensures Truthy(a) ==> r == a
    ensures !Truthy(a) ==> r == b
    ensures Truthy(r) <==> Truthy(a) || Truthy(b)
  {
    if Truthy(a) then a else b
  }

  /** JavaScript `a || b` on strings that are always present. */
  function Or(a: string, b: string): (r: string)
    ensures r == a || r == b
    ensures r == "" <==> a == "" && b == ""
    ensures a != "" ==> r == a
  {
    if a != "" then a else b
  }

  /** `v || ''`: an absent or empty optional string read as a plain string. */
  function OrEmpty(v: Option<string>): (r: string)
    ensures r != "" <==> Truthy(v)
    ensures Truthy(v) ==> r == v.value
  {
    if Truthy(v) then v.value else ""
  }
}
