/** Values shared by every handler: optional results, JSON request fields with
    JavaScript's three ways of being absent, and HTTP replies. */
module Common {

  datatype Option<+T> = None | Some(value: T)

  /** A value, or the message of an `Error` the code throws. */
  datatype Result<+T> = Success(value: T) | Failure(error: string)

  /** A field of a parsed JSON request body. `Undefined` is a key that is not
      there, `Null` is an explicit `null`, `Given(v)` is a value. JavaScript
      treats the first two alike for `??`, but not for `=== undefined`. */
  datatype Field<+T> = Undefined | Null | Given(value: T)

  /** JavaScript truthiness of a text field: absent, null and "" are falsy. */
  predicate TruthyText(f: Field<string>) {
    f.Given? && f.value != ""
  }

  /** JavaScript truthiness of a numeric field: absent, null and 0 are falsy. */
  predicate TruthyNumber(f: Field<int>) {
    f.Given? && f.value != 0
  }

  /** `bufferBefore ?? 0`: null and absent both become the default. */
  function OrDefault(f: Field<int>, default: int): (r: int)
    ensures f.Given? ==> r == f.value
    ensures !f.Given? ==> r == default
  {
    if f.Given? then f.value else default
  }

  /** An HTTP reply: a status with a JSON body, or a status with an error text. */
  datatype Reply<+T> = Ok(status: int, body: T) | Error(status: int, message: string)

  const OK: int := 200
  const CREATED: int := 201
  const NO_CONTENT: int := 204
  const BAD_REQUEST: int := 400
  const NOT_FOUND: int := 404
  const CONFLICT: int := 409
  const INTERNAL_ERROR: int := 500
}
