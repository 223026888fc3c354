/** Shared vocabulary: optional values, HTTP status codes, instants and money. */
module Base {

  /** A value that may be absent (SQL NULL, an unset request field, `undefined`). */
  datatype Option<+T> = None | Some(value: T) {
    /** The value, or `default` when absent. */
    function GetOr(default: T): T {
      match this
      case Some(v) => v
      case None => default
    }
  }

  /** HTTP status code sent by a handler. */
  type Status = int

  const OK: Status := 200
  const CREATED: Status := 201
  const NO_CONTENT: Status := 204
  const BAD_REQUEST: Status := 400
  const UNAUTHORIZED: Status := 401
  const FORBIDDEN: Status := 403
  const NOT_FOUND: Status := 404
  const CONFLICT: Status := 409
  const GONE: Status := 410
  const UNSUPPORTED_MEDIA_TYPE: Status := 415
  /** What the error handler sends for a thrown error that carries no status of its own. */
  const INTERNAL_ERROR: Status := 500
  const SERVICE_UNAVAILABLE: Status := 503

  /** An instant, in milliseconds since the epoch (both `NOW()` and `Date.now()`). */
  type Time = int

  const HOUR_MS: int := 3_600_000

  /** A NUMERIC(12,2) amount, counted in hundredths. */
  type Cents = int

  /** JavaScript truthiness of an optional string: present and not empty. */
  predicate Truthy(s: Option<string>) {
    s.Some? && s.value != ""
  }

  /** What `Number(text)` makes of a request parameter: an integer, a
      number that is not an integer (a fraction or an infinity, with its
      sign), or NaN. Negative zero counts as the integer 0. */
  datatype Num = NaN | Int(value: int) | NonInteger(positive: bool)

  /** JavaScript truthiness of such a number: NaN and 0 are falsy. */
  predicate NumTruthy(n: Num) {
    n.NonInteger? || (n.Int? && n.value != 0)
  }

  /** A field of a JSON body that no schema has checked: absent or null, a
      number (what JavaScript makes of the literal), a string, a boolean, or
      an object or array. */
  datatype JsonValue = JAbsent | JNumber(num: Num) | JString(text: string) | JBool(flag: bool) | JStructured

  /** JavaScript truthiness of such a value. */
  predicate JsonTruthy(v: JsonValue) {
    match v
    case JAbsent => false
    case JNumber(n) => NumTruthy(n)
    case JString(t) => t != ""
    case JBool(b) => b
    case JStructured => true
  }

  const INT4_MIN: int := -0x8000_0000
  const INT4_MAX: int := 0x7fff_ffff

  /** PostgreSQL accepts the number for an `INTEGER` parameter; any other
      value makes the query raise an error. */
  predicate BindsAsInteger(n: Num) {
    n.Int? && INT4_MIN <= n.value <= INT4_MAX
  }

  function Min(a: int, b: int): int {
    if a <= b then a else b
  }
}
