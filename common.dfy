/** Values shared by every controller: optional values, request-body fields as
    JavaScript sees them, and the HTTP responses a handler sends. */
module Common {

  datatype Option<+T> = None | Some(value: T) {
    function GetOr(default: T): T {
      match this
      case Some(v) => v
      case None => default
    }
  }

  /** A field of a JSON request body, split the way the handlers test it:
      absent (`undefined`), present but falsy (`null`, `""`, `0`, `false`),
      or present and truthy. */
  datatype BodyValue<+T> = Undefined | Falsy | Truthy(value: T)

  /** A field of an update left `undefined` (`None`) keeps its current
      value; otherwise it takes the given one. */
  function Assign<T>(current: T, given: Option<T>): (r: T)
    ensures given.None? ==> r == current
    ensures given.Some? ==> r == given.value
  {
    if given.Some? then given.value else current
  }

  /** A handler either answers with a status and a body, or with an error
      status (the body is then only a message, which the model drops). */
  datatype Response<+T> = Ok(status: nat, body: T) | Fail(status: nat)

  const STATUS_OK: nat := 200
  const STATUS_CREATED: nat := 201
  const STATUS_BAD_REQUEST: nat := 400
  const STATUS_UNAUTHORIZED: nat := 401
  const STATUS_FORBIDDEN: nat := 403
  const STATUS_NOT_FOUND: nat := 404
  const STATUS_SERVER_ERROR: nat := 500
}
