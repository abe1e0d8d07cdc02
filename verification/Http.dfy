/** Requests as the vendors' clients see them: no reply or a status, and the error numbers these become. */
module Http {
  import opened HiveError

  const HTTP_OK := 200
  const HTTP_CREATED := 201
  const HTTP_NO_CONTENT := 204
  const HTTP_UNAUTHORIZED := 401
  const HTTP_NOT_FOUND := 404

  /** What comes of a request: no reply (a curl error), or a status. */
  datatype Reply = Failed(curl: nat) | Status(code: nat)

  predicate IsReply(r: Reply) {
    match r
    case Failed(curl) => 0 < curl < 1000
    case Status(code) => code < 1000
  }

  const NOT_FOUND := Error(HTTP_STATUS, HTTP_NOT_FOUND)
  const AGAIN := Error(GENERAL, TRY_AGAIN)

  /** The error for a reply that is not the wanted one. */
  function PlainError(r: Reply): (rc: int)
    requires IsReply(r)
    ensures -INT_LIMIT <= rc < 0 && (rc == NOT_FOUND <==> r == Status(HTTP_NOT_FOUND)) && rc != AGAIN
  {
    match r
    case Failed(curl) => Error(CURL, curl)
    case Status(code) => Error(HTTP_STATUS, code)
  }

  /** The same where a 401 means that the token has expired. */
  function ReplyError(r: Reply): (rc: int)
    requires IsReply(r)
    ensures -INT_LIMIT <= rc < 0 && (rc == NOT_FOUND <==> r == Status(HTTP_NOT_FOUND))
    ensures rc == AGAIN <==> r == Status(HTTP_UNAUTHORIZED)
  {
    if r == Status(HTTP_UNAUTHORIZED) then AGAIN else PlainError(r)
  }

  /** The body of a good reply: no memory for it, no JSON, not the fields that are looked for, or all of them. */
  datatype Body = NoMemory | Garbled | Incomplete | Complete

  function BodyError(b: Body): (rc: int)
    requires !b.Complete?
    ensures -INT_LIMIT <= rc < 0 && rc != NOT_FOUND && rc != AGAIN
  {
    if b.Incomplete? then BAD_JSON else NO_MEMORY
  }
}
