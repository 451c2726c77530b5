/**
 * GlobalExceptionHandler: the three exception kinds it maps to an HTTP reply carrying the
 * exception's message. Any other error is left to the framework's default handling.
 */
module ExceptionHandler {
  import opened Errors

  datatype Reply = Reply(status: int, body: string)

  const NotFound: int := 404
  const Unauthorized: int := 401
  const ServiceUnavailable: int := 503

  /** The reply for error e whose getMessage() is `message`, or None when no mapping applies. */
  function Handle(e: Error, message: string): (r: Option<Reply>)
    ensures r.Some? <==> e in {UserNotFound, InvalidPassword, DoubleGisApi}
    ensures r.Some? ==> r.value.body == message
    ensures e == UserNotFound ==> r == Some(Reply(404, message))
    ensures e == InvalidPassword ==> r == Some(Reply(401, message))
    ensures e == DoubleGisApi ==> r == Some(Reply(503, message))
  {
    match e
    case UserNotFound => Some(Reply(NotFound, message))
    case InvalidPassword => Some(Reply(Unauthorized, message))
    case DoubleGisApi => Some(Reply(ServiceUnavailable, message))
    case _ => None
  }

  /**
   * The not-found conditions of the history side are plain runtime errors, not the user
   * not-found exception, so they get no 404; neither do parse and transport failures.
   */
  lemma UnmappedErrors(userId: int, id: int, message: string, m: string)
    ensures Handle(UserNotFoundWithId(userId), m).None?
    ensures Handle(SearchResultNotFound(id), m).None?
    ensures Handle(JsonParse, m).None? && Handle(Transport(message), m).None?
  {
  }
}
