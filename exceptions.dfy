/**
  The HTTP error taxonomy (app/exceptions.py) as a tagged value: an
  HTTPException carries a status code and a message, and each of the five
  subclasses fixes the status code.
 */
module Exceptions {
  import opened Wrappers
  import opened Constants

  /** An HTTPException: its `status_code` and its `message`. */
  datatype HttpError = HttpError(status: Status, message: string)

  /** The five subclasses of HTTPException. */
  datatype ErrorKind = BadRequest | NotFound | Forbidden | MethodNotAllowed | InternalServerError

  /** The status code each subclass passes to the base constructor. */
  function KindStatus(k: ErrorKind): (s: Status)
    ensures s in TabulatedStatuses
    ensures s.Code() >= 500 <==> k == InternalServerError
  {
    match k
    case BadRequest => BAD_REQUEST
    case NotFound => NOT_FOUND
    case Forbidden => FORBIDDEN
    case MethodNotAllowed => METHOD_NOT_ALLOWED
    case InternalServerError => INTERNAL_SERVER_ERROR
  }

  /**
    `HTTPException(status_code, message)`: the message is the caller's when it
    is given and non-empty, otherwise the status text of the code, otherwise
    "Unknown Error".
   */
  function NewHttpError(status: Status, message: Option<string>): (e: HttpError)
    ensures e.status == status
    ensures message.Some? && message.value != [] ==> e.message == message.value
    ensures (message.None? || message.value == []) && StatusText(status).Some? ==>
              e.message == StatusText(status).value
    ensures (message.None? || message.value == []) && StatusText(status).None? ==>
              e.message == "Unknown Error"
  {
    var text := match message case Some(m) => m case None => "";
    if text != [] then HttpError(status, text)
    else match StatusText(status)
      case Some(t) => HttpError(status, t)
      case None => HttpError(status, "Unknown Error")
  }

  /** Constructing one of the five subclasses with an optional message. */
  function Raise(kind: ErrorKind, message: Option<string>): (e: HttpError)
    ensures e.status == KindStatus(kind)
    ensures message.Some? && message.value != [] ==> e.message == message.value
    ensures (message.None? || message.value == []) ==> e.message == StatusText(KindStatus(kind)).value
  {
    NewHttpError(KindStatus(kind), message)
  }

  /**
    The five subclasses have codes 400, 404, 403, 405 and 500, and without a
    message each carries its status text, "Method Not Allowed" for 405.
   */
  lemma SubclassDefaults()
    ensures Raise(BadRequest, None) == HttpError(BAD_REQUEST, "Bad Request")
    ensures Raise(NotFound, None) == HttpError(NOT_FOUND, "Not Found")
    ensures Raise(Forbidden, None) == HttpError(FORBIDDEN, "Forbidden")
    ensures Raise(MethodNotAllowed, Some("")) == HttpError(METHOD_NOT_ALLOWED, "Method Not Allowed")
    ensures Raise(InternalServerError, None) == HttpError(INTERNAL_SERVER_ERROR, "Internal Server Error")
    ensures BAD_REQUEST.Code() == 400 && NOT_FOUND.Code() == 404 && FORBIDDEN.Code() == 403
    ensures METHOD_NOT_ALLOWED.Code() == 405 && INTERNAL_SERVER_ERROR.Code() == 500
  {
  }
}
