// The error kinds the services raise, and the HTTP status each one is
// reported with.

module Errors {
  import opened Wrappers

  /** The kind carried by every exception the services throw on purpose. */
  datatype ErrorType = InternalError | NotFound | AlreadyOccupied

  /** The fixed HTTP status of each kind. */
  function HttpError(e: ErrorType): (status: int)
    ensures 400 <= status <= 599
  {
    match e
    case InternalError => 500
    case NotFound => 404
    case AlreadyOccupied => 400
  }

  /** The inverse of HttpError: recovers the kind from a status, if any kind has it. */
  function KindOfStatus(status: int): (r: Option<ErrorType>)
    ensures r.Some? ==> HttpError(r.value) == status
    ensures r.None? ==> forall e: ErrorType :: HttpError(e) != status
  {
    if status == 500 then Some(InternalError)
    else if status == 404 then Some(NotFound)
    else if status == 400 then Some(AlreadyOccupied)
    else None
  }

  /** The table itself: 500, 404 and 400. */
  lemma HttpErrorTable()
    ensures HttpError(InternalError) == 500
    ensures HttpError(NotFound) == 404
    ensures HttpError(AlreadyOccupied) == 400
  {
  }

  /** The status determines the kind: no two kinds share a status. */
  lemma HttpErrorInjective(a: ErrorType, b: ErrorType)
    ensures HttpError(a) == HttpError(b) ==> a == b
  {
  }

  /** Going from a kind to its status and back is the identity. */
  lemma KindOfStatusRoundTrip(e: ErrorType)
    ensures KindOfStatus(HttpError(e)) == Some(e)
  {
  }
}
