/**
  Shared vocabulary of the movie and genre services: the error taxonomy that
  the services signal with exceptions, a result type carrying either a value
  or one of those errors, and the "empty means not found" policy.
 */
module Common {

  /** The exceptions the services raise, as tags. The HTTP status each one
      maps to is a transport concern and is not modelled. */
  datatype ServiceError =
    | BadRequest          // BadRequestException
    | MoviesNotFound      // MoviesNotFoundException
    | GenresNotFound      // GenresNotFoundException
    | IndexOutOfBounds    // thrown by List.subList on a too-short list

  datatype Result<T> = Ok(value: T) | Err(error: ServiceError)

  datatype Option<T> = None | Some(value: T)

  /** The empty-result policy: an empty list becomes the given not-found
      error, any other list is passed through untouched. */
  function RequireNonEmpty<T>(xs: seq<T>, notFound: ServiceError): (r: Result<seq<T>>)
    ensures r.Ok? <==> |xs| > 0
    ensures r.Ok? ==> r.value == xs
    ensures r.Err? ==> r.error == notFound
  {
    if |xs| == 0 then Err(notFound) else Ok(xs)
  }
}
