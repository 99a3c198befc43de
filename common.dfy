/** Small shared vocabulary: optional values, results with an error, and the language identifier. */
module Common {

  datatype Option<+T> = None | Some(value: T)

  datatype Result<+T, +E> = Success(value: T) | Failure(error: E)

  /** The failures the service reports: the first two answer 400, a failed
      connectivity probe 500, an unknown history id 404, and an exception
      caught by a handler's catch-all 500. */
  datatype Error = TextTooShort | LanguageNotDetected | StoreUnavailable | NotFound | InternalError

  /** A language as the classifier names it (the enum member's `name`, such as "FRENCH"). */
  type Language = string

  function Min(a: int, b: int): int
  {
    if a <= b then a else b
  }
}
