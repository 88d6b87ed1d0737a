/** Values shared by the four controllers: optional request fields, the
    statuses a handler fails with, document identifiers and upload results. */
module Common {

  datatype Option<+T> = None | Some(value: T)

  /** The statuses the handlers throw as an ApiError, in HTTP terms, plus
      `Unhandled` for a runtime exception that is no ApiError (a TypeError
      on an undefined field, an ObjectId cast that fails inside a query);
      the status the error middleware gives such an exception is not part
      of this model. */
  datatype Error =
    | BadRequest     // 400
    | Unauthorized   // 401
    | Forbidden      // 403
    | NotFound       // 404
    | Conflict       // 409
    | ServerError    // 500
    | Unhandled

  datatype Result<+T> = Ok(value: T) | Err(error: Error)

  /** A document identifier (an ObjectId). */
  type Id = nat

  /** A stored document together with its identifier. */
  datatype Stored<+T> = Stored(id: Id, doc: T)

  /** An identifier as it arrives in a path or a query string: absent (or
      the empty string), text that `mongoose.Types.ObjectId.isValid`
      rejects, or text it accepts, standing for the identifier `id`. */
  datatype IdParam = Absent | Malformed | WellFormed(id: Id)

  /** JavaScript truthiness of a request field that is a string when present:
      `undefined` and `""` are falsy. */
  predicate Truthy(f: Option<string>)
  {
    f.Some? && f.value != ""
  }

  /** What the media upload service returns for a file it stored. */
  datatype Upload = Upload(url: string, duration: real)
}
