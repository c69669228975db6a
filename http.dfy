/** Values shared by both API variants: optional fields, the outcome of a
    request and the kinds of failure a request can end in. */
module Http {

  datatype Option<T> = None | Some(value: T)

  /** How a request fails.
      - SchemaRejected: the web framework refuses the body or the form before
        the handler runs (HTTP 422); `field` names the offending parameter.
      - InvalidRequest: the handler raises HTTP 400 for a limit or a file type.
      - ModerationBlocked: the handler raises HTTP 400 from the keyword filter. */
  datatype Error =
    | SchemaRejected(field: string)
    | InvalidRequest(detail: string)
    | ModerationBlocked(detail: string)

  datatype Result<T> = Ok(value: T) | Err(error: Error)

  /** An uploaded file, seen only through the content type its client
      declared (the payload itself is never inspected). */
  datatype UploadFile = UploadFile(contentType: Option<string>)

  /** The value of an optional parameter, or the parameter's declared default. */
  function GetOr<T>(o: Option<T>, default: T): T
  {
    match o
    case Some(v) => v
    case None => default
  }
}
