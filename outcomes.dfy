/** Result types shared by the handlers: an optional value, and either a
    value or the failure a handler raises as an HTTP error. */
module Outcomes {

  datatype Option<+T> = None | Some(value: T)

  datatype Result<+T, +E> = Ok(value: T) | Err(error: E)

  /** The failures the handlers raise, each with the detail text it carries.
      The transport layer maps them to 400, 401, 403, 404 and 500. */
  datatype Failure =
    | BadRequest(detail: string)
    | Unauthorized(detail: string)
    | Forbidden(detail: string)
    | NotFound(detail: string)
    | ServerError(detail: string)
}
