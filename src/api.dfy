/** The HTTP outcomes the controllers answer with: a value (2xx) or an error
    whose constructor is the status code (400, 401, 403, 404, 500) and whose
    field is the JSON `message`. */
module Api {

  datatype ApiError =
    | BadRequest(message: string)    // 400
    | Unauthorized(message: string)  // 401
    | Forbidden(message: string)     // 403
    | NotFound(message: string)      // 404
    | ServerError(message: string)   // 500

  datatype Result<T> = Ok(value: T) | Err(error: ApiError)
}
