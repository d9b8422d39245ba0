/** The HTTP errors the services raise (`HTTPException(status_code, detail)`). */
module Http {

  const BadRequest := 400
  const Unauthorized := 401
  const NotFound := 404
  const Conflict := 409
  const UnsupportedMediaType := 415
  const UnprocessableEntity := 422

  datatype HttpError = HttpError(status: int, detail: string)
}
