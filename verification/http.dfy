/**
 * What the routers hand back to FastAPI: an HTTP error is a status code and a detail
 * message (`HTTPException`).
 */
module Http {
  /** An `HTTPException`: its status code and its detail message. */
  datatype HttpError = HttpError(status: int, detail: string)

  /** A byte of an uploaded file. */
  newtype byte = b: int | 0 <= b < 256
}
