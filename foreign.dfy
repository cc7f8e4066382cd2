/**
 * Errors raised by libraries outside the model (the SQLite driver, the RON
 * and TOML codecs, the HTTP client), kept as the text they render to.
 */
module Foreign {
  datatype DbError = DbError(message: string)

  datatype RonError = RonError(message: string)

  datatype HttpError = HttpError(message: string)
}
