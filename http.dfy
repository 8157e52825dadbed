/** The few pieces of the web framework's HTTP vocabulary that the core refers to. */
module Http {

  /** Status codes named as the framework names them. */
  const BadRequest: nat := 400
  const NotFound: nat := 404
  const PayloadTooLarge: nat := 413
  const UnprocessableEntity: nat := 422
  const InternalServerError: nat := 500

  /** The header value of the framework's `ContentType::Text`. */
  const TextPlain: string := "text/plain; charset=utf-8"

  predicate IsClientError(code: nat) {
    400 <= code < 500
  }

  predicate IsServerError(code: nat) {
    500 <= code < 600
  }
}
