/**
 * The exceptions the authentication core throws. An `HttpException` carries a status
 * and the response it was built from (a plain message or a record of optional fields);
 * anything else (a failing store connection, for one) is an `OtherError`.
 */
module Exceptions {
  import opened Wrappers

  // The status codes of the framework's HttpStatus enumeration that the core uses.
  const BAD_REQUEST: int := 400
  const UNAUTHORIZED: int := 401
  const FORBIDDEN: int := 403
  const NOT_FOUND: int := 404
  const INTERNAL_SERVER_ERROR: int := 500

  /** What `getResponse()` of an HttpException yields: a string, or an object with optional fields. */
  datatype ExceptionResponse =
    | Text(text: string)
    | Fields(message: Option<string>, error: Option<string>, details: Option<string>)

  datatype Exception =
    | HttpException(status: int, response: ExceptionResponse)
    | OtherError(description: string)

  /** A token that is absent, unknown or owned by someone else. */
  const INVALID_TOKEN: Exception := HttpException(UNAUTHORIZED, Text("유효하지 않은 토큰입니다."))
  /** Unknown email or wrong password: deliberately one and the same exception. */
  const INVALID_CREDENTIALS: Exception := HttpException(UNAUTHORIZED, Text("이메일 또는 비밀번호가 일치하지 않습니다."))
  const INVALID_REFRESH_TOKEN: Exception := HttpException(UNAUTHORIZED, Text("유효하지 않은 리프레시 토큰입니다."))
  const USER_NOT_FOUND: Exception := HttpException(NOT_FOUND, Text("사용자를 찾을 수 없습니다."))
  /** No bearer token in the authorization header. */
  const MISSING_TOKEN: Exception := HttpException(UNAUTHORIZED, Text("인증 토큰이 필요합니다."))
  /** What a call on an unreachable key-value store rejects with. */
  const STORE_UNAVAILABLE: Exception := OtherError("session store unavailable")
}
