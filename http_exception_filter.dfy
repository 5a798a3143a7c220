/**
 * The global exception filter: every exception becomes an HTTP status and a body
 * `{statusCode, message, error, details?}`. Unknown exceptions are a 500 with fixed
 * texts; an HttpException keeps its status and its message, and the four auth-related
 * statuses carry fixed error labels.
 */
module HttpExceptionFilter {
  import opened Wrappers
  import opened Exceptions

  const DEFAULT_MESSAGE: string := "서버 오류가 발생했습니다."
  const DEFAULT_ERROR: string := "Internal Server Error"

  datatype ErrorResponse = ErrorResponse(statusCode: int, message: string, error: string, details: Option<string>)

  /** The label the filter forces for a status, when it forces one. */
  function ForcedLabel(status: int): (forced: Option<string>)
    ensures forced.Some? <==> status in {UNAUTHORIZED, FORBIDDEN, BAD_REQUEST, NOT_FOUND}
  {
    if status == UNAUTHORIZED then Some("Unauthorized")
    else if status == FORBIDDEN then Some("Forbidden")
    else if status == BAD_REQUEST then Some("Bad Request")
    else if status == NOT_FOUND then Some("Not Found")
    else None
  }

  /** `field || fallback` for an optional string field: an absent or empty field gives the fallback. */
  function OrElse(field: Option<string>, fallback: string): string {
    if field.Some? && field.value != "" then field.value else fallback
  }

  /** The status sent and the body written for an exception. */
  method Catch(exception: Exception) returns (status: int, body: ErrorResponse)
    ensures body.statusCode == status
    ensures exception.OtherError? ==> body == ErrorResponse(INTERNAL_SERVER_ERROR, DEFAULT_MESSAGE, DEFAULT_ERROR, None)
    ensures exception.HttpException? ==> status == exception.status
    ensures exception.HttpException? && exception.response.Text? ==> body.message == exception.response.text
    ensures exception.HttpException? && exception.response.Fields? ==>
      && body.message == OrElse(exception.response.message, DEFAULT_MESSAGE)
      && (ForcedLabel(status).None? ==> body.error == OrElse(exception.response.error, DEFAULT_ERROR))
    ensures exception.HttpException? && exception.response.Text? && ForcedLabel(status).None? ==> body.error == DEFAULT_ERROR
    ensures exception.HttpException? && ForcedLabel(status).Some? ==> body.error == ForcedLabel(status).value
    ensures body.details.Some? <==>
      exception.HttpException? && exception.response.Fields? && OrElse(exception.response.details, "") != ""
    ensures body.details.Some? ==> body.details == exception.response.details
  {
    status := INTERNAL_SERVER_ERROR;
    var errorMessage := DEFAULT_MESSAGE;
    var errorType := DEFAULT_ERROR;
    var errorDetails: Option<string> := None;

    if exception.HttpException? {
      status := exception.status;
      match exception.response {
        case Fields(message, error, details) =>
          errorMessage := OrElse(message, errorMessage);
          errorType := OrElse(error, errorType);
          errorDetails := details;
        case Text(text) =>
          errorMessage := text;
      }

      if status == UNAUTHORIZED {
        errorType := "Unauthorized";
      } else if status == FORBIDDEN {
        errorType := "Forbidden";
      } else if status == BAD_REQUEST {
        errorType := "Bad Request";
      } else if status == NOT_FOUND {
        errorType := "Not Found";
      }
    }

    body := ErrorResponse(status, errorMessage, errorType,
                          if errorDetails.Some? && errorDetails.value != "" then errorDetails else None);
  }
}
