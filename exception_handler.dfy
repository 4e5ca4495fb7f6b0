/** The outermost error boundary: a custom exception becomes its own status
    and message, any other exception a generic 500. */
module ExceptionHandling {
  import opened Common
  import opened Http

  const JsonContentType := "application/json"
  const UnexpectedErrorMessage := "An unexpected error occurred."

  /** How the next stage of the pipeline ended. */
  datatype NextOutcome = Completed | Threw(error: Exception)

  /** The status and message the two catch clauses choose. */
  function ErrorStatusAndMessage(e: Exception): (r: (Int32, string))
    ensures e.CustomException? ==> r.0 == e.statusCode && r.1 == e.message
    ensures !e.CustomException? ==> r.0 == 500 && r.1 == UnexpectedErrorMessage
  {
    match e
    case CustomException(code, message) => (code, message)
    case _ => (500, UnexpectedErrorMessage)
  }

  /** The message of an exception other than a custom one never reaches the
      client: all such exceptions are answered alike. */
  lemma UnexpectedErrorsLookAlike(e1: Exception, e2: Exception)
    requires !e1.CustomException? && !e2.CustomException?
    ensures ErrorStatusAndMessage(e1) == ErrorStatusAndMessage(e2)
  {
  }

  /** Sets the JSON content type and the status, then writes the error body. */
  method HandleExceptionAsync(response: HttpResponse, statusCode: Int32, message: string)
    modifies response
    ensures response.contentType == Some(JsonContentType)
    ensures response.statusCode == statusCode
    ensures response.body == old(response.body) + [ErrorJson(statusCode, message)]
  {
    response.contentType := Some(JsonContentType);
    response.statusCode := statusCode;
    response.WriteAsync(ErrorJson(statusCode, message));
  }

  /** Runs after the next stage, whose writes `response` already holds, has
      ended as `next` says. */
  method Invoke(response: HttpResponse, next: NextOutcome)
    modifies response
    ensures next.Completed? ==> unchanged(response)
    ensures next.Threw? ==>
              var (statusCode, message) := ErrorStatusAndMessage(next.error);
              && response.contentType == Some(JsonContentType)
              && response.statusCode == statusCode
              && response.body == old(response.body) + [ErrorJson(statusCode, message)]
  {
    match next
    case Completed =>
    case Threw(e) =>
      var (statusCode, message) := ErrorStatusAndMessage(e);
      HandleExceptionAsync(response, statusCode, message);
  }
}
