/** The part of an HTTP response the middlewares write to. */
module Http {
  import opened Common

  /** One write to the response stream. */
  datatype BodyPart =
    | Text(text: string)
    | ErrorJson(statusCode: Int32, message: string)  // `{"StatusCode": ..., "Message": ...}`

  class HttpResponse {
    var statusCode: Int32
    var contentType: Option<string>
    var body: seq<BodyPart>

    /** A response nothing has been written to yet. */
    constructor ()
      ensures statusCode == 200 && contentType == None && body == []
    {
      statusCode, contentType, body := 200, None, [];
    }

    /** Appends to the body; status and headers stay as they are. */
    method WriteAsync(part: BodyPart)
      modifies this
      ensures body == old(body) + [part]
      ensures statusCode == old(statusCode) && contentType == old(contentType)
    {
      body := body + [part];
    }
  }
}
