/** The result record of every client operation (src/Common/ServerResponse.java). */
module ServerResponses {

  import opened ErrorTypes

  datatype ServerResponse = ServerResponse(responseText: string, error: ErrorType)

  /** `new ServerResponse(ErrorType error)`. */
  function ErrorResponse(error: ErrorType): ServerResponse
  {
    ServerResponse("", error)
  }

  /** `new ServerResponse(String responseText)`. */
  function TextResponse(responseText: string): ServerResponse
  {
    ServerResponse(responseText, NoError)
  }

  /**
   * The error constructor keeps its error and leaves the text empty; the text
   * constructor keeps its text and reports success. The two families of
   * responses meet in exactly one value: the error constructor given NONE and
   * the text constructor given the empty text produce the same response.
   */
  lemma ConstructorFields(e: ErrorType, t: string)
    ensures ErrorResponse(e).error == e && ErrorResponse(e).responseText == ""
    ensures TextResponse(t).responseText == t && TextResponse(t).error == NoError
    ensures ErrorResponse(e) == TextResponse(t) <==> e == NoError && t == ""
  {
  }
}
