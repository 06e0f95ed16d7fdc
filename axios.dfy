/**
 * `handleAxiosError` of `utils/axios.js`: turns an error raised by the HTTP
 * client into a description of what went wrong. The error is classified by
 * the first of its parts that is present: a response from the server, else
 * a request that got no answer, else a failure to set the request up.
 */
module AxiosErrors {
  import opened Results

  /** The server's answer carried by an error. */
  datatype Response = Response(status: int, statusText: string)

  /**
   * The parts of an HTTP client error the handler reads. `request` says
   * whether a request object is attached; `message` is absent when the error
   * has none.
   */
  datatype ClientError = ClientError(response: Option<Response>, request: bool, message: Option<string>)

  /** The description handed back. */
  datatype ErrorDetails = ErrorDetails(kind: string, responseCode: int, statusText: string, message: string)

  const ServerMessage := "The server responded with some error"
  const NetworkStatus := "No response received"
  const NetworkMessage := "The request was made, but no response was received from the server."
  const RequestStatus := "Request setting error"
  const RequestFallback := "Something went wrong in setting up the request."

  /** `error.message || fallback`: an absent or empty message is replaced. */
  function MessageOr(message: Option<string>, fallback: string): (r: string)
    ensures message.Some? && message.value != "" ==> r == message.value
    ensures message.None? || message.value == "" ==> r == fallback
  {
    match message
    case Some(m) => if m != "" then m else fallback
    case None => fallback
  }

  function HandleAxiosError(error: ClientError): (r: ErrorDetails)
    ensures r.kind in {"server-side", "network", "request"}
    ensures r.kind == "server-side" <==> error.response.Some?
    ensures r.kind == "network" <==> error.response.None? && error.request
    ensures r.kind == "server-side" ==>
      r.responseCode == error.response.value.status && r.statusText == error.response.value.statusText && r.message == ServerMessage
    ensures r.kind == "network" ==> r.responseCode == 503 && r.statusText == NetworkStatus && r.message == NetworkMessage
    ensures r.kind == "request" ==> r.responseCode == 400 && r.statusText == RequestStatus
    ensures r.message != ""
  {
    match error.response
    case Some(response) => ErrorDetails("server-side", response.status, response.statusText, ServerMessage)
    case None =>
      if error.request then ErrorDetails("network", 503, NetworkStatus, NetworkMessage)
      else ErrorDetails("request", 400, RequestStatus, MessageOr(error.message, RequestFallback))
  }

  /**
   * A set-up failure keeps the error's own message when it has a non-empty
   * one, and otherwise says that setting up the request went wrong.
   */
  lemma RequestMessage(error: ClientError)
    requires error.response.None? && !error.request
    ensures HandleAxiosError(error).message == (if error.message.Some? && error.message.value != "" then error.message.value else RequestFallback)
    ensures HandleAxiosError(error).responseCode == 400
  {
  }

  /** The code alone tells a network failure or a set-up failure from a server answer with another status. */
  lemma CodeIdentifiesKind(error: ClientError)
    requires error.response.Some? ==> error.response.value.status !in {400, 503}
    ensures HandleAxiosError(error).responseCode == 503 <==> HandleAxiosError(error).kind == "network"
    ensures HandleAxiosError(error).responseCode == 400 <==> HandleAxiosError(error).kind == "request"
  {
  }
}
