/**
  The boundary between the gallery and the extraction function: what the
  gallery's `fetch('/api/extract-images?url=…')` call can come back with,
  and what `fetchImages` makes of it.
 */
module Api {
  import opened Results
  import opened Js
  import ExtractImages

  /** The reply body as `response.json()` reads it: an array of URLs, or anything else. */
  datatype Payload =
    | UrlArray(urls: seq<string>)
      /**
        A body that is not a JSON array of strings; `message` is the error
        reading or using it raises. For the extraction function's own error
        object (see `Transport`) it carries that object's `error` text instead;
        the gallery never reads such a body, because its status is not ok.
       */
    | NotUrlArray(message: string)

  /** What the request yields: no response at all, or a status with a body. */
  datatype ApiReply =
    | NetworkFailure(message: string)
    | HttpReply(status: nat, payload: Payload)

  /** `response.ok`: a status in the range 200 to 299. */
  predicate IsOk(status: nat) {
    200 <= status <= 299
  }

  const HttpErrorPrefix := "HTTP error! status: "

  /** The message `fetchImages` throws for a reply that is not ok. */
  function HttpErrorMessage(status: nat): string {
    HttpErrorPrefix + NatToString(status)
  }

  /**
    The outcome of the `try` block of `fetchImages`: the URL array of an ok
    reply, or the message of the error thrown on the way — the network
    failure, the "HTTP error! status: N" raised for a reply that is not ok
    (its body is never read), or the failure to read an ok reply's body as
    a URL array.
   */
  function ReplyData(reply: ApiReply): (r: Result<seq<string>>)
    ensures r.Ok? <==> reply.HttpReply? && IsOk(reply.status) && reply.payload.UrlArray?
    ensures r.Ok? ==> r.value == reply.payload.urls
    ensures reply.HttpReply? && !IsOk(reply.status) ==> r == Err(HttpErrorMessage(reply.status))
    ensures reply.NetworkFailure? ==> r == Err(reply.message)
    ensures reply.HttpReply? && IsOk(reply.status) && reply.payload.NotUrlArray? ==> r == Err(reply.payload.message)
  {
    match reply
    case NetworkFailure(message) => Err(message)
    case HttpReply(status, payload) =>
      if !IsOk(status) then Err(HttpErrorMessage(status))
      else
        match payload
        case UrlArray(urls) => Ok(urls)
        case NotUrlArray(message) => Err(message)
  }

  /** The status of a reply that is not ok can be read back from the error message. */
  lemma HttpErrorNamesStatus(status: nat)
    ensures var m := HttpErrorMessage(status);
      && HttpErrorPrefix <= m
      && (forall i :: |HttpErrorPrefix| <= i < |m| ==> IsDigit(m[i]))
      && DecimalValue(m[|HttpErrorPrefix|..]) == status
  {
    var m := HttpErrorMessage(status);
    assert m[|HttpErrorPrefix|..] == NatToString(status);
    NatToStringRoundTrip(status);
  }

  /**
    The reply the gallery receives from the extraction function's response:
    its status, with the URL list as the payload. An error object is not a
    URL array; its body is never read, since the function sends it only with
    a status that is not ok.
   */
  function Transport(resp: ExtractImages.Response): ApiReply {
    HttpReply(resp.statusCode,
      match resp.body
      case UrlList(urls) => UrlArray(urls)
      case ErrorBody(error, _) => NotUrlArray(error))
  }
}
