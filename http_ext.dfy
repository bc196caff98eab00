/** `HttpListenerExtensions`: answering an HTTP request with a WCF message,
    with an exception, or with an empty body. The HTTP response is an object
    whose properties the extensions set one after the other; it keeps the
    order of those updates in `trace`. */
module HttpExtensions {
  import opened Base
  import opened Metadata
  import MessageInfo
  import WriterExtensions
  import Wcf = WcfSerializer

  const StatusOK := 200
  const StatusBadRequest := 400
  const StatusNotImplemented := 501

  /** One update of a response, in the order it was made. */
  datatype ResponseEvent =
    | StatusSet(code: int)
    | ChunkedSet(chunked: bool)
    | ContentLengthSet(length: int)
    | HeadersCleared
    | Written(document: seq<WriterExtensions.Token>)
    | Closed

  /** `HttpListenerResponse`, as far as the extensions use it. */
  class Response {
    var statusCode: int
    var sendChunked: bool
    var contentLength64: int
    var headers: map<string, string>
    var output: seq<WriterExtensions.Token>
    var closed: bool
    var trace: seq<ResponseEvent>

    /** A fresh response: status 200, nothing written, open. */
    constructor (headers: map<string, string>)
      ensures statusCode == StatusOK && !sendChunked && contentLength64 == 0
      ensures this.headers == headers && output == [] && !closed && trace == []
    {
      statusCode := StatusOK;
      sendChunked := false;
      contentLength64 := 0;
      this.headers := headers;
      output := [];
      closed := false;
      trace := [];
    }

    method SetStatusCode(code: int)
      modifies this
      ensures statusCode == code && trace == old(trace) + [StatusSet(code)]
      ensures sendChunked == old(sendChunked) && contentLength64 == old(contentLength64)
      ensures headers == old(headers) && output == old(output) && closed == old(closed)
    {
      statusCode := code;
      trace := trace + [StatusSet(code)];
    }

    method SetSendChunked(chunked: bool)
      modifies this
      ensures sendChunked == chunked && trace == old(trace) + [ChunkedSet(chunked)]
      ensures statusCode == old(statusCode) && contentLength64 == old(contentLength64)
      ensures headers == old(headers) && output == old(output) && closed == old(closed)
    {
      sendChunked := chunked;
      trace := trace + [ChunkedSet(chunked)];
    }

    method SetContentLength64(length: int)
      modifies this
      ensures contentLength64 == length && trace == old(trace) + [ContentLengthSet(length)]
      ensures statusCode == old(statusCode) && sendChunked == old(sendChunked)
      ensures headers == old(headers) && output == old(output) && closed == old(closed)
    {
      contentLength64 := length;
      trace := trace + [ContentLengthSet(length)];
    }

    /** `Headers.Clear()`. */
    method ClearHeaders()
      modifies this
      ensures headers == map[] && trace == old(trace) + [HeadersCleared]
      ensures statusCode == old(statusCode) && sendChunked == old(sendChunked)
      ensures contentLength64 == old(contentLength64) && output == old(output) && closed == old(closed)
    {
      headers := map[];
      trace := trace + [HeadersCleared];
    }

    /** A document written to `OutputStream`. */
    method Write(document: seq<WriterExtensions.Token>)
      modifies this
      ensures output == old(output) + document && trace == old(trace) + [Written(document)]
      ensures statusCode == old(statusCode) && sendChunked == old(sendChunked)
      ensures contentLength64 == old(contentLength64) && headers == old(headers) && closed == old(closed)
    {
      output := output + document;
      trace := trace + [Written(document)];
    }

    method Close()
      modifies this
      ensures closed && trace == old(trace) + [Closed]
      ensures statusCode == old(statusCode) && sendChunked == old(sendChunked)
      ensures contentLength64 == old(contentLength64) && headers == old(headers) && output == old(output)
    {
      closed := true;
      trace := trace + [Closed];
    }
  }

  /** The response is closed by the last update and by no other, and its
      status has been set before. */
  predicate ClosedLast(trace: seq<ResponseEvent>) {
    |trace| > 0 && trace[|trace| - 1] == Closed &&
    (forall i :: 0 <= i < |trace| - 1 ==> !trace[i].Closed?) &&
    exists i :: 0 <= i < |trace| - 1 && trace[i].StatusSet?
  }

  /** `ResolveStatusCode`: 501 for a `NotImplementedException`, 400 for every
      other exception. */
  function ResolveStatusCode(exception: Exception): (code: int)
    ensures code == StatusNotImplemented <==> exception.NotImplemented?
    ensures code == StatusBadRequest <==> !exception.NotImplemented?
  {
    match exception
    case NotImplemented(_) => StatusNotImplemented
    case _ => StatusBadRequest
  }

  /** The updates that `RespondWithWcfMessage` makes: status 200, the message
      document, then closing. */
  function WcfMessageTrace(responseMessage: Value, info: MessageInfo.WcfMessageInfo): (r: seq<ResponseEvent>)
    ensures ClosedLast(r) && r[0] == StatusSet(StatusOK)
  {
    [StatusSet(StatusOK), Written(Wcf.MessageDocument("s", responseMessage, info)), Closed]
  }

  /** `RespondWithWcfMessage`: a null message uses the overload without a
      value; both write the message document of a fresh serializer. */
  method RespondWithWcfMessage(response: Response, responseMessage: Value, info: MessageInfo.WcfMessageInfo)
    modifies response
    ensures response.trace == old(response.trace) + WcfMessageTrace(responseMessage, info)
    ensures response.statusCode == StatusOK && response.closed
    ensures response.output == old(response.output) + Wcf.MessageDocument("s", responseMessage, info)
  {
    response.SetStatusCode(StatusOK);
    var serializer := new Wcf.WcfSerializer();
    var document;
    if responseMessage.Null? {
      document := serializer.Serialize(info);
    } else {
      document := serializer.SerializeValue(responseMessage, info);
    }
    response.Write(document);
    response.Close();
  }

  /** The updates that `RespondWithException` makes: the resolved status, the
      exception document, then closing. */
  function ExceptionTrace(exception: Exception): (r: seq<ResponseEvent>)
    ensures ClosedLast(r) && r[0] == StatusSet(ResolveStatusCode(exception))
  {
    [StatusSet(ResolveStatusCode(exception)), Written(Wcf.ExceptionDocument("s")), Closed]
  }

  /** `RespondWithException`. */
  method RespondWithException(response: Response, exception: Exception)
    modifies response
    ensures response.trace == old(response.trace) + ExceptionTrace(exception)
    ensures response.statusCode == ResolveStatusCode(exception) && response.closed
    ensures response.output == old(response.output) + Wcf.ExceptionDocument("s")
  {
    response.SetStatusCode(ResolveStatusCode(exception));
    var serializer := new Wcf.WcfSerializer();
    var document := serializer.SerializeException(exception);
    response.Write(document);
    response.Close();
  }

  /** The updates that `RespondWithEmpty` makes. */
  function EmptyTrace(statusCode: int): (r: seq<ResponseEvent>)
    ensures ClosedLast(r) && StatusSet(statusCode) in r && ContentLengthSet(0) in r && ChunkedSet(false) in r
  {
    var t := [ChunkedSet(false), StatusSet(statusCode), ContentLengthSet(0), Closed];
    assert t[1].StatusSet?;
    t
  }

  /** `RespondWithEmpty(response, statusCode = OK)`. */
  method RespondWithEmpty(response: Response, statusCode: int := StatusOK)
    modifies response
    ensures response.trace == old(response.trace) + EmptyTrace(statusCode)
    ensures !response.sendChunked && response.statusCode == statusCode && response.contentLength64 == 0
    ensures response.closed && response.output == old(response.output) && response.headers == old(response.headers)
  {
    response.SetSendChunked(false);
    response.SetStatusCode(statusCode);
    response.SetContentLength64(0);
    response.Close();
  }
}
