/**
 * The injected transport: the `HttpClient` over a message handler that the
 * client is constructed with. The handler is the substitutable part (a test
 * double or the network); the transport records every request that reaches
 * the handler.
 */
module Transport {
  import opened Base
  import opened Streams

  /** A POST with an `application/octet-stream` body. */
  datatype Request = Request(url: string, body: seq<byte>)

  /** Why no response arrived. */
  datatype Fault =
    | Disposed                // the HttpClient was used after Dispose
    | InvalidRequestUri       // the URL is not an absolute URI
    | Network(detail: string) // the handler threw

  datatype Reply = Response(status: int, content: seq<byte>) | Failure(fault: Fault)

  /** `HttpResponseMessage.IsSuccessStatusCode`: a status in the range 200-299. */
  predicate IsSuccessStatusCode(status: int): (ok: bool)
    ensures ok <==> status / 100 == 2
  {
    200 <= status <= 299
  }

  /** What a conversion can observe of the transport: its handler, its URI check, whether it is disposed. */
  datatype Http = Http(handler: Request -> Reply, absoluteUri: string -> bool, disposed: bool)

  class HttpTransport {
    const handler: Request -> Reply
    /** The URI check `HttpClient` makes before anything reaches the handler. */
    const absoluteUri: string -> bool
    /** The requests that have reached the handler, oldest first. */
    var requests: seq<Request>
    var disposed: bool

    constructor (handler: Request -> Reply, absoluteUri: string -> bool)
      ensures this.handler == handler && this.absoluteUri == absoluteUri
      ensures requests == [] && !disposed
    {
      this.handler := handler;
      this.absoluteUri := absoluteUri;
      requests := [];
      disposed := false;
    }

    function State(): Http
      reads this
    {
      Http(handler, absoluteUri, disposed)
    }

    /**
     * `PostAsync(url, new StreamContent(content))`: a disposed client, or a
     * URL that is not an absolute URI, throws before anything reaches the
     * handler; otherwise the handler gets the content stream's bytes from its
     * current position to its end. Whether and how far the handler reads the
     * stream is its own affair, so the stream's final position is not promised.
     */
    method Post(url: string, content: InputStream) returns (reply: Reply)
      modifies this`requests, content`pos
      ensures content.data == old(content.data)
      ensures disposed ==> reply == Failure(Disposed)
      ensures !disposed && !absoluteUri(url) ==> reply == Failure(InvalidRequestUri)
      ensures disposed || !absoluteUri(url) ==> requests == old(requests) && content.pos == old(content.pos)
      ensures !disposed && absoluteUri(url) ==>
        var request := Request(url, old(content.Remaining()));
        requests == old(requests) + [request] && reply == handler(request)
    {
      if disposed {
        return Failure(Disposed);
      }
      if !absoluteUri(url) {
        return Failure(InvalidRequestUri);
      }
      var body := content.ReadToEnd();
      var request := Request(url, body);
      requests := requests + [request];
      reply := handler(request);
    }

    /** `HttpClient.Dispose()`. */
    method Dispose()
      modifies this`disposed
      ensures disposed
    {
      disposed := true;
    }
  }
}
