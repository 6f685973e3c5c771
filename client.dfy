/**
 * The conversion client: validate the input as XML, sign its bytes with
 * HMAC-SHA1, POST them to the endpoint with the signature in the query, and
 * copy a successful response into the output stream.
 */
module FopClient {
  import opened Base
  import opened Hex
  import opened Libraries
  import opened Streams
  import opened Xml
  import opened Transport

  /** The message of the XmlException thrown for input that is not XML. */
  const NotXmlMessage: string := "The provided stream is not valid XML."

  /** The three ways a conversion fails. */
  datatype ConvertError =
    | InvalidInput(message: string)  // XmlException: the input is not XML; nothing was sent
    | RemoteRejection(detail: string) // ResponseException: non-success status, with the body as text
    | TransportFailure(fault: Fault)  // whatever the HttpClient threw, unchanged

  datatype Completion = Converted | Failed(error: ConvertError)

  /** What one conversion does: its outcome, the requests it sends, the bytes it writes. */
  datatype Exchange = Exchange(outcome: Completion, sent: seq<Request>, written: seq<byte>)

  /** The HMAC key: the UTF-8 bytes of the secret, a null secret counting as "". */
  function Key(lib: Runtime, secret: Option<string>): (key: seq<byte>)
    ensures secret.None? ==> key == lib.utf8("")
    ensures secret.Some? ==> key == lib.utf8(secret.value)
  {
    lib.utf8(secret.GetOr(""))
  }

  /**
   * `CreateSignature(byte[] body, string secret)`: the lowercase hex
   * rendering of HMAC-SHA1 of the body under the secret's key.
   */
  function Signature(lib: Runtime, body: seq<byte>, secret: Option<string>): (sig: string)
    ensures |sig| == 2 * DigestSize
    ensures forall i :: 0 <= i < |sig| ==> IsLowerHexDigit(sig[i])
    ensures FromHex(sig) == Some(lib.hmacSha1(Key(lib, secret), body))
  {
    var digest := lib.hmacSha1(Key(lib, secret), body);
    FromHexToHex(digest);
    ToHex(digest)
  }

  /**
   * `$"{endpoint}?sig={sig}"`: plain concatenation, nothing escaped or merged;
   * a null endpoint interpolates as "".
   */
  function RequestUrl(endpoint: Option<string>, sig: string): (url: string)
    ensures var e := endpoint.GetOr("");
      |url| == |e| + 5 + |sig| && url[..|e|] == e && url[|e|..|e| + 5] == "?sig=" && url[|e| + 5..] == sig
  {
    endpoint.GetOr("") + "?sig=" + sig
  }

  /** What `ConvertAsync` does to a stream holding `input`, as a function of its inputs. */
  function Conversion(lib: Runtime, endpoint: Option<string>, secret: Option<string>,
                      http: Http, input: seq<byte>): (x: Exchange)
    ensures |x.sent| <= 1
    ensures forall r :: r in x.sent ==> r.body == input
    ensures x.outcome != Converted ==> x.written == []
  {
    if !lib.wellFormed(input) then
      Exchange(Failed(InvalidInput(NotXmlMessage)), [], [])
    else
      var url := RequestUrl(endpoint, Signature(lib, input, secret));
      if http.disposed then
        Exchange(Failed(TransportFailure(Disposed)), [], [])
      else if !http.absoluteUri(url) then
        Exchange(Failed(TransportFailure(InvalidRequestUri)), [], [])
      else
        var request := Request(url, input);
        match http.handler(request)
        case Failure(fault) =>
          Exchange(Failed(TransportFailure(fault)), [request], [])
        case Response(status, content) =>
          if IsSuccessStatusCode(status) then Exchange(Converted, [request], content)
          else Exchange(Failed(RemoteRejection(lib.decodeText(content))), [request], [])
  }

  class Client {
    const endpoint: Option<string>
    const secret: Option<string>
    const transport: HttpTransport
    /** The library implementations the client runs against. */
    const lib: Runtime

    /**
     * `Client(endpointUrl, secret, httpMessageHandler)`: the configuration is
     * fixed for the client's lifetime, and a new HttpClient wraps the handler.
     */
    constructor (endpoint: Option<string>, secret: Option<string>, handler: Request -> Reply, lib: Runtime)
      ensures this.endpoint == endpoint && this.secret == secret && this.lib == lib
      ensures fresh(transport) && transport.State() == Http(handler, lib.absoluteUri, false)
      ensures transport.requests == []
    {
      this.endpoint := endpoint;
      this.secret := secret;
      this.lib := lib;
      transport := new HttpTransport(handler, lib.absoluteUri);
    }

    /**
     * Reads the stream to its end with an XmlReader. Whether the reader
     * finishes or throws, the answer is a boolean and the stream is rewound.
     */
    method IsXml(stream: InputStream) returns (isXml: bool)
      modifies stream`pos
      ensures isXml == lib.wellFormed(old(stream.Remaining()))
      ensures stream.pos == 0
    {
      isXml := false;
      var reader := new XmlReader(lib, stream);
      var step := reader.Read();
      while step.NodeRead?
        invariant reader.parsed + stream.Remaining() == old(stream.Remaining())
        invariant !step.NodeRead? ==> stream.Remaining() == []
        invariant !step.NodeRead? ==> (step.EndOfDocument? <==> lib.wellFormed(reader.parsed))
        decreases |stream.Remaining()| + (if step.NodeRead? then 1 else 0)
      {
        // the validation event handler; its effect is overwritten below
        if step.validationError {
          isXml := false;
        }
        step := reader.Read();
      }
      assert stream.Remaining() == [];
      assert reader.parsed == old(stream.Remaining());
      if step.EndOfDocument? {
        isXml := true;   // the loop ran to the end without an exception
      } else {
        isXml := false;  // the catch-all
      }
      stream.SetPosition(0);  // the finally block
    }

    /**
     * `CreateSignature(Stream stream, string secret)`: hashes from the
     * current position to the end, then rewinds the stream.
     */
    method CreateSignature(stream: InputStream, secret: Option<string>) returns (sig: string)
      modifies stream`pos
      ensures sig == Signature(lib, old(stream.Remaining()), secret)
      ensures stream.pos == 0
    {
      var key := lib.utf8(secret.GetOr(""));
      var message := stream.ReadToEnd();
      var digest := lib.hmacSha1(key, message);
      stream.SetPosition(0);
      sig := ToHex(digest);
    }

    method ConvertAsync(input: InputStream, output: OutputStream) returns (outcome: Completion)
      modifies input`pos, output, transport`requests
      ensures input.data == old(input.data)
      ensures var x := Conversion(lib, endpoint, secret, transport.State(), old(input.data));
        && outcome == x.outcome
        && transport.requests == old(transport.requests) + x.sent
        && output.data == Overwritten(old(output.data), old(output.pos), x.written)
        && output.pos == old(output.pos) + |x.written|
        && (x.sent == [] ==> input.pos == 0)
    {
      ghost var x := Conversion(lib, endpoint, secret, transport.State(), input.data);
      input.SetPosition(0);
      var ok := IsXml(input);
      if !ok {
        assert x == Exchange(Failed(InvalidInput(NotXmlMessage)), [], []);
        return Failed(InvalidInput(NotXmlMessage));
      }
      var sig := CreateSignature(input, secret);
      var url := RequestUrl(endpoint, sig);
      assert sig == Signature(lib, input.data, secret);
      var reply := transport.Post(url, input);
      if transport.disposed || !transport.absoluteUri(url) {
        assert x.sent == [] && x.written == [];
      } else {
        assert x.sent == [Request(url, input.data)];
      }
      match reply
      case Failure(fault) =>
        assert x.written == [];
        outcome := Failed(TransportFailure(fault));
      case Response(status, content) =>
        if !IsSuccessStatusCode(status) {
          assert x.written == [];
          outcome := Failed(RemoteRejection(lib.decodeText(content)));
        } else {
          assert x.written == content;
          output.Write(content);
          outcome := Converted;
        }
    }

    /** `Dispose()`: releases the HttpClient; later conversions fail in the transport. */
    method Dispose()
      modifies transport`disposed
      ensures transport.disposed
    {
      transport.Dispose();
    }
  }

  // Properties of a conversion

  /** A null secret keys the HMAC exactly as the empty secret does. */
  lemma NullSecretSignsAsEmpty(lib: Runtime, body: seq<byte>)
    ensures Key(lib, None) == Key(lib, Some(""))
    ensures Signature(lib, body, None) == Signature(lib, body, Some(""))
  {
  }

  /** Input that is not XML fails with the invalid-input error; nothing is sent or written. */
  lemma NotXmlFailsBeforeSending(lib: Runtime, endpoint: Option<string>, secret: Option<string>,
                                 http: Http, input: seq<byte>)
    requires !lib.wellFormed(input)
    ensures Conversion(lib, endpoint, secret, http, input)
         == Exchange(Failed(InvalidInput(NotXmlMessage)), [], [])
  {
  }

  /** The invalid-input error arises for input that is not XML and for nothing else. */
  lemma InvalidInputIffNotXml(lib: Runtime, endpoint: Option<string>, secret: Option<string>,
                              http: Http, input: seq<byte>)
    ensures var x := Conversion(lib, endpoint, secret, http, input);
      x.outcome.Failed? && x.outcome.error.InvalidInput? <==> !lib.wellFormed(input)
  {
  }

  /**
   * Exactly one request reaches the handler when the input is XML, the
   * client is not disposed and the URL is absolute, and none otherwise; its
   * body is the whole input and its URL is the endpoint followed by
   * "?sig=" and the input's signature.
   */
  lemma SendsOnceWhenValid(lib: Runtime, endpoint: Option<string>, secret: Option<string>,
                           http: Http, input: seq<byte>)
    ensures var url := endpoint.GetOr("") + "?sig=" + Signature(lib, input, secret);
      Conversion(lib, endpoint, secret, http, input).sent
        == if lib.wellFormed(input) && !http.disposed && http.absoluteUri(url)
           then [Request(url, input)]
           else []
  {
  }

  /**
   * Every request sent carries, after the endpoint and "?sig=", a 40-digit
   * lowercase hex string that decodes to the HMAC-SHA1 of that same request's
   * body: the bytes signed are the bytes sent.
   */
  lemma SignatureCoversSentBody(lib: Runtime, endpoint: Option<string>, secret: Option<string>,
                                http: Http, input: seq<byte>, request: Request)
    requires request in Conversion(lib, endpoint, secret, http, input).sent
    ensures var e := endpoint.GetOr("");
      && request.body == input
      && |request.url| == |e| + 5 + 2 * DigestSize
      && request.url[..|e| + 5] == e + "?sig="
      && FromHex(request.url[|e| + 5..]) == Some(lib.hmacSha1(Key(lib, secret), request.body))
  {
    var e := endpoint.GetOr("");
    assert request.url == RequestUrl(endpoint, Signature(lib, input, secret));
    assert request.url[..|e| + 5] == request.url[..|e|] + request.url[|e|..|e| + 5];
  }

  /** Once the request is answered, the status alone decides between success and rejection. */
  lemma StatusDecides(lib: Runtime, endpoint: Option<string>, secret: Option<string>,
                      http: Http, input: seq<byte>, status: int, content: seq<byte>)
    requires lib.wellFormed(input) && !http.disposed
    requires var url := RequestUrl(endpoint, Signature(lib, input, secret));
      http.absoluteUri(url) && http.handler(Request(url, input)) == Response(status, content)
    ensures var x := Conversion(lib, endpoint, secret, http, input);
      && (IsSuccessStatusCode(status) ==> x.outcome == Converted && x.written == content)
      && (!IsSuccessStatusCode(status) ==> x.outcome == Failed(RemoteRejection(lib.decodeText(content))) && x.written == [])
  {
  }

  /** A fault in the transport is reported unchanged, with nothing written. */
  lemma TransportFaultPropagates(lib: Runtime, endpoint: Option<string>, secret: Option<string>,
                                 http: Http, input: seq<byte>, fault: Fault)
    requires lib.wellFormed(input) && !http.disposed
    requires var url := RequestUrl(endpoint, Signature(lib, input, secret));
      http.absoluteUri(url) && http.handler(Request(url, input)) == Failure(fault)
    ensures Conversion(lib, endpoint, secret, http, input).outcome == Failed(TransportFailure(fault))
    ensures Conversion(lib, endpoint, secret, http, input).written == []
  {
  }

  /**
   * The output is written only by a successful conversion, and then with
   * the body of a success response to the one request sent.
   */
  lemma OutputOnlyOnSuccess(lib: Runtime, endpoint: Option<string>, secret: Option<string>,
                            http: Http, input: seq<byte>)
    ensures var x := Conversion(lib, endpoint, secret, http, input);
      && (x.outcome != Converted ==> x.written == [])
      && (x.outcome == Converted ==>
            |x.sent| == 1 && http.handler(x.sent[0]).Response?
            && IsSuccessStatusCode(http.handler(x.sent[0]).status)
            && x.written == http.handler(x.sent[0]).content)
  {
  }

  /**
   * A handler that always answers 200 with a 16-byte body: valid input sent
   * to an absolute URL fills a fresh output stream with exactly that body.
   */
  lemma SixteenByteStub(lib: Runtime, endpoint: Option<string>, secret: Option<string>,
                        http: Http, input: seq<byte>, stub: seq<byte>)
    requires lib.wellFormed(input) && !http.disposed && |stub| == 16
    requires http.absoluteUri(RequestUrl(endpoint, Signature(lib, input, secret)))
    requires forall r :: http.handler(r) == Response(200, stub)
    ensures var written := Conversion(lib, endpoint, secret, http, input).written;
      Overwritten([], 0, written) == stub && |written| == 16
  {
    OverwrittenAtEnd([], stub);
  }
}
