# FopClient conversion client, modelled in Dafny

This project models the C# conversion client `Flexerant.FopClient.Client`. The client sends an XML
document to a remote FOP conversion service and copies the converted document back. One call of
`ConvertAsync(input, output)` does the following:

1. It rewinds the input stream.
2. It checks with an `XmlReader` that the input is well-formed XML. If not, it throws
   `XmlException("The provided stream is not valid XML.")` before any network activity.
3. It signs the input bytes with HMAC-SHA1. The key is the UTF-8 bytes of the configured secret; a
   null secret counts as "". The digest is rendered as lowercase hex (`"x2"` per byte).
4. It POSTs the bytes to `{endpoint}?sig={signature}` through an `HttpClient` over the injected handler.
5. On a non-success status it throws `ResponseException` with the response body as text.
   Otherwise it copies the response body into the output stream, at the output's current position.

Files and modules:

- `base.dfy` (`Base`): the `byte` type and `Option`, which stands for a .NET reference that may be null.
- `hex.dfy` (`Hex`): the `"x2"` rendering `ToHex`, its decoder `FromHex` and the round-trip lemmas.
- `libraries.dfy` (`Libraries`): the library calls the client makes, as functions left
  uninterpreted. These are UTF-8 encoding, HMAC-SHA1, the XML reader's verdict and node lengths,
  validation events, response text decoding and `HttpClient`'s check that a URL is an absolute URI. `Digest` is the 20-byte result type of HMAC-SHA1
  (FIPS 180-4 digest size; RFC 2104 for HMAC).
- `streams.dfy` (`Streams`): the seekable input stream (`data`, `pos`) and the seekable output
  stream (`data`, `pos`). A write overwrites at the position and extends past the end, as a
  `MemoryStream` write does.
- `xml.dfy` (`Xml`): the `XmlReader` pull loop as the client drives it.
- `transport.dfy` (`Transport`): the `HttpClient` over an injected handler. It keeps a log of the
  requests that reach the handler and a disposed flag. A disposed client, or a URL that is not an
  absolute URI, faults before the handler is reached.
- `client.dfy` (`FopClient`): the `Client` class, the byte-array signature, and `Conversion`, the
  pure specification of one `ConvertAsync` call. It also holds the lemmas about `Conversion`.

`Client.ConvertAsync` is proved against `Conversion`. It returns the same outcome and appends exactly
`Conversion`'s requests to the transport log. It also writes exactly `Conversion`'s bytes at the
output's position.
The lemmas then state the pipeline's promises about `Conversion`. The methods that change the
streams are proved for any library behaviour, because the library functions are parameters.

Notes on the code:

- The validation event handler (Client.cs lines 77-80) has no effect on the result. Any `false` it
  sets is overwritten by `isXml = true` at line 91, and the catch-all sets `false` anyway. The
  model keeps the handler's assignment in the loop of `Client.IsXml`. The method's postcondition
  does not depend on validation events, which shows the handler is dead.
- `CreateSignature(Stream, …)` hashes from the stream's current position, not from 0. `IsXml`
  also reads from the current position. Both rewind to 0 when they finish. `ConvertAsync` rewinds
  before calling them, so both see the whole input. The same holds for the body that
  `StreamContent` reads.
- The endpoint may be null. String interpolation renders null as "", so the URL is then just
  `?sig=…`. That is not an absolute URI, so `HttpClient` refuses it before any handler runs.

## Model

| member | source | states |
|---|---|---|
| `Hex.DigitValue` | client/FopClient/FopClient/Client.cs:117 | a character has a nibble value exactly when it is a lowercase hex digit, and that nibble renders back to the same character |
| `Hex.ByteToHex` | client/FopClient/FopClient/Client.cs:117 | `"x2"` gives two lowercase hex digits; the first decodes to the high nibble, the second to the low nibble |
| `Hex.ToHex` | client/FopClient/FopClient/Client.cs:117 | the rendering has 2 characters per byte, all lowercase hex; characters 2i and 2i+1 are the rendering of byte i, so output order is byte order |
| `Hex.FromHex` | client/FopClient/FopClient/Client.cs:131 | a successful decode yields half as many bytes as the string has characters |
| `Hex.FromHexToHex` | client/FopClient/FopClient/Client.cs:131 | decoding the rendering of any byte sequence gives back that sequence |
| `Hex.ToHexFromHex` | client/FopClient/FopClient/Client.cs:131 | a string that decodes to some bytes is exactly the rendering of those bytes |
| `Hex.HexCodec` | client/FopClient/FopClient/Client.cs:117 | the decoder accepts a string as a byte sequence if and only if the string is that sequence's rendering |
| `FopClient.Signature` | client/FopClient/FopClient/Client.cs:121-133 | the byte-array overload: 40 lowercase hex characters that decode to HMAC-SHA1 of the body, keyed with the UTF-8 bytes of the secret (null read as "") |
| `FopClient.NullSecretSignsAsEmpty` | client/FopClient/FopClient/Client.cs:106-125 | a null secret gives the same key, and so the same signature, as the empty secret |
| `FopClient.Client.CreateSignature` | client/FopClient/FopClient/Client.cs:106-119 | the stream overload returns the byte-array overload's signature of the bytes from the current position to the end, and leaves the position at 0 |
| `FopClient.Client.IsXml` | client/FopClient/FopClient/Client.cs:61-104 | always returns a boolean, never an exception; the boolean is the library's well-formedness verdict on the bytes from the current position; the position is 0 afterwards, whether the parse succeeded or not; validation events do not affect the result |
| `Xml.XmlReader.Read` | client/FopClient/FopClient/Client.cs:86-89 | each read that returns true consumes at least one unread byte; at the end of the input it returns false or throws according to the verdict on everything read; no byte is lost or read twice |
| `Transport.HttpTransport.Post` | client/FopClient/FopClient/Client.cs:46-50 | a disposed client faults with Disposed, and a URL that is not absolute faults with InvalidRequestUri; in both cases nothing is logged and the body is not read. Otherwise exactly one request reaches the handler. Its body is the stream's bytes from its position to the end, and the handler's reply is returned unchanged |
| `Transport.IsSuccessStatusCode` | client/FopClient/FopClient/Client.cs:52 | a status counts as success exactly when its hundreds digit is 2 (200-299) |
| `Streams.InputStream.SetPosition` | client/FopClient/FopClient/Client.cs:39 | setting `Position` moves the stream to exactly that position |
| `Streams.InputStream.ReadToEnd` | client/FopClient/FopClient/Client.cs:114 | `ComputeHash(stream)` reads exactly the bytes from the position to the end and leaves nothing unread |
| `Streams.OutputStream.Write` | client/FopClient/FopClient/Client.cs:56 | the copied bytes are written at the output's position (`Overwritten`), which then advances by their number |
| `Streams.OverwrittenLayout` | client/FopClient/FopClient/Client.cs:56 | after a write the bytes sit at the old position, every other byte is the old one (or zero in a gap), and the length is the larger of the old end and the write's end |
| `Streams.OverwrittenAtEnd` | client/FopClient/FopClient/Client.cs:56 | writing at the end of the stream, for example into a fresh stream, appends |
| `FopClient.Key` | client/FopClient/FopClient/Client.cs:108-110 | the key is the UTF-8 bytes of the secret, or of "" when the secret is null |
| `FopClient.RequestUrl` | client/FopClient/FopClient/Client.cs:44 | the URL is exactly the endpoint (null as ""), then "?sig=", then the signature; nothing is escaped or merged |
| `FopClient.Conversion` | client/FopClient/FopClient/Client.cs:37-58 | one conversion sends at most one request; any request sent has the whole input as its body; nothing is written unless the conversion succeeds |
| `FopClient.Client.constructor` | client/FopClient/FopClient/Client.cs:22-35 | endpoint and secret are fixed at construction; a new HttpClient wraps the given handler, with an empty request log and not disposed |
| `FopClient.Client.ConvertAsync` | client/FopClient/FopClient/Client.cs:37-58 | the outcome is exactly that of `Conversion` on the input's whole contents, and so are the requests added to the transport log and the bytes written at the output's position; the input's contents are unchanged, and the input is left at 0 when nothing was sent |
| `FopClient.Client.Dispose` | client/FopClient/FopClient/Client.cs:135-138 | disposing marks the transport disposed, so later posts fault |
| `FopClient.NotXmlFailsBeforeSending` | client/FopClient/FopClient/Client.cs:39-41 | input that is not XML fails with the invalid-input error and its fixed message; no request is sent and nothing is written |
| `FopClient.InvalidInputIffNotXml` | client/FopClient/FopClient/Client.cs:39-41 | the invalid-input error arises if and only if the input is not XML |
| `FopClient.SendsOnceWhenValid` | client/FopClient/FopClient/Client.cs:43-50 | exactly one request reaches the handler when the input is XML, the client is not disposed and the URL is absolute, otherwise none; its URL is exactly endpoint ++ "?sig=" ++ signature and its body is the whole input |
| `FopClient.SignatureCoversSentBody` | client/FopClient/FopClient/Client.cs:39-50 | every request sent has the input as its body; its URL is the endpoint, then "?sig=", then 40 hex digits that decode to HMAC-SHA1 of that same body |
| `FopClient.StatusDecides` | client/FopClient/FopClient/Client.cs:50-56 | once the request is answered, a success status gives success with the response body written; any other status gives the remote-rejection error with the body's text, and nothing is written |
| `FopClient.TransportFaultPropagates` | client/FopClient/FopClient/Client.cs:50 | a transport fault is reported unchanged and nothing is written |
| `FopClient.OutputOnlyOnSuccess` | client/FopClient/FopClient/Client.cs:52-56 | the output is written only on success, and then with the body of the success response to the single request sent |
| `FopClient.SixteenByteStub` | client/FopClient/Tests/ClientTests.cs:42-64 | with a handler that always answers 200 with a 16-byte body, valid input sent to an absolute URL leaves a fresh output stream holding exactly that body, 16 bytes |

## Left out

- Unmodelled libraries: XML parsing, HMAC-SHA1, SHA-1, UTF-8 encoding and HTTP response text
  decoding. They are uninterpreted functions; the only fact assumed about them is the 20-byte
  digest length, which the `Digest` type carries. Well-formedness itself, and the claim that an
  empty stream is not XML, belong to the XML library and are not modelled.
- The `XmlReaderSettings` (Client.cs lines 65-75) are folded into the library's verdict.
- The model's `XmlReader` always reads to the end of the input before it throws. A real reader may
  throw earlier. The difference is invisible to the client: the `finally` block rewinds the stream
  and the verdict is the same.
- The two-argument constructor (Client.cs line 20) builds an `HttpClient` over the real network. In
  the model every client is given its transport, the form the tests use.
- Async/await is modelled as sequential steps. Socket-level behaviour, content headers such as the
  octet-stream media type (line 48), and faults in the middle of copying the response are left
  out. A handler fault is one outcome that propagates unchanged.
- `FopClient.Client.ConvertAsync`: the input and output are distinct objects, so passing one stream
  as both arguments is not modelled. Only seekable input is modelled; `Position = 0` (line 39)
  would throw on a stream that cannot seek.
- `Transport.HttpTransport.Post`: the input's final position after a send is not promised.
  `StreamContent` (line 46) reads lazily, so a handler that ignores the content leaves the
  position at 0, while one that serializes it reads to the end.
- `Transport.HttpTransport.Post`: URI parsing is uninterpreted (`absoluteUri`). The model checks
  disposal before the URI. A malformed URL on a disposed client may really report the URI error
  first. Either way nothing reaches the handler.
- The `ResponseException` class is not part of this model; only the text it carries is.
- `Xml.XmlReader.Read`: `using` disposal of the reader and of the HMAC object is not modelled; it
  releases resources only.
- `FopClient.Signature`: says nothing about different inputs or secrets giving different
  signatures. That is a collision property of HMAC-SHA1, which is uninterpreted here.
- The server's signature gate (Function.java) is not part of this model. The server keys HMAC
  with the platform charset rather than UTF-8, so client/server agreement is not claimed.
