/**
 * The .NET library calls the client relies on, given as functions the model
 * does not interpret. A client is built over one `Runtime` value, so every
 * call inside one run of the client uses the same functions.
 */
module Libraries {
  import opened Base

  /** Digest size of SHA-1 in bytes (FIPS 180-4); an HMAC (RFC 2104) has the hash's size. */
  const DigestSize: nat := 20

  /** An HMAC-SHA1 result: always 20 bytes, although the client never checks it. */
  type Digest = d: seq<byte> | |d| == DigestSize witness seq(20, _ => 0 as byte)

  datatype Runtime = Runtime(
    /** `new UTF8Encoding().GetBytes(s)`. */
    utf8: string -> seq<byte>,
    /** `new HMACSHA1(key).ComputeHash(message)`. */
    hmacSha1: (seq<byte>, seq<byte>) -> Digest,
    /**
     * Whether `XmlReader`, with the client's settings, reads the bytes to the
     * end without throwing; the client's notion of "is XML".
     */
    wellFormed: seq<byte> -> bool,
    /** How many bytes of the unread input the reader's next node takes. */
    nodeLength: seq<byte> -> nat,
    /** Whether reading these bytes raises a validation event of severity Error. */
    validationError: seq<byte> -> bool,
    /** `HttpContent.ReadAsStringAsync()` on a response body. */
    decodeText: seq<byte> -> string,
    /** Whether `HttpClient` accepts the string as an absolute request URI. */
    absoluteUri: string -> bool
  )
}
