/**
 * The pull parser `XmlReader` as the client drives it: each `Read` consumes
 * the bytes of one node from the stream; at the end of the input it either
 * reports the end of the document or throws, according to the library's
 * verdict on everything it has read.
 */
module Xml {
  import opened Base
  import opened Libraries
  import opened Streams

  /** What one call of `XmlReader.Read()` does. */
  datatype ReadStep =
    | NodeRead(validationError: bool)  // returned true; possibly raised a validation event
    | EndOfDocument                    // returned false
    | Malformed                        // threw an XmlException

  /** The number of bytes the next node takes: at least one, at most what is left. */
  function NodeSpan(wanted: nat, available: nat): (n: nat)
    requires available > 0
    ensures 1 <= n <= available
  {
    if wanted == 0 then 1 else if wanted > available then available else wanted
  }

  class XmlReader {
    const lib: Runtime
    const input: InputStream
    /** Everything the reader has taken from the stream so far. */
    var parsed: seq<byte>

    /** `XmlReader.Create(stream, settings)`: reads from the stream's current position. */
    constructor (lib: Runtime, input: InputStream)
      ensures this.lib == lib && this.input == input && parsed == []
    {
      this.lib := lib;
      this.input := input;
      parsed := [];
    }

    method Read() returns (step: ReadStep)
      modifies this`parsed, input`pos
      ensures parsed + input.Remaining() == old(parsed + input.Remaining())
      ensures step.NodeRead? <==> old(input.Remaining()) != []
      ensures step.NodeRead? ==> |input.Remaining()| < |old(input.Remaining())|
      ensures !step.NodeRead? ==> parsed == old(parsed) && input.pos == old(input.pos)
      ensures !step.NodeRead? ==> (step.EndOfDocument? <==> lib.wellFormed(parsed))
    {
      var rest := input.Remaining();
      if rest == [] {
        step := if lib.wellFormed(parsed) then EndOfDocument else Malformed;
      } else {
        var n := NodeSpan(lib.nodeLength(rest), |rest|);
        var chunk := input.Read(n);
        assert rest == chunk + rest[n..];
        parsed := parsed + chunk;
        step := NodeRead(lib.validationError(chunk));
      }
    }
  }
}
