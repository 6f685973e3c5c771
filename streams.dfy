/** The caller's seekable input stream and the output stream the client writes to. */
module Streams {
  import opened Base

  /**
   * A seekable stream over fixed contents. As for a .NET `MemoryStream`, the
   * position may be set past the end; reading there yields nothing.
   */
  class InputStream {
    var data: seq<byte>
    var pos: nat

    constructor (bytes: seq<byte>)
      ensures data == bytes && pos == 0
    {
      data := bytes;
      pos := 0;
    }

    /** The bytes a read from the current position would see. */
    function Remaining(): seq<byte>
      reads this
    {
      if pos <= |data| then data[pos..] else []
    }

    /** `stream.Position = p`. */
    method SetPosition(p: nat)
      modifies this`pos
      ensures pos == p
    {
      pos := p;
    }

    /** Reads the next `n` bytes, advancing the position past them. */
    method Read(n: nat) returns (chunk: seq<byte>)
      requires n <= |Remaining()|
      modifies this`pos
      ensures chunk == old(Remaining())[..n]
      ensures Remaining() == old(Remaining())[n..]
    {
      chunk := Remaining()[..n];
      pos := pos + n;
    }

    /** Reads everything from the current position to the end. */
    method ReadToEnd() returns (bytes: seq<byte>)
      modifies this`pos
      ensures bytes == old(Remaining())
      ensures Remaining() == []
      ensures pos == if old(pos) < |data| then |data| else old(pos)
    {
      bytes := Remaining();
      if pos < |data| {
        pos := |data|;
      }
    }
  }

  /**
   * The bytes of a stream holding `data` after `bytes` are written at
   * position `pos`, as a .NET `MemoryStream` does: they overwrite what is
   * there and extend the stream when they run past its end; a gap between
   * the end and `pos` reads as zeros. Writing nothing changes nothing.
   */
  function Overwritten(data: seq<byte>, pos: nat, bytes: seq<byte>): seq<byte> {
    if bytes == [] then data
    else
      var prefix := if pos <= |data| then data[..pos] else data + seq(pos - |data|, _ => 0 as byte);
      prefix + bytes + (if pos + |bytes| < |data| then data[pos + |bytes|..] else [])
  }

  /** The written bytes sit at `pos`; every other byte is the old one, or a zero in a gap. */
  lemma OverwrittenLayout(data: seq<byte>, pos: nat, bytes: seq<byte>)
    requires bytes != []
    ensures var r := Overwritten(data, pos, bytes);
      && |r| == (if pos + |bytes| < |data| then |data| else pos + |bytes|)
      && (forall i :: 0 <= i < |bytes| ==> r[pos + i] == bytes[i])
      && (forall i :: 0 <= i < |r| && !(pos <= i < pos + |bytes|) ==> r[i] == if i < |data| then data[i] else 0)
  {
  }

  /** Writing at the end of the stream appends. */
  lemma OverwrittenAtEnd(data: seq<byte>, bytes: seq<byte>)
    ensures Overwritten(data, |data|, bytes) == data + bytes
  {
  }

  /** A writable, seekable stream; a write goes to the current position. */
  class OutputStream {
    var data: seq<byte>
    var pos: nat

    constructor ()
      ensures data == [] && pos == 0
    {
      data := [];
      pos := 0;
    }

    method Write(bytes: seq<byte>)
      modifies this
      ensures data == Overwritten(old(data), old(pos), bytes)
      ensures pos == old(pos) + |bytes|
    {
      data := Overwritten(data, pos, bytes);
      pos := pos + |bytes|;
    }
  }
}
