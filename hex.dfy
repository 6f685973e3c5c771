/**
 * Lowercase hexadecimal rendering of a byte sequence, as produced by
 * `string.Concat(bytes.Select(b => b.ToString("x2")))`: two characters per
 * byte, high nibble first, lowercase letters, no separator, in byte order.
 * The decoder `FromHex` is the partner that the round-trip lemmas relate
 * it to.
 */
module Hex {
  import opened Base

  predicate IsLowerHexDigit(c: char) {
    '0' <= c <= '9' || 'a' <= c <= 'f'
  }

  /** The character that stands for the nibble `n`. */
  function Digit(n: nat): (c: char)
    requires n < 16
    ensures IsLowerHexDigit(c)
  {
    if n < 10 then (48 + n) as char else (87 + n) as char
  }

  /** The nibble a lowercase hex character stands for; None for any other character. */
  function DigitValue(c: char): (r: Option<nat>)
    ensures r.Some? <==> IsLowerHexDigit(c)
    ensures r.Some? ==> r.value < 16 && Digit(r.value) == c
  {
    if '0' <= c <= '9' then Some(c as int - 48)
    else if 'a' <= c <= 'f' then Some(c as int - 87)
    else None
  }

  /** `b.ToString("x2")`: exactly two lowercase digits, the high nibble first. */
  function ByteToHex(b: byte): (r: string)
    ensures |r| == 2 && IsLowerHexDigit(r[0]) && IsLowerHexDigit(r[1])
    ensures DigitValue(r[0]) == Some(b as int / 16)
    ensures DigitValue(r[1]) == Some(b as int % 16)
  {
    [Digit(b as int / 16), Digit(b as int % 16)]
  }

  /** The concatenation of the two-character rendering of every byte, in order. */
  function ToHex(bytes: seq<byte>): (r: string)
    ensures |r| == 2 * |bytes|
    ensures forall i :: 0 <= i < |r| ==> IsLowerHexDigit(r[i])
    ensures forall i :: 0 <= i < |bytes| ==> r[2 * i..2 * i + 2] == ByteToHex(bytes[i])
  {
    if bytes == [] then []
    else
      var head, tail := ByteToHex(bytes[0]), ToHex(bytes[1..]);
      assert forall i :: 1 <= i < |bytes| ==>
        (head + tail)[2 * i..2 * i + 2] == tail[2 * (i - 1)..2 * (i - 1) + 2];
      head + tail
  }

  /**
   * Decodes a string of lowercase hex digit pairs back into bytes; None when
   * the length is odd or a character is not a lowercase hex digit.
   */
  function FromHex(s: string): (r: Option<seq<byte>>)
    ensures r.Some? ==> 2 * |r.value| == |s|
  {
    if s == [] then Some([])
    else if |s| == 1 then None
    else
      match (DigitValue(s[0]), DigitValue(s[1]), FromHex(s[2..]))
      case (Some(hi), Some(lo), Some(rest)) => Some([(16 * hi + lo) as byte] + rest)
      case _ => None
  }

  /** Decoding a rendering recovers the bytes. */
  lemma {:induction false} FromHexToHex(bytes: seq<byte>)
    ensures FromHex(ToHex(bytes)) == Some(bytes)
  {
    if bytes != [] {
      var s := ToHex(bytes);
      assert s[..2] == ByteToHex(bytes[0]);
      assert s[2..] == ToHex(bytes[1..]);
      FromHexToHex(bytes[1..]);
      assert [bytes[0]] + bytes[1..] == bytes;
    }
  }

  /** A string that decodes to some bytes is exactly the rendering of those bytes. */
  lemma {:induction false} ToHexFromHex(s: string, bytes: seq<byte>)
    requires FromHex(s) == Some(bytes)
    ensures ToHex(bytes) == s
  {
    if s != [] {
      var hi, lo := DigitValue(s[0]).value, DigitValue(s[1]).value;
      var rest := FromHex(s[2..]).value;
      assert bytes == [(16 * hi + lo) as byte] + rest;
      ToHexFromHex(s[2..], rest);
      assert ToHex(bytes) == ByteToHex(bytes[0]) + ToHex(bytes[1..]);
      assert bytes[1..] == rest;
      assert ByteToHex(bytes[0]) == s[..2];
      assert s == s[..2] + s[2..];
    }
  }

  /** The decoder accepts a string exactly when it is the rendering of the bytes. */
  lemma HexCodec(s: string, bytes: seq<byte>)
    ensures FromHex(s) == Some(bytes) <==> ToHex(bytes) == s
  {
    if FromHex(s) == Some(bytes) {
      ToHexFromHex(s, bytes);
    }
    if ToHex(bytes) == s {
      FromHexToHex(bytes);
    }
  }
}
