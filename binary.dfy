/**
 * The two helpers that move bytes between an ArrayBuffer and base64
 * text: `ab2b64` goes through a "binary string" (one character per
 * byte) and `btoa`; `b642ab` goes back through `atob` and copies each
 * character code into a fresh Uint8Array.
 *
 * `btoa` and `atob` are platform functions (base64 as in section 4 of
 * RFC 4648). They are not re-implemented: a `Base64` value carries them,
 * and `RoundTrips` is the one law the rest of the model relies on.
 */
module Binary {
  import opened Wrappers

  /** An element of a Uint8Array. */
  newtype byte = x: int | 0 <= x < 256

  /**
   * The platform's `btoa` and `atob`. `atob` throws on text that is not
   * base64; that is the `None` result.
   */
  datatype Base64 = Base64(btoa: string -> string, atob: string -> Option<string>)

  /** A binary string: every character code fits in a byte. */
  predicate IsBinary(s: string) {
    forall i :: 0 <= i < |s| ==> s[i] as int < 256
  }

  /** Base64 decoding inverts base64 encoding on binary strings. */
  ghost predicate RoundTrips(codec: Base64) {
    forall s :: IsBinary(s) ==> codec.atob(codec.btoa(s)) == Some(s)
  }

  /**
   * `s.charCodeAt(i)` stored into a Uint8Array slot: the store keeps the
   * low eight bits of the code.
   */
  function CharCode(c: char): (b: byte)
    ensures c as int < 256 ==> b as int == c as int
  {
    (c as int % 256) as byte
  }

  /** `String.fromCharCode(b)` for one byte. */
  function FromCharCode(b: byte): (c: char)
    ensures c as int == b as int
  {
    (b as int) as char
  }

  /** `String.fromCharCode(...new Uint8Array(buf))`. */
  function BinaryString(buf: seq<byte>): (s: string)
    ensures |s| == |buf| && IsBinary(s)
    ensures forall i :: 0 <= i < |s| ==> CharCode(s[i]) == buf[i]
  {
    seq(|buf|, i requires 0 <= i < |buf| => FromCharCode(buf[i]))
  }

  /** `ab2b64`: the base64 text of a byte buffer. */
  function Ab2b64(codec: Base64, buf: seq<byte>): (b64: string)
    ensures RoundTrips(codec) ==> codec.atob(b64) == Some(BinaryString(buf))
  {
    codec.btoa(BinaryString(buf))
  }

  /** The bytes of a binary string, one per character. */
  function CharCodes(s: string): seq<byte> {
    seq(|s|, i requires 0 <= i < |s| => CharCode(s[i]))
  }

  /** What `b642ab` returns, or `None` where `atob` throws. */
  function Decoded(codec: Base64, b64: string): Option<seq<byte>> {
    match codec.atob(b64)
    case None => None
    case Some(s) => Some(CharCodes(s))
  }

  /**
   * `b642ab`: decode with `atob`, then fill a new Uint8Array of the
   * decoded length with the character codes, one index at a time.
   */
  method B642ab(codec: Base64, b64: string) returns (r: Option<seq<byte>>)
    ensures r.None? <==> codec.atob(b64).None?
    ensures r.Some? ==> |r.value| == |codec.atob(b64).value|
    ensures r.Some? ==> forall i :: 0 <= i < |r.value| ==> r.value[i] == CharCode(codec.atob(b64).value[i])
    ensures r == Decoded(codec, b64)
  {
    var decoded := codec.atob(b64);
    if decoded.None? {
      return None;
    }
    var s := decoded.value;
    var arr := new byte[|s|];
    for i := 0 to |s|
      invariant forall k :: 0 <= k < i ==> arr[k] == CharCode(s[k])
    {
      arr[i] := CharCode(s[i]);
    }
    assert arr[..] == CharCodes(s);
    return Some(arr[..]);
  }

  /** Reading back the base64 text of a buffer gives the buffer. */
  lemma DecodedInvertsAb2b64(codec: Base64, buf: seq<byte>)
    requires RoundTrips(codec)
    ensures Decoded(codec, Ab2b64(codec, buf)) == Some(buf)
  {
    var s := BinaryString(buf);
    assert codec.atob(codec.btoa(s)) == Some(s);
    assert CharCodes(s) == buf;
  }
}
