/**
 The variable-width length fields of the LZ4 block format. A sequence's
 literal length and its match length each start in a 4-bit nibble of the
 token; the value 15 in the nibble means that extension bytes follow, each
 0xFF adding 255, ended by one byte below 0xFF that adds its own value.
 This module is the reference the byte counts in LZ4Utils are proved
 against.
 */
module LengthExtension {

  newtype byte = x: int | 0 <= x < 256

  datatype Option<T> = None | Some(value: T)

  /** The largest value a token nibble holds; it announces extension bytes. */
  const NIBBLE_MAX: nat := 15

  /** The extension bytes for `len`, the amount left over once the nibble is
      full: `len / 255` bytes 0xFF and a terminal byte `len % 255`. */
  function WriteLen(len: nat): (bytes: seq<byte>)
    ensures |bytes| >= 1
    ensures forall k :: 0 <= k < |bytes| - 1 ==> bytes[k] == 0xFF
    ensures bytes[|bytes| - 1] < 0xFF
    ensures 255 * (|bytes| - 1) + bytes[|bytes| - 1] as int == len
    decreases len
  {
    if len >= 0xFF then [0xFF] + WriteLen(len - 0xFF) else [len as byte]
  }

  /** Reading extension bytes back: 255 for every 0xFF, up to and including
      the first byte below 0xFF. The result is the value and the number of
      bytes consumed, or None when the input ends before a terminal byte. */
  function ReadLen(bytes: seq<byte>): (r: Option<(nat, nat)>)
    ensures r.Some? ==> 1 <= r.value.1 <= |bytes|
    ensures r.None? <==> forall k :: 0 <= k < |bytes| ==> bytes[k] == 0xFF
  {
    if |bytes| == 0 then None
    else if bytes[0] < 0xFF then Some((bytes[0] as nat, 1))
    else match ReadLen(bytes[1..])
      case None => None
      case Some((v, c)) => Some((v + 0xFF, c + 1))
  }

  lemma WriteLenLength(len: nat)
    ensures |WriteLen(len)| == len / 255 + 1
    ensures WriteLen(len)[|WriteLen(len)| - 1] as int == len % 255
  {
  }

  /** Decoding what WriteLen wrote gives back the value, whatever follows. */
  lemma {:induction false} ReadWriteLen(len: nat, rest: seq<byte>)
    ensures ReadLen(WriteLen(len) + rest) == Some((len, |WriteLen(len)|))
  {
    var w := WriteLen(len);
    if len >= 0xFF {
      assert (w + rest)[1..] == WriteLen(len - 0xFF) + rest;
      ReadWriteLen(len - 0xFF, rest);
    }
  }

  /** Every decodable prefix is exactly what WriteLen writes for its value:
      the extension encoding of a length is unique. */
  lemma {:induction false} WriteReadLen(bytes: seq<byte>)
    requires ReadLen(bytes).Some?
    ensures WriteLen(ReadLen(bytes).value.0) == bytes[..ReadLen(bytes).value.1]
  {
    if bytes[0] < 0xFF {
    } else {
      var tail := bytes[1..];
      WriteReadLen(tail);
      var (v, c) := ReadLen(tail).value;
      assert ReadLen(bytes) == Some((v + 0xFF, c + 1));
      assert bytes[..c + 1] == [0xFF] + tail[..c];
    }
  }

  /** The bytes a length field of value `value` takes after its nibble. */
  function ExtensionBytes(value: int): seq<byte> {
    if value < NIBBLE_MAX then [] else WriteLen(value - NIBBLE_MAX)
  }

  /** The nibble stored in the token for a length field. */
  function Nibble(value: nat): (n: nat)
    ensures n <= NIBBLE_MAX
    ensures n < NIBBLE_MAX <==> value < NIBBLE_MAX
  {
    if value < NIBBLE_MAX then value else NIBBLE_MAX
  }

  /** A whole length field read by a decoder: the nibble, plus the extension
      bytes when the nibble is full. Yields the value and the number of
      extension bytes consumed. */
  function ReadField(nibble: nat, bytes: seq<byte>): (r: Option<(nat, nat)>)
    requires nibble <= NIBBLE_MAX
    ensures r.Some? ==> r.value.1 <= |bytes|
    ensures nibble < NIBBLE_MAX ==> r == Some((nibble, 0))
    ensures r.None? <==> nibble == NIBBLE_MAX && forall k :: 0 <= k < |bytes| ==> bytes[k] == 0xFF
    ensures nibble == NIBBLE_MAX && r.Some? ==> r.value.0 >= NIBBLE_MAX && r.value.1 >= 1
  {
    if nibble < NIBBLE_MAX then Some((nibble, 0))
    else match ReadLen(bytes)
      case None => None
      case Some((v, c)) => Some((NIBBLE_MAX + v, c))
  }

  /** A length field written as nibble plus ExtensionBytes reads back as the
      same value, consuming exactly the extension bytes. */
  lemma FieldRoundTrip(value: nat, rest: seq<byte>)
    ensures ReadField(Nibble(value), ExtensionBytes(value) + rest)
         == Some((value, |ExtensionBytes(value)|))
  {
    if value >= NIBBLE_MAX {
      ReadWriteLen(value - NIBBLE_MAX, rest);
    }
  }
}
