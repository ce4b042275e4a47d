# LZ4 block format arithmetic, in Dafny

This project models `LZ4Utils` of lz4-java: the integer arithmetic of the
LZ4 block codec. It covers:

- the worst-case compressed size `maxCompressedLength` and the argument checks it makes against `MAX_INPUT_SIZE = 0x7E000000`;
- `lengthOfEncodedInteger`, the number of extension bytes a literal-length or match-length field takes beyond its 4-bit nibble in the token;
- `sequenceLength`, the encoded size of one sequence (token, literal length, literals, 2-byte offset, match length);
- the three Fibonacci hashes `hash`, `hash64k` and `hashHC`, which index the match finder's tables;
- the mutable match candidate `Match`, with `fix` and `end()`, and the static `copyTo`.

Every Java `int` is the newtype `JavaInt.int32`. Every `+`, `-`, `*`, `/`
and `>>>` in the source is the matching JVM operation: `Add32`, `Sub32`,
`Mul32`, `Div32` (truncating toward zero) and `UShr` (the distance is taken
modulo 32). So each contract says on its own where a result wraps and where
it cannot.

The module `LengthExtension` is the reference the byte counts are proved
against. It holds the LZ4 encoding of a length beyond its nibble: one 0xFF
byte for every 255, then a terminal byte below 0xFF. It also holds the
decoding a decompressor applies. Lemmas prove that decoding inverts
encoding, in both directions.

Modules:

- `JavaInt` (JavaInt.dfy): the int range, wrapping, and the unsigned shift.
- `LengthExtension` (LengthExtension.dfy): the length fields of the block format.
- `LZ4Utils` (LZ4Utils.dfy): the modelled class (a Java enum holding only static methods) and its nested `Match` class.

The byte count that `lengthOfEncodedInteger` returns for value >= 15 is
`(value - 15) / 255 + 1`. That is not `ceil((value - 15) / 255)`: the two
differ whenever value − 15 is a multiple of 255, 15 itself included, which
takes one terminal byte. The model follows the code, and
`LengthOfEncodedIntegerIsExact` shows that the code's count is the right one.

## Model

| member | source | states |
|---|---|---|
| `LZ4Utils.MaxCompressedLength` | src/java/net/jpountz/lz4/LZ4Utils.java:27-36 | fails exactly when length < 0 (NegativeLength carrying the length) or length >= 0x7E000000 (LengthTooLarge); otherwise the Java int result equals the exact `length + length/255 + 16`, so no addition wraps |
| `LZ4Utils.MaxCompressedLengthRange` | src/java/net/jpountz/lz4/LZ4Utils.java:35 | every accepted length gets a bound of at least length + 16 and at most 2122219149, below Integer.MAX_VALUE |
| `LZ4Utils.MaxCompressedLengthMonotone` | src/java/net/jpountz/lz4/LZ4Utils.java:35 | a larger accepted input never gets a smaller bound |
| `LZ4Utils.MaxCompressedLengthCoversLiterals` | src/java/net/jpountz/lz4/LZ4Utils.java:29-35 | the bound is at least the size of the whole input sent as one literal-only sequence (token + literal-length extension bytes + literals) |
| `LZ4Utils.MaxCompressedLengthEdges` | src/java/net/jpountz/lz4/LZ4Utils.java:27-35 | 0x7E000000 − 1 is accepted with bound 2122219149; 0x7E000000 and −1 are refused; 0 gives 16 |
| `LZ4Utils.LengthOfEncodedInteger` | src/java/net/jpountz/lz4/LZ4Utils.java:44-50 | the result is never negative; 0 below 15; from 15 on, the least r with value − 15 < 255·r |
| `LZ4Utils.LengthOfEncodedIntegerIsExact` | src/java/net/jpountz/lz4/LZ4Utils.java:38-50 | for every int value, the count equals the number of bytes the LZ4 extension encoding writes after the nibble: none below 15, else the bytes of WriteLen(value − 15); this is the assertion of UtilsTest.matchRunLength, for all ints and not only 0..10^6 |
| `LZ4Utils.LengthOfEncodedIntegerMonotone` | src/java/net/jpountz/lz4/LZ4Utils.java:44-50 | non-decreasing in the value |
| `LZ4Utils.LengthOfEncodedIntegerExamples` | src/java/net/jpountz/lz4/LZ4Utils.java:44-50 | −1 and 14 take no byte, 15 and 269 take one, 270 takes two |
| `LZ4Utils.LengthOfEncodedIntegerAtMost` | src/java/net/jpountz/lz4/LZ4Utils.java:44-50 | for a non-negative value the count is at most value/255 + 1 |
| `LZ4Utils.SequenceLength` | src/java/net/jpountz/lz4/LZ4Utils.java:52-68 | for any int run and match lengths, negative ones included, whose exact total fits in an int, the result is 1 (token) + the run length's extension bytes + the run + 2 (offset) + the match length's extension bytes, hence at least runLen + 3 |
| `LZ4Utils.SequenceFitsBelowMaxInput` | src/java/net/jpountz/lz4/LZ4Utils.java:66-68 | a run length and a match length both below 0x7E000000 never make sequenceLength wrap |
| `LZ4Utils.Hash` | src/java/net/jpountz/lz4/LZ4Utils.java:70-72 | the result's 32-bit pattern lies below 2^hashLog; for hashLog < 32 the int itself lies in [0, 2^hashLog) |
| `LZ4Utils.Hash64k` | src/java/net/jpountz/lz4/LZ4Utils.java:74-76 | the same bound for the 64 KiB table's hash log |
| `LZ4Utils.HashHC` | src/java/net/jpountz/lz4/LZ4Utils.java:78-80 | the same bound for the high-compression table's hash log |
| `LZ4Utils.ProductIsGolden` | src/java/net/jpountz/lz4/LZ4Utils.java:71 | the wrapping signed multiply by −1640531535 has the bits of the unsigned multiply by 0x9E3779B1 modulo 2^32 |
| `LZ4Utils.HashIsFibonacci` | src/java/net/jpountz/lz4/LZ4Utils.java:70-80 | read unsigned, the hash is ((window · 0x9E3779B1) mod 2^32) / 2^(32 − hashLog), the top hashLog bits of the product |
| `LZ4Utils.Match.constructor` | src/java/net/jpountz/lz4/LZ4Utils.java:82-83 | a new match has start, ref and len all 0, as Java's default field values |
| `LZ4Utils.Match.End` | src/java/net/jpountz/lz4/LZ4Utils.java:91-93 | start + len, exact whenever it fits in an int |
| `LZ4Utils.Match.Offset` | src/java/net/jpountz/lz4/LZ4Utils.java:83 | a specification helper over the fields declared here (Java has no such accessor): start − ref in Java int arithmetic, exact whenever it fits in an int; it states the offset half of what fix keeps |
| `LZ4Utils.Match.Fix` | src/java/net/jpountz/lz4/LZ4Utils.java:85-89 | start and ref grow by the correction and len shrinks by it (Java int arithmetic), by exactly the correction whenever len − correction fits in an int; end() and the offset start − ref are unchanged |
| `LZ4Utils.FixKeepsEnd` | src/java/net/jpountz/lz4/LZ4Utils.java:85-93 | moving start by c and len by −c keeps start + len for every int input, wrap-around included |
| `LZ4Utils.FixKeepsOffset` | src/java/net/jpountz/lz4/LZ4Utils.java:85-87 | moving start and ref by the same c keeps start − ref for every int input, wrap-around included |
| `LZ4Utils.CopyTo` | src/java/net/jpountz/lz4/LZ4Utils.java:96-100 | m2's len, start and ref become m1's; m1 keeps its fields, also when m1 and m2 are the same object |
| `LengthExtension.WriteLen` | src/java/net/jpountz/lz4/LZ4Utils.java:38-43 | the extension bytes for a remaining length: all 0xFF but the last, the last below 0xFF, and 255·(count − 1) + last equals the length |
| `LengthExtension.WriteLenLength` | src/java/net/jpountz/lz4/LZ4Utils.java:38-43 | the encoding of len has len/255 + 1 bytes and ends with len mod 255 |
| `LengthExtension.ReadLen` | src/java/net/jpountz/lz4/LZ4Utils.java:38-43 | decoding consumes between 1 and all of the bytes, and fails exactly when every byte is 0xFF (no terminal byte) |
| `LengthExtension.ReadWriteLen` | src/java/net/jpountz/lz4/LZ4Utils.java:38-43 | decoding the encoding of len, followed by anything, gives back len and consumes exactly the encoding |
| `LengthExtension.WriteReadLen` | src/java/net/jpountz/lz4/LZ4Utils.java:38-43 | whatever decodes is exactly the encoding of its value, so the encoding is unique |
| `LengthExtension.Nibble` | src/java/net/jpountz/lz4/LZ4Utils.java:38-40 | the 4-bit share of the token is at most 15, and below 15 exactly when the value is |
| `LengthExtension.ReadField` | src/java/net/jpountz/lz4/LZ4Utils.java:38-43 | a nibble below 15 is the whole value and consumes nothing; a full nibble fails exactly when every following byte is 0xFF, and otherwise yields at least 15 and consumes between 1 and all of the bytes (the exact value is what FieldRoundTrip states) |
| `LengthExtension.FieldRoundTrip` | src/java/net/jpountz/lz4/LZ4Utils.java:38-43 | a length field written as nibble plus extension bytes reads back as the same value and consumes exactly its extension bytes |
| `JavaInt.Div32` | src/java/net/jpountz/lz4/LZ4Utils.java:35 | Java int division; for a non-negative dividend and a positive divisor it is the integer quotient |
| `JavaInt.UShrBounds` | src/java/net/jpountz/lz4/LZ4Utils.java:71 | `x >>> d` for d < 32 is the unsigned pattern divided by 2^d, below 2^(32 − d); non-negative for d > 0, and x itself for d = 0 |

## Left out

- writeLen and encodeSequence are not part of this model. UtilsTest calls them on three classes, LZ4SafeUtils, LZ4UnsafeUtils and LZ4ByteBufferUtils, none of which is among the modelled files.
- notEnoughSpace is not part of this model. UtilsTest calls it as LZ4Utils.notEnoughSpace, but the LZ4Utils.java modelled here does not define it, so there is no code to model.
- The reference `LengthExtension.WriteLen` is the format's definition of the length encoding, not a model of writeLen's loop over an output array.
- LZ4Constants is not part of this model. The hash logs `HASH_LOG`, `HASH_LOG_64K` and `HASH_LOG_HC` are parameters of type `HashLog` (1 to 32). `MIN_MATCH` is fixed at 4, the value the 4-byte hashed window requires.
- Hash, Hash64k, HashHC: for a hash log of 32 the shift distance is 0 and the result is the raw signed product. So the bound in [0, 2^hashLog) is stated for logs below 32 only; for 32 only the unsigned bound holds. Those constants are not part of this model, so the model does not rely on their values.
- Determinism of the hashes is not a separate lemma: a Dafny function is deterministic by construction.
- The reading of the 4-byte window that callers pass to the hashes is not part of this model, because it lives in the codec's memory-access utilities.
- The compressors, the match finder, the decoders, the unsafe and native memory-access variants and the backend selection are not part of this model. Their code is not among the modelled files.
- Match: the class does not enforce ref < start or len >= MIN_MATCH, because LZ4Utils.java leaves those invariants to the match finder, which is not modelled.
- The exception messages of maxCompressedLength are modelled by their data: the rejected length is kept for a negative input, and the limit for an input that is too large. The message strings themselves are not modelled.
