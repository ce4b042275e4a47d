/**
 The format arithmetic of the LZ4 block codec: the worst-case size bound,
 the byte counts of length fields and sequences, the Fibonacci hashes that
 index the match finder's tables, and the mutable match candidate.
 Every int is a Java int, and every operation wraps as the JVM does.
 */
module LZ4Utils {
  import opened JavaInt
  import LE = LengthExtension

  /** Inputs at or above this size are refused by MaxCompressedLength. */
  const MAX_INPUT_SIZE: int32 := 0x7E00_0000

  /** The shortest match the format encodes; fixes the hashed window at 4 bytes. */
  const MIN_MATCH: int32 := 4

  /** The multiplier of the three hashes, as the Java int -1640531535 ... */
  const PRIME: int32 := -1640531535
  /** ... whose 32-bit pattern is the golden-ratio constant 0x9E3779B1. */
  const GOLDEN: int := 0x9E37_79B1

  datatype IllegalArgument =
    | NegativeLength(got: int32)
    | LengthTooLarge(limit: int32)

  datatype Result<T> = Success(value: T) | Failure(error: IllegalArgument)

  // ---------------------------------------------------------------------
  // Worst-case compressed size
  // ---------------------------------------------------------------------

  /** The output size that suffices for any input of `length` bytes. The
      three additions and the division are Java int operations; the
      contract says that for every accepted length none of them wraps. */
  function MaxCompressedLength(length: int32): (r: Result<int32>)
    ensures r.Failure? <==> length < 0 || length >= MAX_INPUT_SIZE
    ensures length < 0 ==> r == Failure(NegativeLength(length))
    ensures length >= MAX_INPUT_SIZE ==> r == Failure(LengthTooLarge(MAX_INPUT_SIZE))
    ensures r.Success? ==> r.value as int == length as int + length as int / 255 + 16
  {
    if length < 0 then
      Failure(NegativeLength(length))
    else if length >= MAX_INPUT_SIZE then
      Failure(LengthTooLarge(MAX_INPUT_SIZE))
    else
      Success(Add32(Add32(length, Div32(length, 255)), 16))
  }

  /** The bound exceeds the input by at least 16 bytes and is still a
      positive int. */
  lemma MaxCompressedLengthRange(length: int32)
    requires 0 <= length < MAX_INPUT_SIZE
    ensures MaxCompressedLength(length).Success?
    ensures length as int + 16 <= MaxCompressedLength(length).value as int
    ensures MaxCompressedLength(length).value as int <= 2122219149 < INT_MAX as int
  {
  }

  /** A larger input never gets a smaller bound. */
  lemma MaxCompressedLengthMonotone(a: int32, b: int32)
    requires 0 <= a <= b < MAX_INPUT_SIZE
    ensures MaxCompressedLength(a).value <= MaxCompressedLength(b).value
  {
  }

  /** The bound holds a block sent as one literal-only sequence: a token,
      the literal length's extension bytes and the literals themselves. */
  lemma MaxCompressedLengthCoversLiterals(length: int32)
    requires 0 <= length < MAX_INPUT_SIZE
    ensures 1 + |LE.ExtensionBytes(length as int)| + length as int
         <= MaxCompressedLength(length).value as int
  {
    if length as int >= LE.NIBBLE_MAX {
      LE.WriteLenLength(length as int - LE.NIBBLE_MAX);
    }
  }

  /** The two ends of the accepted range. */
  lemma MaxCompressedLengthEdges()
    ensures MaxCompressedLength(MAX_INPUT_SIZE - 1) == Success(2122219149)
    ensures MaxCompressedLength(MAX_INPUT_SIZE) == Failure(LengthTooLarge(MAX_INPUT_SIZE))
    ensures MaxCompressedLength(-1) == Failure(NegativeLength(-1))
    ensures MaxCompressedLength(0) == Success(16)
  {
  }

  // ---------------------------------------------------------------------
  // Length fields and sequences
  // ---------------------------------------------------------------------

  /** The number of bytes a length field of `value` takes beyond its 4-bit
      nibble: none below 15, else the least r with value - 15 < 255 * r. */
  function LengthOfEncodedInteger(value: int32): (r: int32)
    ensures r >= 0
    ensures value < 15 ==> r == 0
    ensures value >= 15 ==> 255 * (r as int - 1) <= value as int - 15 < 255 * r as int
  {
    if value >= 15 then Add32(Div32(Sub32(value, 15), 0xff), 1) else 0
  }

  /** The count is exactly the number of extension bytes the LZ4 format
      writes for `value`, for every int `value`. */
  lemma LengthOfEncodedIntegerIsExact(value: int32)
    ensures LengthOfEncodedInteger(value) as int == |LE.ExtensionBytes(value as int)|
  {
    if value as int >= LE.NIBBLE_MAX {
      LE.WriteLenLength(value as int - LE.NIBBLE_MAX);
    }
  }

  /** A larger value never needs fewer extension bytes. */
  lemma LengthOfEncodedIntegerMonotone(a: int32, b: int32)
    requires a <= b
    ensures LengthOfEncodedInteger(a) <= LengthOfEncodedInteger(b)
  {
  }

  lemma LengthOfEncodedIntegerExamples()
    ensures LengthOfEncodedInteger(-1) == 0
    ensures LengthOfEncodedInteger(14) == 0
    ensures LengthOfEncodedInteger(15) == 1
    ensures LengthOfEncodedInteger(269) == 1
    ensures LengthOfEncodedInteger(270) == 2
  {
  }

  /** Below 15 the count is zero and above it the count grows by one for
      every 255: the extension encoding is never larger than value / 255 + 1. */
  lemma LengthOfEncodedIntegerAtMost(value: int32)
    requires value >= 0
    ensures LengthOfEncodedInteger(value) as int <= value as int / 255 + 1
  {
  }

  /** The exact sum SequenceLength computes lies in the int range. A
      negative length has no extension bytes, so it is covered too. */
  predicate SequenceFits(runLen: int32, matchLen: int32) {
    InRange(3 + runLen as int + |LE.ExtensionBytes(runLen as int)|
              + |LE.ExtensionBytes(matchLen as int)|)
  }

  /** The encoded size of one sequence: the token, the literal length's
      extension bytes, the literals, the 2-byte offset and the match
      length's extension bytes. Sums in Java int arithmetic. */
  function SequenceLength(runLen: int32, matchLen: int32): (r: int32)
    ensures SequenceFits(runLen, matchLen) ==>
      r as int == 1 + |LE.ExtensionBytes(runLen as int)| + runLen as int
                  + 2 + |LE.ExtensionBytes(matchLen as int)|
    ensures SequenceFits(runLen, matchLen) ==> r as int >= runLen as int + 3
  {
    LengthOfEncodedIntegerIsExact(runLen);
    LengthOfEncodedIntegerIsExact(matchLen);
    Add32(Add32(Add32(Add32(1, LengthOfEncodedInteger(runLen)), runLen), 2),
          LengthOfEncodedInteger(matchLen))
  }

  /** Any literal run and match below MAX_INPUT_SIZE fit: their sequence
      size never wraps. */
  lemma SequenceFitsBelowMaxInput(runLen: int32, matchLen: int32)
    requires 0 <= runLen < MAX_INPUT_SIZE && 0 <= matchLen < MAX_INPUT_SIZE
    ensures SequenceFits(runLen, matchLen)
  {
    LengthOfEncodedIntegerIsExact(runLen);
    LengthOfEncodedIntegerIsExact(matchLen);
    LengthOfEncodedIntegerAtMost(runLen);
    LengthOfEncodedIntegerAtMost(matchLen);
  }

  // ---------------------------------------------------------------------
  // Hashes of the 4-byte window
  // ---------------------------------------------------------------------

  /** The width of a hash table index; the tables hold 2^hashLog buckets. */
  type HashLog = k: int | 1 <= k <= 32 witness 1

  /** Fibonacci hashing: the top `hashLog` bits of the window times the
      golden-ratio constant, taken modulo 2^32. */
  function Hash(i: int32, hashLog: HashLog): (r: int32)
    ensures Unsigned(r) < Pow2(hashLog)
    ensures hashLog < 32 ==> 0 <= r as int < Pow2(hashLog)
  {
    var product := Mul32(i, PRIME);
    var distance := Sub32(Mul32(MIN_MATCH, 8), hashLog as int32);
    UShrBounds(product, 32 - hashLog);
    UShr(product, distance as int)
  }

  /** The same hash for the table used when the input fits in 64 KiB. */
  function Hash64k(i: int32, hashLog64k: HashLog): (r: int32)
    ensures Unsigned(r) < Pow2(hashLog64k)
    ensures hashLog64k < 32 ==> 0 <= r as int < Pow2(hashLog64k)
  {
    Hash(i, hashLog64k)
  }

  /** The same hash for the chained table of the high-compression path. */
  function HashHC(i: int32, hashLogHC: HashLog): (r: int32)
    ensures Unsigned(r) < Pow2(hashLogHC)
    ensures hashLogHC < 32 ==> 0 <= r as int < Pow2(hashLogHC)
  {
    Hash(i, hashLogHC)
  }

  /** The signed multiply by PRIME has the bits of the unsigned multiply by
      GOLDEN. */
  lemma ProductIsGolden(i: int32)
    ensures Unsigned(Mul32(i, PRIME)) == (Unsigned(i) * GOLDEN) % TWO_32
  {
    var x := i as int * PRIME as int;
    UnsignedWrap(x);
    if i >= 0 {
      assert Unsigned(i) * GOLDEN == x + i as int * TWO_32;
      ShiftByMultiple(x, i as int);
    } else {
      assert Unsigned(i) * GOLDEN == x + (i as int + GOLDEN) * TWO_32;
      ShiftByMultiple(x, i as int + GOLDEN);
    }
  }

  /** The hash, read unsigned, is the Fibonacci hash of the window computed
      on unbounded integers. */
  lemma HashIsFibonacci(i: int32, hashLog: HashLog)
    ensures Unsigned(Hash(i, hashLog)) == (Unsigned(i) * GOLDEN) % TWO_32 / Pow2(32 - hashLog)
  {
    ProductIsGolden(i);
    UShrBounds(Mul32(i, PRIME), 32 - hashLog);
  }

  // ---------------------------------------------------------------------
  // Match candidates
  // ---------------------------------------------------------------------

  /** A match candidate: the bytes at `start` repeat those at `ref`, for
      `len` bytes. */
  class Match {
    var start: int32
    var ref: int32
    var len: int32

    /** Java's default field values. */
    constructor ()
      ensures start == 0 && ref == 0 && len == 0
    {
      start, ref, len := 0, 0, 0;
    }

    /** One past the last matched byte. */
    function End(): (r: int32)
      reads this
      ensures InRange(start as int + len as int) ==> r as int == start as int + len as int
    {
      Add32(start, len)
    }

    /** Specification helper: the backward distance start - ref over the
        fields, in Java int arithmetic, so that Fix can promise to keep it. */
    function Offset(): (r: int32)
      reads this
      ensures InRange(start as int - ref as int) ==> r as int == start as int - ref as int
    {
      Sub32(start, ref)
    }

    /** Moves the start of the match forward by `correction`, keeping its
        end and its offset. */
    method Fix(correction: int32)
      modifies this
      ensures start == Add32(old(start), correction)
      ensures ref == Add32(old(ref), correction)
      ensures len == Sub32(old(len), correction)
      ensures End() == old(End())
      ensures Offset() == old(Offset())
      ensures InRange(old(len) as int - correction as int) ==>
                len as int == old(len) as int - correction as int
    {
      FixKeepsEnd(start, len, correction);
      FixKeepsOffset(start, ref, correction);
      start := Add32(start, correction);
      ref := Add32(ref, correction);
      len := Sub32(len, correction);
    }
  }

  /** Shifting the start by c and shrinking the length by c keeps the end,
      even where the Java additions wrap. */
  lemma FixKeepsEnd(start: int32, len: int32, c: int32)
    ensures Add32(Add32(start, c), Sub32(len, c)) == Add32(start, len)
  {
    WrapAdd(start as int + c as int, len as int - c as int);
  }

  /** Shifting start and reference by the same c keeps their distance, even
      where the Java additions wrap. */
  lemma FixKeepsOffset(start: int32, ref: int32, c: int32)
    ensures Sub32(Add32(start, c), Add32(ref, c)) == Sub32(start, ref)
  {
    WrapSub(start as int + c as int, ref as int + c as int);
  }

  /** Copies the three fields of m1 into m2; m1 is left as it was, also
      when both are the same object. */
  method CopyTo(m1: Match, m2: Match)
    modifies m2
    ensures m2.start == old(m1.start) && m2.ref == old(m1.ref) && m2.len == old(m1.len)
    ensures m1.start == old(m1.start) && m1.ref == old(m1.ref) && m1.len == old(m1.len)
  {
    m2.len := m1.len;
    m2.start := m1.start;
    m2.ref := m1.ref;
  }
}
