/**
 Java's 32-bit `int`: the value range, the wrapping arithmetic the JVM
 performs on it, and the unsigned shift `>>>`.
 */
module JavaInt {

  const TWO_31: int := 0x8000_0000
  const TWO_32: int := 0x1_0000_0000

  newtype int32 = x: int | -0x8000_0000 <= x < 0x8000_0000

  const INT_MAX: int32 := 0x7FFF_FFFF
  const INT_MIN: int32 := -0x8000_0000

  predicate InRange(x: int) {
    -TWO_31 <= x < TWO_31
  }

  /** The two's-complement reading of a 32-bit pattern given as 0 <= u < 2^32. */
  function ToSigned(u: int): (r: int32)
    requires 0 <= u < TWO_32
    ensures Unsigned(r) == u
    ensures u < TWO_31 ==> r as int == u
  {
    if u < TWO_31 then u as int32 else (u - TWO_32) as int32
  }

  /** The 32-bit pattern of a Java int, read as an unsigned number. */
  function Unsigned(x: int32): (u: int)
    ensures 0 <= u < TWO_32
    ensures u == x as int || u == x as int + TWO_32
    ensures x >= 0 ==> u == x as int
  {
    if x >= 0 then x as int else x as int + TWO_32
  }

  /** The int the JVM keeps of an exact integer result: its low 32 bits. */
  function Wrap(x: int): (r: int32)
    ensures (r as int - x) % TWO_32 == 0
    ensures InRange(x) ==> r as int == x
  {
    ToSigned(x % TWO_32)
  }

  /** Two Java ints with the same low 32 bits are the same int. */
  lemma CongruentEqual(a: int32, b: int32)
    requires (a as int - b as int) % TWO_32 == 0
    ensures a == b
  {
  }

  /** Wrapping depends only on the value modulo 2^32. */
  lemma WrapCongruent(x: int, y: int)
    requires (x - y) % TWO_32 == 0
    ensures Wrap(x) == Wrap(y)
  {
    var k := (x - y) / TWO_32;
    assert x == y + k * TWO_32;
    assert x % TWO_32 == y % TWO_32;
  }

  lemma ShiftByMultiple(x: int, k: int)
    ensures (x + k * TWO_32) % TWO_32 == x % TWO_32
  {
  }

  /** Java `a + b` on int. */
  function Add32(a: int32, b: int32): int32 {
    Wrap(a as int + b as int)
  }

  /** Java `a - b` on int. */
  function Sub32(a: int32, b: int32): int32 {
    Wrap(a as int - b as int)
  }

  /** Java `a * b` on int. */
  function Mul32(a: int32, b: int32): int32 {
    Wrap(a as int * b as int)
  }

  /** Java `a / b` on int: the quotient is truncated toward zero, and
      INT_MIN / -1 wraps to INT_MIN. */
  function Div32(a: int32, b: int32): (q: int32)
    requires b != 0
    ensures a >= 0 && b > 0 ==> q as int == a as int / b as int
  {
    var n := if a < 0 then -(a as int) else a as int;
    var d := if b < 0 then -(b as int) else b as int;
    var m := Quotient(n, d);
    Wrap(if (a < 0) == (b < 0) then m as int else -(m as int))
  }

  function Pow2(n: nat): (p: nat)
    ensures p >= 1
  {
    if n == 0 then 1 else 2 * Pow2(n - 1)
  }

  lemma {:induction false} Pow2Add(a: nat, b: nat)
    ensures Pow2(a + b) == Pow2(a) * Pow2(b)
  {
    if a > 0 {
      Pow2Add(a - 1, b);
    }
  }

  lemma {:induction false} Pow2Monotone(a: nat, b: nat)
    requires a <= b
    ensures Pow2(a) <= Pow2(b)
  {
    if a < b {
      Pow2Monotone(a, b - 1);
    }
  }

  lemma Pow2Of32()
    ensures Pow2(32) == TWO_32
  {
    assert Pow2(8) == 0x100;
    Pow2Add(8, 8);
    Pow2Add(16, 16);
  }

  /** Java `x >>> n` on int: the distance is taken modulo 32 (the JVM keeps
      its low five bits), and zeros are shifted in from the left. */
  function UShr(x: int32, n: int): int32 {
    ShiftOut(x, n % 32)
  }

  /** The 32-bit pattern of x moved right by d < 32 places, zero-filled. */
  function ShiftOut(x: int32, d: nat): int32
    requires d < 32
  {
    var u, p := Unsigned(x), Pow2(d);
    var q := Quotient(u, p);
    ToSigned(q)
  }

  /** The quotient of a natural number, no larger than the number. */
  function Quotient(x: nat, b: nat): (q: nat)
    requires b >= 1
    ensures q == x / b && q <= x
  {
    var q := x / b;
    assert x == q * b + x % b;
    MulMonotone(1, b, q);
    q
  }

  lemma MulMonotone(a: nat, c: nat, b: nat)
    requires a <= c
    ensures a * b <= c * b
  {
  }

  lemma DivBelow(x: nat, a: nat, b: nat)
    requires b >= 1 && x < a * b
    ensures x / b < a
  {
    var q := x / b;
    assert x == q * b + x % b;
    if q >= a {
      MulMonotone(a, q, b);
    }
  }

  /** An unsigned shift by d > 0 leaves a non-negative result below
      2^(32-d); a shift by 0 leaves the int as it is. */
  lemma UShrBounds(x: int32, d: nat)
    requires d < 32
    ensures Unsigned(UShr(x, d)) == Unsigned(x) / Pow2(d)
    ensures Unsigned(UShr(x, d)) < Pow2(32 - d)
    ensures d > 0 ==> 0 <= UShr(x, d) as int < Pow2(32 - d)
    ensures d == 0 ==> UShr(x, d) == x
  {
    var u, p := Unsigned(x), Pow2(d);
    var q := u / p;
    assert UShr(x, d) == ShiftOut(x, d) by {
      assert d % 32 == d;
    }
    assert ShiftOut(x, d) == ToSigned(q);
    assert q < Pow2(32 - d) by {
      Pow2Of32();
      Pow2Add(32 - d, d);
      DivBelow(u, Pow2(32 - d), p);
    }
    if d > 0 {
      assert Pow2(32 - d) <= TWO_31 by {
        Pow2Monotone(32 - d, 31);
        Pow2Add(31, 1);
        Pow2Of32();
      }
    } else {
      assert q == u;
      CongruentEqual(ToSigned(q), x);
    }
  }

  /** The low 32 bits of a wrapped result, read unsigned, are x mod 2^32. */
  lemma UnsignedWrap(x: int)
    ensures Unsigned(Wrap(x)) == x % TWO_32
  {
  }

  /** Wrapping after each addition is wrapping once after the exact sum. */
  lemma WrapAdd(x: int, y: int)
    ensures Wrap(Wrap(x) as int + Wrap(y) as int) == Wrap(x + y)
  {
    var k1 := (Wrap(x) as int - x) / TWO_32;
    var k2 := (Wrap(y) as int - y) / TWO_32;
    assert Wrap(x) as int == x + k1 * TWO_32;
    assert Wrap(y) as int == y + k2 * TWO_32;
    ShiftByMultiple(x + y, k1 + k2);
    WrapCongruent(Wrap(x) as int + Wrap(y) as int, x + y);
  }

  /** Wrapping after each subtraction is wrapping once after the exact difference. */
  lemma WrapSub(x: int, y: int)
    ensures Wrap(Wrap(x) as int - Wrap(y) as int) == Wrap(x - y)
  {
    var k1 := (Wrap(x) as int - x) / TWO_32;
    var k2 := (Wrap(y) as int - y) / TWO_32;
    assert Wrap(x) as int == x + k1 * TWO_32;
    assert Wrap(y) as int == y + k2 * TWO_32;
    ShiftByMultiple(x - y, k1 - k2);
    WrapCongruent(Wrap(x) as int - Wrap(y) as int, x - y);
  }
}
