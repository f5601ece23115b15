/** Java's fixed-width two's-complement arithmetic, written out over Dafny's
    unbounded integers. */
module JavaInt {

  const TWO_31: int := 0x8000_0000
  const TWO_32: int := 0x1_0000_0000
  const TWO_63: int := 0x8000_0000_0000_0000
  const TWO_64: int := 0x1_0000_0000_0000_0000

  /** The values of a Java `int`. */
  type Int32 = x: int | -TWO_31 <= x < TWO_31
  /** The values of a Java `long`. */
  type Int64 = x: int | -TWO_63 <= x < TWO_63

  const LONG_MAX: Int64 := TWO_63 - 1

  /** The `int` a Java `int` operation yields for mathematical result `x`:
      the unique 32-bit value congruent to `x` modulo 2^32. */
  function Wrap32(x: int): (r: Int32)
    ensures (r - x) % TWO_32 == 0
    ensures -TWO_31 <= x < TWO_31 ==> r == x
  {
    (x + TWO_31) % TWO_32 - TWO_31
  }

  /** The `long` a Java `long` operation yields for mathematical result `x`. */
  function Wrap64(x: int): (r: Int64)
    ensures (r - x) % TWO_64 == 0
    ensures -TWO_63 <= x < TWO_63 ==> r == x
  {
    (x + TWO_63) % TWO_64 - TWO_63
  }

  /** Wrapping drops a whole number of 2^32 periods. */
  lemma Wrap32Quotient(x: int)
    ensures Wrap32(x) == x - TWO_32 * ((x + TWO_31) / TWO_32)
  {
  }

  /** Adding whole periods of 2^32 does not change the wrapped `int`. */
  lemma Wrap32Periodic(x: int, k: int)
    ensures Wrap32(x + k * TWO_32) == Wrap32(x)
  {
    var q := (x + TWO_31) / TWO_32;
    var r := (x + TWO_31) % TWO_32;
    assert x + TWO_31 == q * TWO_32 + r;
    assert x + k * TWO_32 + TWO_31 == (q + k) * TWO_32 + r;
  }

  lemma Wrap64Quotient(x: int)
    ensures Wrap64(x) == x - TWO_64 * ((x + TWO_63) / TWO_64)
  {
  }

  lemma Wrap64Periodic(x: int, k: int)
    ensures Wrap64(x + k * TWO_64) == Wrap64(x)
  {
    var q := (x + TWO_63) / TWO_64;
    var r := (x + TWO_63) % TWO_64;
    assert x + TWO_63 == q * TWO_64 + r;
    assert x + k * TWO_64 + TWO_63 == (q + k) * TWO_64 + r;
  }

  /** One step of `result = (result * 10) + digit` in `int` arithmetic: wrapping
      after every operation gives the wrap of the exact value. */
  lemma MulAddStep32(a: int, d: int)
    ensures Wrap32(Wrap32(Wrap32(a) * 10) + d) == Wrap32(a * 10 + d)
  {
    var w: int := Wrap32(a);
    var q0 := (a + TWO_31) / TWO_32;
    Wrap32Quotient(a);
    var q1 := (w * 10 + TWO_31) / TWO_32;
    Wrap32Quotient(w * 10);
    assert Wrap32(w * 10) + d == a * 10 + d + (-10 * q0 - q1) * TWO_32;
    Wrap32Periodic(a * 10 + d, -10 * q0 - q1);
  }

  /** Java's unary minus on an `int` is the wrap of the exact negation. */
  lemma Negate32(a: int)
    ensures Wrap32(-(Wrap32(a) as int)) == Wrap32(-a)
  {
    var q0 := (a + TWO_31) / TWO_32;
    Wrap32Quotient(a);
    Wrap32Periodic(-a, q0);
  }

  /** Java's unary minus on a `long` is the wrap of the exact negation. */
  lemma Negate64(a: int)
    ensures Wrap64(-(Wrap64(a) as int)) == Wrap64(-a)
  {
    var q0 := (a + TWO_63) / TWO_64;
    Wrap64Quotient(a);
    Wrap64Periodic(-a, q0);
  }

  /** Java's `r << n` on a `long` (shift distance below 64): each position
      shifted doubles the value, and the bit shifted out of the top is lost. */
  function ShiftLeft64(r: Int64, n: nat): Int64
    requires n < 64
  {
    if n == 0 then r else Wrap64(2 * (ShiftLeft64(r, n - 1) as int))
  }

  /** Wrapping the left operand of `m * x + d` first does not change the
      wrapped result. */
  lemma Wrap64MulAdd(x: int, m: int, d: int)
    ensures Wrap64(m * Wrap64(x) + d) == Wrap64(m * x + d)
  {
    var q := (x + TWO_63) / TWO_64;
    Wrap64Quotient(x);
    assert m * Wrap64(x) + d == m * x + d + (-m * q) * TWO_64;
    Wrap64Periodic(m * x + d, -m * q);
  }

  /** `r << 1` and `r << 3` are `2 * r` and `8 * r` wrapped. */
  lemma ShiftLeftIsDoubling(r: Int64)
    ensures ShiftLeft64(r, 1) == Wrap64(2 * r)
    ensures ShiftLeft64(r, 3) == Wrap64(8 * r)
  {
    var x: int := r;
    assert ShiftLeft64(r, 1) == Wrap64(2 * x);
    Wrap64MulAdd(2 * x, 2, 0);
    assert ShiftLeft64(r, 2) == Wrap64(4 * x);
    Wrap64MulAdd(4 * x, 2, 0);
  }

  /** The step `(r << 3) + (r << 1) + d` of `readLong`, evaluated with `long`
      wrap-around after every operation on `r = Wrap64(a)`, is `10 * a + d`
      wrapped. */
  lemma ShiftStepIsTimesTen(a: int, d: int)
    ensures Wrap64(Wrap64(ShiftLeft64(Wrap64(a), 3) + ShiftLeft64(Wrap64(a), 1)) + d) == Wrap64(10 * a + d)
  {
    ShiftLeftIsDoubling(Wrap64(a));
    EightPlusTwo(a, Wrap64(a), ShiftLeft64(Wrap64(a), 1), ShiftLeft64(Wrap64(a), 3), d);
  }

  /** `Wrap64(8 * r) + Wrap64(2 * r) + d`, wrapped after each sum, for
      `r = Wrap64(a)` is `10 * a + d` wrapped. */
  lemma EightPlusTwo(a: int, r: int, s1: int, s3: int, d: int)
    requires r == Wrap64(a) && s1 == Wrap64(2 * r) && s3 == Wrap64(8 * r)
    ensures Wrap64(Wrap64(s3 + s1) + d) == Wrap64(10 * a + d)
  {
    var q0 := (a + TWO_63) / TWO_64;
    Wrap64Quotient(a);
    var q1 := (2 * r + TWO_63) / TWO_64;
    Wrap64Quotient(2 * r);
    var q3 := (8 * r + TWO_63) / TWO_64;
    Wrap64Quotient(8 * r);
    var q4 := (s3 + s1 + TWO_63) / TWO_64;
    Wrap64Quotient(s3 + s1);
    var k := -10 * q0 - q1 - q3 - q4;
    assert Wrap64(s3 + s1) + d == 10 * a + d + k * TWO_64;
    Wrap64Periodic(10 * a + d, k);
  }



  /** Java's `a % 256` on an `int`: the remainder truncates toward zero, so it
      takes the sign of the dividend (Dafny's `%` is Euclidean and never
      negative). */
  function Rem256(a: int): (r: int)
    ensures (r - a) % 256 == 0
    ensures a >= 0 ==> 0 <= r < 256
    ensures a < 0 ==> -256 < r <= 0
  {
    if a >= 0 then a % 256 else -((-a) % 256)
  }
}
