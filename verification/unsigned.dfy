/** Unsigned machine integers as the C handler uses them: the 64-bit
    microsecond count returned by the SDK clock, its conversion to a 32-bit
    `uint32_t`, and unsigned 32-bit subtraction, which wraps around modulo
    2^32 instead of going negative. */
module Unsigned {

  const U32Modulus: int := 0x1_0000_0000
  const U64Modulus: int := 0x1_0000_0000_0000_0000

  /** Values of a `uint32_t`. */
  type U32 = x: int | 0 <= x < U32Modulus

  /** Values of a `uint64_t`. */
  type U64 = x: int | 0 <= x < U64Modulus

  /** Conversion of a `uint64_t` to a `uint32_t`: only the low 32 bits survive. */
  function Truncate(t: U64): (r: U32)
    ensures r <= t
    ensures t < U32Modulus ==> r == t
  {
    t % U32Modulus
  }

  /** `a + b` on `uint32_t`: the mathematical sum, reduced once if it overflows. */
  function Add(a: U32, b: U32): (r: U32)
    ensures a + b < U32Modulus ==> r == a + b
    ensures a + b >= U32Modulus ==> r == a + b - U32Modulus
  {
    (a + b) % U32Modulus
  }

  /** `a - b` on `uint32_t`: the mathematical difference, brought back into
      range by adding 2^32 when it would be negative. */
  function Sub(a: U32, b: U32): (r: U32)
    ensures a >= b ==> r == a - b
    ensures a < b ==> r == a - b + U32Modulus
  {
    (a - b) % U32Modulus
  }

  /** Unsigned subtraction undoes unsigned addition, and the other way round:
      `b + (a - b) == a` and `(b + d) - b == d` in `uint32_t`. The handler
      itself never adds; `Add` exists only to state this inverse. */
  lemma SubAddRoundTrip(a: U32, b: U32, d: U32)
    ensures Add(b, Sub(a, b)) == a
    ensures Sub(Add(b, d), b) == d
  {
  }

  /** Adding a multiple of 2^32 does not change the low 32 bits. */
  lemma {:induction false} TruncateShift(t: U64, k: nat)
    requires t + k * U32Modulus < U64Modulus
    ensures Truncate(t + k * U32Modulus) == Truncate(t)
    decreases k
  {
    if k > 0 {
      TruncateShift(t, k - 1);
      assert t + k * U32Modulus - U32Modulus == t + (k - 1) * U32Modulus;
    }
  }

  /** The wrapped difference of two truncated 64-bit times is the real
      elapsed time reduced modulo 2^32: when less than 2^32 microseconds have
      really passed it is exactly the elapsed time, and otherwise it has
      forgotten every whole 2^32 microseconds. */
  lemma {:induction false} SubOfTruncated(t1: U64, t2: U64)
    requires t1 <= t2
    ensures t2 - t1 < U32Modulus ==> Sub(Truncate(t2), Truncate(t1)) == t2 - t1
    ensures Sub(Truncate(t2), Truncate(t1)) == (t2 - t1) % U32Modulus
  {
    var q1, r1 := t1 / U32Modulus, t1 % U32Modulus;
    var q2, r2 := t2 / U32Modulus, t2 % U32Modulus;
    assert q1 <= q2;
    TruncateShift(r1, q1);
    TruncateShift(r2, q2);
    var d := t2 - t1;
    var dq, dr := d / U32Modulus, d % U32Modulus;
    assert d == (q2 - q1) * U32Modulus + (r2 - r1);
    if r2 >= r1 {
      assert d == (q2 - q1) * U32Modulus + (r2 - r1);
      DivModUnique(d, q2 - q1, r2 - r1);
    } else {
      assert d == (q2 - q1 - 1) * U32Modulus + (r2 - r1 + U32Modulus);
      DivModUnique(d, q2 - q1 - 1, r2 - r1 + U32Modulus);
    }
  }

  /** Euclidean division by 2^32 has exactly one quotient and remainder. */
  lemma DivModUnique(n: int, q: int, r: int)
    requires 0 <= r < U32Modulus
    requires n == q * U32Modulus + r
    ensures n % U32Modulus == r
    ensures n / U32Modulus == q
  {
  }
}
