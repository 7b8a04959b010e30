/** The C arithmetic and the error codes that the modelled files share. */
module Machine {

  const U32: int := 0x1_0000_0000
  const UINT_MAX: int := U32 - 1
  const INT64_MAX: int := 0x7FFF_FFFF_FFFF_FFFF
  const NANOSECONDS_PER_SECOND: int := 1_000_000_000

  type Unsigned = n: int | 0 <= n < U32

  /** A C pointer argument that the callee compares with NULL. */
  datatype Ptr<+T> = Null | Ref(val: T)

  datatype Option<+T> = None | Some(value: T)

  datatype Errno = OK | EINVAL | ETIMEDOUT | EAGAIN | EBADF | ENOENT | EEXIST | ENAMETOOLONG | ENOMEM

  /** A wait bound handed to the RTOS: its WAIT constant, or a number of ticks. */
  datatype Timeout = Forever | Ticks(n: Unsigned)

  predicate InInt64(x: int) {
    -INT64_MAX - 1 <= x <= INT64_MAX
  }

  /** C's `/` on signed operands, which truncates towards zero. */
  function TruncDiv(a: int, b: int): int
    requires b > 0
  {
    if a >= 0 then a / b else -((-a) / b)
  }

  /** C's `%` on signed operands, which takes the sign of the dividend. */
  function TruncMod(a: int, b: int): int
    requires b > 0
  {
    a - b * TruncDiv(a, b)
  }

  /** Conversion of a signed value to `unsigned`. */
  function ToUnsigned(x: int): Unsigned {
    x % U32
  }

  /** Conversion of an `unsigned` value to `int` on a two's-complement machine. */
  function ToInt32(x: Unsigned): int {
    if x < 0x8000_0000 then x else x - U32
  }

  /** The quotient rounded up. */
  function CeilDiv(a: int, b: int): int
    requires b > 0
  {
    -((-a) / b)
  }

  lemma DivModBounds(a: int, b: int)
    requires b > 0
    ensures a == (a / b) * b + a % b && 0 <= a % b < b
  {
  }

  lemma CeilDivBounds(a: int, b: int)
    requires b > 0
    ensures a <= CeilDiv(a, b) * b < a + b
  {
    DivModBounds(-a, b);
  }

  lemma MulMonotone(x: int, y: int, b: int)
    requires b >= 0 && x <= y
    ensures x * b <= y * b
  {
    assert (y - x) * b >= 0;
  }

  lemma MultipleWithinOne(d: int, b: int)
    requires b > 0 && -b < d * b < b
    ensures d == 0
  {
    if d >= 1 {
      MulMonotone(1, d, b);
    } else if d <= -1 {
      MulMonotone(d, -1, b);
    }
  }

  /** A quotient is pinned down by the interval its multiple lies in. */
  lemma CeilDivUnique(a: int, b: int, q: int)
    requires b > 0 && a <= q * b < a + b
    ensures q == CeilDiv(a, b)
  {
    var c := CeilDiv(a, b);
    CeilDivBounds(a, b);
    assert (q - c) * b == q * b - c * b;
    MultipleWithinOne(q - c, b);
  }

  lemma DivUnique(a: int, b: int, q: int)
    requires b > 0 && q * b <= a < q * b + b
    ensures q == a / b
  {
    DivModBounds(a, b);
    assert (q - a / b) * b == q * b - (a / b) * b;
    MultipleWithinOne(q - a / b, b);
  }

  lemma CeilDivMonotone(a: int, a': int, b: int)
    requires b > 0 && a <= a'
    ensures CeilDiv(a, b) <= CeilDiv(a', b)
  {
    CeilDivBounds(a, b);
    CeilDivBounds(a', b);
    var d := CeilDiv(a, b) - CeilDiv(a', b);
    assert d * b == CeilDiv(a, b) * b - CeilDiv(a', b) * b;
    if d >= 1 {
      MulMonotone(1, d, b);
    }
  }

  /** Truncation plus one when there is a remainder rounds a non-negative quotient up. */
  lemma TruncRoundsUp(a: int, b: int)
    requires a >= 0 && b > 0
    ensures TruncDiv(a, b) + (if TruncMod(a, b) != 0 then 1 else 0) == CeilDiv(a, b)
  {
    DivModBounds(a, b);
    var q := TruncDiv(a, b) + (if TruncMod(a, b) != 0 then 1 else 0);
    assert TruncMod(a, b) == a % b by {
      assert b * (a / b) == (a / b) * b;
    }
    assert q * b == (a / b) * b + (if a % b != 0 then b else 0);
    CeilDivUnique(a, b, q);
  }
}
