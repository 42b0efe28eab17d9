/**
 Go's fixed-width integers, on Dafny's unbounded `int`.

 The state machine mixes three kinds of arithmetic: checked operations (module
 Checked), plain Go operators that wrap around, and conversions between the two
 64-bit types. The wrapping ones are spelled out here.
 */
module Machine {
  const TWO_63: int := 0x8000_0000_0000_0000
  const TWO_64: int := 0x1_0000_0000_0000_0000
  const MAX_INT64: int := TWO_63 - 1
  const MIN_INT64: int := -TWO_63
  const MAX_UINT64: int := TWO_64 - 1

  type int64 = x: int | MIN_INT64 <= x <= MAX_INT64
  type uint64 = x: int | 0 <= x <= MAX_UINT64

  /** The int64 with the same low 64 bits as `x`: what Go's wrapping `+`, `-` and `*` leave. */
  function WrapInt64(x: int): (r: int64)
    ensures MIN_INT64 <= x <= MAX_INT64 ==> r == x
    ensures exists k: int :: r == x + k * TWO_64
  {
    var m := x % TWO_64;
    assert m == x + (-(x / TWO_64)) * TWO_64;
    if m >= TWO_63 then
      assert m - TWO_64 == x + (-(x / TWO_64) - 1) * TWO_64;
      m - TWO_64
    else m
  }

  /** Go's conversion `int64(x)` of a uint64. */
  function Int64OfUint64(x: uint64): (r: int64)
    ensures x <= MAX_INT64 ==> r == x
    ensures x > MAX_INT64 ==> r == x - TWO_64
  {
    if x <= MAX_INT64 then x else x - TWO_64
  }

  /** Go's conversion `uint64(x)` of an int64. */
  function Uint64OfInt64(x: int64): (r: uint64)
    ensures Int64OfUint64(r) == x
  {
    if x < 0 then x + TWO_64 else x
  }

  /** Division truncated toward zero, on the mathematical integers. */
  function Truncated(x: int, y: int): int
    requires y != 0
  {
    var q := Abs(x) / Abs(y);
    if (x >= 0) == (y > 0) then q else -q
  }

  /** The remainder of the truncated division is smaller than the divisor and leans toward `x`. */
  lemma TruncatedRemainder(x: int, y: int)
    requires y != 0
    ensures Abs(x - y * Truncated(x, y)) < Abs(y)
    ensures Abs(y * Truncated(x, y)) <= Abs(x)
  {
    var n: int, d: int := Abs(x), Abs(y);
    var q: int := n / d;
    assert n == d * q + n % d;
    assert d * q >= 0;
    SignedProduct(y, q);
  }

  lemma SignedProduct(y: int, q: int)
    ensures y * q == (if y > 0 then Abs(y) * q else -(Abs(y) * q))
    ensures y * -q == -(y * q)
  {
  }

  function Abs(x: int): nat {
    if x < 0 then -x else x
  }

  /** Go's int64 operator `/`: truncated, and wrapping in its one unrepresentable case. */
  function QuoInt64(x: int64, y: int64): int64
    requires y != 0
  {
    WrapInt64(Truncated(x, y))
  }
}
