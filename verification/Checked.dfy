/**
 internal/checked/checked.go: fixed-width arithmetic that reports the end of the
 range it would leave instead of wrapping.

 Every operation is compared with `Exact`, the mathematical result cut to the
 type's range. Only `MulInt64` needs an argument: it multiplies with Go's wrapping
 operator and then asks whether dividing back recovers the factor.
 */
module Checked {
  import opened Machine

  datatype Fault = Overflow | Underflow | OutOfRange

  datatype Outcome = Value(value: int) | Fault(fault: Fault) {
    predicate IsFailure() { Fault? }
    function PropagateFailure(): Outcome requires Fault? { this }
    function Extract(): int requires Value? { value }
  }

  /** The reference: `v` itself inside [lo, hi], otherwise the side it left on. */
  function Exact(lo: int, hi: int, v: int): Outcome {
    if v > hi then Fault(Overflow) else if v < lo then Fault(Underflow) else Value(v)
  }

  function AddUint64(a: uint64, b: uint64): (r: Outcome)
    ensures r == Exact(0, MAX_UINT64, a + b)
  {
    if a > MAX_UINT64 - b then Fault(Overflow) else Value(a + b)
  }

  function SubUint64(a: uint64, b: uint64): (r: Outcome)
    ensures r == Exact(0, MAX_UINT64, a - b)
  {
    if a < b then Fault(Underflow) else Value(a - b)
  }

  function MulUint64(a: uint64, b: uint64): (r: Outcome)
    ensures r == Exact(0, MAX_UINT64, a * b)
  {
    if a == 0 || b == 0 then Value(0)
    else if a > MAX_UINT64 / b then
      QuotientGuard(a, b);
      Fault(Overflow)
    else
      QuotientGuard(a, b);
      Value(a * b)
  }

  lemma QuotientGuard(a: uint64, b: uint64)
    requires a > 0 && b > 0
    ensures a > MAX_UINT64 / b <==> a * b > MAX_UINT64
    ensures a * b >= 0
  {
    var q := MAX_UINT64 / b;
    DivisionBounds(MAX_UINT64, b);
    Scaled(a - q, b);
    Scaled(a - (q + 1), b);
    Scaled(a, b);
    assert (a - q) * b == a * b - b * q;
    assert (a - (q + 1)) * b == a * b - (b * q + b);
  }

  lemma DivisionBounds(n: nat, d: int)
    requires d > 0
    ensures d * (n / d) <= n < d * (n / d) + d
  {
    assert n == d * (n / d) + n % d;
  }

  lemma Scaled(x: int, d: int)
    requires d > 0
    ensures x >= 0 ==> x * d >= 0
    ensures x <= 0 ==> x * d <= 0
  {
  }

  function AddInt64(a: int64, b: int64): (r: Outcome)
    ensures r == Exact(MIN_INT64, MAX_INT64, a + b)
  {
    if b > 0 && a > MAX_INT64 - b then Fault(Overflow)
    else if b < 0 && a < MIN_INT64 - b then Fault(Underflow)
    else Value(a + b)
  }

  function SubInt64(a: int64, b: int64): (r: Outcome)
    ensures r == Exact(MIN_INT64, MAX_INT64, a - b)
  {
    if b < 0 && a > MAX_INT64 + b then Fault(Overflow)
    else if b > 0 && a < MIN_INT64 + b then Fault(Underflow)
    else Value(a - b)
  }

  function MulInt64(a: int64, b: int64): (r: Outcome)
    ensures r == Exact(MIN_INT64, MAX_INT64, a * b)
  {
    if a == 0 || b == 0 then Value(0)
    else if (a == MIN_INT64 && b == -1) || (b == MIN_INT64 && a == -1) then Fault(Overflow)
    else
      var product := WrapInt64(a * b);
      DivisionTest(a, b);
      ProductSide(a, b);
      if QuoInt64(product, b) != a then
        if (a > 0) == (b > 0) then Fault(Overflow) else Fault(Underflow)
      else Value(product)
  }

  /** Dividing the wrapped product back detects every unrepresentable product. */
  lemma DivisionTest(a: int64, b: int64)
    requires a != 0 && b != 0
    requires !(a == MIN_INT64 && b == -1)
    ensures QuoInt64(WrapInt64(a * b), b) == a <==> MIN_INT64 <= a * b <= MAX_INT64
  {
    var wrapped := WrapInt64(a * b);
    var k: int :| wrapped == a * b + k * TWO_64;
    WrappedQuotient(a, b, a * b, wrapped, k);
  }

  /** `product` stands for a * b, so that only its uses below multiply. */
  lemma WrappedQuotient(a: int64, b: int64, product: int, wrapped: int64, k: int)
    requires b != 0 && product == a * b && wrapped == product + k * TWO_64
    requires !(a == MIN_INT64 && b == -1)
    ensures QuoInt64(wrapped, b) == a <==> k == 0
  {
    TruncatedRemainder(wrapped, b);
    QuotientRepresentable(a, b, wrapped, k);
    NearMultiple(a, b, product, wrapped, k, Truncated(wrapped, b));
  }

  /** `q` is `b`'s multiple nearest below `wrapped`, which lies k * 2^64 from a * b. */
  lemma NearMultiple(a: int, b: int64, product: int, wrapped: int, k: int, q: int)
    requires b != 0 && product == a * b && wrapped == product + k * TWO_64
    requires Abs(wrapped - b * q) < Abs(b)
    ensures q == a <==> k == 0
  {
    assert b * (a - q) == product - b * q;
    // k == 0: the remainder is b * (a - q), smaller than b, so q is a.
    Magnitude(b, a - q);
    // q == a: the remainder is k * 2^64, smaller than b, so k is 0.
  }

  lemma QuotientRepresentable(a: int64, b: int64, wrapped: int64, k: int)
    requires b != 0 && wrapped == a * b + k * TWO_64
    requires !(a == MIN_INT64 && b == -1)
    ensures QuoInt64(wrapped, b) == Truncated(wrapped, b)
  {
    var q := Truncated(wrapped, b);
    TruncatedRemainder(wrapped, b);
    if b == -1 {
      assert a * b == -a;
    } else if b != 1 {
      Magnitude(b, q);
    }
  }

  lemma Magnitude(b: int, q: int)
    requires b != 0
    ensures q != 0 ==> Abs(b * q) >= Abs(b)
    ensures Abs(b) >= 2 ==> Abs(b * q) >= 2 * Abs(q)
  {
    AbsProduct(b, q);
    Grows(Abs(b), Abs(q));
  }

  lemma Grows(m: nat, n: nat)
    ensures n >= 1 ==> m * n >= m
    ensures m >= 2 ==> m * n >= 2 * n
  {
    assert m * n == m * (n - 1) + m;
    assert m * n == (m - 2) * n + 2 * n;
    if n >= 1 { assert m * (n - 1) >= 0; }
    if m >= 2 { assert (m - 2) * n >= 0; }
  }

  lemma AbsProduct(b: int, q: int)
    ensures Abs(b * q) == Abs(b) * Abs(q)
  {
    var m: int, n: int := Abs(b), Abs(q);
    assert m * n >= 0;
    assert b * q == if (b < 0) == (q < 0) then m * n else -(m * n);
  }

  lemma ProductSide(a: int, b: int)
    requires a != 0 && b != 0
    ensures (a > 0) == (b > 0) <==> a * b > 0
    ensures a * b != 0
  {
    if a > 0 {
      if b > 0 { assert a * b > 0; } else { assert a * (-b) > 0; }
    } else {
      if b > 0 { assert (-a) * b > 0; } else { assert (-a) * (-b) > 0; }
    }
  }

  function Uint64FromInt64(v: int64): (r: Outcome)
    ensures r == if 0 <= v <= MAX_UINT64 then Value(v) else Fault(OutOfRange)
  {
    if v < 0 then Fault(OutOfRange) else Value(v)
  }

  function Int64FromUint64(v: uint64): (r: Outcome)
    ensures r == if MIN_INT64 <= v <= MAX_INT64 then Value(v) else Fault(OutOfRange)
  {
    if v > MAX_INT64 then Fault(OutOfRange) else Value(v)
  }
}
