/**
 The base-128 varints of x/coreslot/types/coreslot.pb.go: encodeVarintCoreslot, sovCoreslot
 and the shift loop every parser opens with ("Base 128 Varints" of the Protocol Buffers
 encoding specification).
 */
module Varint {
  import opened Machine

  type byte = x: int | 0 <= x < 256

  /** What the wire format's readers fail with. */
  datatype WireError =
    IntOverflow | UnexpectedEOF | InvalidLength | EndOfGroup | IllegalTag | WrongType | IllegalWireType

  datatype Parse<+T> = Parsed(value: T, next: nat) | Failed(error: WireError)

  /** Seven bits to a byte, low bits first, the top bit on every byte but the last. */
  function Encode(v: uint64): (s: seq<byte>)
    ensures |s| >= 1
  {
    if v < 128 then [v] else [v % 128 + 128] + Encode(v / 128)
  }

  /** bits.Len64. */
  function BitLength(v: uint64): nat {
    if v == 0 then 0 else 1 + BitLength(v / 2)
  }

  /** sovCoreslot: the encoded size, computed from the bit length of `x | 1`. */
  function Sov(x: uint64): int {
    (BitLength(if x % 2 == 0 then x + 1 else x) + 6) / 7
  }

  lemma SevenBits(v: uint64)
    requires v >= 128
    ensures BitLength(v) == BitLength(v / 128) + 7
  {
    var v1: uint64 := v / 2;
    var v2: uint64 := v1 / 2;
    var v3: uint64 := v2 / 2;
    var v4: uint64 := v3 / 2;
    var v5: uint64 := v4 / 2;
    var v6: uint64 := v5 / 2;
    assert v6 / 2 == v / 128;
    assert BitLength(v) == 1 + BitLength(v1) && BitLength(v1) == 1 + BitLength(v2);
    assert BitLength(v2) == 1 + BitLength(v3);
    assert BitLength(v3) == 1 + BitLength(v4) && BitLength(v4) == 1 + BitLength(v5);
    assert BitLength(v5) == 1 + BitLength(v6);
    assert BitLength(v6) == 1 + BitLength(v6 / 2);
  }

  lemma FewBits(v: uint64)
    requires v < 128
    ensures BitLength(v) <= 7 && (v >= 1 ==> BitLength(v) >= 1)
  {
    var v1: uint64 := v / 2;
    var v2: uint64 := v1 / 2;
    var v3: uint64 := v2 / 2;
    var v4: uint64 := v3 / 2;
    var v5: uint64 := v4 / 2;
    var v6: uint64 := v5 / 2;
    assert v6 <= 1 && BitLength(v6) <= 1;
    assert BitLength(v3) <= 1 + BitLength(v4) && BitLength(v4) <= 1 + BitLength(v5);
    assert BitLength(v5) <= 1 + BitLength(v6);
    assert BitLength(v) <= 1 + BitLength(v1) && BitLength(v1) <= 1 + BitLength(v2);
    assert BitLength(v2) <= 1 + BitLength(v3);
  }

  lemma LowBitIsFree(v: uint64)
    requires v >= 2 && v % 2 == 0
    ensures BitLength(v + 1) == BitLength(v)
  {
    assert (v + 1) / 2 == v / 2;
  }

  /** The size formula is exact. */
  lemma {:induction false} SovIsLength(v: uint64)
    ensures Sov(v) == |Encode(v)|
    decreases v
  {
    if v < 128 {
      FewBits(if v % 2 == 0 then v + 1 else v);
    } else {
      SovIsLength(v / 128);
      SevenBits(v);
      if v % 2 == 0 { LowBitIsFree(v); }
      if (v / 128) % 2 == 0 && v / 128 >= 2 { LowBitIsFree(v / 128); }
    }
  }

  function Power(k: nat): nat {
    if k == 0 then 1 else 128 * Power(k - 1)
  }

  lemma {:induction false} PowerPositive(k: nat)
    ensures Power(k) >= 1
  {
    if k > 0 { PowerPositive(k - 1); }
  }

  /** One byte's seven bits at position `k` of a 64-bit word; the tenth byte keeps one of them. */
  function Shifted(b: byte, k: nat): uint64 {
    (b % 128) * Power(k) % TWO_64
  }

  /** The shift loop from byte `k` on, with what the earlier bytes gave. */
  function DecodeFrom(s: seq<byte>, i: nat, k: nat, acc: nat): (r: Parse<nat>)
    requires k <= 10
    ensures r.Parsed? ==> i < r.next <= |s|
    decreases 10 - k
  {
    if k == 10 then Failed(IntOverflow)
    else if i >= |s| then Failed(UnexpectedEOF)
    else
      var acc' := acc + Shifted(s[i], k);
      if s[i] < 128 then Parsed(acc', i + 1) else DecodeFrom(s, i + 1, k + 1, acc')
  }

  function Decode(s: seq<byte>, i: nat): (r: Parse<nat>)
    ensures r.Parsed? ==> i < r.next <= |s| && r.value < TWO_64
  {
    DecodedFits(s, i, 0, 0);
    DecodeFrom(s, i, 0, 0)
  }

  lemma {:induction false} PowerStep(k: nat)
    ensures Power(k + 1) == 128 * Power(k) && Power(k) >= 1
  {
    PowerPositive(k);
  }

  /** Nine bytes of seven bits leave one bit of the word for the tenth. */
  lemma PowerNine()
    ensures Power(9) == TWO_63
  {
    PowerStep(0);
    PowerStep(1);
    PowerStep(2);
    PowerStep(3);
    PowerStep(4);
    PowerStep(5);
    PowerStep(6);
    PowerStep(7);
    PowerStep(8);
  }

  lemma {:induction false} PowerBelow(k: nat, n: nat)
    requires k <= n
    ensures Power(k) <= Power(n)
    decreases n - k
  {
    if k < n {
      PowerPositive(k);
      PowerBelow(k + 1, n);
    }
  }

  /** `s` holds the bytes `t` at `i`. */
  ghost predicate At(s: seq<byte>, i: nat, t: seq<byte>) {
    i + |t| <= |s| && s[i..i + |t|] == t
  }

  lemma AtHead(s: seq<byte>, i: nat, t: seq<byte>)
    requires At(s, i, t) && t != []
    ensures s[i] == t[0] && At(s, i + 1, t[1..])
  {
    assert s[i..i + |t|][0] == s[i];
    assert s[i + 1..i + |t|] == s[i..i + |t|][1..];
  }

  /** What is left of a value after `k` bytes fits the bits left of the word. */
  lemma {:induction false} DecodeRest(s: seq<byte>, i: nat, k: nat, acc: nat, v: uint64)
    requires k <= 9 && At(s, i, Encode(v)) && acc < Power(k) && acc + v * Power(k) < TWO_64
    ensures DecodeFrom(s, i, k, acc) == Parsed(acc + v * Power(k), i + |Encode(v)|)
    decreases v
  {
    hide At, Power, Shifted;
    AtHead(s, i, Encode(v));
    if v < 128 {
      Fits(v, k, acc);
    } else {
      Peel(v, k, acc);
      assert Encode(v)[1..] == Encode(v / 128);
      DecodeRest(s, i + 1, k + 1, acc + Shifted(s[i], k), v / 128);
    }
  }

  /** One byte taken off the low end. */
  lemma Peel(v: uint64, k: nat, acc: nat)
    requires v >= 128 && k <= 9 && acc < Power(k) && acc + v * Power(k) < TWO_64
    ensures k <= 8
    ensures var acc' := acc + Shifted(v % 128 + 128, k);
            acc' < Power(k + 1) && acc' + (v / 128) * Power(k + 1) == acc + v * Power(k)
  {
    hide Power, Shifted;
    var low, high: nat, p := v % 128, v / 128, Power(k);
    PowerStep(k);
    SplitProduct(v, p);
    Fits(low, k, acc);
    NinthByteLast(k, high);
  }

  lemma SplitProduct(v: nat, p: nat)
    ensures v * p == (v % 128) * p + (v / 128) * (128 * p)
    ensures 0 <= (v % 128) * p <= 127 * p && 0 <= (v / 128) * (128 * p)
  {
    assert v == v % 128 + 128 * (v / 128);
    Distribute(v % 128, v / 128, p);
  }

  lemma Distribute(low: nat, high: nat, p: nat)
    requires low <= 127
    ensures (low + 128 * high) * p == low * p + high * (128 * p)
    ensures low * p <= 127 * p && 0 <= high * (128 * p)
  {
  }

  lemma Fits(low: int, k: nat, acc: nat)
    requires 0 <= low < 128 && acc + low * Power(k) < TWO_64
    ensures Shifted(low, k) == low * Power(k) && Shifted(low + 128, k) == low * Power(k)
  {
    PowerPositive(k);
    assert low * Power(k) >= 0;
  }

  /** A tenth byte with more to come would not fit the word. */
  lemma NinthByteLast(k: nat, high: nat)
    requires k <= 9 && high >= 1 && high * Power(k + 1) < TWO_64
    ensures k <= 8
  {
    hide Power;
    PowerNine();
    PowerStep(9);
    PowerPositive(k + 1);
    assert high * Power(k + 1) >= Power(k + 1);
  }

  /** Reading back what was written. */
  lemma DecodeEncoded(s: seq<byte>, i: nat, v: uint64)
    requires At(s, i, Encode(v))
    ensures Decode(s, i) == Parsed(v, i + |Encode(v)|)
  {
    DecodeRest(s, i, 0, 0, v);
  }

  /** The loop's `|=` never meets a set bit: a sum of shifted bytes, and never beyond 64 bits. */
  lemma {:induction false} DecodedFits(s: seq<byte>, i: nat, k: nat, acc: nat)
    requires k <= 10 && acc < TWO_64 && (k <= 9 ==> acc < Power(k))
    ensures DecodeFrom(s, i, k, acc).Parsed? ==> DecodeFrom(s, i, k, acc).value < TWO_64
    decreases 10 - k
  {
    hide Power, Shifted;
    if k < 10 && i < |s| {
      PowerStep(k);
      StaysBelow(s[i], k, acc);
      if s[i] >= 128 { DecodedFits(s, i + 1, k + 1, acc + Shifted(s[i], k)); }
    }
  }

  lemma StaysBelow(b: byte, k: nat, acc: nat)
    requires k <= 9 && acc < Power(k)
    ensures k <= 8 ==> acc + Shifted(b, k) < Power(k + 1)
    ensures acc + Shifted(b, k) < TWO_64
  {
    PowerStep(k);
    PowerNine();
    var n := b % 128;
    assert n * Power(k) <= 127 * Power(k);
    if k <= 8 {
      PowerBelow(k + 1, 9);
      assert Shifted(b, k) == n * Power(k);
    } else {
      assert n * TWO_63 % TWO_64 == (n % 2) * TWO_63 by {
        assert n == 2 * (n / 2) + n % 2;
        assert n * TWO_63 == (n / 2) * TWO_64 + (n % 2) * TWO_63;
      }
    }
  }

  // ----- The loops -----

  /** encodeVarintCoreslot: forward from the base it backs up to. */
  method PutVarint(buf: array<byte>, offset: nat, v: uint64) returns (base: nat)
    requires |Encode(v)| <= offset <= buf.Length
    modifies buf
    ensures base == offset - |Encode(v)|
    ensures buf[..] == old(buf[..base]) + Encode(v) + old(buf[offset..])
  {
    SovIsLength(v);
    base := offset - Sov(v);
    hide Sov, Encode;
    var at, rest := base, v;
    ghost var front, done: seq<byte> := buf[..base], [];
    while rest >= 128
      invariant base <= at < offset && at + |Encode(rest)| == offset
      invariant done + Encode(rest) == Encode(v) && buf[..at] == front + done
      invariant buf[offset..] == old(buf[offset..])
    {
      EncodeSplits(rest);
      var b := rest % 128 + 128;
      Moves(done, b, Encode(rest / 128));
      Extends(front, done, b);
      SetByte(buf, at, b);
      done := done + [b];
      rest := rest / 128;
      at := at + 1;
    }
    EncodeSplits(rest);
    Extends(front, done, rest);
    SetByte(buf, at, rest);
    assert buf[..] == buf[..offset] + buf[offset..];
  }

  /** One byte after those already written. */
  method SetByte(buf: array<byte>, at: nat, b: byte)
    requires at < buf.Length
    modifies buf
    ensures buf[..at + 1] == old(buf[..at]) + [b]
    ensures forall k :: at < k <= buf.Length ==> buf[k..] == old(buf[k..])
  {
    buf[at] := b;
  }

  lemma Moves(done: seq<byte>, b: byte, rest: seq<byte>)
    ensures done + ([b] + rest) == (done + [b]) + rest
  {
  }

  lemma Extends(front: seq<byte>, done: seq<byte>, b: byte)
    ensures front + done + [b] == front + (done + [b])
  {
  }

  lemma EncodeSplits(v: uint64)
    ensures Encode(v) == if v < 128 then [v] else [v % 128 + 128] + Encode(v / 128)
  {
  }

  /** The shift loop. */
  method GetVarint(s: seq<byte>, i: nat) returns (r: Parse<nat>)
    ensures r == Decode(s, i)
  {
    var at: nat, k: nat, acc: nat := i, 0, 0;
    while true
      invariant k <= 10 && DecodeFrom(s, at, k, acc) == Decode(s, i)
      decreases 10 - k
    {
      if k >= 10 { return Failed(IntOverflow); }
      if at >= |s| { return Failed(UnexpectedEOF); }
      var b := s[at];
      at := at + 1;
      acc := acc + Shifted(b, k);
      if b < 128 { return Parsed(acc, at); }
      k := k + 1;
    }
  }
}
