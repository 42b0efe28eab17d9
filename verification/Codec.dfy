/**
 The generated codecs of x/coreslot/types: SelectionPolicyVersion, PendingAuthorityTransfer and
 its entry (coreslot.pb.go), and GenesisState (genesis.pb.go).

 The writers fill a buffer backward, from its end to its start; what they leave is the
 forward encoding below. The nested messages of GenesisState whose own codecs are not
 modelled are carried as the bytes of their bodies.
 */
module Codec {
  import opened Machine
  import opened Varint
  import opened Wire
  import opened CoreSlotTypes

  type int32 = x: int | -0x8000_0000 <= x <= 0x7FFF_FFFF

  /** A string field is the bytes of its UTF-8 text. */
  datatype TransferMessage = TransferMessage(nominee: seq<byte>, nominatedHeight: int64)

  datatype EntryMessage = EntryMessage(role: int32, transfer: Option<TransferMessage>)

  datatype GenesisMessage = GenesisMessage(
    params: Option<seq<byte>>,
    slots: seq<seq<byte>>,
    rotations: seq<seq<byte>>,
    reserved: seq<seq<byte>>,
    rewardWeights: seq<seq<byte>>,
    lastApplied: seq<seq<byte>>,
    nextSlotId: uint64,
    policies: seq<Policy>,
    nominations: seq<EntryMessage>
  )

  // ----- Encodings -----

  /** A numeric field; zero is left out. */
  function UintPart(tag: byte, v: uint64): seq<byte> {
    if v == 0 then [] else [tag] + Encode(v)
  }

  /** A length-delimited value. */
  function BodyPart(tag: byte, body: seq<byte>): seq<byte>
    requires |body| <= MAX_INT64
  {
    [tag] + Encode(|body|) + body
  }

  function PolicyBytes(p: Policy): seq<byte> {
    UintPart(0x08, p.slotId) + (UintPart(0x10, p.version) + (UintPart(0x18, p.rate) + PolicyTail(p)))
  }

  /** Fields 4 to 6. */
  function PolicyTail(p: Policy): seq<byte> {
    UintPart(0x20, p.maxParticipants)
    + (UintPart(0x28, Uint64OfInt64(p.validFrom)) + UintPart(0x30, Uint64OfInt64(p.validUntil)))
  }

  function TransferBytes(t: TransferMessage): seq<byte>
    requires |t.nominee| <= MAX_INT64
  {
    (if t.nominee == [] then [] else BodyPart(0x0a, t.nominee)) + UintPart(0x10, Uint64OfInt64(t.nominatedHeight))
  }

  /** Every body of the entry is short enough for a Go length. */
  predicate Encodable(e: EntryMessage) {
    e.transfer.Some? ==> |e.transfer.value.nominee| <= MAX_INT64 && |TransferBytes(e.transfer.value)| <= MAX_INT64
  }

  function EntryBytes(e: EntryMessage): seq<byte>
    requires Encodable(e)
  {
    UintPart(0x08, Uint64OfInt64(e.role))
    + (if e.transfer.None? then [] else BodyPart(0x12, TransferBytes(e.transfer.value)))
  }

  predicate Bounded(bodies: seq<seq<byte>>) {
    forall i :: 0 <= i < |bodies| ==> |bodies[i]| <= MAX_INT64
  }

  /** A repeated field, its elements in order. */
  function RepeatedPart(tag: byte, bodies: seq<seq<byte>>): seq<byte>
    requires Bounded(bodies)
  {
    if bodies == [] then [] else BodyPart(tag, bodies[0]) + RepeatedPart(tag, bodies[1..])
  }

  function PolicyBodies(ps: seq<Policy>): seq<seq<byte>> {
    seq(|ps|, i requires 0 <= i < |ps| => PolicyBytes(ps[i]))
  }

  predicate AllEncodable(es: seq<EntryMessage>) {
    forall i :: 0 <= i < |es| ==> Encodable(es[i])
  }

  function EntryBodies(es: seq<EntryMessage>): seq<seq<byte>>
    requires AllEncodable(es)
  {
    seq(|es|, i requires 0 <= i < |es| => EntryBytes(es[i]))
  }

  /** Every body of the document is short enough for a Go length. */
  predicate GenesisEncodable(g: GenesisMessage) {
    && (g.params.Some? ==> |g.params.value| <= MAX_INT64)
    && Bounded(g.slots) && Bounded(g.rotations) && Bounded(g.reserved) && Bounded(g.rewardWeights)
    && Bounded(g.lastApplied)
    && Bounded(PolicyBodies(g.policies)) && AllEncodable(g.nominations) && Bounded(EntryBodies(g.nominations))
  }

  /** The document without its first six fields, which are all nested messages. */
  function GenesisTail(g: GenesisMessage): seq<byte>
    requires GenesisEncodable(g)
  {
    UintPart(0x38, g.nextSlotId) + (RepeatedPart(0x42, PolicyBodies(g.policies))
        + RepeatedPart(0x4a, EntryBodies(g.nominations)))
  }

  function GenesisBytes(g: GenesisMessage): seq<byte>
    requires GenesisEncodable(g)
  {
    (if g.params.None? then [] else BodyPart(0x0a, g.params.value))
    + (RepeatedPart(0x12, g.slots) + (RepeatedPart(0x1a, g.rotations) + (RepeatedPart(0x22, g.reserved)
    + (RepeatedPart(0x2a, g.rewardWeights) + (RepeatedPart(0x32, g.lastApplied) + GenesisTail(g))))))
  }

  // ----- Sizes -----

  function SizedUint(v: uint64): int {
    if v == 0 then 0 else 1 + Sov(v)
  }

  lemma UintSizeExact(tag: byte, v: uint64)
    ensures |UintPart(tag, v)| == SizedUint(v)
  {
    SovIsLength(v);
  }

  function SizedBody(length: uint64): int {
    1 + length + Sov(length)
  }

  lemma SizedBodyExact(tag: byte, body: seq<byte>)
    requires |body| <= MAX_INT64
    ensures |BodyPart(tag, body)| == SizedBody(|body|)
  {
    SovIsLength(|body|);
  }

  function PolicySize(p: Policy): int {
    SizedUint(p.slotId) + SizedUint(p.version) + SizedUint(p.rate) + SizedUint(p.maxParticipants)
    + SizedUint(Uint64OfInt64(p.validFrom)) + SizedUint(Uint64OfInt64(p.validUntil))
  }

  lemma PolicySizeExact(p: Policy)
    ensures PolicySize(p) == |PolicyBytes(p)|
  {
    hide Sov, Encode;
    UintSizeExact(0x08, p.slotId);
    UintSizeExact(0x10, p.version);
    UintSizeExact(0x18, p.rate);
    UintSizeExact(0x20, p.maxParticipants);
    UintSizeExact(0x28, Uint64OfInt64(p.validFrom));
    UintSizeExact(0x30, Uint64OfInt64(p.validUntil));
  }

  function TransferSize(t: TransferMessage): int
    requires |t.nominee| <= MAX_INT64
  {
    (if t.nominee == [] then 0 else SizedBody(|t.nominee|)) + SizedUint(Uint64OfInt64(t.nominatedHeight))
  }

  lemma TransferSizeExact(t: TransferMessage)
    requires |t.nominee| <= MAX_INT64
    ensures TransferSize(t) == |TransferBytes(t)|
  {
    hide Sov, Encode;
    SizedBodyExact(0x0a, t.nominee);
    UintSizeExact(0x10, Uint64OfInt64(t.nominatedHeight));
  }

  function EntrySize(e: EntryMessage): int
    requires Encodable(e)
  {
    SizedUint(Uint64OfInt64(e.role))
    + (if e.transfer.None? then 0 else SizedBody(|TransferBytes(e.transfer.value)|))
  }

  lemma EntrySizeExact(e: EntryMessage)
    requires Encodable(e)
    ensures EntrySize(e) == |EntryBytes(e)|
  {
    hide Sov, Encode, TransferBytes;
    UintSizeExact(0x08, Uint64OfInt64(e.role));
    if e.transfer.Some? { SizedBodyExact(0x12, TransferBytes(e.transfer.value)); }
  }

  /** The size loop of a repeated field. */
  function RepeatedSize(bodies: seq<seq<byte>>): int
    requires Bounded(bodies)
  {
    if bodies == [] then 0 else SizedBody(|bodies[0]|) + RepeatedSize(bodies[1..])
  }

  lemma {:induction false} RepeatedSizeExact(tag: byte, bodies: seq<seq<byte>>)
    requires Bounded(bodies)
    ensures RepeatedSize(bodies) == |RepeatedPart(tag, bodies)|
    decreases |bodies|
  {
    hide SizedBody, BodyPart;
    if bodies != [] {
      SizedBodyExact(tag, bodies[0]);
      RepeatedSizeExact(tag, bodies[1..]);
    }
  }

  function GenesisSize(g: GenesisMessage): int
    requires GenesisEncodable(g)
  {
    (if g.params.None? then 0 else SizedBody(|g.params.value|))
    + RepeatedSize(g.slots) + RepeatedSize(g.rotations) + RepeatedSize(g.reserved) + RepeatedSize(g.rewardWeights)
    + RepeatedSize(g.lastApplied) + SizedUint(g.nextSlotId) + RepeatedSize(PolicyBodies(g.policies))
    + RepeatedSize(EntryBodies(g.nominations))
  }

  lemma GenesisSizeExact(g: GenesisMessage)
    requires GenesisEncodable(g)
    ensures GenesisSize(g) == |GenesisBytes(g)|
  {
    hide SizedBody, BodyPart, RepeatedPart, RepeatedSize, SizedUint, UintPart, Bounded, PolicyBodies, EntryBodies,
      AllEncodable;
    if g.params.Some? { SizedBodyExact(0x0a, g.params.value); }
    RepeatedSizeExact(0x12, g.slots);
    RepeatedSizeExact(0x1a, g.rotations);
    RepeatedSizeExact(0x22, g.reserved);
    RepeatedSizeExact(0x2a, g.rewardWeights);
    RepeatedSizeExact(0x32, g.lastApplied);
    UintSizeExact(0x38, g.nextSlotId);
    RepeatedSizeExact(0x42, PolicyBodies(g.policies));
    RepeatedSizeExact(0x4a, EntryBodies(g.nominations));
  }

  // ----- The writers -----

  /** The buffer with `part` written just before `hi`, and nothing else changed. */
  ghost predicate WroteBefore(before: seq<byte>, after: seq<byte>, hi: nat, part: seq<byte>) {
    && |part| <= hi <= |before|
    && after == before[..hi - |part|] + part + before[hi..]
  }

  /** Two adjacent writes are one. */
  lemma WroteTwice(a: seq<byte>, b: seq<byte>, c: seq<byte>, hi: nat, last: seq<byte>, first: seq<byte>)
    requires WroteBefore(a, b, hi, last) && WroteBefore(b, c, hi - |last|, first)
    ensures WroteBefore(a, c, hi, first + last)
  {
    var mid := hi - |last|;
    assert b[mid..] == last + a[hi..];
    assert b[..mid - |first|] == a[..mid - |first|];
  }

  lemma WroteNothing(a: seq<byte>, hi: nat)
    requires hi <= |a|
    ensures WroteBefore(a, a, hi, [])
  {
  }

  method PutByte(buf: array<byte>, hi: nat, b: byte) returns (lo: nat)
    requires 1 <= hi <= buf.Length
    modifies buf
    ensures lo == hi - 1 && WroteBefore(old(buf[..]), buf[..], hi, [b])
  {
    lo := hi - 1;
    buf[lo] := b;
  }

  method PutBytes(buf: array<byte>, hi: nat, data: seq<byte>) returns (lo: nat)
    requires |data| <= hi <= buf.Length
    modifies buf
    ensures lo == hi - |data| && WroteBefore(old(buf[..]), buf[..], hi, data)
  {
    lo := hi - |data|;
    for n := 0 to |data|
      invariant buf[..] == old(buf[..lo]) + data[..n] + old(buf[lo + n..])
    {
      assert data[..n + 1] == data[..n] + [data[n]];
      buf[lo + n] := data[n];
    }
    assert data[..|data|] == data;
  }

  method PutVarintBefore(buf: array<byte>, hi: nat, v: uint64) returns (lo: nat)
    requires |Encode(v)| <= hi <= buf.Length
    modifies buf
    ensures lo == hi - |Encode(v)| && WroteBefore(old(buf[..]), buf[..], hi, Encode(v))
  {
    hide Encode;
    lo := PutVarint(buf, hi, v);
    assert old(buf[..])[..lo] == old(buf[..lo]) && old(buf[..])[hi..] == old(buf[hi..]);
  }

  method PutUint(buf: array<byte>, hi: nat, tag: byte, v: uint64) returns (lo: nat)
    requires |UintPart(tag, v)| <= hi <= buf.Length
    modifies buf
    ensures lo == hi - |UintPart(tag, v)| && WroteBefore(old(buf[..]), buf[..], hi, UintPart(tag, v))
  {
    hide Encode, WroteBefore;
    lo := hi;
    WroteNothing(buf[..], hi);
    if v != 0 {
      lo := PutVarintBefore(buf, lo, v);
      label valued:
      lo := PutByte(buf, lo, tag);
      WroteTwice(old(buf[..]), old@valued(buf[..]), buf[..], hi, Encode(v), [tag]);
    }
  }

  /** Tag and length of a body already written just before `mid`. */
  method PutHeader(buf: array<byte>, mid: nat, tag: byte, length: uint64) returns (lo: nat)
    requires 1 + |Encode(length)| <= mid <= buf.Length
    modifies buf
    ensures lo == mid - 1 - |Encode(length)| && WroteBefore(old(buf[..]), buf[..], mid, [tag] + Encode(length))
  {
    hide Encode, WroteBefore;
    lo := PutVarintBefore(buf, mid, length);
    label sized:
    lo := PutByte(buf, lo, tag);
    WroteTwice(old(buf[..]), old@sized(buf[..]), buf[..], mid, Encode(length), [tag]);
  }

  method PutPolicyTail(buf: array<byte>, hi: nat, p: Policy) returns (lo: nat)
    requires |PolicyTail(p)| <= hi <= buf.Length
    modifies buf
    ensures lo == hi - |PolicyTail(p)| && WroteBefore(old(buf[..]), buf[..], hi, PolicyTail(p))
  {
    hide UintPart, WroteBefore;
    var f6, f5 := UintPart(0x30, Uint64OfInt64(p.validUntil)), UintPart(0x28, Uint64OfInt64(p.validFrom));
    lo := PutUint(buf, hi, 0x30, Uint64OfInt64(p.validUntil));
    label six:
    lo := PutUint(buf, lo, 0x28, Uint64OfInt64(p.validFrom));
    WroteTwice(old(buf[..]), old@six(buf[..]), buf[..], hi, f6, f5);
    label five:
    lo := PutUint(buf, lo, 0x20, p.maxParticipants);
    WroteTwice(old(buf[..]), old@five(buf[..]), buf[..], hi, f5 + f6, UintPart(0x20, p.maxParticipants));
  }

  method PutPolicy(buf: array<byte>, hi: nat, p: Policy) returns (lo: nat)
    requires |PolicyBytes(p)| <= hi <= buf.Length
    modifies buf
    ensures lo == hi - |PolicyBytes(p)| && WroteBefore(old(buf[..]), buf[..], hi, PolicyBytes(p))
  {
    hide UintPart, WroteBefore, PolicyTail;
    var f3, f2, tail := UintPart(0x18, p.rate), UintPart(0x10, p.version), PolicyTail(p);
    lo := PutPolicyTail(buf, hi, p);
    label four:
    lo := PutUint(buf, lo, 0x18, p.rate);
    WroteTwice(old(buf[..]), old@four(buf[..]), buf[..], hi, tail, f3);
    label three:
    lo := PutUint(buf, lo, 0x10, p.version);
    WroteTwice(old(buf[..]), old@three(buf[..]), buf[..], hi, f3 + tail, f2);
    label two:
    lo := PutUint(buf, lo, 0x08, p.slotId);
    WroteTwice(old(buf[..]), old@two(buf[..]), buf[..], hi, f2 + (f3 + tail), UintPart(0x08, p.slotId));
  }

  method PutTransfer(buf: array<byte>, hi: nat, t: TransferMessage) returns (lo: nat)
    requires |t.nominee| <= MAX_INT64 && |TransferBytes(t)| <= hi <= buf.Length
    modifies buf
    ensures lo == hi - |TransferBytes(t)| && WroteBefore(old(buf[..]), buf[..], hi, TransferBytes(t))
  {
    hide UintPart, WroteBefore, BodyPart;
    ghost var height := UintPart(0x10, Uint64OfInt64(t.nominatedHeight));
    lo := PutUint(buf, hi, 0x10, Uint64OfInt64(t.nominatedHeight));
    if |t.nominee| > 0 {
      label heightDone:
      lo := PutBody(buf, lo, 0x0a, t.nominee);
      WroteTwice(old(buf[..]), old@heightDone(buf[..]), buf[..], hi, height, BodyPart(0x0a, t.nominee));
    } else {
      assert TransferBytes(t) == height;
    }
  }

  method PutEntry(buf: array<byte>, hi: nat, e: EntryMessage) returns (lo: nat)
    requires Encodable(e) && |EntryBytes(e)| <= hi <= buf.Length
    modifies buf
    ensures lo == hi - |EntryBytes(e)| && WroteBefore(old(buf[..]), buf[..], hi, EntryBytes(e))
  {
    hide UintPart, WroteBefore, Encode, TransferBytes;
    lo := hi;
    var role := UintPart(0x08, Uint64OfInt64(e.role));
    WroteNothing(buf[..], hi);
    ghost var written: seq<byte> := [];
    if e.transfer.Some? {
      ghost var body := TransferBytes(e.transfer.value);
      lo := PutTransfer(buf, hi, e.transfer.value);
      label nested:
      var size := hi - lo;
      lo := PutHeader(buf, lo, 0x12, size);
      WroteTwice(old(buf[..]), old@nested(buf[..]), buf[..], hi, body, [0x12] + Encode(size));
      written := BodyPart(0x12, body);
    }
    label transferred:
    lo := PutUint(buf, lo, 0x08, Uint64OfInt64(e.role));
    WroteTwice(old(buf[..]), old@transferred(buf[..]), buf[..], hi, written, role);
  }

  /** One body with its tag and length. */
  method PutBody(buf: array<byte>, hi: nat, tag: byte, body: seq<byte>) returns (lo: nat)
    requires |body| <= MAX_INT64 && |BodyPart(tag, body)| <= hi <= buf.Length
    modifies buf
    ensures lo == hi - |BodyPart(tag, body)| && WroteBefore(old(buf[..]), buf[..], hi, BodyPart(tag, body))
  {
    hide WroteBefore, Encode;
    lo := PutBytes(buf, hi, body);
    label written:
    lo := PutHeader(buf, lo, tag, |body|);
    WroteTwice(old(buf[..]), old@written(buf[..]), buf[..], hi, body, [tag] + Encode(|body|));
  }

  /** The repeated field from its last element back to its first. */
  method PutBodies(buf: array<byte>, hi: nat, tag: byte, bodies: seq<seq<byte>>) returns (lo: nat)
    requires Bounded(bodies) && |RepeatedPart(tag, bodies)| <= hi <= buf.Length
    modifies buf
    ensures lo == hi - |RepeatedPart(tag, bodies)| && WroteBefore(old(buf[..]), buf[..], hi, RepeatedPart(tag, bodies))
  {
    hide WroteBefore, BodyPart, RepeatedPart;
    var i := |bodies|;
    lo := hi;
    WroteNothing(buf[..], hi);
    RepeatedFrom(tag, bodies, i);
    while i > 0
      invariant 0 <= i <= |bodies| && lo == hi - |RepeatedPart(tag, bodies[i..])|
      invariant WroteBefore(old(buf[..]), buf[..], hi, RepeatedPart(tag, bodies[i..]))
    {
      i := i - 1;
      RepeatedFrom(tag, bodies, i);
      label next:
      lo := PutBody(buf, lo, tag, bodies[i]);
      WroteTwice(old(buf[..]), old@next(buf[..]), buf[..], hi, RepeatedPart(tag, bodies[i + 1..]),
          BodyPart(tag, bodies[i]));
    }
    assert bodies[0..] == bodies;
  }

  /** The elements from the `i`th on, and that they fit where all of them do. */
  lemma {:induction false} RepeatedFrom(tag: byte, bodies: seq<seq<byte>>, i: nat)
    requires Bounded(bodies) && i <= |bodies|
    ensures RepeatedPart(tag, bodies[i..]) ==
            if i == |bodies| then [] else BodyPart(tag, bodies[i]) + RepeatedPart(tag, bodies[i + 1..])
    ensures |RepeatedPart(tag, bodies[i..])| <= |RepeatedPart(tag, bodies)|
    decreases i
  {
    hide BodyPart;
    if i < |bodies| { assert bodies[i..][1..] == bodies[i + 1..]; }
    if i == 0 {
      assert bodies[0..] == bodies;
    } else {
      RepeatedFrom(tag, bodies, i - 1);
      assert bodies[i - 1..][1..] == bodies[i..];
      RepeatedShrinks(tag, bodies, i - 1);
    }
  }

  lemma RepeatedShrinks(tag: byte, bodies: seq<seq<byte>>, i: nat)
    requires Bounded(bodies) && i < |bodies|
    ensures |RepeatedPart(tag, bodies[i + 1..])| <= |RepeatedPart(tag, bodies[i..])|
  {
    assert bodies[i..][1..] == bodies[i + 1..];
  }

  /** One element with its tag and length, the element itself written first. */
  method PutPolicyElement(buf: array<byte>, hi: nat, m: Policy) returns (lo: nat)
    requires |PolicyBytes(m)| <= MAX_INT64 && |BodyPart(0x42, PolicyBytes(m))| <= hi <= buf.Length
    modifies buf
    ensures lo == hi - |BodyPart(0x42, PolicyBytes(m))|
    ensures WroteBefore(old(buf[..]), buf[..], hi, BodyPart(0x42, PolicyBytes(m)))
  {
    hide WroteBefore, PolicyBytes, Encode;
    lo := PutPolicy(buf, hi, m);
    label bodied:
    var size := hi - lo;
    lo := PutHeader(buf, lo, 0x42, size);
    WroteTwice(old(buf[..]), old@bodied(buf[..]), buf[..], hi, PolicyBytes(m), [0x42] + Encode(size));
  }

  method PutPolicies(buf: array<byte>, hi: nat, ps: seq<Policy>) returns (lo: nat)
    requires Bounded(PolicyBodies(ps)) && |RepeatedPart(0x42, PolicyBodies(ps))| <= hi <= buf.Length
    modifies buf
    ensures lo == hi - |RepeatedPart(0x42, PolicyBodies(ps))|
    ensures WroteBefore(old(buf[..]), buf[..], hi, RepeatedPart(0x42, PolicyBodies(ps)))
  {
    hide WroteBefore, RepeatedPart, PolicyBytes, BodyPart;
    ghost var bodies := PolicyBodies(ps);
    var i := |ps|;
    lo := hi;
    WroteNothing(buf[..], hi);
    RepeatedFrom(0x42, bodies, i);
    while i > 0
      invariant 0 <= i <= |ps| && lo == hi - |RepeatedPart(0x42, bodies[i..])|
      invariant WroteBefore(old(buf[..]), buf[..], hi, RepeatedPart(0x42, bodies[i..]))
    {
      i := i - 1;
      RepeatedFrom(0x42, bodies, i);
      label next:
      lo := PutPolicyElement(buf, lo, ps[i]);
      WroteTwice(old(buf[..]), old@next(buf[..]), buf[..], hi, RepeatedPart(0x42, bodies[i + 1..]),
          BodyPart(0x42, bodies[i]));
    }
    assert bodies[0..] == bodies;
  }

  /** One element with its tag and length, the element itself written first. */
  method PutEntryElement(buf: array<byte>, hi: nat, m: EntryMessage) returns (lo: nat)
    requires Encodable(m) && |EntryBytes(m)| <= MAX_INT64 && |BodyPart(0x4a, EntryBytes(m))| <= hi <= buf.Length
    modifies buf
    ensures lo == hi - |BodyPart(0x4a, EntryBytes(m))|
    ensures WroteBefore(old(buf[..]), buf[..], hi, BodyPart(0x4a, EntryBytes(m)))
  {
    hide WroteBefore, EntryBytes, Encode;
    lo := PutEntry(buf, hi, m);
    label bodied:
    var size := hi - lo;
    lo := PutHeader(buf, lo, 0x4a, size);
    WroteTwice(old(buf[..]), old@bodied(buf[..]), buf[..], hi, EntryBytes(m), [0x4a] + Encode(size));
  }

  method PutEntries(buf: array<byte>, hi: nat, es: seq<EntryMessage>) returns (lo: nat)
    requires AllEncodable(es) && Bounded(EntryBodies(es)) && |RepeatedPart(0x4a, EntryBodies(es))| <= hi <= buf.Length
    modifies buf
    ensures lo == hi - |RepeatedPart(0x4a, EntryBodies(es))|
    ensures WroteBefore(old(buf[..]), buf[..], hi, RepeatedPart(0x4a, EntryBodies(es)))
  {
    hide WroteBefore, RepeatedPart, EntryBytes, Encodable, BodyPart;
    ghost var bodies := EntryBodies(es);
    var i := |es|;
    lo := hi;
    WroteNothing(buf[..], hi);
    RepeatedFrom(0x4a, bodies, i);
    while i > 0
      invariant 0 <= i <= |es| && lo == hi - |RepeatedPart(0x4a, bodies[i..])|
      invariant WroteBefore(old(buf[..]), buf[..], hi, RepeatedPart(0x4a, bodies[i..]))
    {
      i := i - 1;
      RepeatedFrom(0x4a, bodies, i);
      label next:
      lo := PutEntryElement(buf, lo, es[i]);
      WroteTwice(old(buf[..]), old@next(buf[..]), buf[..], hi, RepeatedPart(0x4a, bodies[i + 1..]),
          BodyPart(0x4a, bodies[i]));
    }
    assert bodies[0..] == bodies;
  }

  /** Fields 7 to 9, the last one first. */
  method PutGenesisTail(buf: array<byte>, hi: nat, g: GenesisMessage) returns (lo: nat)
    requires GenesisEncodable(g) && |GenesisTail(g)| <= hi <= buf.Length
    modifies buf
    ensures lo == hi - |GenesisTail(g)| && WroteBefore(old(buf[..]), buf[..], hi, GenesisTail(g))
  {
    hide WroteBefore, RepeatedPart, UintPart, PolicyBodies, EntryBodies, Bounded, AllEncodable;
    ghost var entries, policies := RepeatedPart(0x4a, EntryBodies(g.nominations)),
        RepeatedPart(0x42, PolicyBodies(g.policies));
    lo := PutEntries(buf, hi, g.nominations);
    label nominated:
    lo := PutPolicies(buf, lo, g.policies);
    WroteTwice(old(buf[..]), old@nominated(buf[..]), buf[..], hi, entries, policies);
    label policed:
    lo := PutUint(buf, lo, 0x38, g.nextSlotId);
    WroteTwice(old(buf[..]), old@policed(buf[..]), buf[..], hi, policies + entries, UintPart(0x38, g.nextSlotId));
  }

  /** One more repeated field before what is already written. */
  method PutBodiesBefore(buf: array<byte>, ghost start: seq<byte>, ghost hi: nat, lo: nat, tag: byte,
      bodies: seq<seq<byte>>, ghost written: seq<byte>) returns (lo': nat)
    requires Bounded(bodies) && |written| + |RepeatedPart(tag, bodies)| <= hi <= buf.Length && lo == hi - |written|
    requires WroteBefore(start, buf[..], hi, written)
    modifies buf
    ensures lo' == hi - |RepeatedPart(tag, bodies) + written|
    ensures WroteBefore(start, buf[..], hi, RepeatedPart(tag, bodies) + written)
  {
    hide WroteBefore, RepeatedPart;
    lo' := PutBodies(buf, lo, tag, bodies);
    WroteTwice(start, old(buf[..]), buf[..], hi, written, RepeatedPart(tag, bodies));
  }

  method PutGenesis(buf: array<byte>, hi: nat, g: GenesisMessage) returns (lo: nat)
    requires GenesisEncodable(g) && |GenesisBytes(g)| <= hi <= buf.Length
    modifies buf
    ensures lo == hi - |GenesisBytes(g)| && WroteBefore(old(buf[..]), buf[..], hi, GenesisBytes(g))
  {
    hide WroteBefore, RepeatedPart, GenesisTail, PolicyBodies, EntryBodies, Bounded, AllEncodable, BodyPart;
    ghost var start, tail := buf[..], GenesisTail(g);
    lo := PutGenesisTail(buf, hi, g);
    lo := PutBodiesBefore(buf, start, hi, lo, 0x32, g.lastApplied, tail);
    tail := RepeatedPart(0x32, g.lastApplied) + tail;
    lo := PutBodiesBefore(buf, start, hi, lo, 0x2a, g.rewardWeights, tail);
    tail := RepeatedPart(0x2a, g.rewardWeights) + tail;
    lo := PutBodiesBefore(buf, start, hi, lo, 0x22, g.reserved, tail);
    tail := RepeatedPart(0x22, g.reserved) + tail;
    lo := PutBodiesBefore(buf, start, hi, lo, 0x1a, g.rotations, tail);
    tail := RepeatedPart(0x1a, g.rotations) + tail;
    lo := PutBodiesBefore(buf, start, hi, lo, 0x12, g.slots, tail);
    tail := RepeatedPart(0x12, g.slots) + tail;
    if g.params.Some? {
      label nested:
      lo := PutBody(buf, lo, 0x0a, g.params.value);
      WroteTwice(start, old@nested(buf[..]), buf[..], hi, tail, BodyPart(0x0a, g.params.value));
    } else {
      assert [] + tail == tail;
    }
  }

  method MarshalGenesis(g: GenesisMessage) returns (data: array<byte>)
    requires GenesisEncodable(g)
    ensures fresh(data) && data[..] == GenesisBytes(g) && data.Length == GenesisSize(g)
  {
    hide GenesisBytes, GenesisSize;
    GenesisSizeExact(g);
    data := new byte[GenesisSize(g)];
    var n := PutGenesis(data, data.Length, g);
    assert data[..] == GenesisBytes(g);
  }

  /** Marshal: a buffer of exactly Size() bytes, filled to its first one. */
  method MarshalPolicy(p: Policy) returns (data: array<byte>)
    ensures fresh(data) && data[..] == PolicyBytes(p) && data.Length == PolicySize(p)
  {
    hide PolicyBytes, PolicySize;
    PolicySizeExact(p);
    data := new byte[PolicySize(p)];
    var n := PutPolicy(data, data.Length, p);
    assert data[..] == PolicyBytes(p);
  }

  method MarshalEntry(e: EntryMessage) returns (data: array<byte>)
    requires Encodable(e)
    ensures fresh(data) && data[..] == EntryBytes(e) && data.Length == EntrySize(e)
  {
    hide EntryBytes, EntrySize;
    EntrySizeExact(e);
    data := new byte[EntrySize(e)];
    var n := PutEntry(data, data.Length, e);
    assert data[..] == EntryBytes(e);
  }
}
