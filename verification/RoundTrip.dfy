/**
 The parsers of the messages in Codec, and that each reads back what its writer wrote, with any
 fields it does not know after it.
 */
module RoundTrip {
  import opened Machine
  import opened Varint
  import opened Wire
  import opened Codec
  import opened CoreSlotTypes

  // ----- The switches -----

  function PolicySchema(num: int): Kind {
    if 1 <= num <= 6 then VarintField else NotAField
  }

  function ApplyPolicy(m: Policy, f: Field): Applied<Policy> {
    match f
    case Num(num, v) =>
      if num == 1 then Done(m.(slotId := v))
      else if num == 2 then Done(m.(version := v))
      else if num == 3 then Done(m.(rate := v))
      else if num == 4 then Done(m.(maxParticipants := v))
      else if num == 5 then Done(m.(validFrom := Int64OfUint64(v)))
      else if num == 6 then Done(m.(validUntil := Int64OfUint64(v)))
      else Done(m)
    case Data(_, _) => Done(m)
    case Skipped => Done(m)
  }

  const NO_POLICY := Policy(0, 0, 0, 0, 0, 0)

  function ParsePolicy(s: seq<byte>): Applied<Policy> {
    UnmarshalFrom(PolicySchema, ApplyPolicy, NO_POLICY, s, 0)
  }

  function TransferSchema(num: int): Kind {
    if num == 1 then BytesField else if num == 2 then VarintField else NotAField
  }

  function ApplyTransfer(m: TransferMessage, f: Field): Applied<TransferMessage> {
    match f
    case Num(num, v) => if num == 2 then Done(m.(nominatedHeight := Int64OfUint64(v))) else Done(m)
    case Data(num, bytes) => if num == 1 then Done(m.(nominee := bytes)) else Done(m)
    case Skipped => Done(m)
  }

  const NO_TRANSFER := TransferMessage([], 0)

  function EntrySchema(num: int): Kind {
    if num == 1 then VarintField else if num == 2 then BytesField else NotAField
  }

  /** A second transfer field is merged into the first. */
  function ApplyEntry(m: EntryMessage, f: Field): Applied<EntryMessage> {
    match f
    case Num(num, v) => if num == 1 then Done(m.(role := Int32Of(v))) else Done(m)
    case Data(num, bytes) =>
      if num != 2 then Done(m)
      else
        var before := if m.transfer.Some? then m.transfer.value else NO_TRANSFER;
        (match UnmarshalFrom(TransferSchema, ApplyTransfer, before, bytes, 0)
         case Bad(e) => Bad(e)
         case Done(t) => Done(m.(transfer := Some(t))))
    case Skipped => Done(m)
  }

  const NO_ENTRY := EntryMessage(0, None)

  function GenesisSchema(num: int): Kind {
    if num == 7 then VarintField else if 1 <= num <= 9 then BytesField else NotAField
  }

  function ApplyGenesis(m: GenesisMessage, f: Field): Applied<GenesisMessage> {
    match f
    case Num(num, v) => if num == 7 then Done(m.(nextSlotId := v)) else Done(m)
    case Data(num, bytes) =>
      if num == 1 then Done(m.(params := Some((if m.params.Some? then m.params.value else []) + bytes)))
      else if num == 2 then Done(m.(slots := m.slots + [bytes]))
      else if num == 3 then Done(m.(rotations := m.rotations + [bytes]))
      else if num == 4 then Done(m.(reserved := m.reserved + [bytes]))
      else if num == 5 then Done(m.(rewardWeights := m.rewardWeights + [bytes]))
      else if num == 6 then Done(m.(lastApplied := m.lastApplied + [bytes]))
      else if num == 8 then
        (match ParsePolicy(bytes)
         case Bad(e) => Bad(e)
         case Done(p) => Done(m.(policies := m.policies + [p])))
      else if num == 9 then
        (match UnmarshalFrom(EntrySchema, ApplyEntry, NO_ENTRY, bytes, 0)
         case Bad(e) => Bad(e)
         case Done(e) => Done(m.(nominations := m.nominations + [e])))
      else Done(m)
    case Skipped => Done(m)
  }

  const NO_GENESIS := GenesisMessage(None, [], [], [], [], [], 0, [], [])

  // ----- One field of a message -----

  lemma OneByteTag(num: int, wireType: int)
    requires 1 <= num < 16 && 0 <= wireType < 8
    ensures Encode(Tag(num, wireType)) == [num * 8 + wireType]
  {
  }

  /** A numeric field sets what its case sets; a field left out is already zero. */
  lemma ReadUint<M>(schema: int -> Kind, apply: (M, Field) -> Applied<M>, s: seq<byte>, i: nat, num: int, v: uint64,
      m: M, m': M)
    requires 1 <= num < 16 && schema(num) == VarintField && At(s, i, UintPart(num * 8, v))
    requires if v == 0 then m' == m else apply(m, Num(num, v)) == Done(m')
    ensures UnmarshalFrom(schema, apply, m, s, i) == UnmarshalFrom(schema, apply, m', s, i + |UintPart(num * 8, v)|)
  {
    hide At, NextField, Encode;
    if v != 0 {
      OneByteTag(num, 0);
      assert UintPart(num * 8, v) == VarintBytes(num, v);
      VarintFieldRead(schema, s, i, num, v);
      AtBounds(s, i, UintPart(num * 8, v));
      assert |UintPart(num * 8, v)| >= 1;
    }
  }

  lemma ReadBody<M>(schema: int -> Kind, apply: (M, Field) -> Applied<M>, s: seq<byte>, i: nat, num: int,
      body: seq<byte>, m: M, m': M)
    requires 1 <= num < 16 && schema(num) == BytesField && |s| <= MAX_INT64
    requires |body| <= MAX_INT64 && At(s, i, BodyPart(num * 8 + 2, body))
    requires apply(m, Data(num, body)) == Done(m')
    ensures UnmarshalFrom(schema, apply, m, s, i) == UnmarshalFrom(schema, apply, m', s,
        i + |BodyPart(num * 8 + 2, body)|)
  {
    hide At, NextField, Encode;
    OneByteTag(num, 2);
    assert BodyPart(num * 8 + 2, body) == DataBytes(num, body);
    DataFieldRead(schema, s, i, num, body);
    AtBounds(s, i, BodyPart(num * 8 + 2, body));
  }

  /** `extras` after the message: well formed, and none of them fields of the schema. */
  ghost predicate Foreign(schema: int -> Kind, extras: seq<Extra>) {
    forall k :: 0 <= k < |extras| ==> GoodExtra(extras[k]) && schema(extras[k].num) == NotAField
  }

  lemma {:induction false} ReadExtras<M>(schema: int -> Kind, apply: (M, Field) -> Applied<M>, s: seq<byte>, i: nat,
      extras: seq<Extra>, m: M)
    requires |s| <= MAX_INT64 && Foreign(schema, extras) && apply(m, Skipped) == Done(m)
    requires At(s, i, ItemEncodings(extras)) && i + |ItemEncodings(extras)| == |s|
    ensures UnmarshalFrom(schema, apply, m, s, i) == Done(m)
    decreases |extras|
  {
    hide At, NextField, ExtraEncoding, GoodExtra;
    if extras != [] {
      AtParts(s, i, ExtraEncoding(extras[0]), ItemEncodings(extras[1..]));
      ExtraIsSkipped(schema, s, i, extras[0]);
      AtBounds(s, i, ExtraEncoding(extras[0]));
      ReadExtras(schema, apply, s, i + |ExtraEncoding(extras[0])|, extras[1..], m);
    }
  }

  // ----- The messages -----

  lemma PolicyRead(s: seq<byte>, i: nat, p: Policy)
    requires At(s, i, PolicyBytes(p))
    ensures UnmarshalFrom(PolicySchema, ApplyPolicy, NO_POLICY, s, i) ==
            UnmarshalFrom(PolicySchema, ApplyPolicy, p, s, i + |PolicyBytes(p)|)
  {
    hide At, UintPart, UnmarshalFrom;
    var u5, u6 := Uint64OfInt64(p.validFrom), Uint64OfInt64(p.validUntil);
    var f1, f2, f3 := UintPart(0x08, p.slotId), UintPart(0x10, p.version), UintPart(0x18, p.rate);
    var f4, f5, f6 := UintPart(0x20, p.maxParticipants), UintPart(0x28, u5), UintPart(0x30, u6);
    AtParts(s, i, f1, f2 + (f3 + (f4 + (f5 + f6))));
    var i1 := i + |f1|;
    AtParts(s, i1, f2, f3 + (f4 + (f5 + f6)));
    var i2 := i1 + |f2|;
    AtParts(s, i2, f3, f4 + (f5 + f6));
    var i3 := i2 + |f3|;
    AtParts(s, i3, f4, f5 + f6);
    var i4 := i3 + |f4|;
    AtParts(s, i4, f5, f6);
    var m1 := NO_POLICY.(slotId := p.slotId);
    var m2 := m1.(version := p.version);
    var m3 := m2.(rate := p.rate);
    var m4 := m3.(maxParticipants := p.maxParticipants);
    var m5 := m4.(validFrom := p.validFrom);
    ReadUint(PolicySchema, ApplyPolicy, s, i, 1, p.slotId, NO_POLICY, m1);
    ReadUint(PolicySchema, ApplyPolicy, s, i1, 2, p.version, m1, m2);
    ReadUint(PolicySchema, ApplyPolicy, s, i2, 3, p.rate, m2, m3);
    ReadUint(PolicySchema, ApplyPolicy, s, i3, 4, p.maxParticipants, m3, m4);
    ReadUint(PolicySchema, ApplyPolicy, s, i4, 5, u5, m4, m5);
    ReadUint(PolicySchema, ApplyPolicy, s, i4 + |f5|, 6, u6, m5, p);
  }

  /** Unmarshal after Marshal is the message, whatever unknown fields follow it. */
  lemma PolicyRoundTrip(p: Policy, extras: seq<Extra>)
    requires Foreign(PolicySchema, extras) && |PolicyBytes(p) + ItemEncodings(extras)| <= MAX_INT64
    ensures ParsePolicy(PolicyBytes(p) + ItemEncodings(extras)) == Done(p)
  {
    hide UnmarshalFrom, PolicyBytes, ItemEncodings;
    var s := PolicyBytes(p) + ItemEncodings(extras);
    AtParts(s, 0, PolicyBytes(p), ItemEncodings(extras));
    assert At(s, 0, s);
    PolicyRead(s, 0, p);
    ReadExtras(PolicySchema, ApplyPolicy, s, |PolicyBytes(p)|, extras, p);
  }

  lemma TransferRead(s: seq<byte>, i: nat, t: TransferMessage)
    requires |t.nominee| <= MAX_INT64 && |s| <= MAX_INT64 && At(s, i, TransferBytes(t))
    ensures UnmarshalFrom(TransferSchema, ApplyTransfer, NO_TRANSFER, s, i) ==
            UnmarshalFrom(TransferSchema, ApplyTransfer, t, s, i + |TransferBytes(t)|)
  {
    hide At, UintPart, BodyPart, UnmarshalFrom;
    var named := if t.nominee == [] then [] else BodyPart(0x0a, t.nominee);
    var height := Uint64OfInt64(t.nominatedHeight);
    AtParts(s, i, named, UintPart(0x10, height));
    var m1 := NO_TRANSFER.(nominee := t.nominee);
    if t.nominee != [] { ReadBody(TransferSchema, ApplyTransfer, s, i, 1, t.nominee, NO_TRANSFER, m1); }
    ReadUint(TransferSchema, ApplyTransfer, s, i + |named|, 2, height, m1, t);
  }

  lemma TransferRoundTrip(t: TransferMessage, extras: seq<Extra>)
    requires Foreign(TransferSchema, extras) && |t.nominee| <= MAX_INT64
    requires |TransferBytes(t) + ItemEncodings(extras)| <= MAX_INT64
    ensures UnmarshalFrom(TransferSchema, ApplyTransfer, NO_TRANSFER, TransferBytes(t) + ItemEncodings(extras), 0)
        == Done(t)
  {
    hide UnmarshalFrom, TransferBytes, ItemEncodings;
    var s := TransferBytes(t) + ItemEncodings(extras);
    AtParts(s, 0, TransferBytes(t), ItemEncodings(extras));
    assert At(s, 0, s);
    TransferRead(s, 0, t);
    ReadExtras(TransferSchema, ApplyTransfer, s, |TransferBytes(t)|, extras, t);
  }

  /** An int32 sent as a 64-bit varint comes back from its low half, negative ones included. */
  lemma RoleRead(role: int32)
    ensures Int32Of(Uint64OfInt64(role)) == role
  {
  }

  lemma EntryRead(s: seq<byte>, i: nat, e: EntryMessage)
    requires Encodable(e) && |s| <= MAX_INT64 && At(s, i, EntryBytes(e))
    ensures UnmarshalFrom(EntrySchema, ApplyEntry, NO_ENTRY, s, i) ==
            UnmarshalFrom(EntrySchema, ApplyEntry, e, s, i + |EntryBytes(e)|)
  {
    hide At, UintPart, BodyPart, UnmarshalFrom, TransferBytes, Int32Of;
    var role := Uint64OfInt64(e.role);
    var nested := if e.transfer.None? then [] else BodyPart(0x12, TransferBytes(e.transfer.value));
    AtParts(s, i, UintPart(0x08, role), nested);
    RoleRead(e.role);
    var m1 := NO_ENTRY.(role := e.role);
    ReadUint(EntrySchema, ApplyEntry, s, i, 1, role, NO_ENTRY, m1);
    if e.transfer.Some? {
      TransferRoundTrip(e.transfer.value, []);
      assert TransferBytes(e.transfer.value) + ItemEncodings([]) == TransferBytes(e.transfer.value);
      ReadBody(EntrySchema, ApplyEntry, s, i + |UintPart(0x08, role)|, 2, TransferBytes(e.transfer.value), m1, e);
    }
  }

  lemma EntryRoundTrip(e: EntryMessage, extras: seq<Extra>)
    requires Foreign(EntrySchema, extras) && Encodable(e) && |EntryBytes(e) + ItemEncodings(extras)| <= MAX_INT64
    ensures UnmarshalFrom(EntrySchema, ApplyEntry, NO_ENTRY, EntryBytes(e) + ItemEncodings(extras), 0) == Done(e)
  {
    hide UnmarshalFrom, EntryBytes, ItemEncodings;
    var s := EntryBytes(e) + ItemEncodings(extras);
    AtParts(s, 0, EntryBytes(e), ItemEncodings(extras));
    assert At(s, 0, s);
    EntryRead(s, 0, e);
    ReadExtras(EntrySchema, ApplyEntry, s, |EntryBytes(e)|, extras, e);
  }

  // ----- GenesisState -----

  /** The message with `bodies` appended to the repeated field `num`. */
  function Appended(m: GenesisMessage, num: int, bodies: seq<seq<byte>>): GenesisMessage
    requires 2 <= num <= 6
  {
    if num == 2 then m.(slots := m.slots + bodies)
    else if num == 3 then m.(rotations := m.rotations + bodies)
    else if num == 4 then m.(reserved := m.reserved + bodies)
    else if num == 5 then m.(rewardWeights := m.rewardWeights + bodies)
    else m.(lastApplied := m.lastApplied + bodies)
  }

  lemma {:induction false} BodiesRead(s: seq<byte>, i: nat, num: int, bodies: seq<seq<byte>>, m: GenesisMessage)
    requires 2 <= num <= 6 && |s| <= MAX_INT64 && Bounded(bodies) && At(s, i, RepeatedPart(num * 8 + 2, bodies))
    ensures UnmarshalFrom(GenesisSchema, ApplyGenesis, m, s, i) ==
            UnmarshalFrom(GenesisSchema, ApplyGenesis, Appended(m, num, bodies), s, i + |RepeatedPart(num * 8 + 2,
                bodies)|)
    decreases |bodies|
  {
    hide At, BodyPart, UnmarshalFrom, ParsePolicy;
    if bodies == [] {
      assert Appended(m, num, []) == m;
    } else {
      var tag := num * 8 + 2;
      AtParts(s, i, BodyPart(tag, bodies[0]), RepeatedPart(tag, bodies[1..]));
      var m1 := Appended(m, num, [bodies[0]]);
      ReadBody(GenesisSchema, ApplyGenesis, s, i, num, bodies[0], m, m1);
      BodiesRead(s, i + |BodyPart(tag, bodies[0])|, num, bodies[1..], m1);
      assert [bodies[0]] + bodies[1..] == bodies;
      AppendedTwice(m, num, [bodies[0]], bodies[1..]);
    }
  }

  lemma AppendedTwice(m: GenesisMessage, num: int, a: seq<seq<byte>>, b: seq<seq<byte>>)
    requires 2 <= num <= 6
    ensures Appended(Appended(m, num, a), num, b) == Appended(m, num, a + b)
  {
    assert m.slots + a + b == m.slots + (a + b) && m.rotations + a + b == m.rotations + (a + b);
    assert m.reserved + a + b == m.reserved + (a + b) && m.rewardWeights + a + b == m.rewardWeights + (a + b);
    assert m.lastApplied + a + b == m.lastApplied + (a + b);
  }

  lemma {:induction false} PoliciesRead(s: seq<byte>, i: nat, ps: seq<Policy>, m: GenesisMessage)
    requires |s| <= MAX_INT64 && Bounded(PolicyBodies(ps)) && At(s, i, RepeatedPart(0x42, PolicyBodies(ps)))
    ensures UnmarshalFrom(GenesisSchema, ApplyGenesis, m, s, i) ==
            UnmarshalFrom(GenesisSchema, ApplyGenesis, m.(policies := m.policies + ps), s,
                i + |RepeatedPart(0x42, PolicyBodies(ps))|)
    decreases |ps|
  {
    hide At, BodyPart, UnmarshalFrom, PolicyBytes, ParsePolicy;
    if ps == [] {
      assert m.policies + [] == m.policies;
    } else {
      var bodies := PolicyBodies(ps);
      assert bodies[1..] == PolicyBodies(ps[1..]);
      AtParts(s, i, BodyPart(0x42, bodies[0]), RepeatedPart(0x42, bodies[1..]));
      PolicyRoundTrip(ps[0], []);
      assert PolicyBytes(ps[0]) + ItemEncodings([]) == bodies[0];
      var m1 := m.(policies := m.policies + [ps[0]]);
      ReadBody(GenesisSchema, ApplyGenesis, s, i, 8, bodies[0], m, m1);
      PoliciesRead(s, i + |BodyPart(0x42, bodies[0])|, ps[1..], m1);
      assert m.policies + [ps[0]] + ps[1..] == m.policies + ps;
    }
  }

  lemma {:induction false} EntriesRead(s: seq<byte>, i: nat, es: seq<EntryMessage>, m: GenesisMessage)
    requires |s| <= MAX_INT64 && AllEncodable(es) && Bounded(EntryBodies(es))
    requires At(s, i, RepeatedPart(0x4a, EntryBodies(es)))
    ensures UnmarshalFrom(GenesisSchema, ApplyGenesis, m, s, i) ==
            UnmarshalFrom(GenesisSchema, ApplyGenesis, m.(nominations := m.nominations + es), s,
                          i + |RepeatedPart(0x4a, EntryBodies(es))|)
    decreases |es|
  {
    hide At, BodyPart, UnmarshalFrom, EntryBytes, ParsePolicy, Encodable;
    if es == [] {
      assert m.nominations + [] == m.nominations;
    } else {
      var bodies := EntryBodies(es);
      assert bodies[1..] == EntryBodies(es[1..]);
      AtParts(s, i, BodyPart(0x4a, bodies[0]), RepeatedPart(0x4a, bodies[1..]));
      EntryRoundTrip(es[0], []);
      assert EntryBytes(es[0]) + ItemEncodings([]) == bodies[0];
      var m1 := m.(nominations := m.nominations + [es[0]]);
      ReadBody(GenesisSchema, ApplyGenesis, s, i, 9, bodies[0], m, m1);
      EntriesRead(s, i + |BodyPart(0x4a, bodies[0])|, es[1..], m1);
      assert m.nominations + [es[0]] + es[1..] == m.nominations + es;
    }
  }

  lemma TailRead(s: seq<byte>, i: nat, g: GenesisMessage, m: GenesisMessage)
    requires |s| <= MAX_INT64 && GenesisEncodable(g) && At(s, i, GenesisTail(g))
    requires m == g.(nextSlotId := 0, policies := [], nominations := [])
    ensures UnmarshalFrom(GenesisSchema, ApplyGenesis, m, s, i) ==
            UnmarshalFrom(GenesisSchema, ApplyGenesis, g, s, i + |GenesisTail(g)|)
  {
    hide At, UintPart, RepeatedPart, UnmarshalFrom, ParsePolicy, PolicyBodies, EntryBodies, Bounded, AllEncodable;
    var next, ps, es := UintPart(0x38, g.nextSlotId), RepeatedPart(0x42, PolicyBodies(g.policies)),
                        RepeatedPart(0x4a, EntryBodies(g.nominations));
    AtParts(s, i, next, ps + es);
    AtParts(s, i + |next|, ps, es);
    var m1 := m.(nextSlotId := g.nextSlotId);
    ReadUint(GenesisSchema, ApplyGenesis, s, i, 7, g.nextSlotId, m, m1);
    PoliciesRead(s, i + |next|, g.policies, m1);
    assert [] + g.policies == g.policies && [] + g.nominations == g.nominations;
    EntriesRead(s, i + |next| + |ps|, g.nominations, m1.(policies := g.policies));
  }

  lemma GenesisRead(s: seq<byte>, i: nat, g: GenesisMessage)
    requires |s| <= MAX_INT64 && GenesisEncodable(g) && At(s, i, GenesisBytes(g))
    ensures UnmarshalFrom(GenesisSchema, ApplyGenesis, NO_GENESIS, s, i) ==
            UnmarshalFrom(GenesisSchema, ApplyGenesis, g, s, i + |GenesisBytes(g)|)
  {
    hide At, RepeatedPart, BodyPart, UnmarshalFrom, ParsePolicy, GenesisTail, Bounded, AllEncodable, PolicyBodies,
      EntryBodies;
    var f1 := if g.params.None? then [] else BodyPart(0x0a, g.params.value);
    var f2, f3, f4 := RepeatedPart(0x12, g.slots), RepeatedPart(0x1a, g.rotations), RepeatedPart(0x22, g.reserved);
    var f5, f6, tail := RepeatedPart(0x2a, g.rewardWeights), RepeatedPart(0x32, g.lastApplied), GenesisTail(g);
    AtParts(s, i, f1, f2 + (f3 + (f4 + (f5 + (f6 + tail)))));
    var i1 := i + |f1|;
    AtParts(s, i1, f2, f3 + (f4 + (f5 + (f6 + tail))));
    AtParts(s, i1 + |f2|, f3, f4 + (f5 + (f6 + tail)));
    var i3 := i1 + |f2| + |f3|;
    AtParts(s, i3, f4, f5 + (f6 + tail));
    AtParts(s, i3 + |f4|, f5, f6 + tail);
    var i5 := i3 + |f4| + |f5|;
    AtParts(s, i5, f6, tail);
    var m1 := NO_GENESIS.(params := g.params);
    if g.params.Some? {
      assert [] + g.params.value == g.params.value;
      ReadBody(GenesisSchema, ApplyGenesis, s, i, 1, g.params.value, NO_GENESIS, m1);
    }
    BodiesRead(s, i1, 2, g.slots, m1);
    var m2 := m1.(slots := g.slots);
    assert [] + g.slots == g.slots;
    BodiesRead(s, i1 + |f2|, 3, g.rotations, m2);
    var m3 := m2.(rotations := g.rotations);
    assert [] + g.rotations == g.rotations;
    BodiesRead(s, i3, 4, g.reserved, m3);
    var m4 := m3.(reserved := g.reserved);
    assert [] + g.reserved == g.reserved;
    BodiesRead(s, i3 + |f4|, 5, g.rewardWeights, m4);
    var m5 := m4.(rewardWeights := g.rewardWeights);
    assert [] + g.rewardWeights == g.rewardWeights;
    BodiesRead(s, i5, 6, g.lastApplied, m5);
    assert [] + g.lastApplied == g.lastApplied;
    TailRead(s, i5 + |f6|, g, m5.(lastApplied := g.lastApplied));
  }

  /** The whole document: nested messages, repeated fields in order, unknown fields after it. */
  lemma GenesisRoundTrip(g: GenesisMessage, extras: seq<Extra>)
    requires Foreign(GenesisSchema, extras) && GenesisEncodable(g)
    requires |GenesisBytes(g) + ItemEncodings(extras)| <= MAX_INT64
    ensures UnmarshalFrom(GenesisSchema, ApplyGenesis, NO_GENESIS, GenesisBytes(g) + ItemEncodings(extras), 0)
        == Done(g)
  {
    hide UnmarshalFrom, GenesisBytes, ItemEncodings, ParsePolicy;
    var s := GenesisBytes(g) + ItemEncodings(extras);
    AtParts(s, 0, GenesisBytes(g), ItemEncodings(extras));
    assert At(s, 0, s);
    GenesisRead(s, 0, g);
    ReadExtras(GenesisSchema, ApplyGenesis, s, |GenesisBytes(g)|, extras, g);
  }

  // ----- Known bytes -----

  /** The example of section "Base 128 Varints" of the Protocol Buffers encoding. */
  lemma KnownVarint()
    ensures Encode(150) == [0x96, 0x01]
  {
    assert Encode(1) == [1];
  }

  /** Every field of the three small messages under its own number and wire type. */
  lemma KnownMessages()
    ensures PolicyBytes(Policy(1, 2, 3, 4, 5, 6)) ==
            [0x08, 1] + ([0x10, 2] + ([0x18, 3] + ([0x20, 4] + ([0x28, 5] + [0x30, 6]))))
    ensures TransferBytes(TransferMessage([0x61], 5)) == [0x0a, 1, 0x61] + [0x10, 5]
    ensures EntryBytes(EntryMessage(2, Some(TransferMessage([0x61], 5)))) ==
            [0x08, 2] + ([0x12, 5] + ([0x0a, 1, 0x61] + [0x10, 5]))
  {
    hide Encode, BodyPart;
    forall v: uint64 | v < 0x80 ensures Encode(v) == [v] { SmallVarint(v); }
    SmallBody(0x0a, [0x61]);
    SmallBody(0x12, [0x0a, 1, 0x61] + [0x10, 5]);
  }

  /** The nine fields of the document in the order of their numbers, each with its own content. */
  lemma KnownDocument()
    ensures var g := GenesisMessage(Some([1]), [[2]], [[3]], [[4]], [[5]], [[6]], 7, [Policy(8, 0, 0, 0, 0, 0)],
                                    [EntryMessage(9, None)]);
            && GenesisEncodable(g)
            && GenesisBytes(g) ==
               [0x0a, 1, 1] + ([0x12, 1, 2] + ([0x1a, 1, 3] + ([0x22, 1, 4] + ([0x2a, 1, 5] + ([0x32, 1, 6]
               + ([0x38, 7] + ([0x42, 2, 8, 8] + [0x4a, 2, 8, 9])))))))
  {
    hide RepeatedPart, PolicyBodies, EntryBodies, Encode, BodyPart, GenesisTail;
    KnownTail();
    SmallBody(0x0a, [1]);
    OneBody(0x12, [2]);
    OneBody(0x1a, [3]);
    OneBody(0x22, [4]);
    OneBody(0x2a, [5]);
    OneBody(0x32, [6]);
  }

  lemma KnownTail()
    ensures var g := GenesisMessage(Some([1]), [[2]], [[3]], [[4]], [[5]], [[6]], 7, [Policy(8, 0, 0, 0, 0, 0)],
                                    [EntryMessage(9, None)]);
            GenesisEncodable(g) && GenesisTail(g) == [0x38, 7] + ([0x42, 2, 8, 8] + [0x4a, 2, 8, 9])
  {
    hide RepeatedPart, PolicyBodies, EntryBodies, Encode, BodyPart, PolicyBytes, EntryBytes;
    assert PolicyBodies([Policy(8, 0, 0, 0, 0, 0)]) == [[8, 8]] by { KnownPolicyBody(); }
    assert EntryBodies([EntryMessage(9, None)]) == [[8, 9]] by { KnownEntryBody(); }
    OneBody(0x42, [8, 8]);
    OneBody(0x4a, [8, 9]);
    SmallVarint(7);
  }

  lemma KnownPolicyBody()
    ensures PolicyBodies([Policy(8, 0, 0, 0, 0, 0)]) == [[8, 8]]
  {
    hide Encode;
    SmallVarint(8);
    assert PolicyBytes(Policy(8, 0, 0, 0, 0, 0)) == [8, 8];
  }

  lemma KnownEntryBody()
    ensures EntryBodies([EntryMessage(9, None)]) == [[8, 9]]
  {
    hide Encode;
    SmallVarint(9);
    assert EntryBytes(EntryMessage(9, None)) == [8, 9];
  }

  lemma SmallVarint(v: uint64)
    requires v < 0x80
    ensures Encode(v) == [v]
  {
  }

  lemma SmallBody(tag: byte, body: seq<byte>)
    requires |body| < 0x80
    ensures BodyPart(tag, body) == [tag, |body|] + body
  {
    SmallVarint(|body|);
  }

  lemma OneBody(tag: byte, body: seq<byte>)
    requires |body| < 0x80
    ensures RepeatedPart(tag, [body]) == [tag, |body|] + body
  {
    hide BodyPart, Encode;
    SmallBody(tag, body);
    assert RepeatedPart(tag, [body]) == BodyPart(tag, body) + RepeatedPart(tag, []);
  }
}
