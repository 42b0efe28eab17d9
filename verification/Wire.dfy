/**
 The field loop of the generated parsers and skipCoreslot (x/coreslot/types/coreslot.pb.go),
 after "Message Structure" and "Length-Delimited Records" of the Protocol Buffers encoding
 specification.

 The generator writes the same loop for every message and changes only the switch over field
 numbers. That switch is the `schema` here, and `apply` is what its cases do to the message.
 */
module Wire {
  import opened Machine
  import opened Varint

  /** How a message's switch reads a field number. */
  datatype Kind = NotAField | VarintField | BytesField

  datatype Field = Num(num: int, value: uint64) | Data(num: int, bytes: seq<byte>) | Skipped

  datatype Applied<+M> = Done(message: M) | Bad(error: WireError)

  /** Go's int32 conversion. */
  function Int32Of(x: nat): int {
    var low := x % 0x1_0000_0000;
    if low >= 0x8000_0000 then low - 0x1_0000_0000 else low
  }

  /** Where a length-delimited value ends; the addition may leave the int range. */
  function EndOf(start: nat, length: uint64): Parse<()> {
    var n := Int64OfUint64(length);
    if n < 0 then Failed(InvalidLength)
    else if start + n > MAX_INT64 then Failed(InvalidLength)
    else Parsed((), start + n)
  }

  // ----- skipCoreslot -----

  /** Past one tag's value: the group depth after it, and the index, which may lie beyond the bytes. */
  function SkipValue(s: seq<byte>, j: nat, wireType: int, depth: nat): (r: Parse<nat>)
    ensures r.Parsed? ==> r.next >= j
  {
    if wireType == 0 then
      match Decode(s, j)
      case Failed(e) => Failed(e)
      case Parsed(_, n) => Parsed(depth, n)
    else if wireType == 1 then
      if j + 8 > MAX_INT64 then Failed(InvalidLength) else Parsed(depth, j + 8)
    else if wireType == 2 then
      match Decode(s, j)
      case Failed(e) => Failed(e)
      case Parsed(length, n) =>
        match EndOf(n, length)
        case Failed(e) => Failed(e)
        case Parsed(_, end) => Parsed(depth, end)
    else if wireType == 3 then Parsed(depth + 1, j)
    else if wireType == 4 then
      if depth == 0 then Failed(EndOfGroup) else Parsed(depth - 1, j)
    else if wireType == 5 then
      if j + 4 > MAX_INT64 then Failed(InvalidLength) else Parsed(depth, j + 4)
    else Failed(IllegalWireType)
  }

  /** The bytes one field takes, groups with everything in them. */
  function SkipFrom(s: seq<byte>, i: nat, depth: nat): (r: Parse<()>)
    ensures r.Parsed? ==> r.next > i
    decreases |s| - i
  {
    if i >= |s| then Failed(UnexpectedEOF)
    else
      match Decode(s, i)
      case Failed(e) => Failed(e)
      case Parsed(wire, j) =>
        match SkipValue(s, j, wire % 8, depth)
        case Failed(e) => Failed(e)
        case Parsed(d, n) => if d == 0 then Parsed((), n) else SkipFrom(s, n, d)
  }

  /** One pass of the skipper's switch. */
  method SkipOne(s: seq<byte>, j: nat, wireType: int, depth: nat) returns (r: Parse<nat>)
    ensures r == SkipValue(s, j, wireType, depth)
  {
    match wireType {
      case 0 =>
        var skipped := GetVarint(s, j);
        if skipped.Failed? { return Failed(skipped.error); }
        return Parsed(depth, skipped.next);
      case 1 =>
        if j + 8 > MAX_INT64 { return Failed(InvalidLength); }
        return Parsed(depth, j + 8);
      case 2 =>
        var length := GetVarint(s, j);
        if length.Failed? { return Failed(length.error); }
        var end := EndOf(length.next, length.value);
        if end.Failed? { return Failed(end.error); }
        return Parsed(depth, end.next);
      case 3 =>
        return Parsed(depth + 1, j);
      case 4 =>
        if depth == 0 { return Failed(EndOfGroup); }
        return Parsed(depth - 1, j);
      case 5 =>
        if j + 4 > MAX_INT64 { return Failed(InvalidLength); }
        return Parsed(depth, j + 4);
      case _ =>
        return Failed(IllegalWireType);
    }
  }

  method Skip(s: seq<byte>) returns (r: Parse<()>)
    ensures r == SkipFrom(s, 0, 0)
  {
    hide Decode, SkipValue;
    var i, depth: nat := 0, 0;
    while i < |s|
      invariant SkipFrom(s, i, depth) == SkipFrom(s, 0, 0)
      decreases |s| - i
    {
      var wire := GetVarint(s, i);
      if wire.Failed? { return Failed(wire.error); }
      var value := SkipOne(s, wire.next, wire.value % 8, depth);
      if value.Failed? { return Failed(value.error); }
      i, depth := value.next, value.value;
      if depth == 0 { return Parsed((), i); }
    }
    return Failed(UnexpectedEOF);
  }

  // ----- The field loop -----

  /** The next field: inside the bytes, and at least one byte long. */
  function NextField(schema: int -> Kind, s: seq<byte>, i: nat): (r: Parse<Field>)
    ensures r.Parsed? ==> i < r.next <= |s|
  {
    match Decode(s, i)
    case Failed(e) => Failed(e)
    case Parsed(wire, j) =>
      var num, wireType := Int32Of(wire / 8), wire % 8;
      if wireType == 4 then Failed(EndOfGroup)
      else if num <= 0 then Failed(IllegalTag)
      else
        match schema(num)
        case VarintField =>
          if wireType != 0 then Failed(WrongType)
          else (match Decode(s, j)
                case Failed(e) => Failed(e)
                case Parsed(v, n) => Parsed(Num(num, v), n))
        case BytesField =>
          if wireType != 2 then Failed(WrongType)
          else (match Decode(s, j)
                case Failed(e) => Failed(e)
                case Parsed(length, n) =>
                  match EndOf(n, length)
                  case Failed(e) => Failed(e)
                  case Parsed(_, end) => if end > |s| then Failed(UnexpectedEOF) else Parsed(Data(num, s[n..end]), end))
        case NotAField =>
          match SkipFrom(s[i..], 0, 0)
          case Failed(e) => Failed(e)
          case Parsed(_, n) =>
            if i + n > MAX_INT64 then Failed(InvalidLength)
            else if i + n > |s| then Failed(UnexpectedEOF)
            else Parsed(Skipped, i + n)
  }

  method ReadField(schema: int -> Kind, s: seq<byte>, i: nat) returns (r: Parse<Field>)
    requires i < |s|
    ensures r == NextField(schema, s, i)
  {
    hide Int32Of;
    var wire := GetVarint(s, i);
    if wire.Failed? { return Failed(wire.error); }
    var num, wireType := Int32Of(wire.value / 8), wire.value % 8;
    if wireType == 4 { return Failed(EndOfGroup); }
    if num <= 0 { return Failed(IllegalTag); }
    match schema(num)
    case VarintField =>
      if wireType != 0 { return Failed(WrongType); }
      var v := GetVarint(s, wire.next);
      if v.Failed? { return Failed(v.error); }
      return Parsed(Num(num, v.value), v.next);
    case BytesField =>
      if wireType != 2 { return Failed(WrongType); }
      var length := GetVarint(s, wire.next);
      if length.Failed? { return Failed(length.error); }
      var end := EndOf(length.next, length.value);
      if end.Failed? { return Failed(end.error); }
      if end.next > |s| { return Failed(UnexpectedEOF); }
      return Parsed(Data(num, s[length.next..end.next]), end.next);
    case NotAField =>
      var skipped := Skip(s[i..]);
      if skipped.Failed? { return Failed(skipped.error); }
      if i + skipped.next > MAX_INT64 { return Failed(InvalidLength); }
      if i + skipped.next > |s| { return Failed(UnexpectedEOF); }
      return Parsed(Skipped, i + skipped.next);
  }

  function UnmarshalFrom<M>(schema: int -> Kind, apply: (M, Field) -> Applied<M>, m: M, s: seq<byte>,
      i: nat): Applied<M>
    decreases |s| - i
  {
    if i >= |s| then Done(m)
    else
      match NextField(schema, s, i)
      case Failed(e) => Bad(e)
      case Parsed(field, n) =>
        match apply(m, field)
        case Bad(e) => Bad(e)
        case Done(m') => UnmarshalFrom(schema, apply, m', s, n)
  }

  /** Unmarshal: ends on every input, reads only inside it, and consumes a byte or more per field. */
  method Unmarshal<M>(schema: int -> Kind, apply: (M, Field) -> Applied<M>, start: M, s: seq<byte>)
        returns (r: Applied<M>)
    ensures r == UnmarshalFrom(schema, apply, start, s, 0)
  {
    var m, i := start, 0;
    while i < |s|
      invariant 0 <= i <= |s| && UnmarshalFrom(schema, apply, m, s, i) == UnmarshalFrom(schema, apply, start, s, 0)
      decreases |s| - i
    {
      var field := ReadField(schema, s, i);
      if field.Failed? { return Bad(field.error); }
      var applied := apply(m, field.value);
      if applied.Bad? { return Bad(applied.error); }
      m, i := applied.message, field.next;
    }
    return Done(m);
  }

  // ----- What a field's bytes are read as -----

  /** A field number's tag with its wire type. */
  function Tag(num: int, wireType: int): uint64
    requires 1 <= num < 0x2000_0000 && 0 <= wireType < 8
  {
    num * 8 + wireType
  }

  lemma TagRead(num: int, wireType: int)
    requires 1 <= num < 0x2000_0000 && 0 <= wireType < 8
    ensures Int32Of(Tag(num, wireType) / 8) == num && Tag(num, wireType) % 8 == wireType
  {
  }

  function VarintBytes(num: int, v: uint64): seq<byte>
    requires 1 <= num < 0x2000_0000
  {
    Encode(Tag(num, 0)) + Encode(v)
  }

  function DataBytes(num: int, data: seq<byte>): seq<byte>
    requires 1 <= num < 0x2000_0000 && |data| <= MAX_INT64
  {
    Encode(Tag(num, 2)) + Encode(|data|) + data
  }

  lemma AtParts(s: seq<byte>, i: nat, a: seq<byte>, b: seq<byte>)
    ensures At(s, i, a + b) <==> At(s, i, a) && At(s, i + |a|, b)
  {
    if At(s, i, a + b) {
      assert s[i..i + |a|] == s[i..i + |a + b|][..|a|];
      assert s[i + |a|..i + |a| + |b|] == s[i..i + |a + b|][|a|..];
    }
    if At(s, i, a) && At(s, i + |a|, b) {
      assert s[i..i + |a + b|] == s[i..i + |a|] + s[i + |a|..i + |a| + |b|];
    }
  }

  lemma VarintFieldRead(schema: int -> Kind, s: seq<byte>, i: nat, num: int, v: uint64)
    requires 1 <= num < 0x2000_0000 && schema(num) == VarintField && At(s, i, VarintBytes(num, v))
    ensures NextField(schema, s, i) == Parsed(Num(num, v), i + |VarintBytes(num, v)|)
  {
    hide Int32Of, At, Decode;
    AtParts(s, i, Encode(Tag(num, 0)), Encode(v));
    DecodeEncoded(s, i, Tag(num, 0));
    TagRead(num, 0);
    DecodeEncoded(s, i + |Encode(Tag(num, 0))|, v);
  }

  lemma DataFieldRead(schema: int -> Kind, s: seq<byte>, i: nat, num: int, data: seq<byte>)
    requires 1 <= num < 0x2000_0000 && schema(num) == BytesField && |s| <= MAX_INT64
    requires |data| <= MAX_INT64 && At(s, i, DataBytes(num, data))
    ensures NextField(schema, s, i) == Parsed(Data(num, data), i + |DataBytes(num, data)|)
  {
    hide Int32Of, Decode, Encode;
    AtParts(s, i, Encode(Tag(num, 2)) + Encode(|data|), data);
    AtParts(s, i, Encode(Tag(num, 2)), Encode(|data|));
    DecodeEncoded(s, i, Tag(num, 2));
    TagRead(num, 2);
    DecodeEncoded(s, i + |Encode(Tag(num, 2))|, |data|);
  }

  // ----- Unknown fields -----

  /** A field a message does not know, of any wire type; a group holds more of them. */
  datatype Extra =
    | ExtraVarint(num: int, value: uint64)
    | ExtraFixed64(num: int, bytes: seq<byte>)
    | ExtraBytes(num: int, bytes: seq<byte>)
    | ExtraGroup(num: int, items: seq<Extra>)
    | ExtraFixed32(num: int, bytes: seq<byte>)

  predicate GoodExtra(e: Extra)
    decreases e
  {
    && 1 <= e.num < 0x2000_0000
    && match e
       case ExtraVarint(_, _) => true
       case ExtraFixed64(_, bytes) => |bytes| == 8
       case ExtraBytes(_, bytes) => |bytes| <= MAX_INT64
       case ExtraGroup(_, items) => forall i :: 0 <= i < |items| ==> GoodExtra(items[i])
       case ExtraFixed32(_, bytes) => |bytes| == 4
  }

  function ExtraEncoding(e: Extra): (s: seq<byte>)
    requires GoodExtra(e)
    ensures |s| > 0
    decreases e, 1
  {
    match e
    case ExtraVarint(num, v) => VarintBytes(num, v)
    case ExtraFixed64(num, bytes) => Encode(Tag(num, 1)) + bytes
    case ExtraBytes(num, bytes) => DataBytes(num, bytes)
    case ExtraGroup(num, items) => Encode(Tag(num, 3)) + ItemEncodings(items) + Encode(Tag(num, 4))
    case ExtraFixed32(num, bytes) => Encode(Tag(num, 5)) + bytes
  }

  function ItemEncodings(items: seq<Extra>): seq<byte>
    requires forall i :: 0 <= i < |items| ==> GoodExtra(items[i])
    decreases items, 0
  {
    if items == [] then [] else ExtraEncoding(items[0]) + ItemEncodings(items[1..])
  }

  /** Past a tag the skipper does what the wire type says. */
  lemma SkipsTag(s: seq<byte>, i: nat, num: int, wireType: int, depth: nat)
    requires 1 <= num < 0x2000_0000 && 0 <= wireType < 8 && At(s, i, Encode(Tag(num, wireType)))
    ensures SkipFrom(s, i, depth) ==
            match SkipValue(s, i + |Encode(Tag(num, wireType))|, wireType, depth)
            case Failed(e) => Failed(e)
            case Parsed(d, n) => if d == 0 then Parsed((), n) else SkipFrom(s, n, d)
  {
    hide Decode, Encode, Int32Of, SkipValue;
    DecodeEncoded(s, i, Tag(num, wireType));
    TagRead(num, wireType);
    AtBounds(s, i, Encode(Tag(num, wireType)));
  }

  /** At depth 0 the skipper stops right after the field; inside a group it goes on from there. */
  lemma {:induction false} SkipsExtra(s: seq<byte>, i: nat, e: Extra, depth: nat)
    requires |s| <= MAX_INT64 && GoodExtra(e) && At(s, i, ExtraEncoding(e))
    ensures SkipFrom(s, i, depth) == AfterField(s, i + |ExtraEncoding(e)|, depth)
    decreases e, 1
  {
    hide Decode, Encode, At, Int32Of, SkipFrom, Tag;
    AtBounds(s, i, ExtraEncoding(e));
    match e
    case ExtraVarint(num, v) =>
      var tag := Encode(Tag(num, 0));
      AtParts(s, i, tag, Encode(v));
      SkipsTag(s, i, num, 0, depth);
      DecodeEncoded(s, i + |tag|, v);
    case ExtraFixed64(num, bytes) =>
      AtParts(s, i, Encode(Tag(num, 1)), bytes);
      SkipsTag(s, i, num, 1, depth);
    case ExtraBytes(num, bytes) =>
      var tag := Encode(Tag(num, 2));
      AtParts(s, i, tag + Encode(|bytes|), bytes);
      AtParts(s, i, tag, Encode(|bytes|));
      SkipsTag(s, i, num, 2, depth);
      DecodeEncoded(s, i + |tag|, |bytes|);
    case ExtraGroup(num, items) =>
      var tag, body, end := Encode(Tag(num, 3)), ItemEncodings(items), Encode(Tag(num, 4));
      AtParts(s, i, tag + body, end);
      AtParts(s, i, tag, body);
      SkipsTag(s, i, num, 3, depth);
      SkipsItems(s, i + |tag|, items, depth + 1);
      SkipsTag(s, i + |tag| + |body|, num, 4, depth + 1);
    case ExtraFixed32(num, bytes) =>
      AtParts(s, i, Encode(Tag(num, 5)), bytes);
      SkipsTag(s, i, num, 5, depth);
  }

  function AfterField(s: seq<byte>, n: nat, depth: nat): Parse<()> {
    if depth == 0 then Parsed((), n) else SkipFrom(s, n, depth)
  }

  lemma AtBounds(s: seq<byte>, i: nat, t: seq<byte>)
    requires At(s, i, t)
    ensures i + |t| <= |s|
  {
  }

  lemma {:induction false} SkipsItems(s: seq<byte>, i: nat, items: seq<Extra>, depth: nat)
    requires |s| <= MAX_INT64 && depth > 0 && forall k :: 0 <= k < |items| ==> GoodExtra(items[k])
    requires At(s, i, ItemEncodings(items))
    ensures SkipFrom(s, i, depth) == SkipFrom(s, i + |ItemEncodings(items)|, depth)
    decreases items, 0
  {
    hide At, SkipFrom, ExtraEncoding;
    if items != [] {
      AtParts(s, i, ExtraEncoding(items[0]), ItemEncodings(items[1..]));
      SkipsExtra(s, i, items[0], depth);
      SkipsItems(s, i + |ExtraEncoding(items[0])|, items[1..], depth);
    }
  }

  /** A message passes over a field it does not know, groups included, and no further. */
  lemma ExtraIsSkipped(schema: int -> Kind, s: seq<byte>, i: nat, e: Extra)
    requires |s| <= MAX_INT64 && GoodExtra(e) && schema(e.num) == NotAField && At(s, i, ExtraEncoding(e))
    ensures NextField(schema, s, i) == Parsed(Skipped, i + |ExtraEncoding(e)|)
  {
    hide Decode, Encode, Int32Of, SkipFrom;
    var t := s[i..];
    assert t[0..|ExtraEncoding(e)|] == s[i..i + |ExtraEncoding(e)|];
    SkipsExtra(t, 0, e, 0);
    ExtraTag(s, i, e);
  }

  /** An unknown field opens with its own number and no end-of-group tag. */
  lemma ExtraTag(s: seq<byte>, i: nat, e: Extra)
    requires GoodExtra(e) && At(s, i, ExtraEncoding(e))
    ensures Decode(s, i).Parsed?
    ensures Int32Of(Decode(s, i).value / 8) == e.num && Decode(s, i).value % 8 != 4
  {
    hide Decode, Encode, Int32Of, At, Tag;
    match e
    case ExtraVarint(num, v) =>
      AtParts(s, i, Encode(Tag(num, 0)), Encode(v));
      DecodeEncoded(s, i, Tag(num, 0));
      TagRead(num, 0);
    case ExtraFixed64(num, bytes) =>
      AtParts(s, i, Encode(Tag(num, 1)), bytes);
      DecodeEncoded(s, i, Tag(num, 1));
      TagRead(num, 1);
    case ExtraBytes(num, bytes) =>
      AtParts(s, i, Encode(Tag(num, 2)) + Encode(|bytes|), bytes);
      AtParts(s, i, Encode(Tag(num, 2)), Encode(|bytes|));
      DecodeEncoded(s, i, Tag(num, 2));
      TagRead(num, 2);
    case ExtraGroup(num, items) =>
      AtParts(s, i, Encode(Tag(num, 3)) + ItemEncodings(items), Encode(Tag(num, 4)));
      AtParts(s, i, Encode(Tag(num, 3)), ItemEncodings(items));
      DecodeEncoded(s, i, Tag(num, 3));
      TagRead(num, 3);
    case ExtraFixed32(num, bytes) =>
      AtParts(s, i, Encode(Tag(num, 5)), bytes);
      DecodeEncoded(s, i, Tag(num, 5));
      TagRead(num, 5);
  }
}
