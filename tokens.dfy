/** The field types of the packet schema language and the values that
    readFromTokenType / writeFromTokenType exchange with the packet entries. The
    reading side is a function `ParseToken` over the input bytes and the writing side a
    function `TokenBytes` giving the bytes written; the two DataReader / DataWriter
    dispatch methods are proved against them. */
module Tokens {
  import opened Base
  import opened Wire
  import opened Protocols
  import opened Positions
  import N = NbtFormat
  import opened Reader
  import opened Writer
  import NbtTags

  /** TokenType: the kinds of field a variable rule can have. The types the two dispatch
      methods do not handle (metadata, slots, ...) are `Other`. */
  datatype TokenType =
    | BOOLEAN | BYTE | ANGLE | SHORT | INT | LONG | CHAT | STRING | FLOAT | DOUBLE
    | VARINT | VARLONG | NBT | POSITION | UUID
    | Other(friendlyName: string)

  /** The Java object a field holds: an Integer, a Long, a String, a Float or Double
      (kept as its big-endian bytes), a VarInt or VarLong holder, a TagCompound or
      null, a Position, or a UUID. */
  datatype Value =
    | IntValue(intValue: Int32)
    | LongValue(longValue: Int64)
    | StringValue(text: string)
    | FloatValue(floatBytes: seq<Byte>)
    | DoubleValue(doubleBytes: seq<Byte>)
    | VarIntValue(varInt: Int32)
    | VarLongValue(varLong: Int64)
    | NbtValue(nbt: Option<N.Tag>)
    | PositionValue(protocol: Protocol, x: Int32, y: Int32, z: Int32)
    | UuidValue(most: Int64, least: Int64)

  /** The class the writer casts a field of type `t` to. */
  predicate HasClassOf(t: TokenType, v: Value) {
    match t
    case BOOLEAN | BYTE | ANGLE | SHORT | INT => v.IntValue?
    case LONG => v.LongValue?
    case CHAT | STRING => v.StringValue?
    case FLOAT => v.FloatValue?
    case DOUBLE => v.DoubleValue?
    case VARINT => v.VarIntValue?
    case VARLONG => v.VarLongValue?
    case NBT => v.NbtValue? && (v.nbt.Some? ==> v.nbt.value.TagCompound?)
    case POSITION => v.PositionValue?
    case UUID => v.UuidValue?
    case Other(_) => true
  }

  /** readFromTokenType: what the reader finds at `p` for a field of type `t`. A
      boolean becomes the Integer 1 or 0; a string is a varint length and that many
      one-byte chars; a position is unpacked with the given protocol; a UUID is 16
      bytes taken as two longs; an unknown type is an error. */
  function ParseToken(s: seq<Byte>, p: nat, t: TokenType, protocol: Protocol): (r: Result<Parsed<Value>>)
    ensures t.Other? ==> r == Err(UnknownTokenType)
    ensures r.Ok? ==> p < r.value.next && HasClassOf(t, r.value.value)
    ensures r.Ok? && t == BOOLEAN ==> r.value.value.intValue in {0, 1}
    ensures r.Ok? && (t == BYTE || t == ANGLE) ==> 0 <= r.value.value.intValue < TWO_8
    ensures r.Ok? && t == SHORT ==> 0 <= r.value.value.intValue < TWO_16
  {
    match t
    case BOOLEAN =>
      var b :- ParseBoolean(s, p);
      Ok(Parsed(IntValue(if b.value then 1 else 0), b.next))
    case BYTE | ANGLE =>
      var b :- ParseByte(s, p);
      Ok(Parsed(IntValue(b.value), b.next))
    case SHORT =>
      var v :- ParseShort(s, p);
      Ok(Parsed(IntValue(v.value), v.next))
    case INT =>
      var v :- ParseInt(s, p);
      Ok(Parsed(IntValue(v.value), v.next))
    case LONG =>
      var v :- ParseLong(s, p);
      Ok(Parsed(LongValue(v.value), v.next))
    case CHAT | STRING => ParseText(s, p)
    case FLOAT =>
      var bs :- ParseBytes(s, p, 4);
      Ok(Parsed(FloatValue(bs.value), bs.next))
    case DOUBLE =>
      var bs :- ParseBytes(s, p, 8);
      Ok(Parsed(DoubleValue(bs.value), bs.next))
    case VARINT =>
      var v :- ParseVarInt(s, p);
      Ok(Parsed(VarIntValue(v.value), v.next))
    case VARLONG =>
      var v :- ParseVarLong(s, p);
      Ok(Parsed(VarLongValue(v.value), v.next))
    case NBT =>
      var c :- N.ParseNbt(s, p);
      Ok(Parsed(NbtValue(c.value), c.next))
    case POSITION => ParsePosition(s, p, protocol)
    case UUID => ParseUuid(s, p)
    case Other(_) => Err(UnknownTokenType)
  }

  /** `readString(readVarInt().getValue())`: a varint count, then that many one-byte
      chars (none when the count is not positive). */
  function ParseText(s: seq<Byte>, p: nat): (r: Result<Parsed<Value>>)
    ensures r.Ok? ==> p < r.value.next && r.value.value.StringValue?
  {
    var n :- ParseVarInt(s, p);
    var text :- ParseString(s, n.next, n.value);
    Ok(Parsed(StringValue(text.value), text.next))
  }

  /** readPosition: a long unpacked with the layout of `protocol`, as written. */
  function ParsePosition(s: seq<Byte>, p: nat, protocol: Protocol): (r: Result<Parsed<Value>>)
    ensures r.Ok? ==> p < r.value.next && r.value.value.PositionValue?
  {
    var v :- ParseLong(s, p);
    var c := UnpackAsWritten(protocol, v.value);
    UnpackRange(protocol, v.value);
    Ok(Parsed(PositionValue(protocol, c.0, c.1, c.2), v.next))
  }

  /** readUUID: sixteen bytes, taken as two longs. */
  function ParseUuid(s: seq<Byte>, p: nat): (r: Result<Parsed<Value>>)
    ensures r.Ok? <==> p + 16 <= |s|
    ensures r.Ok? ==> r.value.next == p + 16 && r.value.value == UuidOf(s[p..p + 16])
  {
    var bs :- ParseBytes(s, p, 16);
    Ok(Parsed(UuidOf(bs.value), bs.next))
  }

  /** The first eight of the sixteen bytes are the most significant long, the
      last eight the least significant one. */
  function UuidOf(bs: seq<Byte>): (r: Value)
    requires |bs| == 16
    ensures r.UuidValue?
    ensures ParseLong(bs, 0) == Ok(Parsed(r.most, 8)) && ParseLong(bs, 8) == Ok(Parsed(r.least, 16))
  {
    UuidValue(ParseLong(bs, 0).value.value, ParseLong(bs, 8).value.value)
  }

  /** writeFromTokenType: the bytes written for a field of type `t` holding `v`. A value
      of another class than the cast expects is a ClassCastException; a string is
      prefixed by its char count as a varint; an absent compound is the single 0 byte
      readNBT takes for null (as written the writer throws there, see
      TokenBytesAsWritten); an unknown type writes nothing. */
  function TokenBytes(t: TokenType, v: Value): (r: Result<seq<Byte>>)
    ensures r.Ok? <==> HasClassOf(t, v)
    ensures r.Err? ==> r.error == ClassCast
    ensures t.Other? ==> r == Ok([])
  {
    if !HasClassOf(t, v) then Err(ClassCast)
    else
      match t
      case BOOLEAN | BYTE | ANGLE => Ok([v.intValue % TWO_8])
      case SHORT => Ok(ShortBytes(v.intValue))
      case INT => Ok(IntBytes(v.intValue))
      case LONG => Ok(LongBytes(v.longValue))
      case CHAT | STRING => Ok(VarIntBytes(S32(JavaLength(v.text))) + Utf8(v.text))
      case FLOAT => Ok(v.floatBytes)
      case DOUBLE => Ok(v.doubleBytes)
      case VARINT => Ok(VarIntBytes(v.varInt))
      case VARLONG => Ok(VarLongBytes(v.varLong))
      case NBT => if v.nbt.None? then Ok([0]) else Ok(N.Encode(v.nbt.value))
      case POSITION => Ok(LongBytes(Pack(v.protocol, v.x, v.y, v.z)))
      case UUID => Ok(LongBytes(v.most) + LongBytes(v.least))
      case Other(_) => Ok([])
  }

  /** readFromTokenType on a DataReader. */
  method ReadToken(reader: DataReader, t: TokenType, protocol: Protocol) returns (r: Result<Value>)
    requires reader.Valid()
    modifies reader
    ensures reader.Valid()
    ensures Follows(r, ParseToken(reader.data, old(reader.pos), t, protocol), reader.pos, |reader.data|)
  {
    match t
    case BOOLEAN | BYTE | ANGLE | SHORT | INT | LONG =>
      r := ReadNumberToken(reader, t, protocol);
    case CHAT | STRING =>
      r := ReadText(reader);
    case FLOAT | DOUBLE | VARINT | VARLONG =>
      r := ReadRawToken(reader, t, protocol);
    case NBT =>
      r := ReadNbtValue(reader);
    case POSITION =>
      r := ReadPositionValue(reader, protocol);
    case UUID =>
      r := ReadUuid(reader);
    case Other(_) =>
      r := Err(UnknownTokenType);
  }

  /** The cases read with a fixed-width DataInputStream read. */
  method ReadNumberToken(reader: DataReader, t: TokenType, protocol: Protocol) returns (r: Result<Value>)
    requires reader.Valid() && (t.BOOLEAN? || t.BYTE? || t.ANGLE? || t.SHORT? || t.INT? || t.LONG?)
    modifies reader
    ensures reader.Valid()
    ensures Follows(r, ParseToken(reader.data, old(reader.pos), t, protocol), reader.pos, |reader.data|)
  {
    match t
    case BOOLEAN =>
      var b :- reader.ReadBoolean();
      r := Ok(IntValue(if b then 1 else 0));
    case BYTE | ANGLE =>
      var b :- reader.ReadByte();
      r := Ok(IntValue(b));
    case SHORT =>
      var v :- reader.ReadShort();
      r := Ok(IntValue(v));
    case INT =>
      var v :- reader.ReadInt();
      r := Ok(IntValue(v));
    case LONG =>
      var v :- reader.ReadLong();
      r := Ok(LongValue(v));
  }

  /** The float cases, kept as their raw bytes, and the variable-length cases. */
  method ReadRawToken(reader: DataReader, t: TokenType, protocol: Protocol) returns (r: Result<Value>)
    requires reader.Valid() && (t.FLOAT? || t.DOUBLE? || t.VARINT? || t.VARLONG?)
    modifies reader
    ensures reader.Valid()
    ensures Follows(r, ParseToken(reader.data, old(reader.pos), t, protocol), reader.pos, |reader.data|)
  {
    match t
    case FLOAT =>
      var bs :- reader.ReadFollowingBytes(4);
      r := Ok(FloatValue(bs));
    case DOUBLE =>
      var bs :- reader.ReadFollowingBytes(8);
      r := Ok(DoubleValue(bs));
    case VARINT =>
      var v :- reader.ReadVarInt();
      r := Ok(VarIntValue(v));
    case VARLONG =>
      var v :- reader.ReadVarLong();
      r := Ok(VarLongValue(v));
  }

  /** The STRING / CHAT case: `readString(readVarInt().getValue())`. */
  method ReadText(reader: DataReader) returns (r: Result<Value>)
    requires reader.Valid()
    modifies reader
    ensures reader.Valid() && Follows(r, ParseText(reader.data, old(reader.pos)), reader.pos, |reader.data|)
  {
    var n :- reader.ReadVarInt();
    var text :- reader.ReadString(n);
    r := Ok(StringValue(text));
  }

  /** The NBT case: readNBT, whose null is the absent compound. */
  method ReadNbtValue(reader: DataReader) returns (r: Result<Value>)
    requires reader.Valid()
    modifies reader
    ensures reader.Valid()
    ensures Follows(r, ParseToken(reader.data, old(reader.pos), NBT, Protocols.DEFAULT_PROTOCOL),
                    reader.pos, |reader.data|)
  {
    var c :- NbtTags.ReadNbt(reader);
    r := Ok(NbtValue(if c == null then None else Some(c.Value())));
  }

  /** The POSITION case: readPosition with the protocol given. */
  method ReadPositionValue(reader: DataReader, protocol: Protocol) returns (r: Result<Value>)
    requires reader.Valid()
    modifies reader
    ensures reader.Valid()
    ensures Follows(r, ParsePosition(reader.data, old(reader.pos), protocol), reader.pos, |reader.data|)
  {
    var position :- reader.ReadPosition(protocol);
    r := Ok(PositionValue(protocol, position.x, position.y, position.z));
  }

  /** DataReader.readUUID: sixteen bytes, read as two big-endian longs. */
  method ReadUuid(reader: DataReader) returns (r: Result<Value>)
    requires reader.Valid()
    modifies reader
    ensures reader.Valid() && Follows(r, ParseUuid(reader.data, old(reader.pos)), reader.pos, |reader.data|)
  {
    var bs :- reader.ReadFollowingBytes(16);
    r := Ok(UuidOf(bs));
  }

  /** writeFromTokenType on a DataWriter: the bytes of `TokenBytes`, or the exception
      with nothing written. */
  method WriteToken(writer: DataWriter, t: TokenType, v: Value) returns (e: Option<Error>)
    requires writer.Valid()
    modifies writer, writer.buffer
    ensures writer.Valid()
    ensures TokenBytes(t, v).Ok? ==>
              e.None? && writer.Written() == old(writer.Written()) + TokenBytes(t, v).value
    ensures TokenBytes(t, v).Err? ==>
              e == Some(TokenBytes(t, v).error) && writer.Written() == old(writer.Written())
  {
    if !HasClassOf(t, v) {
      return Some(ClassCast);
    }
    e := None;
    match t
    case BOOLEAN | BYTE | ANGLE | SHORT | INT | LONG =>
      WriteNumberToken(writer, t, v);
    case CHAT | STRING =>
      WriteText(writer, v.text);
    case FLOAT | DOUBLE | VARINT | VARLONG =>
      WriteRawToken(writer, t, v);
    case NBT =>
      if v.nbt.None? {
        writer.WriteByte(0);
      } else {
        NbtTags.WriteTag(writer, v.nbt.value);
      }
    case POSITION =>
      var position := new Position(v.protocol, v.x, v.y, v.z);
      writer.WritePosition(position);
    case UUID =>
      writer.WriteUuid(v.most, v.least);
    case Other(_) =>
  }

  /** The cases written with a fixed-width DataOutputStream write. */
  method WriteNumberToken(writer: DataWriter, t: TokenType, v: Value)
    requires writer.Valid() && (t.BOOLEAN? || t.BYTE? || t.ANGLE? || t.SHORT? || t.INT? || t.LONG?)
    requires HasClassOf(t, v)
    modifies writer, writer.buffer
    ensures writer.Valid() && writer.Written() == old(writer.Written()) + TokenBytes(t, v).value
  {
    match t
    case BOOLEAN | BYTE | ANGLE =>
      writer.WriteByte(v.intValue);
    case SHORT =>
      writer.WriteShort(v.intValue);
    case INT =>
      writer.WriteInt(v.intValue);
    case LONG =>
      writer.WriteLong(v.longValue);
  }

  /** The float cases, written from their raw bytes, and the variable-length cases. */
  method WriteRawToken(writer: DataWriter, t: TokenType, v: Value)
    requires writer.Valid() && (t.FLOAT? || t.DOUBLE? || t.VARINT? || t.VARLONG?)
    requires HasClassOf(t, v)
    modifies writer, writer.buffer
    ensures writer.Valid() && writer.Written() == old(writer.Written()) + TokenBytes(t, v).value
  {
    match t
    case FLOAT =>
      writer.WriteByteArray(v.floatBytes);
    case DOUBLE =>
      writer.WriteByteArray(v.doubleBytes);
    case VARINT =>
      writer.WriteVarInt(v.varInt);
    case VARLONG =>
      writer.WriteVarLong(v.varLong);
  }

  /** The STRING / CHAT case: `writeVarInt(string.length())`, then the UTF-8 bytes. */
  method WriteText(writer: DataWriter, text: string)
    requires writer.Valid()
    modifies writer, writer.buffer
    ensures writer.Valid()
    ensures writer.Written() == old(writer.Written()) + (VarIntBytes(S32(JavaLength(text))) + Utf8(text))
  {
    ghost var w := writer.Written();
    writer.WriteVarInt(S32(JavaLength(text)));
    writer.WriteString(text);
    AppendAssoc(w, VarIntBytes(S32(JavaLength(text))), Utf8(text));
  }

  // ---------------------------------------------------------------- round trip

  /** Values the reader gives back unchanged after the writer wrote them: the class the
      cast expects, the ranges readByte / readShort produce, ASCII strings whose length
      fits an int, floats of 4 and doubles of 8 bytes, a named non-root compound the NBT
      reader returns, and positions of the layout before 1.14 read with their own
      protocol. */
  predicate Readable(t: TokenType, v: Value, protocol: Protocol) {
    HasClassOf(t, v) &&
    match t
    case BOOLEAN => v.intValue in {0, 1}
    case BYTE | ANGLE => 0 <= v.intValue < TWO_8
    case SHORT => 0 <= v.intValue < TWO_16
    case CHAT | STRING => IsAscii(v.text) && |v.text| < TWO_31
    case FLOAT => |v.floatBytes| == 4
    case DOUBLE => |v.doubleBytes| == 8
    case NBT =>
      v.nbt.Some? ==> v.nbt.value.name.Some? && !v.nbt.value.isRoot && N.WellFormed(v.nbt.value)
    case POSITION => v.protocol == protocol && !NewLayout(protocol) && Fits(protocol, v.x, v.y, v.z)
    case Other(_) => false
    case _ => true
  }

  /** readFromTokenType reads back what writeFromTokenType wrote, and stops right after
      it. */
  lemma TokenRoundTrip(s: seq<Byte>, p: nat, t: TokenType, v: Value, protocol: Protocol, e: nat)
    requires Readable(t, v, protocol) && TokenBytes(t, v).Ok?
    requires At(s, p, TokenBytes(t, v).value) && e == p + |TokenBytes(t, v).value|
    ensures ParseToken(s, p, t, protocol) == Ok(Parsed(v, e))
  {
    match t
    case BOOLEAN => BooleanCase(s, p, v, protocol, e);
    case BYTE => ByteCase(s, p, v, protocol, e);
    case ANGLE => AngleCase(s, p, v, protocol, e);
    case SHORT => ShortCase(s, p, v.intValue, protocol, e);
    case INT => IntCase(s, p, v, protocol, e);
    case LONG => LongCase(s, p, v, protocol, e);
    case FLOAT => FloatCase(s, p, v, protocol, e);
    case DOUBLE => DoubleCase(s, p, v, protocol, e);
    case VARINT => VarIntCase(s, p, v.varInt, protocol, e);
    case VARLONG => VarLongCase(s, p, v.varLong, protocol, e);
    case CHAT => ChatCase(s, p, v, protocol, e);
    case STRING => StringCase(s, p, v, protocol, e);
    case NBT => NbtCase(s, p, v, protocol, e);
    case POSITION => PositionCase(s, p, v, protocol, e);
    case UUID => UuidCase(s, p, v, protocol, e);
  }

  // The round trip, one type at a time.

  lemma BooleanCase(s: seq<Byte>, p: nat, v: Value, protocol: Protocol, e: nat)
    requires Readable(BOOLEAN, v, protocol) && TokenBytes(BOOLEAN, v).Ok?
    requires At(s, p, TokenBytes(BOOLEAN, v).value) && e == p + |TokenBytes(BOOLEAN, v).value|
    ensures ParseToken(s, p, BOOLEAN, protocol) == Ok(Parsed(v, e))
  {
    ByteTokenRoundTrip(s, p, BOOLEAN, v.intValue, protocol);
  }

  lemma ByteCase(s: seq<Byte>, p: nat, v: Value, protocol: Protocol, e: nat)
    requires Readable(BYTE, v, protocol) && TokenBytes(BYTE, v).Ok?
    requires At(s, p, TokenBytes(BYTE, v).value) && e == p + |TokenBytes(BYTE, v).value|
    ensures ParseToken(s, p, BYTE, protocol) == Ok(Parsed(v, e))
  {
    ByteTokenRoundTrip(s, p, BYTE, v.intValue, protocol);
  }

  lemma AngleCase(s: seq<Byte>, p: nat, v: Value, protocol: Protocol, e: nat)
    requires Readable(ANGLE, v, protocol) && TokenBytes(ANGLE, v).Ok?
    requires At(s, p, TokenBytes(ANGLE, v).value) && e == p + |TokenBytes(ANGLE, v).value|
    ensures ParseToken(s, p, ANGLE, protocol) == Ok(Parsed(v, e))
  {
    ByteTokenRoundTrip(s, p, ANGLE, v.intValue, protocol);
  }

  lemma ShortCase(s: seq<Byte>, p: nat, x: Int32, protocol: Protocol, e: nat)
    requires 0 <= x < TWO_16 && At(s, p, ShortBytes(x)) && e == p + 2
    ensures ParseToken(s, p, SHORT, protocol) == Ok(Parsed(IntValue(x), e))
  {
    ShortRoundTripFits(s, p, x);
    ShortToken(s, p, protocol);
  }

  lemma IntCase(s: seq<Byte>, p: nat, v: Value, protocol: Protocol, e: nat)
    requires Readable(INT, v, protocol) && TokenBytes(INT, v).Ok?
    requires At(s, p, TokenBytes(INT, v).value) && e == p + |TokenBytes(INT, v).value|
    ensures ParseToken(s, p, INT, protocol) == Ok(Parsed(v, e))
  {
    IntRoundTrip(s, p, v.intValue);
    IntToken(s, p, protocol);
  }

  lemma LongCase(s: seq<Byte>, p: nat, v: Value, protocol: Protocol, e: nat)
    requires Readable(LONG, v, protocol) && TokenBytes(LONG, v).Ok?
    requires At(s, p, TokenBytes(LONG, v).value) && e == p + |TokenBytes(LONG, v).value|
    ensures ParseToken(s, p, LONG, protocol) == Ok(Parsed(v, e))
  {
    LongRoundTrip(s, p, v.longValue);
    LongToken(s, p, protocol);
  }

  lemma FloatCase(s: seq<Byte>, p: nat, v: Value, protocol: Protocol, e: nat)
    requires Readable(FLOAT, v, protocol) && TokenBytes(FLOAT, v).Ok?
    requires At(s, p, TokenBytes(FLOAT, v).value) && e == p + |TokenBytes(FLOAT, v).value|
    ensures ParseToken(s, p, FLOAT, protocol) == Ok(Parsed(v, e))
  {
    BytesRoundTrip(s, p, v.floatBytes);
    FloatToken(s, p, protocol);
  }

  lemma DoubleCase(s: seq<Byte>, p: nat, v: Value, protocol: Protocol, e: nat)
    requires Readable(DOUBLE, v, protocol) && TokenBytes(DOUBLE, v).Ok?
    requires At(s, p, TokenBytes(DOUBLE, v).value) && e == p + |TokenBytes(DOUBLE, v).value|
    ensures ParseToken(s, p, DOUBLE, protocol) == Ok(Parsed(v, e))
  {
    BytesRoundTrip(s, p, v.doubleBytes);
    DoubleToken(s, p, protocol);
  }

  lemma VarIntCase(s: seq<Byte>, p: nat, x: Int32, protocol: Protocol, e: nat)
    requires At(s, p, VarIntBytes(x)) && e == p + |VarIntBytes(x)|
    ensures ParseToken(s, p, VARINT, protocol) == Ok(Parsed(VarIntValue(x), e))
  {
    VarIntRoundTrip(s, p, x);
    VarIntToken(s, p, protocol);
  }

  lemma VarLongCase(s: seq<Byte>, p: nat, x: Int64, protocol: Protocol, e: nat)
    requires At(s, p, VarLongBytes(x)) && e == p + |VarLongBytes(x)|
    ensures ParseToken(s, p, VARLONG, protocol) == Ok(Parsed(VarLongValue(x), e))
  {
    VarLongRoundTrip(s, p, x);
    VarLongToken(s, p, protocol);
  }

  lemma ChatCase(s: seq<Byte>, p: nat, v: Value, protocol: Protocol, e: nat)
    requires Readable(CHAT, v, protocol) && TokenBytes(CHAT, v).Ok?
    requires At(s, p, TokenBytes(CHAT, v).value) && e == p + |TokenBytes(CHAT, v).value|
    ensures ParseToken(s, p, CHAT, protocol) == Ok(Parsed(v, e))
  {
    TextRoundTrip(s, p, v.text, e);
    TextToken(s, p, protocol);
  }

  lemma StringCase(s: seq<Byte>, p: nat, v: Value, protocol: Protocol, e: nat)
    requires Readable(STRING, v, protocol) && TokenBytes(STRING, v).Ok?
    requires At(s, p, TokenBytes(STRING, v).value) && e == p + |TokenBytes(STRING, v).value|
    ensures ParseToken(s, p, STRING, protocol) == Ok(Parsed(v, e))
  {
    TextRoundTrip(s, p, v.text, e);
    TextToken(s, p, protocol);
  }

  lemma NbtCase(s: seq<Byte>, p: nat, v: Value, protocol: Protocol, e: nat)
    requires Readable(NBT, v, protocol) && TokenBytes(NBT, v).Ok?
    requires At(s, p, TokenBytes(NBT, v).value) && e == p + |TokenBytes(NBT, v).value|
    ensures ParseToken(s, p, NBT, protocol) == Ok(Parsed(v, e))
  {
    if v.nbt.None? {
      AbsentCompoundRoundTrip(s, p, protocol);
    } else {
      var tag := v.nbt.value;
      N.NbtRoundTrip(s, p, tag, tag.name.value, p + 3 + |tag.name.value|, e);
    }
  }

  lemma PositionCase(s: seq<Byte>, p: nat, v: Value, protocol: Protocol, e: nat)
    requires Readable(POSITION, v, protocol) && TokenBytes(POSITION, v).Ok?
    requires At(s, p, TokenBytes(POSITION, v).value) && e == p + |TokenBytes(POSITION, v).value|
    ensures ParseToken(s, p, POSITION, protocol) == Ok(Parsed(v, e))
  {
    PositionRoundTrip(s, p, v, protocol);
    PositionToken(s, p, protocol);
  }

  lemma UuidCase(s: seq<Byte>, p: nat, v: Value, protocol: Protocol, e: nat)
    requires Readable(UUID, v, protocol) && TokenBytes(UUID, v).Ok?
    requires At(s, p, TokenBytes(UUID, v).value) && e == p + |TokenBytes(UUID, v).value|
    ensures ParseToken(s, p, UUID, protocol) == Ok(Parsed(v, e))
  {
    UuidRoundTrip(s, p, v.most, v.least);
    UuidToken(s, p, protocol);
  }

  // What ParseToken is for each type, one type at a time.

  lemma ByteTokenRoundTrip(s: seq<Byte>, p: nat, t: TokenType, b: Int32, protocol: Protocol)
    requires t == BOOLEAN || t == BYTE || t == ANGLE
    requires 0 <= b < TWO_8 && (t == BOOLEAN ==> b in {0, 1}) && At(s, p, [b])
    ensures ParseToken(s, p, t, protocol) == Ok(Parsed(IntValue(b), p + 1))
  {
    ByteRoundTrip(s, p, b);
  }

  lemma ShortToken(s: seq<Byte>, p: nat, protocol: Protocol)
    ensures ParseShort(s, p).Ok? ==>
              ParseToken(s, p, SHORT, protocol) ==
              Ok(Parsed(IntValue(ParseShort(s, p).value.value), ParseShort(s, p).value.next))
  {
  }

  lemma IntToken(s: seq<Byte>, p: nat, protocol: Protocol)
    ensures ParseInt(s, p).Ok? ==>
              ParseToken(s, p, INT, protocol) ==
              Ok(Parsed(IntValue(ParseInt(s, p).value.value), ParseInt(s, p).value.next))
  {
  }

  lemma LongToken(s: seq<Byte>, p: nat, protocol: Protocol)
    ensures ParseLong(s, p).Ok? ==>
              ParseToken(s, p, LONG, protocol) ==
              Ok(Parsed(LongValue(ParseLong(s, p).value.value), ParseLong(s, p).value.next))
  {
  }

  lemma FloatToken(s: seq<Byte>, p: nat, protocol: Protocol)
    ensures ParseBytes(s, p, 4).Ok? ==>
              ParseToken(s, p, FLOAT, protocol) ==
              Ok(Parsed(FloatValue(ParseBytes(s, p, 4).value.value), ParseBytes(s, p, 4).value.next))
  {
  }

  lemma DoubleToken(s: seq<Byte>, p: nat, protocol: Protocol)
    ensures ParseBytes(s, p, 8).Ok? ==>
              ParseToken(s, p, DOUBLE, protocol) ==
              Ok(Parsed(DoubleValue(ParseBytes(s, p, 8).value.value), ParseBytes(s, p, 8).value.next))
  {
  }

  lemma VarIntToken(s: seq<Byte>, p: nat, protocol: Protocol)
    ensures ParseVarInt(s, p).Ok? ==>
              ParseToken(s, p, VARINT, protocol) ==
              Ok(Parsed(VarIntValue(ParseVarInt(s, p).value.value), ParseVarInt(s, p).value.next))
  {
  }

  lemma VarLongToken(s: seq<Byte>, p: nat, protocol: Protocol)
    ensures ParseVarLong(s, p).Ok? ==>
              ParseToken(s, p, VARLONG, protocol) ==
              Ok(Parsed(VarLongValue(ParseVarLong(s, p).value.value), ParseVarLong(s, p).value.next))
  {
  }

  lemma TextToken(s: seq<Byte>, p: nat, protocol: Protocol)
    ensures ParseToken(s, p, CHAT, protocol) == ParseToken(s, p, STRING, protocol) == ParseText(s, p)
  {
  }

  lemma PositionToken(s: seq<Byte>, p: nat, protocol: Protocol)
    ensures ParseToken(s, p, POSITION, protocol) == ParsePosition(s, p, protocol)
  {
  }

  lemma UuidToken(s: seq<Byte>, p: nat, protocol: Protocol)
    ensures ParseToken(s, p, UUID, protocol) == ParseUuid(s, p)
  {
  }

  /** An ASCII string: the varint char count, then the chars, one byte each. */
  lemma TextRoundTrip(s: seq<Byte>, p: nat, text: string, e: nat)
    requires IsAscii(text) && |text| < TWO_31
    requires At(s, p, VarIntBytes(S32(JavaLength(text))) + Utf8(text))
    requires e == p + |VarIntBytes(S32(JavaLength(text))) + Utf8(text)|
    ensures ParseText(s, p) == Ok(Parsed(StringValue(text), e))
  {
    AsciiLengths(text);
    var n := |text|;
    SmallInt(n);
    var prefix := VarIntBytes(n);
    assert VarIntBytes(S32(JavaLength(text))) == prefix;
    AtSplit(s, p, prefix, Utf8(text));
    VarIntRoundTrip(s, p, n);
    var q := p + |prefix|;
    assert ParseString(s, q, n) == Ok(Parsed(text, e)) by {
      if n > 0 {
        assert s[q..q + n] == Utf8(text);
      }
    }
    TextStep(s, p, n, q, text, e);
  }

  lemma AsciiLengths(text: string)
    requires IsAscii(text)
    ensures JavaLength(text) == |text| == |Utf8(text)| && Latin1(Utf8(text)) == text
  {
    Utf8Ascii(text);
    Utf8LengthIsJavaLength(text);
  }

  lemma SmallInt(n: nat)
    requires n < TWO_31
    ensures S32(n) == n
  {
  }

  lemma TextStep(s: seq<Byte>, p: nat, n: Int32, q: nat, text: string, e: nat)
    requires ParseVarInt(s, p) == Ok(Parsed(n, q)) && ParseString(s, q, n) == Ok(Parsed(text, e))
    ensures ParseText(s, p) == Ok(Parsed(StringValue(text), e))
  {
  }

  /** A position of the layout before 1.14, read with the protocol it was packed with. */
  lemma PositionRoundTrip(s: seq<Byte>, p: nat, v: Value, protocol: Protocol)
    requires v.PositionValue? && v.protocol == protocol && !NewLayout(protocol)
    requires Fits(protocol, v.x, v.y, v.z)
    requires At(s, p, LongBytes(Pack(protocol, v.x, v.y, v.z)))
    ensures ParsePosition(s, p, protocol) == Ok(Parsed(v, p + 8))
  {
    LongRoundTrip(s, p, Pack(protocol, v.x, v.y, v.z));
    OldLayoutRoundTrip(protocol, v.x, v.y, v.z);
  }

  /** From 1.14 the reader gets back x and y of a position written in the new layout,
      but its z is z's low 14 bits followed by y's 12 bits. */
  lemma NewLayoutPositionRead(s: seq<Byte>, p: nat, v: Value, protocol: Protocol)
    requires v.PositionValue? && v.protocol == protocol && NewLayout(protocol)
    requires Fits(protocol, v.x, v.y, v.z)
    requires At(s, p, LongBytes(Pack(protocol, v.x, v.y, v.z)))
    ensures ParsePosition(s, p, protocol) ==
            Ok(Parsed(v.(z := Signed26((v.z % 0x4000) * TWO_12 + v.y % TWO_12)), p + 8))
  {
    LongRoundTrip(s, p, Pack(protocol, v.x, v.y, v.z));
    NewLayoutAsWritten(protocol, v.x, v.y, v.z);
  }

  /** The POSITION token (0, 0, 1) written from 1.14 is read back as (0, 0, 4096). */
  lemma NewLayoutTokenLosesZ(s: seq<Byte>, p: nat, protocol: Protocol)
    requires NewLayout(protocol) && At(s, p, LongBytes(4096))
    ensures TokenBytes(POSITION, PositionValue(protocol, 0, 0, 1)) == Ok(LongBytes(4096))
    ensures ParseToken(s, p, POSITION, protocol) == Ok(Parsed(PositionValue(protocol, 0, 0, 4096), p + 8))
  {
    NewLayoutLosesZ(protocol);
    NewLayoutPositionRead(s, p, PositionValue(protocol, 0, 0, 1), protocol);
    PositionToken(s, p, protocol);
  }

  /** A UUID: its two longs, most significant first. */
  lemma UuidRoundTrip(s: seq<Byte>, p: nat, most: Int64, least: Int64)
    requires At(s, p, LongBytes(most) + LongBytes(least))
    ensures ParseUuid(s, p) == Ok(Parsed(UuidValue(most, least), p + 16))
  {
    var bs := LongBytes(most) + LongBytes(least);
    assert s[p..p + 16] == bs;
    assert At(bs, 0, bs);
    AtSplit(bs, 0, LongBytes(most), LongBytes(least));
    LongRoundTrip(bs, 0, most);
    LongRoundTrip(bs, 8, least);
  }

  // ---------------------------------------------------------------- the absent compound

  /** writeFromTokenType as written: the NBT case casts the value to TagCompound and
      calls `write` on it, so an absent compound throws NullPointerException; every
      other value is written as TokenBytes writes it. */
  function TokenBytesAsWritten(t: TokenType, v: Value): (r: Result<seq<Byte>>)
    ensures r.Ok? <==> HasClassOf(t, v) && !(t == NBT && v.nbt.None?)
    ensures r.Ok? ==> r == TokenBytes(t, v)
    ensures r.Err? ==> r.error == (if HasClassOf(t, v) then NullPointer else ClassCast)
  {
    if t == NBT && v.NbtValue? && v.nbt.None? then Err(NullPointer) else TokenBytes(t, v)
  }

  /** As written, writing a value that was read fails exactly when it is the absent
      compound. */
  lemma ReadValuesWritableAsWritten(s: seq<Byte>, p: nat, t: TokenType, protocol: Protocol)
    requires ParseToken(s, p, t, protocol).Ok?
    ensures var v := ParseToken(s, p, t, protocol).value.value;
            TokenBytesAsWritten(t, v).Ok? <==> !(t == NBT && v == NbtValue(None))
  {
  }

  /** As written: a 0 byte read as an NBT field is null, and writing that null back
      throws instead of writing the 0 byte. */
  lemma AbsentCompoundNotWritable(protocol: Protocol)
    ensures ParseToken([0], 0, NBT, protocol) == Ok(Parsed(NbtValue(None), 1))
    ensures TokenBytesAsWritten(NBT, NbtValue(None)) == Err(NullPointer)
    ensures TokenBytes(NBT, NbtValue(None)) == Ok([0])
  {
  }

  /** With the intended writer every value the reader produces can be written back. */
  lemma {:induction false} WritesWhatWasRead(s: seq<Byte>, p: nat, t: TokenType, protocol: Protocol)
    requires ParseToken(s, p, t, protocol).Ok?
    ensures TokenBytes(t, ParseToken(s, p, t, protocol).value.value).Ok?
  {
  }

  /** The absent compound reads back as itself. */
  lemma AbsentCompoundRoundTrip(s: seq<Byte>, p: nat, protocol: Protocol)
    requires At(s, p, TokenBytes(NBT, NbtValue(None)).value)
    ensures ParseToken(s, p, NBT, protocol) == Ok(Parsed(NbtValue(None), p + 1))
  {
    assert s[p] == TokenBytes(NBT, NbtValue(None)).value[0];
  }
}
