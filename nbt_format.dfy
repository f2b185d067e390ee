/** The NBT (Named Binary Tag) tree as a value, with the byte layout the tag classes
    write and the layout the reading constructors of TagCompound and TagList consume.

    A tag carries an optional name: children of a compound are named, children of a list
    are not. TagByte, TagShort, TagInt, TagLong, TagFloat, TagByteArray, TagIntArray and
    TagLongArray are known here by their reading code in TagCompound and TagList and by
    the write layout TagString and TagDouble share: an optional header, then the payload. */
module NbtFormat {
  import opened Base
  import opened Wire

  const TAG_BYTE := 1
  const TAG_SHORT := 2
  const TAG_INT := 3
  const TAG_LONG := 4
  const TAG_FLOAT := 5
  const TAG_DOUBLE := 6
  const TAG_BYTE_ARRAY := 7
  const TAG_STRING := 8
  const TAG_LIST := 9
  const TAG_COMPOUND := 10
  const TAG_INT_ARRAY := 11
  const TAG_LONG_ARRAY := 12

  /** A Java `byte`, the type of TagList.childrenID. */
  type SByte = x: int | -128 <= x < 128

  /** `(byte) b` for an unsigned byte. */
  function SignedByte(b: Byte): (r: SByte)
    ensures (r - b) % 256 == 0
  {
    if b < 128 then b else b - 256
  }

  /** Floating-point payloads are kept as their raw big-endian bytes. */
  datatype Tag =
    | TagByte(name: Option<string>, byteValue: int)
    | TagShort(name: Option<string>, shortValue: int)
    | TagInt(name: Option<string>, intValue: Int32)
    | TagLong(name: Option<string>, longValue: Int64)
    | TagFloat(name: Option<string>, floatBits: seq<Byte>)
    | TagDouble(name: Option<string>, doubleBits: seq<Byte>)
    | TagByteArray(name: Option<string>, bytes: seq<Byte>)
    | TagString(name: Option<string>, text: string)
    | TagList(name: Option<string>, childrenId: SByte, items: seq<Tag>)
    | TagCompound(name: Option<string>, isRoot: bool, items: seq<Tag>)
    | TagIntArray(name: Option<string>, ints: seq<Int32>)
    | TagLongArray(name: Option<string>, longs: seq<Int64>)

  /** The TAG_ID constant of each tag class. */
  function TagId(t: Tag): (id: int)
    ensures 1 <= id <= 12
  {
    match t
    case TagByte(_, _) => TAG_BYTE
    case TagShort(_, _) => TAG_SHORT
    case TagInt(_, _) => TAG_INT
    case TagLong(_, _) => TAG_LONG
    case TagFloat(_, _) => TAG_FLOAT
    case TagDouble(_, _) => TAG_DOUBLE
    case TagByteArray(_, _) => TAG_BYTE_ARRAY
    case TagString(_, _) => TAG_STRING
    case TagList(_, _, _) => TAG_LIST
    case TagCompound(_, _, _) => TAG_COMPOUND
    case TagIntArray(_, _) => TAG_INT_ARRAY
    case TagLongArray(_, _) => TAG_LONG_ARRAY
  }

  /** A name or string value as it is written: `writeShort(s.length())` then the UTF-8
      bytes. */
  function NameBytes(s: string): (r: seq<Byte>)
    ensures |r| == 2 + |Utf8(s)|
  {
    ShortBytes(JavaLength(s)) + Utf8(s)
  }

  // ---------------------------------------------------------------- writing

  /** What `write` emits before the payload: nothing for an unnamed tag; the id and the
      name for a named one, except that a named root compound writes its id only. */
  function Header(t: Tag): (r: seq<Byte>)
    ensures t.name.None? ==> r == []
    ensures t.name.Some? ==> |r| >= 1 && r[0] == TagId(t)
    ensures t.name.Some? && !(t.TagCompound? && t.isRoot) ==> r == [TagId(t)] + NameBytes(t.name.value)
  {
    match t.name
    case None => []
    case Some(n) =>
      if t.TagCompound? && t.isRoot then [TAG_COMPOUND] else [TagId(t)] + NameBytes(n)
  }

  /** What `write` emits after the header. */
  function Payload(t: Tag): (r: seq<Byte>)
    decreases t
  {
    match t
    case TagByte(_, b) => [U32(b) % TWO_8]
    case TagShort(_, v) => ShortBytes(v)
    case TagInt(_, v) => IntBytes(v)
    case TagLong(_, v) => LongBytes(v)
    case TagFloat(_, bits) => bits
    case TagDouble(_, bits) => bits
    case TagByteArray(_, bs) => IntBytes(|bs|) + bs
    case TagString(_, s) => NameBytes(s)
    case TagList(_, cid, items) => [U32(cid) % TWO_8] + IntBytes(|items|) + EncodeAll(items)
    case TagCompound(_, _, items) => EncodeAll(items) + [0]
    case TagIntArray(_, vs) => IntBytes(|vs|) + IntsBytes(vs)
    case TagLongArray(_, vs) => IntBytes(|vs|) + LongsBytes(vs)
  }

  /** The children written one after the other, in order. */
  function EncodeAll(ts: seq<Tag>): (r: seq<Byte>)
    decreases ts
  {
    if ts == [] then [] else Header(ts[0]) + Payload(ts[0]) + EncodeAll(ts[1..])
  }

  /** TagBase.write: the header, then the payload. */
  function Encode(t: Tag): (r: seq<Byte>)
    ensures t.name.None? ==> r == Payload(t)
    ensures |r| >= |Payload(t)|
  {
    Header(t) + Payload(t)
  }

  // ---------------------------------------------------------------- reading

  /** The payload of a tag with id `id` and the given name, as the switch in
      readCompound (and, for unnamed tags, in readList) reads it. */
  function ParsePayload(s: seq<Byte>, p: nat, id: int, name: Option<string>): (r: Result<Parsed<Tag>>)
    decreases |s| - p, 1, 0
    ensures r.Ok? ==> p < r.value.next <= |s|
    ensures r.Ok? ==> TagId(r.value.value) == id && r.value.value.name == name
    ensures !(1 <= id <= 12) ==> r == Err(UnknownTagId(id))
  {
    if TAG_BYTE <= id <= TAG_DOUBLE then ParseFixed(s, p, id, name)
    else if id == TAG_BYTE_ARRAY || id == TAG_INT_ARRAY || id == TAG_LONG_ARRAY then
      ParseArray(s, p, id, name)
    else if id == TAG_STRING then ParseText(s, p, name)
    else if id == TAG_LIST then ParseList(s, p, name)
    else if id == TAG_COMPOUND then ParseCompound(s, p, name)
    else Err(UnknownTagId(id))
  }

  /** The fixed-size payloads: byte, short, int, long, and the raw bytes of a float or
      a double. */
  function ParseFixed(s: seq<Byte>, p: nat, id: int, name: Option<string>): (r: Result<Parsed<Tag>>)
    requires TAG_BYTE <= id <= TAG_DOUBLE
    ensures r.Ok? ==> p < r.value.next <= |s|
    ensures r.Ok? ==> TagId(r.value.value) == id && r.value.value.name == name
  {
    if id == TAG_BYTE then
      var b :- ParseByte(s, p);
      Ok(Parsed(TagByte(name, b.value), b.next))
    else if id == TAG_SHORT then
      var v :- ParseShort(s, p);
      Ok(Parsed(TagShort(name, v.value), v.next))
    else if id == TAG_INT then
      var v :- ParseInt(s, p);
      Ok(Parsed(TagInt(name, v.value), v.next))
    else if id == TAG_LONG then
      var v :- ParseLong(s, p);
      Ok(Parsed(TagLong(name, v.value), v.next))
    else if id == TAG_FLOAT then
      var v :- ParseBytes(s, p, 4);
      Ok(Parsed(TagFloat(name, v.value), v.next))
    else
      var v :- ParseBytes(s, p, 8);
      Ok(Parsed(TagDouble(name, v.value), v.next))
  }

  /** The arrays: an int count, then that many elements; `new int[n]` and `new long[n]`
      refuse a negative count, and so does the byte array's read of `n` bytes. */
  function ParseArray(s: seq<Byte>, p: nat, id: int, name: Option<string>): (r: Result<Parsed<Tag>>)
    requires id == TAG_BYTE_ARRAY || id == TAG_INT_ARRAY || id == TAG_LONG_ARRAY
    ensures r.Ok? ==> p < r.value.next <= |s|
    ensures r.Ok? ==> TagId(r.value.value) == id && r.value.value.name == name
  {
    var n :- ParseInt(s, p);
    if id == TAG_BYTE_ARRAY then
      var v :- ParseBytes(s, n.next, n.value);
      Ok(Parsed(TagByteArray(name, v.value), v.next))
    else if n.value < 0 then Err(NegativeArraySize)
    else if id == TAG_INT_ARRAY then
      var v :- ParseInts(s, n.next, n.value);
      Ok(Parsed(TagIntArray(name, v.value), v.next))
    else
      var v :- ParseLongs(s, n.next, n.value);
      Ok(Parsed(TagLongArray(name, v.value), v.next))
  }

  /** A string payload: a short length, then that many one-byte chars. */
  function ParseText(s: seq<Byte>, p: nat, name: Option<string>): (r: Result<Parsed<Tag>>)
    ensures r.Ok? ==> p < r.value.next <= |s|
    ensures r.Ok? ==> r.value.value.TagString? && r.value.value.name == name
  {
    var n :- ParseShort(s, p);
    var v :- ParseString(s, n.next, n.value);
    Ok(Parsed(TagString(name, v.value), v.next))
  }

  /** A list payload (TagList's reading constructor): the child id as a signed byte, an
      int count, then the children; a negative count reads no child. */
  function ParseList(s: seq<Byte>, p: nat, name: Option<string>): (r: Result<Parsed<Tag>>)
    decreases |s| - p, 0, 1
    ensures r.Ok? ==> p < r.value.next <= |s|
    ensures r.Ok? ==> r.value.value.TagList? && r.value.value.name == name
  {
    var c :- ParseByte(s, p);
    var n :- ParseInt(s, c.next);
    var items :- ParseListItems(s, n.next, SignedByte(c.value), Max(0, n.value));
    Ok(Parsed(TagList(name, SignedByte(c.value), items.value), items.next))
  }

  /** A compound payload read by the nested TagCompound constructor: never a root. */
  function ParseCompound(s: seq<Byte>, p: nat, name: Option<string>): (r: Result<Parsed<Tag>>)
    decreases |s| - p, 0, 2
    ensures r.Ok? ==> p < r.value.next <= |s|
    ensures r.Ok? ==> r.value.value.TagCompound? && r.value.value.name == name
  {
    var items :- ParseCompoundItems(s, p);
    Ok(Parsed(TagCompound(name, false, items.value), items.next))
  }

  /** readList's loop: `count` unnamed payloads of the list's child id. */
  function ParseListItems(s: seq<Byte>, p: nat, cid: int, count: nat): (r: Result<Parsed<seq<Tag>>>)
    decreases |s| - p, 2, count
    ensures count == 0 ==> r == Ok(Parsed([], p))
    ensures r.Ok? ==> p <= r.value.next <= |s| || (count == 0 && r.value.next == p)
    ensures r.Ok? ==> |r.value.value| == count
    ensures r.Ok? ==> forall i :: 0 <= i < |r.value.value| ==>
                        r.value.value[i].name.None? && TagId(r.value.value[i]) == cid
  {
    if count == 0 then Ok(Parsed([], p))
    else
      var t :- ParsePayload(s, p, cid, None);
      var rest :- ParseListItems(s, t.next, cid, count - 1);
      Ok(Parsed([t.value] + rest.value, rest.next))
  }

  /** readCompound's `while (true)` loop: children up to the 0 id byte. */
  function ParseCompoundItems(s: seq<Byte>, p: nat): (r: Result<Parsed<seq<Tag>>>)
    decreases |s| - p, 0, 1
    ensures r.Ok? ==> p < r.value.next <= |s|
    ensures r.Ok? ==> forall i :: 0 <= i < |r.value.value| ==> r.value.value[i].name.Some?
  {
    var c :- ParseChild(s, p);
    if c.value.None? then Ok(Parsed([], c.next))
    else
      var rest :- ParseCompoundItems(s, c.next);
      Ok(Parsed([c.value.value] + rest.value, rest.next))
  }

  /** One turn of that loop: an id byte, 0 ending the compound (None); otherwise the
      name (a short length and that many chars), then the payload of that id. */
  function ParseChild(s: seq<Byte>, p: nat): (r: Result<Parsed<Option<Tag>>>)
    decreases |s| - p, 0, 0
    ensures r.Ok? ==> p < r.value.next <= |s|
    ensures r.Ok? && r.value.value.Some? ==> r.value.value.value.name.Some?
  {
    var id :- ParseByte(s, p);
    if id.value == 0 then Ok(Parsed(None, id.next))
    else
      var len :- ParseShort(s, id.next);
      var name :- ParseString(s, len.next, len.value);
      var t :- ParsePayload(s, name.next, id.value, Some(name.value));
      Ok(Parsed(Some(t.value), t.next))
  }

  /** DataReader.readNBT: a first byte of 0 stands for no compound (null); any other
      first byte is followed by the name and the compound's children. */
  function ParseNbt(s: seq<Byte>, p: nat): (r: Result<Parsed<Option<Tag>>>)
    ensures r.Ok? ==> p < r.value.next <= |s|
    ensures p < |s| && s[p] == 0 ==> r == Ok(Parsed(None, p + 1))
    ensures r.Ok? && r.value.value.Some? ==>
              var t := r.value.value.value;
              t.TagCompound? && t.name.Some? && !t.isRoot
  {
    var first :- ParseByte(s, p);
    if SignedByte(first.value) == 0 then Ok(Parsed(None, first.next))
    else
      var len :- ParseShort(s, first.next);
      var name :- ParseString(s, len.next, len.value);
      var items :- ParseCompoundItems(s, name.next);
      Ok(Parsed(Some(TagCompound(Some(name.value), false, items.value)), items.next))
  }

  // ---------------------------------------------------------------- round trip

  /** A name the reader gets back: its length fits the short prefix and each char is
      one byte. */
  predicate GoodString(s: string) {
    IsAscii(s) && |s| < TWO_16
  }

  /** Tags whose bytes the reading code turns back into the same tag: values in the
      ranges the reader produces, counts that fit a non-negative int, names exactly
      where the reader puts them, and no root compound below the top. */
  predicate WellFormed(t: Tag)
    decreases t
  {
    (t.name.Some? ==> GoodString(t.name.value)) &&
    match t
    case TagByte(_, b) => 0 <= b < TWO_8
    case TagShort(_, v) => 0 <= v < TWO_16
    case TagInt(_, _) => true
    case TagLong(_, _) => true
    case TagFloat(_, bits) => |bits| == 4
    case TagDouble(_, bits) => |bits| == 8
    case TagByteArray(_, bs) => |bs| < TWO_31
    case TagString(_, s) => GoodString(s)
    case TagList(_, cid, items) =>
      |items| < TWO_31 &&
      forall i :: 0 <= i < |items| ==>
        items[i].name.None? && TagId(items[i]) == cid && WellFormed(items[i])
    case TagCompound(_, root, items) =>
      !root &&
      forall i :: 0 <= i < |items| ==> items[i].name.Some? && WellFormed(items[i])
    case TagIntArray(_, vs) => |vs| < TWO_31
    case TagLongArray(_, vs) => |vs| < TWO_31
  }

  lemma NameRoundTrip(s: seq<Byte>, p: nat, n: string)
    requires GoodString(n) && At(s, p, NameBytes(n))
    ensures ParseShort(s, p) == Ok(Parsed(|n|, p + 2))
    ensures ParseString(s, p + 2, |n|) == Ok(Parsed(n, p + 2 + |n|))
  {
    Utf8Ascii(n);
    Utf8LengthIsJavaLength(n);
    assert JavaLength(n) == |n|;
    AtSplit(s, p, ShortBytes(|n|), Utf8(n));
    ShortRoundTripFits(s, p, |n|);
    AsciiRoundTrip(s, p + 2, n);
  }

  /** NameRoundTrip with the positions given. */
  lemma NameTo(s: seq<Byte>, p: nat, n: string, q: nat, e: nat)
    requires GoodString(n) && At(s, p, NameBytes(n)) && q == p + 2 && e == q + |n|
    ensures ParseShort(s, p) == Ok(Parsed(|n|, q))
    ensures ParseString(s, q, |n|) == Ok(Parsed(n, e))
  {
    NameRoundTrip(s, p, n);
  }

  lemma CountRoundTrip(s: seq<Byte>, p: nat, n: nat)
    requires n < TWO_31 && At(s, p, IntBytes(n))
    ensures ParseInt(s, p) == Ok(Parsed(n, p + 4))
  {
    IntRoundTrip(s, p, n);
  }

  lemma CountTo(s: seq<Byte>, p: nat, n: nat, rest: seq<Byte>, q: nat)
    requires n < TWO_31 && At(s, p, IntBytes(n) + rest) && q == p + 4
    ensures ParseInt(s, p) == Ok(Parsed(n, q))
  {
    AtSplit(s, p, IntBytes(n), rest);
    CountRoundTrip(s, p, n);
  }

  /** The child id byte TagList writes is read back as the same signed byte. */
  lemma SignedByteRoundTrip(c: SByte)
    ensures 0 <= U32(c) % TWO_8 < TWO_8 && SignedByte(U32(c) % TWO_8) == c
  {
    if c < 0 {
      assert U32(c) == c + TWO_32;
      assert (c + TWO_32) % TWO_8 == c + TWO_8 by {
        assert c + TWO_32 == (c + TWO_8) + TWO_8 * 0xff_ffff;
      }
    }
  }

  /** Reading back the payload of a well-formed tag gives the tag. */
  lemma {:induction false} PayloadRoundTrip(s: seq<Byte>, p: nat, t: Tag, e: nat)
    requires WellFormed(t) && At(s, p, Payload(t)) && e == p + |Payload(t)|
    ensures ParsePayload(s, p, TagId(t), t.name) == Ok(Parsed(t, e))
    decreases t, 1
  {
    match t
    case TagList(_, _, _) => ListPayloadRoundTrip(s, p, t, e);
    case TagCompound(_, _, _) => CompoundPayloadRoundTrip(s, p, t, e);
    case TagByteArray(_, _) => ArrayPayloadRoundTrip(s, p, t, e);
    case TagIntArray(_, _) => ArrayPayloadRoundTrip(s, p, t, e);
    case TagLongArray(_, _) => ArrayPayloadRoundTrip(s, p, t, e);
    case TagString(n, str) =>
      assert |NameBytes(str)| == 2 + |str| by { Utf8Ascii(str); }
      TextTagRoundTrip(s, p, n, str);
    case _ => FixedPayloadRoundTrip(s, p, t, e);
  }

  lemma FixedPayloadRoundTrip(s: seq<Byte>, p: nat, t: Tag, e: nat)
    requires t.TagByte? || t.TagShort? || t.TagInt? || t.TagLong? || t.TagFloat? || t.TagDouble?
    requires WellFormed(t) && At(s, p, Payload(t)) && e == p + |Payload(t)|
    ensures ParsePayload(s, p, TagId(t), t.name) == Ok(Parsed(t, e))
  {
    match t
    case TagByte(n, b) => ByteTagRoundTrip(s, p, n, b);
    case TagShort(n, v) => ShortTagRoundTrip(s, p, n, v);
    case TagInt(n, v) => IntTagRoundTrip(s, p, n, v);
    case TagLong(n, v) => LongTagRoundTrip(s, p, n, v);
    case TagFloat(n, bits) => FloatTagRoundTrip(s, p, n, bits);
    case TagDouble(n, bits) => DoubleTagRoundTrip(s, p, n, bits);
  }

  lemma ByteTagRoundTrip(s: seq<Byte>, p: nat, n: Option<string>, b: Byte)
    requires At(s, p, [U32(b) % TWO_8])
    ensures ParseFixed(s, p, TAG_BYTE, n) == Ok(Parsed(TagByte(n, b), p + 1))
  {
    assert U32(b) % TWO_8 == b;
    ByteRoundTrip(s, p, b);
  }

  lemma ShortTagRoundTrip(s: seq<Byte>, p: nat, n: Option<string>, v: int)
    requires 0 <= v < TWO_16 && At(s, p, ShortBytes(v))
    ensures ParseFixed(s, p, TAG_SHORT, n) == Ok(Parsed(TagShort(n, v), p + 2))
  {
    ShortRoundTripFits(s, p, v);
  }

  lemma IntTagRoundTrip(s: seq<Byte>, p: nat, n: Option<string>, v: Int32)
    requires At(s, p, IntBytes(v))
    ensures ParseFixed(s, p, TAG_INT, n) == Ok(Parsed(TagInt(n, v), p + 4))
  {
    IntRoundTrip(s, p, v);
  }

  lemma LongTagRoundTrip(s: seq<Byte>, p: nat, n: Option<string>, v: Int64)
    requires At(s, p, LongBytes(v))
    ensures ParseFixed(s, p, TAG_LONG, n) == Ok(Parsed(TagLong(n, v), p + 8))
  {
    LongRoundTrip(s, p, v);
  }

  lemma FloatTagRoundTrip(s: seq<Byte>, p: nat, n: Option<string>, bits: seq<Byte>)
    requires |bits| == 4 && At(s, p, bits)
    ensures ParseFixed(s, p, TAG_FLOAT, n) == Ok(Parsed(TagFloat(n, bits), p + 4))
  {
    BytesRoundTrip(s, p, bits);
  }

  lemma DoubleTagRoundTrip(s: seq<Byte>, p: nat, n: Option<string>, bits: seq<Byte>)
    requires |bits| == 8 && At(s, p, bits)
    ensures ParseFixed(s, p, TAG_DOUBLE, n) == Ok(Parsed(TagDouble(n, bits), p + 8))
  {
    BytesRoundTrip(s, p, bits);
  }

  lemma TextTagRoundTrip(s: seq<Byte>, p: nat, n: Option<string>, str: string)
    requires GoodString(str) && At(s, p, NameBytes(str))
    ensures ParseText(s, p, n) == Ok(Parsed(TagString(n, str), p + 2 + |str|))
  {
    NameRoundTrip(s, p, str);
  }

  lemma ArrayPayloadRoundTrip(s: seq<Byte>, p: nat, t: Tag, e: nat)
    requires t.TagByteArray? || t.TagIntArray? || t.TagLongArray?
    requires WellFormed(t) && At(s, p, Payload(t)) && e == p + |Payload(t)|
    ensures ParsePayload(s, p, TagId(t), t.name) == Ok(Parsed(t, e))
  {
    match t
    case TagByteArray(n, bs) =>
      assert e == p + 4 + |bs|;
      ByteArrayTagRoundTrip(s, p, n, bs, e);
    case TagIntArray(n, vs) =>
      assert e == p + 4 + 4 * |vs|;
      IntArrayTagRoundTrip(s, p, n, vs, p + 4, e);
    case TagLongArray(n, vs) =>
      assert e == p + 4 + 8 * |vs|;
      LongArrayTagRoundTrip(s, p, n, vs, p + 4, e);
  }

  lemma ByteArrayTagRoundTrip(s: seq<Byte>, p: nat, n: Option<string>, bs: seq<Byte>, e: nat)
    requires |bs| < TWO_31 && At(s, p, IntBytes(|bs|) + bs) && e == p + 4 + |bs|
    ensures ParseArray(s, p, TAG_BYTE_ARRAY, n) == Ok(Parsed(TagByteArray(n, bs), e))
  {
    var q := p + 4;
    assert e == q + |bs|;
    AtSplit(s, p, IntBytes(|bs|), bs);
    CountRoundTrip(s, p, |bs|);
    BytesRoundTrip(s, q, bs);
  }

  lemma IntArrayTagRoundTrip(s: seq<Byte>, p: nat, n: Option<string>, vs: seq<Int32>, q: nat, e: nat)
    requires |vs| < TWO_31 && At(s, p, IntBytes(|vs|) + IntsBytes(vs)) && q == p + 4 && e == q + 4 * |vs|
    ensures ParseArray(s, p, TAG_INT_ARRAY, n) == Ok(Parsed(TagIntArray(n, vs), e))
  {
    IntArrayParts(s, p, vs, q, e);
    IntArrayClose(s, p, n, vs, q, e);
  }

  lemma IntArrayParts(s: seq<Byte>, p: nat, vs: seq<Int32>, q: nat, e: nat)
    requires |vs| < TWO_31 && At(s, p, IntBytes(|vs|) + IntsBytes(vs)) && q == p + 4 && e == q + 4 * |vs|
    ensures ParseInt(s, p) == Ok(Parsed(|vs|, q))
    ensures ParseInts(s, q, |vs|) == Ok(Parsed(vs, e))
  {
    CountTo(s, p, |vs|, IntsBytes(vs), q);
    IntArrayValues(s, p, vs, q, e);
  }

  lemma IntArrayClose(s: seq<Byte>, p: nat, n: Option<string>, vs: seq<Int32>, q: nat, e: nat)
    requires |vs| < TWO_31 && At(s, p, IntBytes(|vs|) + IntsBytes(vs)) && q == p + 4 && e == q + 4 * |vs|
    requires ParseInt(s, p) == Ok(Parsed(|vs|, q))
    requires ParseInts(s, q, |vs|) == Ok(Parsed(vs, e))
    ensures ParseArray(s, p, TAG_INT_ARRAY, n) == Ok(Parsed(TagIntArray(n, vs), e))
  {
    IntArrayStep(s, p, n, |vs|, vs, q, e);
  }

  lemma IntArrayValues(s: seq<Byte>, p: nat, vs: seq<Int32>, q: nat, e: nat)
    requires At(s, p, IntBytes(|vs|) + IntsBytes(vs)) && q == p + 4 && e == q + 4 * |vs|
    ensures ParseInts(s, q, |vs|) == Ok(Parsed(vs, e))
  {
    AtSplit(s, p, IntBytes(|vs|), IntsBytes(vs));
    IntsTo(s, q, vs, e);
  }

  lemma IntsTo(s: seq<Byte>, p: nat, vs: seq<Int32>, e: nat)
    requires At(s, p, IntsBytes(vs)) && e == p + 4 * |vs|
    ensures ParseInts(s, p, |vs|) == Ok(Parsed(vs, e))
  {
    IntsRoundTrip(s, p, vs, e);
  }

  lemma IntArrayStep(s: seq<Byte>, p: nat, n: Option<string>, c: nat, vs: seq<Int32>, q: nat, e: nat)
    requires ParseInt(s, p) == Ok(Parsed(c, q))
    requires ParseInts(s, q, c) == Ok(Parsed(vs, e))
    ensures ParseArray(s, p, TAG_INT_ARRAY, n) == Ok(Parsed(TagIntArray(n, vs), e))
  {
  }

  lemma LongArrayTagRoundTrip(s: seq<Byte>, p: nat, n: Option<string>, vs: seq<Int64>, q: nat, e: nat)
    requires |vs| < TWO_31 && At(s, p, IntBytes(|vs|) + LongsBytes(vs)) && q == p + 4 && e == q + 8 * |vs|
    ensures ParseArray(s, p, TAG_LONG_ARRAY, n) == Ok(Parsed(TagLongArray(n, vs), e))
  {
    LongArrayParts(s, p, vs, q, e);
    LongArrayClose(s, p, n, vs, q, e);
  }

  lemma LongArrayParts(s: seq<Byte>, p: nat, vs: seq<Int64>, q: nat, e: nat)
    requires |vs| < TWO_31 && At(s, p, IntBytes(|vs|) + LongsBytes(vs)) && q == p + 4 && e == q + 8 * |vs|
    ensures ParseInt(s, p) == Ok(Parsed(|vs|, q))
    ensures ParseLongs(s, q, |vs|) == Ok(Parsed(vs, e))
  {
    CountTo(s, p, |vs|, LongsBytes(vs), q);
    LongArrayValues(s, p, vs, q, e);
  }

  lemma LongArrayClose(s: seq<Byte>, p: nat, n: Option<string>, vs: seq<Int64>, q: nat, e: nat)
    requires |vs| < TWO_31 && At(s, p, IntBytes(|vs|) + LongsBytes(vs)) && q == p + 4 && e == q + 8 * |vs|
    requires ParseInt(s, p) == Ok(Parsed(|vs|, q))
    requires ParseLongs(s, q, |vs|) == Ok(Parsed(vs, e))
    ensures ParseArray(s, p, TAG_LONG_ARRAY, n) == Ok(Parsed(TagLongArray(n, vs), e))
  {
    LongArrayStep(s, p, n, |vs|, vs, q, e);
  }

  lemma LongArrayValues(s: seq<Byte>, p: nat, vs: seq<Int64>, q: nat, e: nat)
    requires At(s, p, IntBytes(|vs|) + LongsBytes(vs)) && q == p + 4 && e == q + 8 * |vs|
    ensures ParseLongs(s, q, |vs|) == Ok(Parsed(vs, e))
  {
    AtSplit(s, p, IntBytes(|vs|), LongsBytes(vs));
    LongsTo(s, q, vs, e);
  }

  lemma LongsTo(s: seq<Byte>, p: nat, vs: seq<Int64>, e: nat)
    requires At(s, p, LongsBytes(vs)) && e == p + 8 * |vs|
    ensures ParseLongs(s, p, |vs|) == Ok(Parsed(vs, e))
  {
    LongsRoundTrip(s, p, vs, e);
  }

  lemma LongArrayStep(s: seq<Byte>, p: nat, n: Option<string>, c: nat, vs: seq<Int64>, q: nat, e: nat)
    requires ParseInt(s, p) == Ok(Parsed(c, q))
    requires ParseLongs(s, q, c) == Ok(Parsed(vs, e))
    ensures ParseArray(s, p, TAG_LONG_ARRAY, n) == Ok(Parsed(TagLongArray(n, vs), e))
  {
  }

  /** The list header (child id, count) followed by children that read back. */
  lemma ListTagRoundTrip(s: seq<Byte>, p: nat, n: Option<string>, cid: SByte, items: seq<Tag>, e: nat)
    requires |items| < TWO_31 && At(s, p, [U32(cid) % TWO_8] + IntBytes(|items|))
    requires ParseListItems(s, p + 5, cid, |items|) == Ok(Parsed(items, e))
    ensures ParseList(s, p, n) == Ok(Parsed(TagList(n, cid, items), e))
  {
    AtSplit(s, p, [U32(cid) % TWO_8], IntBytes(|items|));
    SignedByteRoundTrip(cid);
    ByteRoundTrip(s, p, U32(cid) % TWO_8);
    CountRoundTrip(s, p + 1, |items|);
    ListStep(s, p, n, U32(cid) % TWO_8, |items|, items, e);
  }

  lemma ListStep(s: seq<Byte>, p: nat, n: Option<string>, c: Byte, count: nat, items: seq<Tag>, e: nat)
    requires ParseByte(s, p) == Ok(Parsed(c, p + 1))
    requires ParseInt(s, p + 1) == Ok(Parsed(count, p + 5))
    requires ParseListItems(s, p + 5, SignedByte(c), count) == Ok(Parsed(items, e))
    ensures ParseList(s, p, n) == Ok(Parsed(TagList(n, SignedByte(c), items), e))
  {
  }

  lemma {:induction false} ListPayloadRoundTrip(s: seq<Byte>, p: nat, t: Tag, e: nat)
    requires t.TagList? && WellFormed(t) && At(s, p, Payload(t)) && e == p + |Payload(t)|
    ensures ParsePayload(s, p, TagId(t), t.name) == Ok(Parsed(t, e))
    decreases t, 0
  {
    ListPayloadParts(s, p, t, e);
    ListItemsRoundTrip(s, p + 5, t.childrenId, t.items, e);
    ListPayloadClose(s, p, t, e);
  }

  lemma ListPayloadParts(s: seq<Byte>, p: nat, t: Tag, e: nat)
    requires t.TagList? && WellFormed(t) && At(s, p, Payload(t)) && e == p + |Payload(t)|
    ensures ListChildren(t.childrenId, t.items) && At(s, p + 5, EncodeAll(t.items))
    ensures e == p + 5 + |EncodeAll(t.items)|
  {
    AtSplit(s, p, [U32(t.childrenId) % TWO_8] + IntBytes(|t.items|), EncodeAll(t.items));
  }

  lemma ListPayloadClose(s: seq<Byte>, p: nat, t: Tag, e: nat)
    requires t.TagList? && WellFormed(t) && At(s, p, Payload(t)) && e == p + |Payload(t)|
    requires ParseListItems(s, p + 5, t.childrenId, |t.items|) == Ok(Parsed(t.items, e))
    ensures ParsePayload(s, p, TagId(t), t.name) == Ok(Parsed(t, e))
  {
    AtSplit(s, p, [U32(t.childrenId) % TWO_8] + IntBytes(|t.items|), EncodeAll(t.items));
    ListTagRoundTrip(s, p, t.name, t.childrenId, t.items, e);
  }

  lemma CompoundTagRoundTrip(s: seq<Byte>, p: nat, n: Option<string>, items: seq<Tag>, e: nat)
    requires ParseCompoundItems(s, p) == Ok(Parsed(items, e))
    ensures ParseCompound(s, p, n) == Ok(Parsed(TagCompound(n, false, items), e))
  {
  }

  lemma {:induction false} CompoundPayloadRoundTrip(s: seq<Byte>, p: nat, t: Tag, e: nat)
    requires t.TagCompound? && WellFormed(t) && At(s, p, Payload(t)) && e == p + |Payload(t)|
    ensures ParsePayload(s, p, TagId(t), t.name) == Ok(Parsed(t, e))
    decreases t, 0
  {
    CompoundPayloadParts(s, p, t, e);
    CompoundItemsRoundTrip(s, p, t.items, e);
    CompoundPayloadClose(s, p, t, e);
  }

  lemma CompoundPayloadParts(s: seq<Byte>, p: nat, t: Tag, e: nat)
    requires t.TagCompound? && WellFormed(t) && At(s, p, Payload(t)) && e == p + |Payload(t)|
    ensures CompoundChildren(t.items) && At(s, p, EncodeAll(t.items) + [0])
    ensures e == p + |EncodeAll(t.items)| + 1
  {
  }

  lemma CompoundPayloadClose(s: seq<Byte>, p: nat, t: Tag, e: nat)
    requires t.TagCompound? && WellFormed(t) && At(s, p, Payload(t)) && e == p + |Payload(t)|
    requires ParseCompoundItems(s, p) == Ok(Parsed(t.items, e))
    ensures ParsePayload(s, p, TagId(t), t.name) == Ok(Parsed(t, e))
  {
    CompoundTagRoundTrip(s, p, t.name, t.items, e);
  }

  /** Predicates the children of a list or compound satisfy in a well-formed tag. */
  predicate ListChildren(cid: int, items: seq<Tag>) {
    forall i :: 0 <= i < |items| ==> items[i].name.None? && TagId(items[i]) == cid && WellFormed(items[i])
  }

  predicate CompoundChildren(items: seq<Tag>) {
    forall i :: 0 <= i < |items| ==> items[i].name.Some? && WellFormed(items[i])
  }

  lemma ListItemsStep(s: seq<Byte>, p: nat, cid: int, items: seq<Tag>, q: nat, e: nat)
    requires items != [] && TagId(items[0]) == cid && items[0].name.None?
    requires ParsePayload(s, p, TagId(items[0]), items[0].name) == Ok(Parsed(items[0], q))
    requires ParseListItems(s, q, cid, |items| - 1) == Ok(Parsed(items[1..], e))
    ensures ParseListItems(s, p, cid, |items|) == Ok(Parsed(items, e))
  {
    assert [items[0]] + items[1..] == items;
  }

  lemma UnnamedEncodeAll(items: seq<Tag>)
    requires items != [] && items[0].name.None?
    ensures EncodeAll(items) == Payload(items[0]) + EncodeAll(items[1..])
  {
    var t := items[0];
    assert Header(t) + Payload(t) == Payload(t) by {
      assert Header(t) == [];
    }
  }

  /** Reading back a list's children. */
  lemma {:induction false} ListItemsRoundTrip(s: seq<Byte>, p: nat, cid: int, items: seq<Tag>, e: nat)
    requires ListChildren(cid, items) && At(s, p, EncodeAll(items)) && e == p + |EncodeAll(items)|
    ensures ParseListItems(s, p, cid, |items|) == Ok(Parsed(items, e))
    decreases items, 0
  {
    if items == [] {
      assert EncodeAll(items) == [];
      assert ParseListItems(s, p, cid, 0) == Ok(Parsed([], p));
    } else {
      var q := p + |Payload(items[0])|;
      ListItemParts(s, p, cid, items, q, e);
      PayloadRoundTrip(s, p, items[0], q);
      ListItemsRoundTrip(s, q, cid, items[1..], e);
      ListItemsStep(s, p, cid, items, q, e);
    }
  }

  lemma ListItemParts(s: seq<Byte>, p: nat, cid: int, items: seq<Tag>, q: nat, e: nat)
    requires ListChildren(cid, items) && At(s, p, EncodeAll(items)) && e == p + |EncodeAll(items)|
    requires items != [] && q == p + |Payload(items[0])|
    ensures WellFormed(items[0]) && items[0].name.None? && TagId(items[0]) == cid
    ensures At(s, p, Payload(items[0])) && ListChildren(cid, items[1..])
    ensures At(s, q, EncodeAll(items[1..])) && e == q + |EncodeAll(items[1..])|
  {
    UnnamedEncodeAll(items);
    AtSplit(s, p, Payload(items[0]), EncodeAll(items[1..]));
    assert WellFormed(items[0]);
    assert ListChildren(cid, items[1..]);
  }

  lemma NamedEncodeAll(items: seq<Tag>)
    requires items != [] && items[0].name.Some? && !(items[0].TagCompound? && items[0].isRoot)
    ensures EncodeAll(items) + [0] ==
            [TagId(items[0])] + NameBytes(items[0].name.value) + Payload(items[0]) + (EncodeAll(items[1..]) + [0])
  {
  }

  lemma CompoundItemsStep(s: seq<Byte>, p: nat, items: seq<Tag>, n: string, a: nat, q: nat, e: nat)
    requires items != [] && items[0].name == Some(n) && 0 < TagId(items[0]) < TWO_8
    requires ParseByte(s, p) == Ok(Parsed(TagId(items[0]), p + 1))
    requires ParseShort(s, p + 1) == Ok(Parsed(|n|, p + 3))
    requires ParseString(s, p + 3, |n|) == Ok(Parsed(n, a))
    requires ParsePayload(s, a, TagId(items[0]), items[0].name) == Ok(Parsed(items[0], q))
    requires ParseCompoundItems(s, q) == Ok(Parsed(items[1..], e))
    ensures ParseCompoundItems(s, p) == Ok(Parsed(items, e))
  {
    ChildRead(s, p, items[0], n, a, q);
    assert [items[0]] + items[1..] == items;
  }

  lemma ChildRead(s: seq<Byte>, p: nat, t: Tag, n: string, a: nat, q: nat)
    requires t.name == Some(n) && 0 < TagId(t) < TWO_8
    requires ParseByte(s, p) == Ok(Parsed(TagId(t), p + 1))
    requires ParseShort(s, p + 1) == Ok(Parsed(|n|, p + 3))
    requires ParseString(s, p + 3, |n|) == Ok(Parsed(n, a))
    requires ParsePayload(s, a, TagId(t), t.name) == Ok(Parsed(t, q))
    ensures ParseChild(s, p) == Ok(Parsed(Some(t), q))
  {
  }

  /** Reading back a compound's children and its terminating 0. */
  lemma {:induction false} CompoundItemsRoundTrip(s: seq<Byte>, p: nat, items: seq<Tag>, e: nat)
    requires CompoundChildren(items) && At(s, p, EncodeAll(items) + [0])
    requires e == p + |EncodeAll(items)| + 1
    ensures ParseCompoundItems(s, p) == Ok(Parsed(items, e))
    decreases items, 0
  {
    if items == [] {
      assert EncodeAll(items) + [0] == [0];
      ByteRoundTrip(s, p, 0);
      assert ParseCompoundItems(s, p) == Ok(Parsed([], p + 1));
    } else {
      var t := items[0];
      var n := t.name.value;
      var a := p + 3 + |n|;
      var q := a + |Payload(t)|;
      CompoundItemParts(s, p, items, n, a, q, e);
      PayloadRoundTrip(s, a, t, q);
      CompoundItemsRoundTrip(s, q, items[1..], e);
      CompoundItemsClose(s, p, items, n, a, q, e);
    }
  }

  /** The id byte and name of the first child, and where its payload and the rest lie. */
  lemma CompoundItemParts(s: seq<Byte>, p: nat, items: seq<Tag>, n: string, a: nat, q: nat, e: nat)
    requires CompoundChildren(items) && At(s, p, EncodeAll(items) + [0])
    requires items != [] && items[0].name == Some(n) && a == p + 3 + |n| && q == a + |Payload(items[0])|
    requires e == p + |EncodeAll(items)| + 1
    ensures 0 < TagId(items[0]) < TWO_8 && WellFormed(items[0]) && CompoundChildren(items[1..])
    ensures ParseByte(s, p) == Ok(Parsed(TagId(items[0]), p + 1))
    ensures ParseShort(s, p + 1) == Ok(Parsed(|n|, p + 3))
    ensures ParseString(s, p + 3, |n|) == Ok(Parsed(n, a))
    ensures At(s, a, Payload(items[0]))
    ensures At(s, q, EncodeAll(items[1..]) + [0]) && e == q + |EncodeAll(items[1..])| + 1
  {
    CompoundChildrenTail(items);
    CompoundItemName(s, p, items, n, a, q, e);
    CompoundItemRest(s, p, items, n, a, q, e);
  }

  lemma CompoundChildrenTail(items: seq<Tag>)
    requires CompoundChildren(items) && items != []
    ensures items[0].name.Some? && WellFormed(items[0]) && CompoundChildren(items[1..])
  {
    assert WellFormed(items[0]);
  }

  lemma CompoundItemName(s: seq<Byte>, p: nat, items: seq<Tag>, n: string, a: nat, q: nat, e: nat)
    requires CompoundChildren(items) && At(s, p, EncodeAll(items) + [0])
    requires items != [] && items[0].name == Some(n) && a == p + 3 + |n| && q == a + |Payload(items[0])|
    requires e == p + |EncodeAll(items)| + 1
    requires WellFormed(items[0])
    ensures 0 < TagId(items[0]) < TWO_8
    ensures ParseByte(s, p) == Ok(Parsed(TagId(items[0]), p + 1))
    ensures ParseShort(s, p + 1) == Ok(Parsed(|n|, p + 3))
    ensures ParseString(s, p + 3, |n|) == Ok(Parsed(n, a))
  {
    CompoundItemHead(s, p, items, n);
    ByteRoundTrip(s, p, TagId(items[0]));
    NameTo(s, p + 1, n, p + 3, a);
  }

  lemma CompoundItemHead(s: seq<Byte>, p: nat, items: seq<Tag>, n: string)
    requires At(s, p, EncodeAll(items) + [0])
    requires items != [] && items[0].name == Some(n) && WellFormed(items[0])
    ensures 0 < TagId(items[0]) < TWO_8 && GoodString(n)
    ensures At(s, p, [TagId(items[0])]) && At(s, p + 1, NameBytes(n))
  {
    var t := items[0];
    NamedEncodeAll(items);
    AtFront(s, p, [TagId(t)], NameBytes(n), Payload(t), EncodeAll(items[1..]) + [0], p + 1);
  }

  lemma CompoundItemRest(s: seq<Byte>, p: nat, items: seq<Tag>, n: string, a: nat, q: nat, e: nat)
    requires At(s, p, EncodeAll(items) + [0])
    requires items != [] && items[0].name == Some(n) && a == p + 3 + |n| && q == a + |Payload(items[0])|
    requires e == p + |EncodeAll(items)| + 1
    requires GoodString(n) && !(items[0].TagCompound? && items[0].isRoot)
    ensures At(s, a, Payload(items[0]))
    ensures At(s, q, EncodeAll(items[1..]) + [0]) && e == q + |EncodeAll(items[1..])| + 1
  {
    var head := [TagId(items[0])] + NameBytes(n);
    assert |head| == 3 + |n| by {
      Utf8Ascii(n);
    }
    NamedItemSplit(s, p, items, head, a, q, e);
  }

  /** The payload and the siblings after a named item's header, as places in the input. */
  lemma NamedItemSplit(s: seq<Byte>, p: nat, items: seq<Tag>, head: seq<Byte>, a: nat, q: nat, e: nat)
    requires At(s, p, EncodeAll(items) + [0])
    requires items != [] && items[0].name.Some? && !(items[0].TagCompound? && items[0].isRoot)
    requires head == [TagId(items[0])] + NameBytes(items[0].name.value)
    requires a == p + |head| && q == a + |Payload(items[0])| && e == p + |EncodeAll(items)| + 1
    ensures At(s, a, Payload(items[0]))
    ensures At(s, q, EncodeAll(items[1..]) + [0]) && e == q + |EncodeAll(items[1..])| + 1
  {
    NamedEncodeAll(items);
    AtParts(s, p, EncodeAll(items) + [0], head, Payload(items[0]), EncodeAll(items[1..]) + [0], a, q);
  }

  lemma CompoundItemsClose(s: seq<Byte>, p: nat, items: seq<Tag>, n: string, a: nat, q: nat, e: nat)
    requires CompoundChildren(items) && At(s, p, EncodeAll(items) + [0])
    requires items != [] && items[0].name == Some(n) && a == p + 3 + |n| && q == a + |Payload(items[0])|
    requires e == p + |EncodeAll(items)| + 1
    requires 0 < TagId(items[0]) < TWO_8
    requires ParseByte(s, p) == Ok(Parsed(TagId(items[0]), p + 1))
    requires ParseShort(s, p + 1) == Ok(Parsed(|n|, p + 3))
    requires ParseString(s, p + 3, |n|) == Ok(Parsed(n, a))
    requires ParsePayload(s, a, TagId(items[0]), items[0].name) == Ok(Parsed(items[0], q))
    requires ParseCompoundItems(s, q) == Ok(Parsed(items[1..], e))
    ensures ParseCompoundItems(s, p) == Ok(Parsed(items, e))
  {
    CompoundItemsStep(s, p, items, n, a, q, e);
  }

  lemma NbtStep(s: seq<Byte>, p: nat, n: string, items: seq<Tag>, e: nat)
    requires ParseByte(s, p) == Ok(Parsed(TAG_COMPOUND, p + 1))
    requires ParseShort(s, p + 1) == Ok(Parsed(|n|, p + 3))
    requires ParseString(s, p + 3, |n|) == Ok(Parsed(n, p + 3 + |n|))
    requires ParseCompoundItems(s, p + 3 + |n|) == Ok(Parsed(items, e))
    ensures ParseNbt(s, p) == Ok(Parsed(Some(TagCompound(Some(n), false, items)), e))
  {
  }

  /** readNBT reads back what a named, non-root compound writes. */
  lemma NbtRoundTrip(s: seq<Byte>, p: nat, t: Tag, n: string, a: nat, e: nat)
    requires t.TagCompound? && t.name == Some(n) && WellFormed(t) && At(s, p, Encode(t))
    requires a == p + 3 + |n| && e == p + |Encode(t)|
    ensures ParseNbt(s, p) == Ok(Parsed(Some(t), e))
  {
    NbtParts(s, p, t, n, a, e);
    CompoundItemsRoundTrip(s, a, t.items, e);
    NbtStep(s, p, n, t.items, e);
  }

  lemma NbtParts(s: seq<Byte>, p: nat, t: Tag, n: string, a: nat, e: nat)
    requires t.TagCompound? && t.name == Some(n) && WellFormed(t) && At(s, p, Encode(t))
    requires a == p + 3 + |n| && e == p + |Encode(t)|
    ensures CompoundChildren(t.items)
    ensures ParseByte(s, p) == Ok(Parsed(TAG_COMPOUND, p + 1))
    ensures ParseShort(s, p + 1) == Ok(Parsed(|n|, p + 3))
    ensures ParseString(s, p + 3, |n|) == Ok(Parsed(n, a))
    ensures At(s, a, EncodeAll(t.items) + [0]) && e == a + |EncodeAll(t.items)| + 1
  {
    var body := EncodeAll(t.items) + [0];
    assert |NameBytes(n)| == 2 + |n| by {
      assert GoodString(n);
      Utf8Ascii(n);
    }
    assert At(s, p, [TAG_COMPOUND]) && At(s, p + 1, NameBytes(n)) && At(s, p + 1 + |NameBytes(n)|, body) &&
           |Encode(t)| == 1 + |NameBytes(n)| + |body| by {
      assert !t.isRoot;
      assert Encode(t) == [TAG_COMPOUND] + NameBytes(n) + body;
      AtSplit3(s, p, [TAG_COMPOUND], NameBytes(n), body);
    }
    assert GoodString(n);
    ByteRoundTrip(s, p, TAG_COMPOUND);
    NameTo(s, p + 1, n, p + 3, a);
    assert p + 1 + |NameBytes(n)| == a;
  }
}
