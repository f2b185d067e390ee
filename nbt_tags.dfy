/** The mutable NBT classes TagCompound, TagList and TagString: the reading constructors
    that consume a DataReader, the write methods that feed a DataWriter, and the list
    operations with their checks on names, child ids and indices. Children are kept as
    NbtFormat.Tag values; each reading method is proved to return what the matching
    NbtFormat reading function finds at the cursor, each write method to append the
    NbtFormat encoding. */
module NbtTags {
  import opened Base
  import opened Wire
  import opened Search
  import N = NbtFormat
  import opened Reader
  import opened Writer

  // ---------------------------------------------------------------- reading

  /** The switch of readCompound and readList: the tag class chosen by `id` reads its
      payload; an id outside 1..12 is refused. */
  method ReadPayload(reader: DataReader, id: int, name: Option<string>) returns (r: Result<N.Tag>)
    requires reader.Valid()
    modifies reader
    ensures reader.Valid()
    ensures Follows(r, N.ParsePayload(reader.data, old(reader.pos), id, name), reader.pos, |reader.data|)
    decreases |reader.data| - reader.pos, 3
  {
    if N.TAG_BYTE <= id <= N.TAG_DOUBLE {
      r := ReadFixed(reader, id, name);
    } else if id == N.TAG_BYTE_ARRAY || id == N.TAG_INT_ARRAY || id == N.TAG_LONG_ARRAY {
      r := ReadArray(reader, id, name);
    } else if id == N.TAG_STRING {
      r := ReadText(reader, name);
    } else if id == N.TAG_LIST {
      var list := TagList.FromReader(name, reader);
      r := if list.Ok? then Ok(list.value.Value()) else Err(list.error);
    } else if id == N.TAG_COMPOUND {
      var compound := TagCompound.FromReader(name, reader, false);
      r := if compound.Ok? then Ok(compound.value.Value()) else Err(compound.error);
    } else {
      r := Err(UnknownTagId(id));
    }
  }

  /** `new TagByte(name, readByte())` … `new TagDouble(name, readDouble())`; a float or
      double is kept as its raw bytes. */
  method ReadFixed(reader: DataReader, id: int, name: Option<string>) returns (r: Result<N.Tag>)
    requires reader.Valid() && N.TAG_BYTE <= id <= N.TAG_DOUBLE
    modifies reader
    ensures reader.Valid()
    ensures Follows(r, N.ParseFixed(reader.data, old(reader.pos), id, name), reader.pos, |reader.data|)
  {
    if id == N.TAG_BYTE {
      var v := reader.ReadByte();
      r := if v.Ok? then Ok(N.TagByte(name, v.value)) else Err(v.error);
    } else if id == N.TAG_SHORT {
      var v := reader.ReadShort();
      r := if v.Ok? then Ok(N.TagShort(name, v.value)) else Err(v.error);
    } else if id == N.TAG_INT {
      var v := reader.ReadInt();
      r := if v.Ok? then Ok(N.TagInt(name, v.value)) else Err(v.error);
    } else if id == N.TAG_LONG {
      var v := reader.ReadLong();
      r := if v.Ok? then Ok(N.TagLong(name, v.value)) else Err(v.error);
    } else if id == N.TAG_FLOAT {
      var v := reader.ReadFollowingBytes(4);
      r := if v.Ok? then Ok(N.TagFloat(name, v.value)) else Err(v.error);
    } else {
      var v := reader.ReadFollowingBytes(8);
      r := if v.Ok? then Ok(N.TagDouble(name, v.value)) else Err(v.error);
    }
  }

  /** The array tags: `readInt()` for the count, then readFollowingBytes, readIntArray
      or readLongArray of that count. */
  method ReadArray(reader: DataReader, id: int, name: Option<string>) returns (r: Result<N.Tag>)
    requires reader.Valid()
    requires id == N.TAG_BYTE_ARRAY || id == N.TAG_INT_ARRAY || id == N.TAG_LONG_ARRAY
    modifies reader
    ensures reader.Valid()
    ensures Follows(r, N.ParseArray(reader.data, old(reader.pos), id, name), reader.pos, |reader.data|)
  {
    var n := reader.ReadInt();
    if n.Err? {
      return Err(n.error);
    }
    if id == N.TAG_BYTE_ARRAY {
      var v := reader.ReadFollowingBytes(n.value);
      r := if v.Ok? then Ok(N.TagByteArray(name, v.value)) else Err(v.error);
    } else if id == N.TAG_INT_ARRAY {
      var v := reader.ReadIntArray(n.value);
      r := if v.Ok? then Ok(N.TagIntArray(name, v.value)) else Err(v.error);
    } else {
      var v := reader.ReadLongArray(n.value);
      r := if v.Ok? then Ok(N.TagLongArray(name, v.value)) else Err(v.error);
    }
  }

  /** `new TagString(name, readString(readShort()))`. */
  method ReadText(reader: DataReader, name: Option<string>) returns (r: Result<N.Tag>)
    requires reader.Valid()
    modifies reader
    ensures reader.Valid()
    ensures Follows(r, N.ParseText(reader.data, old(reader.pos), name), reader.pos, |reader.data|)
  {
    var n := reader.ReadShort();
    if n.Err? {
      return Err(n.error);
    }
    var v := reader.ReadString(n.value);
    r := if v.Ok? then Ok(N.TagString(name, v.value)) else Err(v.error);
  }

  /** One turn of readCompound's loop: the id byte, and unless it is 0 the name and the
      payload of that id. */
  method ReadChild(reader: DataReader) returns (r: Result<Option<N.Tag>>)
    requires reader.Valid()
    modifies reader
    ensures reader.Valid()
    ensures Follows(r, N.ParseChild(reader.data, old(reader.pos)), reader.pos, |reader.data|)
    decreases |reader.data| - reader.pos, 0
  {
    var id := reader.ReadByte();
    if id.Err? {
      return Err(id.error);
    }
    if id.value == 0 {
      return Ok(None);
    }
    var len := reader.ReadShort();
    if len.Err? {
      return Err(len.error);
    }
    var name := reader.ReadString(len.value);
    if name.Err? {
      return Err(name.error);
    }
    var t := ReadPayload(reader, id.value, Some(name.value));
    r := if t.Ok? then Ok(Some(t.value)) else Err(t.error);
  }

  /** DataReader.readNBT: a first byte of 0 gives null; otherwise the name (a short
      length and that many chars) and a compound read from the stream. */
  method ReadNbt(reader: DataReader) returns (r: Result<TagCompound?>)
    requires reader.Valid()
    modifies reader
    ensures reader.Valid()
    ensures var spec := N.ParseNbt(reader.data, old(reader.pos));
            if spec.Ok? then
              r.Ok? && reader.pos == spec.value.next &&
              (spec.value.value.None? ==> r.value == null) &&
              (spec.value.value.Some? ==>
                 r.value != null && fresh(r.value) && r.value.Value() == spec.value.value.value)
            else
              r == Err(spec.error) && (spec.error == EndOfFile ==> reader.pos == |reader.data|)
  {
    var first := reader.ReadByte();
    if first.Err? {
      return Err(first.error);
    }
    if N.SignedByte(first.value) == 0 {
      return Ok(null);
    }
    var len := reader.ReadShort();
    if len.Err? {
      return Err(len.error);
    }
    var name := reader.ReadString(len.value);
    if name.Err? {
      return Err(name.error);
    }
    var compound := TagCompound.FromReader(Some(name.value), reader, false);
    r := if compound.Ok? then Ok(compound.value) else Err(compound.error);
  }

  // ---------------------------------------------------------------- writing

  /** `tag.write(writer)`: the write method of the tag's class. TagCompound, TagList and
      TagString are the classes below; the other tag classes write their header like
      TagString and then the payload their reading constructor consumes. */
  method WriteTag(writer: DataWriter, t: N.Tag)
    requires writer.Valid()
    modifies writer, writer.buffer
    ensures writer.Valid() && writer.Written() == old(writer.Written()) + N.Encode(t)
    decreases t, 2
  {
    match t
    case TagCompound(name, root, items) => WriteCompound(writer, name, root, items);
    case TagList(name, cid, items) => WriteList(writer, name, cid, items);
    case TagString(name, value) => WriteText(writer, name, value);
    case _ => WriteLeaf(writer, t);
  }

  /** The write method of a tag class without children: the header, then the payload. */
  method WriteLeaf(writer: DataWriter, t: N.Tag)
    requires writer.Valid()
    requires !t.TagCompound? && !t.TagList? && !t.TagString?
    modifies writer, writer.buffer
    ensures writer.Valid() && writer.Written() == old(writer.Written()) + N.Encode(t)
  {
    ghost var w := writer.Written();
    WriteHeader(writer, t);
    WriteFixedPayload(writer, t);
    AppendAssoc(w, N.Header(t), N.Payload(t));
  }

  /** The payload of a tag that has no children. */
  method WriteFixedPayload(writer: DataWriter, t: N.Tag)
    requires writer.Valid()
    requires !t.TagCompound? && !t.TagList? && !t.TagString?
    modifies writer, writer.buffer
    ensures writer.Valid() && writer.Written() == old(writer.Written()) + N.Payload(t)
  {
    ghost var w := writer.Written();
    match t
    case TagByte(_, b) =>
      LowByte(b);
      writer.WriteByte(b);
    case TagShort(_, v) => writer.WriteShort(v);
    case TagInt(_, v) => writer.WriteInt(v);
    case TagLong(_, v) => writer.WriteLong(v);
    case TagFloat(_, bits) => writer.WriteByteArray(bits);
    case TagDouble(_, bits) => writer.WriteByteArray(bits);
    case TagByteArray(_, bs) =>
      writer.WriteInt(|bs|);
      writer.WriteByteArray(bs);
      AppendAssoc(w, IntBytes(|bs|), bs);
    case TagIntArray(_, vs) =>
      writer.WriteInt(|vs|);
      writer.WriteIntArray(vs);
      AppendAssoc(w, IntBytes(|vs|), IntsBytes(vs));
    case TagLongArray(_, vs) =>
      writer.WriteInt(|vs|);
      writer.WriteLongArray(vs);
      AppendAssoc(w, IntBytes(|vs|), LongsBytes(vs));
  }

  /** What every write method does first when the tag has a name: `writeByte(TAG_ID)`,
      then, except for a root compound, `writeShort(name.length())` and
      `writeString(name)`. */
  method WriteHeader(writer: DataWriter, t: N.Tag)
    requires writer.Valid()
    modifies writer, writer.buffer
    ensures writer.Valid() && writer.Written() == old(writer.Written()) + N.Header(t)
  {
    var id := N.TagId(t);
    assert id % TWO_8 == id;
    if t.name.Some? {
      ghost var w := writer.Written();
      writer.WriteByte(id);
      assert writer.Written() == w + [id];
      if !(t.TagCompound? && t.isRoot) {
        var n := t.name.value;
        writer.WriteShort(JavaLength(n));
        writer.WriteString(n);
        AppendAssoc(w + [id], ShortBytes(JavaLength(n)), Utf8(n));
        AppendAssoc(w, [id], N.NameBytes(n));
        assert N.Header(t) == [id] + N.NameBytes(n);
      } else {
        assert N.Header(t) == [id];
      }
    } else {
      assert N.Header(t) == [];
    }
  }

  /** TagCompound.write: the header, every child in order, then the 0 byte that ends
      the compound. */
  method WriteCompound(writer: DataWriter, name: Option<string>, isRoot: bool, items: seq<N.Tag>)
    requires writer.Valid()
    modifies writer, writer.buffer
    ensures writer.Valid()
    ensures writer.Written() == old(writer.Written()) + N.Encode(N.TagCompound(name, isRoot, items))
    decreases items, 1
  {
    var t := N.TagCompound(name, isRoot, items);
    ghost var w := writer.Written();
    WriteHeader(writer, t);
    ghost var h := writer.Written();
    WriteChildren(writer, items);
    writer.WriteByte(0);
    assert writer.Written() == h + N.EncodeAll(items) + [0];
    AppendAssoc(h, N.EncodeAll(items), [0]);
    assert N.Payload(t) == N.EncodeAll(items) + [0];
    AppendAssoc(w, N.Header(t), N.Payload(t));
  }

  /** TagList.write: the header, then the child id, the int size and every child in
      order. */
  method WriteList(writer: DataWriter, name: Option<string>, childrenId: N.SByte, items: seq<N.Tag>)
    requires writer.Valid()
    modifies writer, writer.buffer
    ensures writer.Valid()
    ensures writer.Written() == old(writer.Written()) + N.Encode(N.TagList(name, childrenId, items))
    decreases items, 1
  {
    var t := N.TagList(name, childrenId, items);
    ghost var w := writer.Written();
    WriteHeader(writer, t);
    ghost var h := writer.Written();
    writer.WriteByte(childrenId);
    ghost var b := writer.Written();
    writer.WriteInt(|items|);
    ghost var c := writer.Written();
    WriteChildren(writer, items);
    ListWritten(t, w, h, b, c, writer.Written());
  }

  /** The pieces TagList.write appends make up the tag's encoding. */
  lemma ListWritten(t: N.Tag, w: seq<Byte>, h: seq<Byte>, b: seq<Byte>, c: seq<Byte>, e: seq<Byte>)
    requires t.TagList?
    requires h == w + N.Header(t) && b == h + [t.childrenId % TWO_8]
    requires c == b + IntBytes(|t.items|) && e == c + N.EncodeAll(t.items)
    ensures e == w + N.Encode(t)
  {
    var low := [U32(t.childrenId) % TWO_8];
    assert b == h + low by {
      LowByte(t.childrenId);
    }
    AppendAssoc(h, low, IntBytes(|t.items|));
    AppendAssoc(h, low + IntBytes(|t.items|), N.EncodeAll(t.items));
    AppendAssoc(w, N.Header(t), N.Payload(t));
  }

  /** `for (tag : tags) tag.write(writer)`. */
  method WriteChildren(writer: DataWriter, items: seq<N.Tag>)
    requires writer.Valid()
    modifies writer, writer.buffer
    ensures writer.Valid() && writer.Written() == old(writer.Written()) + N.EncodeAll(items)
    decreases items, 0
  {
    ghost var w := writer.Written();
    for i := 0 to |items|
      invariant writer.Valid() && writer.Written() == w + N.EncodeAll(items[..i])
    {
      WriteTag(writer, items[i]);
      EncodeAllSnoc(items, i);
      AppendAssoc(w, N.EncodeAll(items[..i]), N.Encode(items[i]));
    }
    assert items[..|items|] == items;
  }

  /** TagString.write: the header, then `writeShort(value.length())` and the UTF-8
      bytes. */
  method WriteText(writer: DataWriter, name: Option<string>, value: string)
    requires writer.Valid()
    modifies writer, writer.buffer
    ensures writer.Valid()
    ensures writer.Written() == old(writer.Written()) + N.Encode(N.TagString(name, value))
  {
    var t := N.TagString(name, value);
    ghost var w := writer.Written();
    WriteHeader(writer, t);
    ghost var h := writer.Written();
    writer.WriteShort(JavaLength(value));
    writer.WriteString(value);
    AppendAssoc(h, ShortBytes(JavaLength(value)), Utf8(value));
    AppendAssoc(w, N.Header(t), N.Payload(t));
  }

  // ---------------------------------------------------------------- classes

  /** Whether `index` passes validateIndex: the list is not empty and the index lies in
      [0, size). */
  predicate IndexOk(size: nat, index: int) {
    size != 0 && 0 <= index < size
  }

  /** The test of get(name) and remove(name): `tag.getName().equals(name)`. */
  function NameIs(name: string): N.Tag -> bool {
    (t: N.Tag) => t.name == Some(name)
  }

  class TagCompound {
    const name: Option<string>
    /** A root compound writes its id but not its name. */
    const isRoot: bool
    var tags: seq<N.Tag>

    /** add and replace refuse a child without a name, so every child has one. */
    ghost predicate Valid()
      reads this
    {
      forall t :: t in tags ==> t.name.Some?
    }

    /** The compound as a tag value. */
    function Value(): (t: N.Tag)
      reads this
      ensures t.TagCompound? && t.name == name && t.isRoot == isRoot && t.items == tags
    {
      N.TagCompound(name, isRoot, tags)
    }

    /** `new TagCompound()` and `new TagCompound(name)`: no children. */
    constructor (name: Option<string>)
      ensures this.name == name && !isRoot && tags == [] && Valid()
    {
      this.name := name;
      isRoot := false;
      tags := [];
    }

    /** `new TagCompound(name, reader, isRootTag)`: readCompound on a new compound. */
    static method FromReader(name: Option<string>, reader: DataReader, isRoot: bool)
      returns (r: Result<TagCompound>)
      requires reader.Valid()
      modifies reader
      ensures reader.Valid()
      ensures var spec := N.ParseCompoundItems(reader.data, old(reader.pos));
              if spec.Ok? then
                r.Ok? && fresh(r.value) && r.value.Valid() && reader.pos == spec.value.next &&
                r.value.Value() == N.TagCompound(name, isRoot, spec.value.value)
              else
                r == Err(spec.error) && (spec.error == EndOfFile ==> reader.pos == |reader.data|)
      decreases |reader.data| - reader.pos, 2
    {
      var c := new TagCompound.Rooted(name, isRoot);
      var items := c.ReadCompound(reader);
      r := if items.Ok? then Ok(c) else Err(items.error);
    }

    /** The constructors that take the root flag. */
    constructor Rooted(name: Option<string>, isRoot: bool)
      ensures this.name == name && this.isRoot == isRoot && tags == [] && Valid()
    {
      this.name := name;
      this.isRoot := isRoot;
      tags := [];
    }

    /** readCompound: read an id byte; 0 ends the loop; otherwise read the name and the
        payload of that id, and add the child. */
    method ReadCompound(reader: DataReader) returns (r: Result<seq<N.Tag>>)
      requires reader.Valid() && Valid()
      modifies this, reader
      ensures reader.Valid() && Valid()
      ensures Follows(r, N.ParseCompoundItems(reader.data, old(reader.pos)), reader.pos, |reader.data|)
      ensures r.Ok? ==> tags == old(tags) + r.value
      decreases |reader.data| - reader.pos, 1
    {
      ghost var p0 := reader.pos;
      var read: seq<N.Tag> := [];
      GlueNil(read, N.ParseCompoundItems(reader.data, p0));
      while true
        invariant reader.Valid() && Valid() && p0 <= reader.pos
        invariant N.ParseCompoundItems(reader.data, p0) == Glue(read, N.ParseCompoundItems(reader.data, reader.pos))
        invariant tags == old(tags) + read
        decreases |reader.data| - reader.pos
      {
        ghost var q := reader.pos;
        var child := ReadChild(reader);
        ChildGlue(reader.data, q, read);
        if child.Err? {
          return Err(child.error);
        }
        if child.value.None? {
          GlueEnd(read, N.ParseCompoundItems(reader.data, q), reader.pos);
          return Ok(read);
        }
        var e := Add(child.value.value);
        assert tags == old(tags) + (read + [child.value.value]);
        read := read + [child.value.value];
      }
    }

    /** write. */
    method Write(writer: DataWriter)
      requires writer.Valid()
      modifies writer, writer.buffer
      ensures writer.Valid() && writer.Written() == old(writer.Written()) + N.Encode(Value())
    {
      WriteCompound(writer, name, isRoot, tags);
    }

    /** add: a child without a name is refused; otherwise it is appended. */
    method Add(t: N.Tag) returns (e: Option<Error>)
      requires Valid()
      modifies this
      ensures Valid()
      ensures t.name.None? ==> e == Some(MissingName) && tags == old(tags)
      ensures t.name.Some? ==> e == None && tags == old(tags) + [t] && |tags| == |old(tags)| + 1
    {
      if t.name.None? {
        return Some(MissingName);
      }
      tags := tags + [t];
      e := None;
    }

    /** remove(name): every child with that name goes, the others stay in order. */
    method RemoveName(name: string)
      requires Valid()
      modifies this
      ensures Valid() && tags == RemoveAll(old(tags), NameIs(name))
      ensures forall t :: t in tags ==> t.name != Some(name)
      ensures forall t :: t in old(tags) && t.name != Some(name) ==> t in tags
    {
      var kept := RemoveAll(tags, NameIs(name));
      assert forall t :: t in kept ==> t in tags && !NameIs(name)(t);
      assert forall t :: t in tags && !NameIs(name)(t) ==> t in kept;
      tags := kept;
    }

    /** remove(index): validateIndex, then the child at `index` goes. */
    method RemoveAt(index: int) returns (e: Option<Error>)
      requires Valid()
      modifies this
      ensures Valid()
      ensures !IndexOk(|old(tags)|, index) ==> e == Some(IndexOutOfBounds) && tags == old(tags)
      ensures IndexOk(|old(tags)|, index) ==> e == None && tags == old(tags[..index] + tags[index + 1..])
    {
      if !IndexOk(|tags|, index) {
        return Some(IndexOutOfBounds);
      }
      tags := tags[..index] + tags[index + 1..];
      e := None;
    }

    /** remove(tag): the first child equal to `t` goes, if there is one. */
    method RemoveTag(t: N.Tag)
      requires Valid()
      modifies this
      ensures Valid() && tags == RemoveFirst(old(tags), t)
    {
      tags := RemoveFirst(tags, t);
    }

    /** replace: validateIndex, then a child without a name is refused; otherwise slot
        `index` takes `t` and the size stays. */
    method Replace(index: int, t: N.Tag) returns (e: Option<Error>)
      requires Valid()
      modifies this
      ensures Valid()
      ensures !IndexOk(|old(tags)|, index) ==> e == Some(IndexOutOfBounds) && tags == old(tags)
      ensures IndexOk(|old(tags)|, index) && t.name.None? ==> e == Some(MissingName) && tags == old(tags)
      ensures IndexOk(|old(tags)|, index) && t.name.Some? ==>
                e == None && |tags| == |old(tags)| && tags[index] == t &&
                forall j :: 0 <= j < |tags| && j != index ==> tags[j] == old(tags[j])
    {
      if !IndexOk(|tags|, index) {
        return Some(IndexOutOfBounds);
      }
      if t.name.None? {
        return Some(MissingName);
      }
      tags := tags[index := t];
      e := None;
    }

    /** get(index). */
    method GetAt(index: int) returns (r: Result<N.Tag>)
      ensures IndexOk(|tags|, index) ==> r == Ok(tags[index])
      ensures !IndexOk(|tags|, index) ==> r == Err(IndexOutOfBounds)
    {
      if !IndexOk(|tags|, index) {
        return Err(IndexOutOfBounds);
      }
      r := Ok(tags[index]);
    }

    /** get(name): the loop returns the first child with that name, or null. */
    method GetByName(name: string) returns (r: Option<N.Tag>)
      ensures r == First(tags, NameIs(name))
      ensures r.Some? ==> r.value in tags && r.value.name == Some(name)
      ensures r.None? <==> forall i :: 0 <= i < |tags| ==> tags[i].name != Some(name)
    {
      for i := 0 to |tags|
        invariant forall j :: 0 <= j < i ==> !NameIs(name)(tags[j])
      {
        if tags[i].name == Some(name) {
          FirstAt(tags, NameIs(name), i);
          return Some(tags[i]);
        }
      }
      return None;
    }

    /** has(name): `get(name) != null`. */
    method HasName(name: string) returns (b: bool)
      ensures b <==> exists i :: 0 <= i < |tags| && tags[i].name == Some(name)
    {
      var r := GetByName(name);
      b := r.Some?;
    }

    /** has(index): `get(index) != null`, so a bad index throws instead of giving false. */
    method HasAt(index: int) returns (r: Result<bool>)
      ensures IndexOk(|tags|, index) <==> r == Ok(true)
      ensures !IndexOk(|tags|, index) ==> r == Err(IndexOutOfBounds)
    {
      var t := GetAt(index);
      r := if t.Ok? then Ok(true) else Err(t.error);
    }

    /** isEmpty: no child; then size() is 0 and get(0) throws. */
    predicate IsEmpty()
      reads this
      ensures IsEmpty() <==> Size() == 0
      ensures IsEmpty() <==> !IndexOk(|tags|, 0)
    {
      tags == []
    }

    function Size(): nat
      reads this
    {
      |tags|
    }
  }

  class TagList {
    const name: Option<string>
    /** The id every child is meant to have; a `byte` that never changes. */
    const childrenId: N.SByte
    var tags: seq<N.Tag>

    /** add and replace refuse a child with a name, so no child has one. */
    ghost predicate Valid()
      reads this
    {
      forall t :: t in tags ==> t.name.None?
    }

    /** The list as a tag value. */
    function Value(): (t: N.Tag)
      reads this
      ensures t.TagList? && t.name == name && t.childrenId == childrenId && t.items == tags
    {
      N.TagList(name, childrenId, tags)
    }

    /** `new TagList(tagsClass, name)`: the child id is the TAG_ID of the class. */
    constructor (childrenId: N.SByte, name: Option<string>)
      ensures this.name == name && this.childrenId == childrenId && tags == [] && Valid()
    {
      this.name := name;
      this.childrenId := childrenId;
      tags := [];
    }

    /** `new TagList(name, reader)`: the child id as a signed byte, then readList. */
    static method FromReader(name: Option<string>, reader: DataReader) returns (r: Result<TagList>)
      requires reader.Valid()
      modifies reader
      ensures reader.Valid()
      ensures var spec := N.ParseList(reader.data, old(reader.pos), name);
              if spec.Ok? then
                r.Ok? && fresh(r.value) && r.value.Valid() && reader.pos == spec.value.next &&
                r.value.Value() == spec.value.value
              else
                r == Err(spec.error) && (spec.error == EndOfFile ==> reader.pos == |reader.data|)
      decreases |reader.data| - reader.pos, 1
    {
      var c := reader.ReadByte();
      if c.Err? {
        return Err(c.error);
      }
      var list := new TagList(N.SignedByte(c.value), name);
      var items := list.ReadList(reader);
      r := if items.Ok? then Ok(list) else Err(items.error);
    }

    /** readList: an int length, then that many payloads of the child id; a length of 0
        or less reads nothing more. */
    method ReadList(reader: DataReader) returns (r: Result<seq<N.Tag>>)
      requires reader.Valid() && Valid() && tags == []
      modifies this, reader
      ensures reader.Valid() && Valid()
      ensures Follows(r, CountedItems(reader.data, old(reader.pos), childrenId), reader.pos, |reader.data|)
      ensures r.Ok? ==> tags == r.value
      decreases |reader.data| - reader.pos, 1
    {
      var length := reader.ReadInt();
      if length.Err? {
        return Err(length.error);
      }
      r := ReadItems(reader, length.value);
    }

    /** readList's `for (int i = 0; i < length; i++)` loop: a payload of the child id
        per turn, each added to the list. */
    method ReadItems(reader: DataReader, length: Int32) returns (r: Result<seq<N.Tag>>)
      requires reader.Valid() && Valid() && tags == []
      modifies this, reader
      ensures reader.Valid() && Valid()
      ensures Follows(r, N.ParseListItems(reader.data, old(reader.pos), childrenId, Max(0, length)),
                      reader.pos, |reader.data|)
      ensures r.Ok? ==> tags == r.value
      decreases |reader.data| - reader.pos + 1, 0
    {
      ghost var p0 := reader.pos;
      ghost var count := Max(0, length);
      GlueNil(tags, N.ParseListItems(reader.data, p0, childrenId, count));
      var i := 0;
      while i < length
        invariant reader.Valid() && Valid() && p0 <= reader.pos && 0 <= i <= count
        invariant N.ParseListItems(reader.data, p0, childrenId, count) ==
                  Glue(tags, N.ParseListItems(reader.data, reader.pos, childrenId, count - i))
        decreases length - i
      {
        ghost var q := reader.pos;
        var t := ReadPayload(reader, childrenId, None);
        ListItemsAhead(reader.data, q, tags, childrenId, count - i);
        if t.Err? {
          return Err(t.error);
        }
        var e := Add(t.value);
        i := i + 1;
      }
      GlueEnd(tags, N.ParseListItems(reader.data, reader.pos, childrenId, 0), reader.pos);
      r := Ok(tags);
    }

    /** write. */
    method Write(writer: DataWriter)
      requires writer.Valid()
      modifies writer, writer.buffer
      ensures writer.Valid() && writer.Written() == old(writer.Written()) + N.Encode(Value())
    {
      WriteList(writer, name, childrenId, tags);
    }

    /** add: a child with a name, or with another id than childrenID, is refused;
        otherwise it is appended. */
    method Add(t: N.Tag) returns (e: Option<Error>)
      requires Valid()
      modifies this
      ensures Valid()
      ensures t.name.Some? ==> e == Some(UnexpectedName) && tags == old(tags)
      ensures t.name.None? && N.TagId(t) != childrenId ==> e == Some(WrongChildId) && tags == old(tags)
      ensures t.name.None? && N.TagId(t) == childrenId ==> e == None && tags == old(tags) + [t]
    {
      if t.name.Some? {
        return Some(UnexpectedName);
      }
      if N.TagId(t) != childrenId {
        return Some(WrongChildId);
      }
      tags := tags + [t];
      e := None;
    }

    /** remove(index). */
    method RemoveAt(index: int) returns (e: Option<Error>)
      requires Valid()
      modifies this
      ensures Valid()
      ensures !IndexOk(|old(tags)|, index) ==> e == Some(IndexOutOfBounds) && tags == old(tags)
      ensures IndexOk(|old(tags)|, index) ==> e == None && tags == old(tags[..index] + tags[index + 1..])
    {
      if !IndexOk(|tags|, index) {
        return Some(IndexOutOfBounds);
      }
      tags := tags[..index] + tags[index + 1..];
      e := None;
    }

    /** remove(tag): the first child equal to `t` goes, if there is one. */
    method RemoveTag(t: N.Tag)
      requires Valid()
      modifies this
      ensures Valid() && tags == RemoveFirst(old(tags), t)
    {
      tags := RemoveFirst(tags, t);
    }

    /** replace: validateIndex, then a child with a name is refused; the child id is not
        checked, so a child of another id is accepted. */
    method Replace(index: int, t: N.Tag) returns (e: Option<Error>)
      requires Valid()
      modifies this
      ensures Valid()
      ensures !IndexOk(|old(tags)|, index) ==> e == Some(IndexOutOfBounds) && tags == old(tags)
      ensures IndexOk(|old(tags)|, index) && t.name.Some? ==> e == Some(UnexpectedName) && tags == old(tags)
      ensures IndexOk(|old(tags)|, index) && t.name.None? ==>
                e == None && |tags| == |old(tags)| && tags[index] == t &&
                forall j :: 0 <= j < |tags| && j != index ==> tags[j] == old(tags[j])
    {
      if !IndexOk(|tags|, index) {
        return Some(IndexOutOfBounds);
      }
      if t.name.Some? {
        return Some(UnexpectedName);
      }
      tags := tags[index := t];
      e := None;
    }

    /** get(index). */
    method GetAt(index: int) returns (r: Result<N.Tag>)
      ensures IndexOk(|tags|, index) ==> r == Ok(tags[index])
      ensures !IndexOk(|tags|, index) ==> r == Err(IndexOutOfBounds)
    {
      if !IndexOk(|tags|, index) {
        return Err(IndexOutOfBounds);
      }
      r := Ok(tags[index]);
    }

    /** has(index): `get(index) != null`, so a bad index throws instead of giving false. */
    method HasAt(index: int) returns (r: Result<bool>)
      ensures IndexOk(|tags|, index) <==> r == Ok(true)
      ensures !IndexOk(|tags|, index) ==> r == Err(IndexOutOfBounds)
    {
      var t := GetAt(index);
      r := if t.Ok? then Ok(true) else Err(t.error);
    }

    /** isEmpty: no child; then size() is 0 and get(0) throws. */
    predicate IsEmpty()
      reads this
      ensures IsEmpty() <==> Size() == 0
      ensures IsEmpty() <==> !IndexOk(|tags|, 0)
    {
      tags == []
    }

    function Size(): nat
      reads this
    {
      |tags|
    }
  }

  class TagString {
    const name: Option<string>
    var value: string

    /** `new TagString(value)` and `new TagString(name, value)`; the id is 8 either way. */
    constructor (name: Option<string>, value: string)
      ensures this.name == name && this.value == value && N.TagId(Value()) == N.TAG_STRING
    {
      this.name := name;
      this.value := value;
    }

    function Value(): (t: N.Tag)
      reads this
      ensures t.TagString? && t.name == name && t.text == value
    {
      N.TagString(name, value)
    }

    method SetValue(value: string)
      modifies this
      ensures this.value == value
    {
      this.value := value;
    }

    /** write. */
    method Write(writer: DataWriter)
      requires writer.Valid()
      modifies writer, writer.buffer
      ensures writer.Valid() && writer.Written() == old(writer.Written()) + N.Encode(Value())
    {
      WriteText(writer, name, value);
    }
  }

  // ---------------------------------------------------------------- lemmas

  /** readList's counted part: the int length, then that many payloads. */
  ghost function CountedItems(s: seq<Byte>, p: nat, cid: int): Result<Parsed<seq<N.Tag>>> {
    var n :- ParseInt(s, p);
    N.ParseListItems(s, n.next, cid, Max(0, n.value))
  }

  /** `writeByte(b)` keeps the low 8 bits, like the payload of a byte tag. */
  lemma LowByte(x: int)
    ensures U32(x) % TWO_8 == x % TWO_8
  {
    var q := x / TWO_32;
    assert x == q * TWO_32 + U32(x);
    assert x == (q * 0x100_0000) * TWO_8 + U32(x);
  }

  lemma EncodeAllSnoc(items: seq<N.Tag>, i: nat)
    requires i < |items|
    ensures N.EncodeAll(items[..i + 1]) == N.EncodeAll(items[..i]) + N.Encode(items[i])
  {
    EncodeAllAppend(items[..i], [items[i]]);
    assert items[..i + 1] == items[..i] + [items[i]];
  }

  lemma {:induction false} EncodeAllAppend(a: seq<N.Tag>, b: seq<N.Tag>)
    ensures N.EncodeAll(a + b) == N.EncodeAll(a) + N.EncodeAll(b)
  {
    if a == [] {
      assert a + b == b;
    } else {
      assert (a + b)[1..] == a[1..] + b;
      EncodeAllAppend(a[1..], b);
    }
  }

  /** One turn of readCompound's loop: a failure is the failure of the compound, the end
      byte ends it, a child moves from the rest of the compound to the front. */
  lemma ChildGlue(s: seq<Byte>, q: nat, pre: seq<N.Tag>)
    ensures N.ParseChild(s, q).Err? ==>
              Glue(pre, N.ParseCompoundItems(s, q)) == Err(N.ParseChild(s, q).error)
    ensures N.ParseChild(s, q).Ok? && N.ParseChild(s, q).value.value.None? ==>
              N.ParseCompoundItems(s, q) == Ok(Parsed([], N.ParseChild(s, q).value.next))
    ensures N.ParseChild(s, q).Ok? && N.ParseChild(s, q).value.value.Some? ==>
              var c := N.ParseChild(s, q).value;
              Glue(pre, N.ParseCompoundItems(s, q)) ==
              Glue(pre + [c.value.value], N.ParseCompoundItems(s, c.next))
  {
    var c := N.ParseChild(s, q);
    if c.Ok? && c.value.value.Some? {
      var rest := N.ParseCompoundItems(s, c.value.next);
      assert N.ParseCompoundItems(s, q) ==
             if rest.Ok? then Ok(Parsed([c.value.value.value] + rest.value.value, rest.value.next)) else rest;
      if rest.Ok? {
        assert pre + ([c.value.value.value] + rest.value.value) == (pre + [c.value.value.value]) + rest.value.value;
      }
    }
  }

  /** One payload of readList's loop: a failure is the failure of the rest, a success
      moves the child to the front. */
  lemma ListItemsAhead(s: seq<Byte>, q: nat, pre: seq<N.Tag>, cid: int, k: nat)
    requires k > 0
    ensures N.ParsePayload(s, q, cid, None).Err? ==>
              Glue(pre, N.ParseListItems(s, q, cid, k)) == Err(N.ParsePayload(s, q, cid, None).error)
    ensures N.ParsePayload(s, q, cid, None).Ok? ==>
              var t := N.ParsePayload(s, q, cid, None).value;
              Glue(pre, N.ParseListItems(s, q, cid, k)) == Glue(pre + [t.value], N.ParseListItems(s, t.next, cid, k - 1))
  {
    var x := N.ParsePayload(s, q, cid, None);
    if x.Ok? {
      var rest := N.ParseListItems(s, x.value.next, cid, k - 1);
      if rest.Ok? {
        assert pre + ([x.value.value] + rest.value.value) == (pre + [x.value.value]) + rest.value.value;
      }
    }
  }
}
