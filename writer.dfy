/** DataWriter: either an in-memory byte list, or a 16 KiB buffer in front of an output
    stream. The bytes the writer has accepted, `Written()`, are the list in the first
    mode and, in the second, what has reached the stream followed by the buffered bytes;
    every write method is proved to append exactly the Wire encoding of its argument. */
module Writer {
  import opened Base
  import opened Wire
  import opened Protocols
  import opened Positions

  const BUFFER_SIZE: nat := 16384

  class DataWriter {
    /** The list mode of the no-argument constructor (`data != null`, no stream). */
    const listMode: bool
    /** The internal list of the list mode. */
    var data: seq<Byte>
    const buffer: array<Byte>
    var index: nat
    /** What the output stream has received. */
    var out: seq<Byte>

    ghost predicate Valid()
      reads this
    {
      buffer.Length == BUFFER_SIZE && index <= BUFFER_SIZE &&
      (listMode ==> index == 0 && out == []) &&
      (!listMode ==> data == [])
    }

    ghost function Written(): seq<Byte>
      reads this, buffer
      requires Valid()
    {
      if listMode then data else out + buffer[..index]
    }

    /** `new DataWriter()`: writes go to the internal list. */
    constructor ()
      ensures Valid() && listMode && data == [] && Written() == []
      ensures fresh(buffer)
    {
      listMode := true;
      data := [];
      buffer := new Byte[BUFFER_SIZE];
      index := 0;
      out := [];
    }

    /** `new DataWriter(outputStream)`: writes are buffered for the stream. */
    constructor Streaming()
      ensures Valid() && !listMode && out == [] && index == 0 && Written() == []
      ensures fresh(buffer)
    {
      listMode := false;
      data := [];
      buffer := new Byte[BUFFER_SIZE];
      index := 0;
      out := [];
    }

    /** writeByte: `value & 0xff` is appended to the list, or stored in the buffer after
        flushing a full one. */
    method WriteByte(value: int)
      requires Valid()
      modifies this, buffer
      ensures Valid() && Written() == old(Written()) + [value % TWO_8]
      ensures listMode ==> data == old(data) + [value % TWO_8] && index == 0
      ensures !listMode && old(index) < BUFFER_SIZE ==> out == old(out) && index == old(index) + 1
      ensures !listMode && old(index) == BUFFER_SIZE ==> out == old(out) + old(buffer[..]) && index == 1
    {
      if listMode {
        data := data + [value % TWO_8];
        return;
      }
      if index == BUFFER_SIZE {
        Flush();
      }
      buffer[index] := value % TWO_8;
      index := index + 1;
    }

    /** flush: the buffered bytes go to the stream and the buffer is emptied; without a
        stream nothing happens. Either way the bytes written stay the same. */
    method Flush()
      requires Valid()
      modifies this
      ensures Valid() && Written() == old(Written())
      ensures listMode ==> data == old(data) && index == old(index) && out == old(out)
      ensures !listMode ==> out == old(out) + old(buffer[..index]) && index == 0 && data == old(data)
    {
      if listMode {
        return;
      }
      out := out + buffer[..index];
      index := 0;
    }

    /** writeShort: `value >>> 8`, then `value & 0xff`. */
    method WriteShort(value: int)
      requires Valid()
      modifies this, buffer
      ensures Valid() && Written() == old(Written()) + ShortBytes(value)
    {
      WriteByte(U32(value) / TWO_8);
      WriteByte(U32(value) % TWO_8);
    }

    /** writeInt: `value >>> 16`, then `value & 0xffff`. */
    method WriteInt(value: int)
      requires Valid()
      modifies this, buffer
      ensures Valid() && Written() == old(Written()) + IntBytes(value)
    {
      WriteShort(U32(value) / TWO_16);
      WriteShort(U32(value) % TWO_16);
    }

    /** writeLong: `(int) (value >>> 32)`, then `(int) value`. */
    method WriteLong(value: int)
      requires Valid()
      modifies this, buffer
      ensures Valid() && Written() == old(Written()) + LongBytes(value)
    {
      LongHalvesBytes(value);
      ghost var w := Written();
      WriteInt(S32(U64(value) / TWO_32));
      WriteInt(S32(value));
      AppendAssoc(w, IntBytes(S32(U64(value) / TWO_32)), IntBytes(S32(value)));
    }

    /** writeByteArray: each byte in order. */
    method WriteByteArray(values: seq<Byte>)
      requires Valid()
      modifies this, buffer
      ensures Valid() && Written() == old(Written()) + values
    {
      for i := 0 to |values|
        invariant Valid() && Written() == old(Written()) + values[..i]
      {
        WriteByte(values[i]);
        assert values[..i + 1] == values[..i] + [values[i]];
      }
    }

    /** writeIntArray: each int in order. */
    method WriteIntArray(values: seq<Int32>)
      requires Valid()
      modifies this, buffer
      ensures Valid() && Written() == old(Written()) + IntsBytes(values)
    {
      for i := 0 to |values|
        invariant Valid() && Written() == old(Written()) + IntsBytes(values[..i])
      {
        WriteInt(values[i]);
        IntsPrefixStep(values, i);
        AppendAssoc(old(Written()), IntsBytes(values[..i]), IntBytes(values[i]));
      }
      assert values[..|values|] == values;
    }

    /** writeLongArray: each long in order. */
    method WriteLongArray(values: seq<Int64>)
      requires Valid()
      modifies this, buffer
      ensures Valid() && Written() == old(Written()) + LongsBytes(values)
    {
      for i := 0 to |values|
        invariant Valid() && Written() == old(Written()) + LongsBytes(values[..i])
      {
        WriteLong(values[i]);
        LongsPrefixStep(values, i);
        AppendAssoc(old(Written()), LongsBytes(values[..i]), LongBytes(values[i]));
      }
      assert values[..|values|] == values;
    }

    /** The do-while loop of writeVarInt / writeVarLong on the unsigned value: the low 7
        bits, with 0x80 set when bits remain after the shift. */
    method WriteUnsignedVar(u: nat)
      requires Valid()
      modifies this, buffer
      ensures Valid() && Written() == old(Written()) + Leb(u)
    {
      var rest: nat := u;
      var more := true;
      ghost var w0, emitted: seq<Byte> := Written(), [];
      while more
        invariant Valid() && Written() == w0 + emitted
        invariant more ==> emitted + Leb(rest) == Leb(u)
        invariant !more ==> emitted == Leb(u)
        decreases rest, more
      {
        ghost var b;
        ghost var before := rest;
        b, rest := WriteGroup(rest);
        more := rest != 0;
        EmitStep(emitted, b, before, rest, u);
        AppendAssoc(w0, emitted, [b]);
        emitted := emitted + [b];
      }
    }

    /** One turn of that loop: the low 7 bits of `rest`, with 0x80 set when bits remain
        after the shift; `b` is the byte written and `next` the value shifted. */
    method WriteGroup(rest: nat) returns (ghost b: Byte, next: nat)
      requires Valid()
      modifies this, buffer
      ensures Valid() && Written() == old(Written()) + [b]
      ensures next < rest || rest == next == 0
      ensures next != 0 ==> Leb(rest) == [b] + Leb(next)
      ensures next == 0 ==> Leb(rest) == [b]
    {
      LebStep(rest);
      var temp := rest % TWO_7;
      next := rest / TWO_7;
      if next != 0 {
        temp := temp + TWO_7;
      }
      WriteByte(temp);
      b := temp;
    }

    /** writeVarInt: `>>>` shifts the 32-bit pattern. */
    method WriteVarInt(value: Int32)
      requires Valid()
      modifies this, buffer
      ensures Valid() && Written() == old(Written()) + VarIntBytes(value)
    {
      WriteUnsignedVar(U32(value));
    }

    /** writeVarLong: `>>>` shifts the 64-bit pattern. */
    method WriteVarLong(value: Int64)
      requires Valid()
      modifies this, buffer
      ensures Valid() && Written() == old(Written()) + VarLongBytes(value)
    {
      WriteUnsignedVar(U64(value));
    }

    /** writeString: the UTF-8 bytes, with no length prefix. */
    method WriteString(value: string)
      requires Valid()
      modifies this, buffer
      ensures Valid() && Written() == old(Written()) + Utf8(value)
    {
      WriteByteArray(Utf8(value));
    }

    /** writeUUID: the most significant long, then the least significant one. */
    method WriteUuid(most: Int64, least: Int64)
      requires Valid()
      modifies this, buffer
      ensures Valid() && Written() == old(Written()) + LongBytes(most) + LongBytes(least)
    {
      WriteLong(most);
      WriteLong(least);
    }

    /** writePosition: the coordinates packed with the layout of the position's protocol. */
    method WritePosition(position: Position)
      requires Valid()
      modifies this, buffer
      ensures Valid()
      ensures Written() == old(Written()) +
                           LongBytes(Pack(position.protocol, position.x, position.y, position.z))
    {
      WriteLong(Pack(position.protocol, position.x, position.y, position.z));
    }
  }

  /** The two ints writeLong writes are the two halves of LongBytes. */
  lemma LongHalvesBytes(v: int)
    ensures LongBytes(v) == IntBytes(S32(U64(v) / TWO_32)) + IntBytes(S32(v))
  {
    IntBytesLow(U64(v) / TWO_32);
    IntBytesLow(v);
    IntBytesLow(U64(v) % TWO_32);
    LowWord(v);
  }

  lemma LowWord(v: int)
    ensures U32(U64(v) % TWO_32) == U32(v)
  {
    var q, r := v / TWO_64, v % TWO_64;
    var h := r / TWO_32;
    assert r == TWO_32 * h + r % TWO_32;
    assert v == TWO_32 * (TWO_32 * q + h) + r % TWO_32;
    LowBitsOf(v, TWO_32 * q + h, r % TWO_32);
  }

  lemma LowBitsOf(v: int, k: int, m: int)
    requires 0 <= m < TWO_32 && v == TWO_32 * k + m
    ensures v % TWO_32 == m
  {
  }

  /** The bytes of the varint loop so far, after one more turn. */
  lemma EmitStep(emitted: seq<Byte>, b: Byte, before: nat, rest: nat, u: nat)
    requires emitted + Leb(before) == Leb(u)
    requires rest != 0 ==> Leb(before) == [b] + Leb(rest)
    requires rest == 0 ==> Leb(before) == [b]
    ensures rest != 0 ==> (emitted + [b]) + Leb(rest) == Leb(u)
    ensures rest == 0 ==> emitted + [b] == Leb(u)
  {
    AppendAssoc(emitted, [b], Leb(rest));
  }

  lemma AppendAssoc(a: seq<Byte>, b: seq<Byte>, c: seq<Byte>)
    ensures a + (b + c) == (a + b) + c
  {
  }

  /** One turn of the varint loop: the first byte and what is left to write. */
  lemma LebStep(u: nat)
    ensures u / TWO_7 < u || u == 0
    ensures Leb(u) == [u % TWO_7 + (if u / TWO_7 != 0 then TWO_7 else 0)] +
                      (if u / TWO_7 != 0 then Leb(u / TWO_7) else [])
  {
  }

  /** The bytes of the first i + 1 ints: those of the first i, then the next one's. */
  lemma IntsPrefixStep(values: seq<int>, i: nat)
    requires i < |values|
    ensures IntsBytes(values[..i + 1]) == IntsBytes(values[..i]) + IntBytes(values[i])
  {
    assert values[..i + 1] == values[..i] + [values[i]];
    IntsBytesSnoc(values[..i], values[i]);
  }

  /** The bytes of the first i + 1 longs: those of the first i, then the next one's. */
  lemma LongsPrefixStep(values: seq<int>, i: nat)
    requires i < |values|
    ensures LongsBytes(values[..i + 1]) == LongsBytes(values[..i]) + LongBytes(values[i])
  {
    assert values[..i + 1] == values[..i] + [values[i]];
    LongsBytesSnoc(values[..i], values[i]);
  }

  lemma {:induction false} IntsBytesSnoc(vs: seq<int>, v: int)
    ensures IntsBytes(vs + [v]) == IntsBytes(vs) + IntBytes(v)
    decreases |vs|
  {
    if vs == [] {
      assert [] + [v] == [v];
    } else {
      assert (vs + [v])[1..] == vs[1..] + [v];
      IntsBytesSnoc(vs[1..], v);
    }
  }

  lemma {:induction false} LongsBytesSnoc(vs: seq<int>, v: int)
    ensures LongsBytes(vs + [v]) == LongsBytes(vs) + LongBytes(v)
    decreases |vs|
  {
    if vs == [] {
      assert [] + [v] == [v];
    } else {
      assert (vs + [v])[1..] == vs[1..] + [v];
      LongsBytesSnoc(vs[1..], v);
    }
  }
}
