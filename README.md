# ImBob core in Dafny

ImBob rewrites the `recording.tmcpr` stream of a Minecraft replay. Each record in the stream is a timestamp, a size, a packet id and the packet's bytes. Tasks the user picks edit selected packets:

- the weather task makes it rain;
- the time task fixes the time of day;
- the username task renames a player;
- the skin task gives a player another player's skin.

Every other record is copied through byte for byte. This project models the core that makes those edits possible, module by module:

- **Primitive codec** (`wire.dfy`, `reader.dfy`, `writer.dfy`, `varnums.dfy`, `positions.dfy`, `decimal.dfy`): DataReader and DataWriter over big-endian integers, VarInt/VarLong, strings and packed positions. Every read and write method is proved against a byte-format function, and each format has a round-trip lemma.
- **NBT** (`nbt_format.dfy`, `nbt_tags.dfy`): the tag tree as a value, the byte layout the tag classes write, and the mutable TagCompound, TagList and TagString classes. The reading constructors are proved to invert the write methods.
- **Packet schema and entries** (`rules.dfy`, `entries.dfy`, `tokens.dfy`, `search.dfy`): the rule kinds of a packet definition, the decoded entry tree, and the field types that readFromTokenType and writeFromTokenType exchange.
- **Codec engine** (`deserializer.dfy`, `serializer.dfy`): PacketDeserializer and PacketSerializer with their variable scopes. The serializer writes back what the deserializer read.
- **Protocol and identity** (`protocol.dfy`, `registry.dfy`, `utils.dfy`): the protocol versions, packet ids per version, acceptors, the schema file chosen for a version, and the string utilities these use.
- **Pipeline and tasks** (`packet.dfy`, `data.dfy`, `tasks.dfy`, `executor.dfy`, `weather.dfy`, `time_changer.dfy`, `username.dfy`, `skin.dfy`): Packet, the DataBlock edit surface, AbstractTask, TaskExecutor's record loop and the four tasks.

Where the code has a defect, the model keeps both readings. One member models the code as written, with a lemma that shows the defect. A second member holds the evidently intended behaviour, with its property proved (see "## Findings"). "## Left out" says which of the two the classes and methods follow.

## Model

| member | source | states |
|---|---|---|
| DataBlocks.Data.constructor | app/src/main/java/fr/rader/imbob/packets/data/Data.java:8-11 | a new Data holds the given name and value |
| DataBlocks.Data.SetValue | app/src/main/java/fr/rader/imbob/packets/data/Data.java:21-23 | the Data's value becomes the argument; its name is final |
| DataBlocks.DataBlock.constructor | app/src/main/java/fr/rader/imbob/packets/data/DataBlock.java:10-12 | a new block has an empty list |
| DataBlocks.DataBlock.Add | app/src/main/java/fr/rader/imbob/packets/data/DataBlock.java:14-16 | a fresh Data with the name and value is appended; the earlier elements keep their order |
| DataBlocks.DataBlock.AddData | app/src/main/java/fr/rader/imbob/packets/data/DataBlock.java:18-20 | the very object is appended (shared, not copied) |
| DataBlocks.DataBlock.Get | app/src/main/java/fr/rader/imbob/packets/data/DataBlock.java:31-36 | null exactly when no element has the name; otherwise the first element in list order with that name |
| DataBlocks.DataBlock.GetAs | app/src/main/java/fr/rader/imbob/packets/data/DataBlock.java:22-29 | null for an absent name; the first element's value when it is null or an instance of the class; ClassCastException otherwise |
| DataBlocks.DataBlock.IsEmpty | app/src/main/java/fr/rader/imbob/packets/data/DataBlock.java:50-52 | isEmpty: true exactly when no name is found in the block |
| DataBlocks.DataBlock.Update | app/src/main/java/fr/rader/imbob/packets/data/DataBlock.java:38-44 | when the name is present the first element with it takes the value and every other element keeps its value; nothing changes when it is absent |
| DataBlocks.DataBlock.PutAll | app/src/main/java/fr/rader/imbob/packets/data/DataBlock.java:54-56 | the other block's elements are appended in order, shared; putAll of the block into itself appends its first element and throws ConcurrentModificationException (an empty block is left empty) |
| DataBlocks.AddThenGet | app/src/main/java/fr/rader/imbob/packets/data/DataBlock.java:31-36 | after add(name, v), get(name) finds the new element exactly when no element had that name, and the earlier first match otherwise |
| DataBlocks.DataBlockArray.constructor | app/src/main/java/fr/rader/imbob/packets/data/DataBlockArray.java:11-13 | a new array holds no block |
| DataBlocks.DataBlockArray.Create | app/src/main/java/fr/rader/imbob/packets/data/DataBlockArray.java:15-21 | a fresh empty block is appended and returned |
| Packets.Packet.constructor | app/src/main/java/fr/rader/imbob/packets/Packet.java:16-21 | a new packet has the protocol and id, an empty data block, no name and no decoded entries |
| Packets.Packet.Configured | app/src/main/java/fr/rader/imbob/tasks/impl/WeatherChangerTask.java:57-62 | the three-argument constructor the weather task calls: as above, with the configuration flag given |
| Packets.Packet.SetPacketName | app/src/main/java/fr/rader/imbob/packets/Packet.java:35-37 | the name changes and nothing else |
| Packets.Packet.SetEntries | app/src/main/java/fr/rader/imbob/psl/packets/serialization/PacketDeserializer.java:32-34 | setEntry: the packet holds the decoded list; its name is untouched |
| Packets.Packet.Add | app/src/main/java/fr/rader/imbob/packets/Packet.java:39-41 | a fresh field is appended to the data block; a later get(name) finds it unless the name was already there, in which case get(name) is unchanged |
| Packets.Packet.Update | app/src/main/java/fr/rader/imbob/packets/Packet.java:43-45 | delegates to the block: the first field of the name takes the value, every other field keeps its value |
| Packets.Packet.IsEmpty | app/src/main/java/fr/rader/imbob/packets/Packet.java:51-53 | isEmpty: true exactly when the data block finds no name and no entry list has been decoded (the entry-list half is the reading explained under "## Left out") |
| Packets.Packet.CloneEmpty | app/src/main/java/fr/rader/imbob/packets/Packet.java:55-60 | a fresh empty packet with the same protocol, id and name |
| Packets.Packet.Copy | app/src/main/java/fr/rader/imbob/tasks/TaskExecutor.java:139 | a field-by-field copy sharing the data block and the entry list |
| Packets.Packet.Clone | app/src/main/java/fr/rader/imbob/tasks/TaskExecutor.java:139 | clone() is a shallow copy: a fresh packet with the same protocol, id, name and configuration flag that shares the data block and entry list |
| VarNums.VarInt.constructor | app/src/main/java/fr/rader/imbob/types/VarInt.java:7-9 | the VarInt holds the given int |
| VarNums.VarInt.Set | app/src/main/java/fr/rader/imbob/types/VarInt.java:15-17 | the value becomes the argument |
| VarNums.VarInt.Size | app/src/main/java/fr/rader/imbob/types/VarInt.java:19-28 | the count of 7-bit groups of the 32-bit pattern is the length of the varint encoding: 1 to 5 bytes, 1 exactly for 0..127, 5 for every negative value |
| VarNums.VarInt.Equals | app/src/main/java/fr/rader/imbob/types/VarInt.java:31-42 | equal exactly when the other object is a non-null VarInt with the same value |
| VarNums.VarLong.constructor | app/src/main/java/fr/rader/imbob/types/VarLong.java:7-9 | the VarLong holds the given long |
| VarNums.VarLong.Set | app/src/main/java/fr/rader/imbob/types/VarLong.java:15-17 | the value becomes the argument |
| VarNums.VarLong.Size | app/src/main/java/fr/rader/imbob/types/VarLong.java:19-28 | the count of 7-bit groups of the 64-bit pattern is the length of the varlong encoding: 1 to 10 bytes, 1 exactly for 0..127, 10 for every negative value |
| VarNums.CountGroups | app/src/main/java/fr/rader/imbob/types/VarInt.java:20-27 | the `>>>= 7` loop counts exactly the groups of the little-endian base-128 encoding of the unsigned pattern |
| Protocols.ComparisonLaws | app/src/main/java/fr/rader/imbob/protocol/Protocol.java:44-127 | the four comparisons are reflexive or irreflexive as named, the before/after pairs are converses, inclusive is the negation of the opposite exclusive, and any two versions compare one way, the other, or equal |
| Protocols.Get | app/src/main/java/fr/rader/imbob/protocol/ProtocolVersion.java:34-42 | get(name): the first registered protocol with that name, null exactly when none has it |
| Protocols.GetFromId | app/src/main/java/fr/rader/imbob/protocol/ProtocolVersion.java:44-52 | getFromId(id): the first registered protocol with that version number, null exactly when none has it |
| Wire.ParseByte | app/src/main/java/fr/rader/imbob/utils/data/DataReader.java:65-75 | readByte: the next byte, or EOFException exactly when none is left |
| Wire.ParseBoolean | app/src/main/java/fr/rader/imbob/utils/data/DataReader.java:55-63 | readBoolean: 1 is true and 0 is false; a byte above 1 is IllegalStateException; end of input is EOFException |
| Wire.ParseShort | app/src/main/java/fr/rader/imbob/utils/data/DataReader.java:77-79 | readShort: two bytes, big-endian, an unsigned 16-bit value; fails exactly when fewer than two bytes are left |
| Wire.ParseInt | app/src/main/java/fr/rader/imbob/utils/data/DataReader.java:81-83 | readInt: four bytes; fails exactly when fewer than four are left |
| Wire.ParseLong | app/src/main/java/fr/rader/imbob/utils/data/DataReader.java:85-87 | readLong: eight bytes; fails exactly when fewer than eight are left |
| Wire.ParseBytes | app/src/main/java/fr/rader/imbob/utils/data/DataReader.java:101-109 | readFollowingBytes(n): the next n bytes; a negative n is NegativeArraySizeException; fails exactly when fewer than n are left |
| Wire.Latin1 | app/src/main/java/fr/rader/imbob/utils/data/DataReader.java:97-99 | readChar: each byte becomes the char with that code |
| Wire.ParseString | app/src/main/java/fr/rader/imbob/utils/data/DataReader.java:149-157 | readString(n): n bytes read one char each; a length of 0 or less reads nothing |
| Wire.ParseInts | app/src/main/java/fr/rader/imbob/utils/data/DataReader.java:159-167 | readIntArray(n): n ints, 4n bytes; fails exactly when fewer are left |
| Wire.ParseLongs | app/src/main/java/fr/rader/imbob/utils/data/DataReader.java:169-177 | readLongArray(n): n longs, 8n bytes; fails exactly when fewer are left |
| Wire.ParseVar | app/src/main/java/fr/rader/imbob/utils/data/DataReader.java:111-128 | the shared loop of readVarInt/readVarLong: it consumes at least one byte and never more than the limit |
| Wire.ParseVarInt | app/src/main/java/fr/rader/imbob/utils/data/DataReader.java:111-128 | readVarInt consumes between 1 and 5 bytes when it succeeds |
| Wire.ParseVarLong | app/src/main/java/fr/rader/imbob/utils/data/DataReader.java:130-147 | readVarLong consumes between 1 and 10 bytes when it succeeds |
| Wire.ShortBytes | app/src/main/java/fr/rader/imbob/utils/data/DataWriter.java:55-58 | writeShort emits two bytes |
| Wire.IntBytes | app/src/main/java/fr/rader/imbob/utils/data/DataWriter.java:60-63 | writeInt emits four bytes |
| Wire.LongBytes | app/src/main/java/fr/rader/imbob/utils/data/DataWriter.java:65-68 | writeLong emits eight bytes |
| Wire.IntsBytes | app/src/main/java/fr/rader/imbob/utils/data/DataWriter.java:76-80 | writeIntArray emits four bytes per element |
| Wire.LongsBytes | app/src/main/java/fr/rader/imbob/utils/data/DataWriter.java:82-86 | writeLongArray emits eight bytes per element |
| Wire.Leb | app/src/main/java/fr/rader/imbob/utils/data/DataWriter.java:96-107 | the groups the varint loop emits: at least one byte |
| Wire.Utf8Char | app/src/main/java/fr/rader/imbob/utils/data/DataWriter.java:122-124 | String.getBytes(UTF_8) of one char: one to four bytes |
| Wire.Utf8 | app/src/main/java/fr/rader/imbob/utils/data/DataWriter.java:122-124 | writeString's UTF-8 bytes are never fewer than the chars |
| Wire.JavaLength | app/src/main/java/fr/rader/imbob/utils/data/DataWriter.java:171 | String.length() counts UTF-16 units: between the number of code points and twice it |
| Wire.ByteRoundTrip | app/src/main/java/fr/rader/imbob/utils/data/DataReader.java:65-75 | a byte written is the byte readByte returns |
| Wire.ShortRoundTrip | app/src/main/java/fr/rader/imbob/utils/data/DataReader.java:77-79 | readShort after writeShort(v) gives the low 16 bits of v |
| Wire.ShortRoundTripFits | app/src/main/java/fr/rader/imbob/utils/data/DataReader.java:77-79 | readShort after writeShort(v) gives v for every v in 0..65535 |
| Wire.IntRoundTrip | app/src/main/java/fr/rader/imbob/utils/data/DataReader.java:81-83 | readInt after writeInt(v) gives v for every int |
| Wire.IntVerbatim | app/src/main/java/fr/rader/imbob/utils/data/DataWriter.java:60-63 | writeInt of an int just read writes back the same four bytes |
| Wire.IntBytesLow | app/src/main/java/fr/rader/imbob/utils/data/DataWriter.java:60-63 | writeInt depends only on the low 32 bits of its argument |
| Wire.LongRoundTrip | app/src/main/java/fr/rader/imbob/utils/data/DataReader.java:85-87 | readLong after writeLong(v) gives v for every long |
| Wire.LebShape | app/src/main/java/fr/rader/imbob/utils/data/DataWriter.java:96-107 | every varint byte but the last has the continuation bit, and the last has not |
| Wire.LebLength | app/src/main/java/fr/rader/imbob/utils/data/DataWriter.java:96-107 | the varint of u has at most k bytes exactly when u is below 2^(7k) |
| Wire.VarRoundTrip | app/src/main/java/fr/rader/imbob/utils/data/DataReader.java:111-128 | reading the groups the varint loop wrote gives back the number, from any starting shift, and stops right after them |
| Wire.VarIntRoundTrip | app/src/main/java/fr/rader/imbob/utils/data/DataReader.java:111-128 | readVarInt after writeVarInt(v) gives v for every int, consuming the 1 to 5 bytes written |
| Wire.VarLongRoundTrip | app/src/main/java/fr/rader/imbob/utils/data/DataReader.java:130-147 | readVarLong after writeVarLong(v) gives v for every long, consuming the 1 to 10 bytes written |
| Wire.VarIntSizes | app/src/main/java/fr/rader/imbob/utils/data/DataWriter.java:96-107 | writeVarInt writes one byte exactly for 0..127 and five for every negative int |
| Wire.VarLongSizes | app/src/main/java/fr/rader/imbob/utils/data/DataWriter.java:109-120 | writeVarLong writes one byte exactly for 0..127, at most ten, and ten for every negative long |
| Wire.Utf8LengthIsJavaLength | app/src/main/java/fr/rader/imbob/utils/data/DataWriter.java:167-173 | the varint length prefix (String.length()) equals the number of UTF-8 bytes written exactly when the string is ASCII |
| Wire.Utf8Covers | app/src/main/java/fr/rader/imbob/utils/data/DataWriter.java:167-173 | the UTF-8 bytes are never fewer than String.length() |
| Wire.Utf8Ascii | app/src/main/java/fr/rader/imbob/utils/data/DataReader.java:149-157 | an ASCII string's UTF-8 bytes, read back one char per byte, are the string |
| Wire.AsciiRoundTrip | app/src/main/java/fr/rader/imbob/utils/data/DataReader.java:149-157 | readString(length) after writeString of an ASCII string gives the string back |
| Wire.StringReads | app/src/main/java/fr/rader/imbob/utils/data/DataReader.java:149-157 | readString(n) of n bytes is their one-char-per-byte reading |
| Wire.BytesRoundTrip | app/src/main/java/fr/rader/imbob/utils/data/DataReader.java:101-109 | readFollowingBytes(n) after n bytes written gives them back |
| Wire.IntsRoundTrip | app/src/main/java/fr/rader/imbob/utils/data/DataReader.java:159-167 | readIntArray after writeIntArray gives the array back |
| Wire.LongsRoundTrip | app/src/main/java/fr/rader/imbob/utils/data/DataReader.java:169-177 | readLongArray after writeLongArray gives the array back |
| Reader.DataReader.constructor | app/src/main/java/fr/rader/imbob/utils/data/DataReader.java:46-53 | a reader over an input starts at its first byte |
| Reader.DataReader.ReadByte | app/src/main/java/fr/rader/imbob/utils/data/DataReader.java:65-75 | consumes one byte and returns it, or EOFException with the input used up |
| Reader.DataReader.ReadBoolean | app/src/main/java/fr/rader/imbob/utils/data/DataReader.java:55-63 | as ParseBoolean; a byte above 1 is consumed before the exception |
| Reader.DataReader.ReadShort | app/src/main/java/fr/rader/imbob/utils/data/DataReader.java:77-79 | as ParseShort, advancing past what it read |
| Reader.DataReader.ReadInt | app/src/main/java/fr/rader/imbob/utils/data/DataReader.java:81-83 | as ParseInt, advancing past what it read |
| Reader.DataReader.ReadLong | app/src/main/java/fr/rader/imbob/utils/data/DataReader.java:85-87 | as ParseLong, advancing past what it read |
| Reader.DataReader.ReadFollowingBytes | app/src/main/java/fr/rader/imbob/utils/data/DataReader.java:101-109 | the byte loop gives ParseBytes: the bytes, or the exception with the input used up |
| Reader.DataReader.ReadVar | app/src/main/java/fr/rader/imbob/utils/data/DataReader.java:111-128 | the do-while loop gives ParseVar; too long a number is "too big" after limit + 1 bytes |
| Reader.DataReader.ReadVarInt | app/src/main/java/fr/rader/imbob/utils/data/DataReader.java:111-128 | as ParseVarInt |
| Reader.DataReader.ReadVarLong | app/src/main/java/fr/rader/imbob/utils/data/DataReader.java:130-147 | as ParseVarLong |
| Reader.DataReader.ReadString | app/src/main/java/fr/rader/imbob/utils/data/DataReader.java:149-157 | the char loop gives ParseString |
| Reader.DataReader.ReadIntArray | app/src/main/java/fr/rader/imbob/utils/data/DataReader.java:159-167 | the array loop gives ParseInts; a negative length is NegativeArraySizeException before any read |
| Reader.DataReader.ReadLongArray | app/src/main/java/fr/rader/imbob/utils/data/DataReader.java:169-177 | the array loop gives ParseLongs; a negative length is NegativeArraySizeException before any read |
| Reader.DataReader.ReadIntInto | app/src/main/java/fr/rader/imbob/utils/data/DataReader.java:162-164 | one iteration: out[i] takes the next int, earlier cells are kept |
| Reader.DataReader.ReadLongInto | app/src/main/java/fr/rader/imbob/utils/data/DataReader.java:172-174 | one iteration: out[i] takes the next long, earlier cells are kept |
| Reader.DataReader.ReadPosition | app/src/main/java/fr/rader/imbob/utils/data/DataReader.java:193-211 | readPosition: a fresh Position of the protocol whose coordinates are the long's fields as the code extracts them: before 1.14 the fields writePosition packs, from 1.14 z from the low 26 bits, as written |
| Reader.UnpackRange | app/src/main/java/fr/rader/imbob/utils/data/DataReader.java:200-208 | every coordinate readPosition extracts fits an int |
| Writer.DataWriter.constructor | app/src/main/java/fr/rader/imbob/utils/data/DataWriter.java:31-34 | the list-backed writer starts with nothing written |
| Writer.DataWriter.Streaming | app/src/main/java/fr/rader/imbob/utils/data/DataWriter.java:36-39 | the stream-backed writer starts with nothing written and an empty buffer |
| Writer.DataWriter.WriteByte | app/src/main/java/fr/rader/imbob/utils/data/DataWriter.java:41-53 | appends the low 8 bits to the list, or to the buffer, flushing the full 16384-byte buffer to the stream first |
| Writer.DataWriter.Flush | app/src/main/java/fr/rader/imbob/utils/data/DataWriter.java:210-223 | the buffered bytes go to the stream and the buffer is emptied; nothing happens for a list-backed writer; the bytes written so far are unchanged |
| Writer.DataWriter.WriteShort | app/src/main/java/fr/rader/imbob/utils/data/DataWriter.java:55-58 | appends ShortBytes(value) |
| Writer.DataWriter.WriteInt | app/src/main/java/fr/rader/imbob/utils/data/DataWriter.java:60-63 | appends IntBytes(value) |
| Writer.DataWriter.WriteLong | app/src/main/java/fr/rader/imbob/utils/data/DataWriter.java:65-68 | appends LongBytes(value), high int then low int |
| Writer.DataWriter.WriteByteArray | app/src/main/java/fr/rader/imbob/utils/data/DataWriter.java:70-74 | appends the bytes in order |
| Writer.DataWriter.WriteIntArray | app/src/main/java/fr/rader/imbob/utils/data/DataWriter.java:76-80 | appends IntsBytes(values) |
| Writer.DataWriter.WriteLongArray | app/src/main/java/fr/rader/imbob/utils/data/DataWriter.java:82-86 | appends LongsBytes(values) |
| Writer.DataWriter.WriteUnsignedVar | app/src/main/java/fr/rader/imbob/utils/data/DataWriter.java:96-107 | the do-while loop appends exactly Leb(u) |
| Writer.DataWriter.WriteGroup | app/src/main/java/fr/rader/imbob/utils/data/DataWriter.java:98-105 | one iteration writes the next group: the rest of the encoding is the group followed by the encoding of what is left |
| Writer.DataWriter.WriteVarInt | app/src/main/java/fr/rader/imbob/utils/data/DataWriter.java:96-107 | appends VarIntBytes(value) (the 32-bit pattern, `>>>`) |
| Writer.DataWriter.WriteVarLong | app/src/main/java/fr/rader/imbob/utils/data/DataWriter.java:109-120 | appends VarLongBytes(value) (the 64-bit pattern) |
| Writer.DataWriter.WriteString | app/src/main/java/fr/rader/imbob/utils/data/DataWriter.java:122-124 | appends the UTF-8 bytes of the string |
| Writer.DataWriter.WriteUuid | app/src/main/java/fr/rader/imbob/utils/data/DataWriter.java:126-129 | appends the most then the least significant long |
| Writer.DataWriter.WritePosition | app/src/main/java/fr/rader/imbob/utils/data/DataWriter.java:131-145 | appends LongBytes of the position packed for its protocol |
| Writer.LongHalvesBytes | app/src/main/java/fr/rader/imbob/utils/data/DataWriter.java:65-68 | the two writeInt calls of writeLong emit the long's eight big-endian bytes |
| Positions.Position.constructor | app/src/main/java/fr/rader/imbob/types/Position.java:13-18 | the position holds the protocol and coordinates given |
| Positions.Position.SetX | app/src/main/java/fr/rader/imbob/types/Position.java:28-30 | x changes, y and z are kept |
| Positions.Position.SetY | app/src/main/java/fr/rader/imbob/types/Position.java:36-38 | y changes, x and z are kept |
| Positions.Position.SetZ | app/src/main/java/fr/rader/imbob/types/Position.java:44-46 | z changes, x and y are kept |
| Positions.Signed12 | app/src/main/java/fr/rader/imbob/utils/data/DataReader.java:206 | `(v << 52) >> 52`: a value in -2048..2047 congruent to v modulo 2^12 |
| Positions.Signed26 | app/src/main/java/fr/rader/imbob/utils/data/DataReader.java:203 | `(v << 38) >> 38`: a value in -2^25..2^25-1 congruent to v modulo 2^26 |
| Positions.PackedValue | app/src/main/java/fr/rader/imbob/utils/data/DataWriter.java:133-143 | the packed long is x * 2^38 plus the low fields, as a signed long |
| Positions.OldLayoutRoundTrip | app/src/main/java/fr/rader/imbob/utils/data/DataReader.java:200-203 | before 1.14, readPosition gives back every position writePosition packed whose coordinates fit their fields |
| Positions.NewLayoutRoundTrip | app/src/main/java/fr/rader/imbob/utils/data/DataWriter.java:139-143 | corrected: from 1.14 the reading the layout calls for (z at bit 12) gives back every fitting position |
| Positions.NewLayoutLosesZ | app/src/main/java/fr/rader/imbob/utils/data/DataReader.java:204-208 | from 1.14 readPosition as written reads (0, 0, 1) back as (0, 0, 4096) |
| Positions.NewLayoutAsWritten | app/src/main/java/fr/rader/imbob/utils/data/DataReader.java:204-208 | from 1.14 readPosition as written gets x and y right, and its z is the low 14 bits of z followed by the 12 bits of y |
| Positions.LowFieldOfNewLayout | app/src/main/java/fr/rader/imbob/utils/data/DataWriter.java:139-143 | from 1.14 the low 26 bits of the packed long are z's low 14 bits then y's 12 bits |
| Decimal.DigitChar | app/src/main/java/fr/rader/imbob/psl/packets/serialization/PacketDeserializer.java:185 | a digit's character reads back as that digit |
| Decimal.Digits | app/src/main/java/fr/rader/imbob/psl/packets/serialization/PacketDeserializer.java:185 | the decimal digits of a natural number: non-empty, all digits, no leading zero |
| Decimal.DigitsDenote | app/src/main/java/fr/rader/imbob/psl/packets/serialization/PacketDeserializer.java:185 | the digits of n denote n |
| Decimal.ParseInt | app/src/main/java/fr/rader/imbob/psl/packets/serialization/PacketDeserializer.java:185 | Integer.parseInt: NumberFormatException on the empty string and on a first character that is neither a digit nor a sign; a result without a minus sign is not negative |
| Decimal.ParseIntText | app/src/main/java/fr/rader/imbob/psl/packets/serialization/PacketDeserializer.java:185 | parseInt(toString(i)) gives i back for every int, and NumberFormatException for a value outside the int range |
| Strings.IndexOf | app/src/main/java/fr/rader/imbob/utils/StringUtils.java:5-21 | indexOf(string, c, offset): the first position before which exactly `offset` occurrences of c lie, or the length when there is none |
| Strings.IndexOfPastOccurrence | app/src/main/java/fr/rader/imbob/utils/StringUtils.java:5-21 | for a positive offset the position found comes right after an occurrence of c |
| Strings.LeadingSpaces | app/src/main/java/fr/rader/imbob/utils/StringUtils.java:23-33 | leadingSpaces: 0 for null; otherwise the index of the first non-space character, and StringIndexOutOfBoundsException exactly when the string is all spaces |
| Strings.Length | app/src/main/java/fr/rader/imbob/utils/StringUtils.java:35-47 | length: 0 for null; otherwise the number of chars outside 0x80..0xbf |
| Strings.CountLeadingAppend | app/src/main/java/fr/rader/imbob/utils/StringUtils.java:35-47 | the count is additive over concatenation |
| Strings.CountLeadingBounds | app/src/main/java/fr/rader/imbob/utils/StringUtils.java:35-47 | the count never exceeds the string's length and equals it for an ASCII string |
| Strings.HasUpperCaseLetters | app/src/main/java/fr/rader/imbob/utils/StringUtils.java:49-57 | true exactly when some character is an upper-case letter |
| Strings.IsSnakeCase | app/src/main/java/fr/rader/imbob/utils/StringUtils.java:59-69 | true exactly when every character is an underscore, a lower-case letter or a digit |
| Strings.SnakeCaseHasNoUpper | app/src/main/java/fr/rader/imbob/utils/StringUtils.java:49-69 | a snake-case string has no upper-case letter |
| Strings.Lower | app/src/main/java/fr/rader/imbob/utils/StringUtils.java:72 | toLowerCase on ASCII: upper-case letters are lowered, every other character is kept |
| Strings.Contains | app/src/main/java/fr/rader/imbob/utils/StringUtils.java:72 | String.contains: true exactly when the needle occurs at some position |
| Strings.ContainsIgnoreCase | app/src/main/java/fr/rader/imbob/utils/StringUtils.java:71-73 | true exactly when the lowered needle occurs in the lowered source |
| Strings.ContainsIgnoreCaseLaws | app/src/main/java/fr/rader/imbob/utils/StringUtils.java:71-73 | the empty string is found in everything; a string is found in any string that lowers to the same text |
| Maths.Clamp | app/src/main/java/fr/rader/imbob/utils/MathUtils.java:5-15 | clamp gives the value, min or max; within [min, max] whenever min <= max |
| Maths.ClampLaws | app/src/main/java/fr/rader/imbob/utils/MathUtils.java:5-15 | a value in range is kept, above max gives max (compared first), below min gives min, and clamping twice is clamping once |
| Lists.ToByteArray | app/src/main/java/fr/rader/imbob/utils/data/ListUtils.java:7-15 | toByteArray: a fresh array holding the list's bytes in order |
| Platform.Slashes | app/src/main/java/fr/rader/imbob/utils/OS.java:12 | replace("\\", "/"): no backslash remains and every other character is kept |
| Platform.FolderLaws | app/src/main/java/fr/rader/imbob/utils/OS.java:11-17 | the ImBob folder is the home path plus "/.imbob/" for a path without backslashes, has no backslash, and contains the assets folder as a prefix |
| Platform.PlatformOf | app/src/main/java/fr/rader/imbob/utils/OS.java:31-48 | "Windows" first, then the four Unix prefixes, then the two Mac prefixes; any other os.name is IllegalStateException |
| Platform.ExactlyOnePlatform | app/src/main/java/fr/rader/imbob/utils/OS.java:19-48 | exactly one of isWindows, isLinux, isMacOS holds, and the platform is unknown exactly when no prefix matches |
| Entries.GetAs | app/src/main/java/fr/rader/imbob/psl/packets/serialization/entries/PacketEntry.java:15-17 | getAs(clazz): the entry itself exactly when it is an instance of the class, ClassCastException otherwise |
| Entries.SetValue | app/src/main/java/fr/rader/imbob/psl/packets/serialization/entries/VariableEntry.java:24-26 | setValue replaces the value and keeps the name |
| Entries.GetValueAsWritten | app/src/main/java/fr/rader/imbob/psl/packets/serialization/entries/VariableEntry.java:20-22 | `clazz.cast(this)` succeeds exactly for Object, PacketEntry and VariableEntry, and then gives the entry, not its value; ClassCastException otherwise |
| Entries.GetValueAs | app/src/main/java/fr/rader/imbob/psl/packets/serialization/entries/VariableEntry.java:20-22 | the cast the callers rely on: the value, exactly when it is null or an instance of the class; ClassCastException otherwise |
| Entries.ValueAsCastsTheEntry | app/src/main/java/fr/rader/imbob/psl/packets/serialization/entries/VariableEntry.java:20-22 | for every value class but Object, the as-written cast of an entry holding a value of that class throws, while the corrected cast returns the value |
| Entries.VarIntActionNotReadable | app/src/main/java/fr/rader/imbob/tasks/impl/UsernameChangerTask.java:37-40 | getValueAs(VarInt.class) on the action entry throws as written and gives the VarInt when corrected |
| Entries.GetByName | app/src/main/java/fr/rader/imbob/psl/packets/serialization/utils/EntryList.java:19-27 | EntryList.get(name): null exactly when every entry is named otherwise; otherwise the first entry with the name, every earlier one named otherwise; NullPointerException exactly when an unnamed entry comes first |
| Entries.GetFrom | app/src/main/java/fr/rader/imbob/psl/packets/serialization/utils/EntryList.java:20-24 | the lookup loop from position k, every entry before k having been passed, agrees with the whole search |
| Entries.IndexByName | app/src/main/java/fr/rader/imbob/psl/packets/serialization/utils/EntryList.java:19-27 | the position of the entry get(name) returns, failing and missing exactly when get does |
| Entries.ReplaceFound | app/src/main/java/fr/rader/imbob/psl/packets/serialization/utils/EntryList.java:19-27 | replacing the found entry by another of the same name: get finds the new entry at the same position |
| Entries.IndexFromAt | app/src/main/java/fr/rader/imbob/psl/packets/serialization/utils/EntryList.java:20-24 | the search stops at the first entry with the name when every entry before it is passed |
| Entries.GetByNameIsFirst | app/src/main/java/fr/rader/imbob/psl/packets/serialization/utils/EntryList.java:19-27 | when every entry is named, get(name) is the plain first-match search |
| Entries.NewArrayEntry | app/src/main/java/fr/rader/imbob/psl/packets/serialization/entries/ArrayEntry.java:13-17 | a new array entry has the name and no index |
| Entries.SlotOfMeans | app/src/main/java/fr/rader/imbob/psl/packets/serialization/entries/ArrayEntry.java:61-63 | the LinkedHashMap lookup: nothing exactly when no slot holds the index, otherwise the entries of a slot holding it |
| Entries.SlotOfAt | app/src/main/java/fr/rader/imbob/psl/packets/serialization/entries/ArrayEntry.java:61-63 | with distinct keys the slot holding an index is the answer |
| Entries.SetSlot | app/src/main/java/fr/rader/imbob/psl/packets/serialization/entries/ArrayEntry.java:61-63 | an edit through the list get(index) returned keeps every key in place |
| Entries.SetSlotGet | app/src/main/java/fr/rader/imbob/psl/packets/serialization/entries/ArrayEntry.java:61-63 | after that edit get(index) gives the new entries and every other index its old ones |
| Entries.ArraySet | app/src/main/java/fr/rader/imbob/psl/packets/serialization/entries/ArrayEntry.java:71-73 | put(index, entries): a new key is appended after the others, an existing key keeps its place and takes the new entries; keys stay distinct |
| Entries.ArraySetGet | app/src/main/java/fr/rader/imbob/psl/packets/serialization/entries/ArrayEntry.java:71-81 | after set, get(index) gives the entries, and size grows by one exactly when the index was new |
| Entries.ArraySetKeepsOthers | app/src/main/java/fr/rader/imbob/psl/packets/serialization/entries/ArrayEntry.java:71-73 | set leaves every other index's entries as they were |
| Entries.ArrayAdd | app/src/main/java/fr/rader/imbob/psl/packets/serialization/entries/ArrayEntry.java:75-77 | add(entries) is set(size(), entries): get(size()) then gives the entries, and a fresh key grows the size by one |
| Entries.Counted | app/src/main/java/fr/rader/imbob/psl/packets/serialization/entries/ArrayEntry.java:75-77 | one slot per list added |
| Entries.AddsFromEmpty | app/src/main/java/fr/rader/imbob/psl/packets/serialization/entries/ArrayEntry.java:75-86 | adding lists one by one to a new array maps 0..n-1 to them in order, which is the order iteration yields them |
| Entries.AddAll | app/src/main/java/fr/rader/imbob/psl/packets/serialization/entries/ArrayEntry.java:75-77 | repeated add keeps the keys distinct |
| Entries.AddsFrom | app/src/main/java/fr/rader/imbob/psl/packets/serialization/entries/ArrayEntry.java:75-77 | adding to an array keyed 0..n-1 continues the count |
| Entries.AddAppends | app/src/main/java/fr/rader/imbob/psl/packets/serialization/entries/ArrayEntry.java:75-77 | on an array keyed 0..n-1, add appends the slot n |
| Entries.NewSimpleArrayEntry | app/src/main/java/fr/rader/imbob/psl/packets/serialization/entries/SimpleArrayEntry.java:11-15 | a new simple array has the name and no variable |
| Entries.AddVariable | app/src/main/java/fr/rader/imbob/psl/packets/serialization/entries/SimpleArrayEntry.java:21-23 | addVariable appends the variable and keeps the others |
| Entries.SetVariable | app/src/main/java/fr/rader/imbob/psl/packets/serialization/entries/SimpleArrayEntry.java:25-30 | setVariable(index, value) inserts an unnamed variable holding the value before position index, shifting the rest; IndexOutOfBoundsException exactly when index is outside 0..size |
| Entries.GetVariable | app/src/main/java/fr/rader/imbob/psl/packets/serialization/entries/SimpleArrayEntry.java:32-34 | getVariable(index): the variable at index, IndexOutOfBoundsException exactly outside the list |
| Entries.SetAtEndAppends | app/src/main/java/fr/rader/imbob/psl/packets/serialization/PacketDeserializer.java:129-137 | the deserializer's setVariable(i, value) with i the current size appends, and getVariable(i) reads the value back |
| Entries.NewMatchEntry | app/src/main/java/fr/rader/imbob/psl/packets/serialization/entries/MatchEntry.java:12-16 | a new match entry has no name, no entries and value 0 |
| Entries.SetEntries | app/src/main/java/fr/rader/imbob/psl/packets/serialization/entries/MatchEntry.java:22-24 | setEntries replaces the list and keeps the value |
| Entries.SetMatchValue | app/src/main/java/fr/rader/imbob/psl/packets/serialization/entries/MatchEntry.java:30-32 | setValue replaces the value and keeps the list |
| Entries.GetEntry | app/src/main/java/fr/rader/imbob/psl/packets/serialization/entries/MatchEntry.java:34-42 | getEntry(name) finds only an entry of the branch with that name |
| Entries.MatchSettersGetters | app/src/main/java/fr/rader/imbob/psl/packets/serialization/entries/MatchEntry.java:18-42 | the getters give back what the setters stored last, and getEntry is the same search as EntryList.get |
| Entries.EntryList.constructor | app/src/main/java/fr/rader/imbob/psl/packets/serialization/utils/EntryList.java:9-11 | the list holds the entries given (a new list: none) |
| Entries.EntryList.Add | app/src/main/java/fr/rader/imbob/psl/packets/serialization/utils/EntryList.java:7 | LinkedList.add appends |
| Entries.EntryList.Set | app/src/main/java/fr/rader/imbob/tasks/impl/UsernameChangerTask.java:53-57 | an entry changed in place through the reference get returned: the list holds its new state at that position, the rest unchanged |
| Rules.GetAs | app/src/main/java/fr/rader/imbob/psl/packets/definition/rules/Rule.java:18-20 | Rule.getAs: the rule itself exactly when it is an instance of the class, ClassCastException otherwise |
| Rules.OneSubclass | app/src/main/java/fr/rader/imbob/psl/packets/definition/rules/Rule.java:18-20 | a rule casts to at most one of the rule subclasses, and always to Rule |
| Rules.BranchIndex | app/src/main/java/fr/rader/imbob/psl/packets/serialization/PacketDeserializer.java:101-104 | the branch a match takes for a value: the first branch with that value; an error exactly when no branch has it |
| Rules.RuleList.constructor | app/src/main/java/fr/rader/imbob/psl/packets/definition/PacketDefinition.java:23 | the list holds the rules given |
| Rules.PacketDefinition.constructor | app/src/main/java/fr/rader/imbob/psl/packets/definition/PacketDefinition.java:23-35 | the packet name is the first rule's name, that rule is removed from the caller's list in place and the definition keeps the same list, the id and the protocol |
| Rules.PacketDefinition.Create | app/src/main/java/fr/rader/imbob/psl/packets/definition/PacketDefinition.java:23-35 | the same, with `rules.get(0)` on an empty list failing with IndexOutOfBoundsException and leaving the list unchanged |
| Tokens.ParseToken | app/src/main/java/fr/rader/imbob/utils/data/DataReader.java:213-268 | readFromTokenType: an unknown type is an error; otherwise a value of the type's class (a boolean as the Integer 1 or 0, a byte in 0..255, a short in 0..65535) that consumes at least one byte |
| Tokens.ParseText | app/src/main/java/fr/rader/imbob/utils/data/DataReader.java:231-233 | CHAT and STRING: a varint length, then that many bytes as a string |
| Tokens.ParsePosition | app/src/main/java/fr/rader/imbob/utils/data/DataReader.java:260-261 | POSITION: readPosition as written, the protocol's own layout before 1.14 and z from the low 26 bits from 1.14 |
| Tokens.ParseUuid | app/src/main/java/fr/rader/imbob/utils/data/DataReader.java:188-191 | readUUID: succeeds exactly when 16 bytes remain, and gives the two big-endian longs they hold |
| Tokens.UuidOf | app/src/main/java/fr/rader/imbob/utils/data/DataReader.java:188-191 | the UUID's most and least significant halves are the longs read from the first and last 8 bytes |
| Tokens.TokenBytes | app/src/main/java/fr/rader/imbob/utils/data/DataWriter.java:147-208 | writeFromTokenType: the bytes written for a value of the type's class; fails exactly on a value of the wrong class (ClassCastException); a null compound is the single zero byte (corrected); an unknown type writes nothing |
| Tokens.ReadToken | app/src/main/java/fr/rader/imbob/utils/data/DataReader.java:213-268 | the reader's readFromTokenType returns the value ParseToken gives at its position and moves past it, or fails as it does |
| Tokens.ReadNumberToken | app/src/main/java/fr/rader/imbob/utils/data/DataReader.java:215-229 | the same for BOOLEAN, BYTE, ANGLE, SHORT, INT and LONG |
| Tokens.ReadRawToken | app/src/main/java/fr/rader/imbob/utils/data/DataReader.java:235-245 | the same for FLOAT, DOUBLE, VARINT and VARLONG |
| Tokens.ReadText | app/src/main/java/fr/rader/imbob/utils/data/DataReader.java:231-233 | the same for CHAT and STRING |
| Tokens.ReadNbtValue | app/src/main/java/fr/rader/imbob/utils/data/DataReader.java:179-186 | the same for NBT: a zero first byte reads as null |
| Tokens.ReadPositionValue | app/src/main/java/fr/rader/imbob/utils/data/DataReader.java:260-261 | the same for POSITION, through readPosition as written (ParsePosition) |
| Tokens.ReadUuid | app/src/main/java/fr/rader/imbob/utils/data/DataReader.java:188-191 | the same for UUID |
| Tokens.WriteToken | app/src/main/java/fr/rader/imbob/utils/data/DataWriter.java:147-208 | the writer's writeFromTokenType appends exactly TokenBytes, and on an error appends nothing and reports it |
| Tokens.WriteNumberToken | app/src/main/java/fr/rader/imbob/utils/data/DataWriter.java:149-165 | the same for BOOLEAN, BYTE, ANGLE, SHORT, INT and LONG |
| Tokens.WriteRawToken | app/src/main/java/fr/rader/imbob/utils/data/DataWriter.java:175-189 | the same for FLOAT, DOUBLE, VARINT and VARLONG |
| Tokens.WriteText | app/src/main/java/fr/rader/imbob/utils/data/DataWriter.java:167-173 | a string is written as its Java length as a varint followed by its bytes |
| Tokens.TokenRoundTrip | app/src/main/java/fr/rader/imbob/utils/data/DataWriter.java:147-208 | reading back what writeFromTokenType wrote for a readable value of any known type gives the value and ends right after the bytes; for POSITION only before 1.14, since from 1.14 readPosition as written does not recover z (Tokens.NewLayoutTokenLosesZ) |
| Tokens.BooleanCase | app/src/main/java/fr/rader/imbob/utils/data/DataWriter.java:149-153 | the round trip for BOOLEAN |
| Tokens.ByteCase | app/src/main/java/fr/rader/imbob/utils/data/DataWriter.java:149-153 | the round trip for BYTE |
| Tokens.AngleCase | app/src/main/java/fr/rader/imbob/utils/data/DataWriter.java:149-153 | the round trip for ANGLE |
| Tokens.ShortCase | app/src/main/java/fr/rader/imbob/utils/data/DataWriter.java:155-157 | the round trip for SHORT |
| Tokens.IntCase | app/src/main/java/fr/rader/imbob/utils/data/DataWriter.java:159-161 | the round trip for INT |
| Tokens.LongCase | app/src/main/java/fr/rader/imbob/utils/data/DataWriter.java:163-165 | the round trip for LONG |
| Tokens.FloatCase | app/src/main/java/fr/rader/imbob/utils/data/DataWriter.java:175-177 | the round trip for FLOAT |
| Tokens.DoubleCase | app/src/main/java/fr/rader/imbob/utils/data/DataWriter.java:179-181 | the round trip for DOUBLE |
| Tokens.VarIntCase | app/src/main/java/fr/rader/imbob/utils/data/DataWriter.java:183-185 | the round trip for VARINT |
| Tokens.VarLongCase | app/src/main/java/fr/rader/imbob/utils/data/DataWriter.java:187-189 | the round trip for VARLONG |
| Tokens.ChatCase | app/src/main/java/fr/rader/imbob/utils/data/DataWriter.java:167-173 | the round trip for CHAT |
| Tokens.StringCase | app/src/main/java/fr/rader/imbob/utils/data/DataWriter.java:167-173 | the round trip for STRING |
| Tokens.NbtCase | app/src/main/java/fr/rader/imbob/utils/data/DataWriter.java:191-195 | the round trip for NBT |
| Tokens.PositionCase | app/src/main/java/fr/rader/imbob/utils/data/DataWriter.java:197-199 | the round trip for POSITION, for protocols before 1.14 |
| Tokens.UuidCase | app/src/main/java/fr/rader/imbob/utils/data/DataWriter.java:201-203 | the round trip for UUID |
| Tokens.ByteTokenRoundTrip | app/src/main/java/fr/rader/imbob/utils/data/DataReader.java:215-220 | a byte 0..255 (0 or 1 for a boolean) reads back as that Integer |
| Tokens.ShortToken | app/src/main/java/fr/rader/imbob/utils/data/DataReader.java:222-223 | SHORT reads what readShort reads |
| Tokens.IntToken | app/src/main/java/fr/rader/imbob/utils/data/DataReader.java:225-226 | INT reads what readInt reads |
| Tokens.LongToken | app/src/main/java/fr/rader/imbob/utils/data/DataReader.java:228-229 | LONG reads what readLong reads |
| Tokens.FloatToken | app/src/main/java/fr/rader/imbob/utils/data/DataReader.java:235-236 | FLOAT reads the next 4 bytes |
| Tokens.DoubleToken | app/src/main/java/fr/rader/imbob/utils/data/DataReader.java:238-239 | DOUBLE reads the next 8 bytes |
| Tokens.VarIntToken | app/src/main/java/fr/rader/imbob/utils/data/DataReader.java:241-242 | VARINT reads what readVarInt reads |
| Tokens.VarLongToken | app/src/main/java/fr/rader/imbob/utils/data/DataReader.java:244-245 | VARLONG reads what readVarLong reads |
| Tokens.TextToken | app/src/main/java/fr/rader/imbob/utils/data/DataReader.java:231-233 | CHAT and STRING read alike |
| Tokens.PositionToken | app/src/main/java/fr/rader/imbob/utils/data/DataReader.java:260-261 | POSITION reads what readPosition reads |
| Tokens.UuidToken | app/src/main/java/fr/rader/imbob/utils/data/DataReader.java:263-264 | UUID reads what readUUID reads |
| Tokens.TextRoundTrip | app/src/main/java/fr/rader/imbob/utils/data/DataWriter.java:167-173 | an ASCII string written as length and bytes reads back as the same string |
| Tokens.AsciiLengths | app/src/main/java/fr/rader/imbob/utils/data/DataWriter.java:171 | for ASCII text the Java length, the character count and the byte count agree, and the bytes decode back to the text |
| Tokens.TextStep | app/src/main/java/fr/rader/imbob/utils/data/DataReader.java:233 | readString(readVarInt().getValue()) is the varint followed by the string |
| Tokens.PositionRoundTrip | app/src/main/java/fr/rader/imbob/utils/data/DataReader.java:193-211 | before 1.14, a position packed by writePosition reads back as itself when its coordinates fit their fields |
| Tokens.NewLayoutPositionRead | app/src/main/java/fr/rader/imbob/utils/data/DataReader.java:204-208 | from 1.14 the reader as written gives back x and y of a fitting position, and its z is z's low 14 bits followed by y's 12 bits |
| Tokens.NewLayoutTokenLosesZ | app/src/main/java/fr/rader/imbob/utils/data/DataReader.java:204-208 | from 1.14 the POSITION token (0, 0, 1) is written as the long 4096 and read back as (0, 0, 4096) |
| Tokens.UuidRoundTrip | app/src/main/java/fr/rader/imbob/utils/data/DataReader.java:188-191 | two longs written one after the other read back as the UUID |
| Tokens.TokenBytesAsWritten | app/src/main/java/fr/rader/imbob/utils/data/DataWriter.java:191-195 | writeFromTokenType as written: fails on a null compound (NullPointerException) as well as on a value of the wrong class, and otherwise writes what TokenBytes writes |
| Tokens.ReadValuesWritableAsWritten | app/src/main/java/fr/rader/imbob/utils/data/DataWriter.java:191-195 | as written, every value readFromTokenType returns can be written back except the null compound |
| Tokens.AbsentCompoundNotWritable | app/src/main/java/fr/rader/imbob/utils/data/DataWriter.java:191-195 | as written, a compound read as null (a zero byte) cannot be written back: `compound.write` throws NullPointerException, where the corrected writer writes the zero byte |
| Tokens.WritesWhatWasRead | app/src/main/java/fr/rader/imbob/utils/data/DataWriter.java:147-208 | with the correction every value read can be written |
| Tokens.AbsentCompoundRoundTrip | app/src/main/java/fr/rader/imbob/utils/data/DataReader.java:179-183 | the zero byte written for a null compound reads back as null |
| Deserialization.FindFromMeans | app/src/main/java/fr/rader/imbob/psl/packets/serialization/PacketDeserializer.java:159-167 | getVariableValue's search over the scopes, outermost first: nothing exactly when every scope misses the name, otherwise the answer of the first scope that does not miss it |
| Deserialization.IntOf | app/src/main/java/fr/rader/imbob/psl/packets/serialization/PacketDeserializer.java:178-186 | a VarInt gives its value; any other value goes through Integer.parseInt of its text: an Integer gives itself, a Long only within the int range, a string its decimal parse; NumberFormatException otherwise |
| Deserialization.Lookup | app/src/main/java/fr/rader/imbob/psl/packets/serialization/PacketDeserializer.java:169-189 | getValueFromVariable as intended: an undefined (or null) variable is an IllegalStateException, a lookup error is passed on, and a defined variable gives IntOf of its value |
| Deserialization.LookupAsWrittenNeverSucceeds | app/src/main/java/fr/rader/imbob/psl/packets/serialization/PacketDeserializer.java:159-189 | as written, getVariableValue casts the entry rather than its value, so toString is the entry's text and parseInt fails: every lookup of a defined variable is a NumberFormatException, and no lookup succeeds |
| Deserialization.CountLookupExample | app/src/main/java/fr/rader/imbob/psl/packets/serialization/PacketDeserializer.java:169-189 | a VarInt length variable of 2: the as-written lookup throws, the corrected one gives 2 |
| Deserialization.Declare | app/src/main/java/fr/rader/imbob/psl/packets/serialization/PacketDeserializer.java:96-98 | a variable read is declared in the innermost scope only, after the variables already there |
| Deserialization.DecodeBlock | app/src/main/java/fr/rader/imbob/psl/packets/serialization/PacketDeserializer.java:39-87 | deserializeCodeBlockFromRules: a fresh scope is pushed for the block and popped at its end; the block never moves the reader backwards |
| Deserialization.DecodeRules | app/src/main/java/fr/rader/imbob/psl/packets/serialization/PacketDeserializer.java:45-80 | the rules of a block are decoded in order, each one's entries appended after the earlier ones |
| Deserialization.DecodeRule | app/src/main/java/fr/rader/imbob/psl/packets/serialization/PacketDeserializer.java:89-99 | a variable rule reads exactly one token of its type, giving one named entry that is also declared; every other rule declares nothing |
| Deserialization.DecodeMatch | app/src/main/java/fr/rader/imbob/psl/packets/serialization/PacketDeserializer.java:101-107 | a match looks up its variable and decodes the first branch with that value, its entries spliced into the enclosing block |
| Deserialization.DecodeArray | app/src/main/java/fr/rader/imbob/psl/packets/serialization/PacketDeserializer.java:109-123 | an array looks up its length n and decodes the body n times (none when n <= 0), into one array entry named after the rule with indices 0..n-1 |
| Deserialization.DecodeElements | app/src/main/java/fr/rader/imbob/psl/packets/serialization/PacketDeserializer.java:113-120 | the elements i..n-1, each keyed by its index |
| Deserialization.DecodeSimpleArray | app/src/main/java/fr/rader/imbob/psl/packets/serialization/PacketDeserializer.java:125-140 | a simple array looks up its length n and reads n values of its element type into one entry named after the rule |
| Deserialization.DecodeValues | app/src/main/java/fr/rader/imbob/psl/packets/serialization/PacketDeserializer.java:129-137 | k unnamed values, each of the element type's class |
| Deserialization.DecodeCondition | app/src/main/java/fr/rader/imbob/psl/packets/serialization/PacketDeserializer.java:142-150 | a condition looks up its variable; a failing lookup is the error, a branch not taken adds nothing and reads nothing, a branch taken decodes its block and splices the entries in |
| Deserialization.PacketDeserializer.constructor | app/src/main/java/fr/rader/imbob/psl/packets/serialization/PacketDeserializer.java:25-27 | a new deserializer has an empty stack, no protocol and no reader |
| Deserialization.PacketDeserializer.SetDataReader | app/src/main/java/fr/rader/imbob/psl/packets/serialization/PacketDeserializer.java:191-193 | setDataReader sets the reader and nothing else |
| Deserialization.PacketDeserializer.Deserialize | app/src/main/java/fr/rader/imbob/psl/packets/serialization/PacketDeserializer.java:29-37 | deserialize takes the definition's protocol, decodes its rules from the reader's position and gives the packet a fresh entry list holding exactly the decoded entries and the definition's name; on an error the packet is left without entries and the error is returned |
| Deserialization.PacketDeserializer.DeserializeBlock | app/src/main/java/fr/rader/imbob/psl/packets/serialization/PacketDeserializer.java:39-87 | the method pushes and pops a scope and ends where DecodeBlock says, with the same entries or the same error |
| Deserialization.PacketDeserializer.DeserializeRule | app/src/main/java/fr/rader/imbob/psl/packets/serialization/PacketDeserializer.java:45-80 | dispatch on the rule's class: the reader, the result and the declared variables follow DecodeRule |
| Deserialization.PacketDeserializer.DeserializeVariable | app/src/main/java/fr/rader/imbob/psl/packets/serialization/PacketDeserializer.java:89-99 | the same for a variable rule |
| Deserialization.PacketDeserializer.DeserializeMatch | app/src/main/java/fr/rader/imbob/psl/packets/serialization/PacketDeserializer.java:101-107 | the same for a match rule |
| Deserialization.PacketDeserializer.DeserializeArray | app/src/main/java/fr/rader/imbob/psl/packets/serialization/PacketDeserializer.java:109-123 | the same for an array rule |
| Deserialization.PacketDeserializer.DeserializeSimpleArray | app/src/main/java/fr/rader/imbob/psl/packets/serialization/PacketDeserializer.java:125-140 | the same for a simple array rule |
| Deserialization.PacketDeserializer.ReadSimpleArray | app/src/main/java/fr/rader/imbob/psl/packets/serialization/PacketDeserializer.java:128-137 | the setVariable loop reads exactly the values DecodeValues gives |
| Deserialization.PacketDeserializer.SetNextValue | app/src/main/java/fr/rader/imbob/psl/packets/serialization/PacketDeserializer.java:130-136 | one iteration of that loop: setVariable(i, value) with the next value read |
| Deserialization.PacketDeserializer.DeserializeCondition | app/src/main/java/fr/rader/imbob/psl/packets/serialization/PacketDeserializer.java:142-150 | the same for a condition rule |
| Deserialization.PacketDeserializer.GetVariableValue | app/src/main/java/fr/rader/imbob/psl/packets/serialization/PacketDeserializer.java:159-167 | the loop over the stack gives the value of the first scope that has the name |
| Deserialization.PacketDeserializer.GetValueFromVariable | app/src/main/java/fr/rader/imbob/psl/packets/serialization/PacketDeserializer.java:169-189 | the method gives the corrected Lookup over the current stack |
| Deserialization.ElementsGlueStep | app/src/main/java/fr/rader/imbob/psl/packets/serialization/PacketDeserializer.java:113-120 | one iteration of the array loop: reading block i and then the rest is reading the rest from i |
| Deserialization.SimpleArrayOfValues | app/src/main/java/fr/rader/imbob/psl/packets/serialization/PacketDeserializer.java:125-140 | a simple array is the entry of the values DecodeValues reads |
| Deserialization.ValuesLoopStep | app/src/main/java/fr/rader/imbob/psl/packets/serialization/PacketDeserializer.java:129-137 | one iteration of the simple array loop keeps the values read so far a prefix of the whole |
| Deserialization.ValuesGlueErr | app/src/main/java/fr/rader/imbob/psl/packets/serialization/PacketDeserializer.java:130-136 | a failing read fails the whole loop |
| Deserialization.ValuesGlueStep | app/src/main/java/fr/rader/imbob/psl/packets/serialization/PacketDeserializer.java:130-136 | a value read is appended and the loop goes on from after it |
| Serialization.EncodeBlock | app/src/main/java/fr/rader/imbob/psl/packets/serialization/PacketSerializer.java:43-125 | serializeBlock: rule i is written with entry i; it fails when there are fewer entries than rules, and entries beyond the rules are never looked at |
| Serialization.EncodeEntry | app/src/main/java/fr/rader/imbob/psl/packets/serialization/PacketSerializer.java:52-123 | a condition entry without entries writes nothing; otherwise an entry whose rule is of another kind is a ClassCastException; a variable entry writes its value with the rule's type; a match entry writes the branch for the value it stores |
| Serialization.IndexBytes | app/src/main/java/fr/rader/imbob/psl/packets/serialization/PacketSerializer.java:69-76 | getEntriesForIndex(i) of an index the array lacks is null, which fails unless the element rules are empty |
| Serialization.EncodeValues | app/src/main/java/fr/rader/imbob/psl/packets/serialization/PacketSerializer.java:86-92 | a simple array writes each variable with the element type and fails exactly when one of them cannot be written |
| Serialization.EncodePacket | app/src/main/java/fr/rader/imbob/psl/packets/serialization/PacketSerializer.java:31-35 | serialize writes the definition's rules against the packet's entries; a packet without entries fails unless there are no rules |
| Serialization.ExtraEntriesIgnored | app/src/main/java/fr/rader/imbob/psl/packets/serialization/PacketSerializer.java:45-48 | entries past the last rule do not change what is written |
| Serialization.ElementsInIndexOrder | app/src/main/java/fr/rader/imbob/psl/packets/serialization/PacketSerializer.java:69-76 | for an array keyed 0..n-1, writing by index is writing the slots in order |
| Serialization.ElementsFrom | app/src/main/java/fr/rader/imbob/psl/packets/serialization/PacketSerializer.java:69-76 | the same from any index i |
| Serialization.FitsEncodes | app/src/main/java/fr/rader/imbob/psl/packets/serialization/PacketSerializer.java:43-125 | entries laid out as their rules describe can always be written |
| Serialization.FitsOneEncodes | app/src/main/java/fr/rader/imbob/psl/packets/serialization/PacketSerializer.java:52-123 | the same for one rule and its entry |
| Serialization.ArrayEncodes | app/src/main/java/fr/rader/imbob/psl/packets/serialization/PacketSerializer.java:61-77 | the same for an array entry |
| Serialization.ValuesEncode | app/src/main/java/fr/rader/imbob/psl/packets/serialization/PacketSerializer.java:81-93 | readable values of the element type can always be written |
| Serialization.SlotsEncode | app/src/main/java/fr/rader/imbob/psl/packets/serialization/PacketSerializer.java:69-76 | slots whose blocks can be written can be written in order |
| Serialization.BlockReads | app/src/main/java/fr/rader/imbob/psl/packets/serialization/PacketSerializer.java:43-125 | the round trip: entries that fit their rules, written by serializeBlock and read back by deserializeCodeBlockFromRules from the same bytes, give the same entries and end right after the bytes; a POSITION field counts as fitting only before 1.14, since from 1.14 readPosition as written does not recover z (Tokens.NewLayoutTokenLosesZ) |
| Serialization.RulesRead | app/src/main/java/fr/rader/imbob/psl/packets/serialization/PacketSerializer.java:45-124 | the same round trip for the rules of a block in order; a POSITION field counts as fitting only before 1.14, since from 1.14 readPosition as written does not recover z (Tokens.NewLayoutTokenLosesZ) |
| Serialization.RuleReads | app/src/main/java/fr/rader/imbob/psl/packets/serialization/PacketSerializer.java:52-123 | the same round trip for one rule; a POSITION field counts as fitting only before 1.14, since from 1.14 readPosition as written does not recover z (Tokens.NewLayoutTokenLosesZ) |
| Serialization.SimpleArrayReads | app/src/main/java/fr/rader/imbob/psl/packets/serialization/PacketSerializer.java:81-93 | the same round trip for a simple array; a POSITION field counts as fitting only before 1.14, since from 1.14 readPosition as written does not recover z (Tokens.NewLayoutTokenLosesZ) |
| Serialization.ArrayReads | app/src/main/java/fr/rader/imbob/psl/packets/serialization/PacketSerializer.java:61-77 | the same round trip for an array; a POSITION field counts as fitting only before 1.14, since from 1.14 readPosition as written does not recover z (Tokens.NewLayoutTokenLosesZ) |
| Serialization.ElementsRead | app/src/main/java/fr/rader/imbob/psl/packets/serialization/PacketSerializer.java:69-76 | the same round trip for the elements of an array from index i; a POSITION field counts as fitting only before 1.14, since from 1.14 readPosition as written does not recover z (Tokens.NewLayoutTokenLosesZ) |
| Serialization.ValuesRead | app/src/main/java/fr/rader/imbob/psl/packets/serialization/PacketSerializer.java:86-92 | the same round trip for the values of a simple array; a POSITION field counts as fitting only before 1.14, since from 1.14 readPosition as written does not recover z (Tokens.NewLayoutTokenLosesZ) |
| Serialization.MatchSpliceBreaksRoundTrip | app/src/main/java/fr/rader/imbob/psl/packets/serialization/PacketSerializer.java:114-123 | a match's entries are spliced into the enclosing block when read, while serializeBlock expects one MatchEntry in the match rule's place: a block holding a byte k = 1 and a match on k with one byte field, read from [1, 7], gives two variable entries that cannot be written back (ClassCastException) |
| Serialization.PacketSerializer.constructor | app/src/main/java/fr/rader/imbob/psl/packets/serialization/PacketSerializer.java:20-22 | a new serializer writes into a fresh empty buffer with no protocol |
| Serialization.PacketSerializer.Data | app/src/main/java/fr/rader/imbob/psl/packets/serialization/PacketSerializer.java:145-147 | getData is the bytes written so far |
| Serialization.PacketSerializer.Serialize | app/src/main/java/fr/rader/imbob/psl/packets/serialization/PacketSerializer.java:31-35 | serialize clears the buffer, takes the packet's protocol and leaves exactly EncodePacket's bytes, or reports its error |
| Serialization.PacketSerializer.SerializeBlock | app/src/main/java/fr/rader/imbob/psl/packets/serialization/PacketSerializer.java:43-125 | the loop appends exactly EncodeBlock's bytes, or stops with its error |
| Serialization.PacketSerializer.SerializeEntry | app/src/main/java/fr/rader/imbob/psl/packets/serialization/PacketSerializer.java:52-123 | one entry appends exactly EncodeEntry's bytes, or stops with its error |
| Serialization.PacketSerializer.SerializeArray | app/src/main/java/fr/rader/imbob/psl/packets/serialization/PacketSerializer.java:69-76 | the element loop appends every element block in index order, or stops with the first error |
| Serialization.PacketSerializer.SerializeValues | app/src/main/java/fr/rader/imbob/psl/packets/serialization/PacketSerializer.java:86-92 | the variable loop appends every value's bytes in order, or stops with the first error |
| NbtFormat.SignedByte | app/src/main/java/fr/rader/imbob/types/nbt/TagList.java:26 | `(byte) reader.readByte()`: the signed byte congruent to the byte read |
| NbtFormat.TagId | app/src/main/java/fr/rader/imbob/types/nbt/TagCompound.java:60-96 | every tag class has a TAG_ID between 1 and 12 (TagDouble 6, TagString 8, TagList 9, TagCompound 10) |
| NbtFormat.NameBytes | app/src/main/java/fr/rader/imbob/types/nbt/TagString.java:34-39 | a name or string is written as a two-byte length and then its bytes |
| NbtFormat.Header | app/src/main/java/fr/rader/imbob/types/nbt/TagCompound.java:104-111 | an unnamed tag writes no header; a named tag starts with its id, followed by its name unless it is a root compound |
| NbtFormat.Encode | app/src/main/java/fr/rader/imbob/types/nbt/TagCompound.java:104-118 | write emits the header and then the payload; an unnamed tag (a list element) writes its payload only |
| NbtFormat.ParsePayload | app/src/main/java/fr/rader/imbob/types/nbt/TagCompound.java:60-99 | the switch on the tag id: the tag read has that id and the name given and consumes at least one byte; an unknown id is an IllegalStateException |
| NbtFormat.ParseFixed | app/src/main/java/fr/rader/imbob/types/nbt/TagCompound.java:61-78 | byte, short, int, long, float and double payloads |
| NbtFormat.ParseArray | app/src/main/java/fr/rader/imbob/types/nbt/TagCompound.java:79-96 | byte, int and long arrays: an int count and that many elements |
| NbtFormat.ParseText | app/src/main/java/fr/rader/imbob/types/nbt/TagCompound.java:82-84 | a string payload: a short length and that many chars |
| NbtFormat.ParseList | app/src/main/java/fr/rader/imbob/types/nbt/TagList.java:25-29 | the list's reading constructor: the child id as a signed byte, then the children |
| NbtFormat.ParseCompound | app/src/main/java/fr/rader/imbob/types/nbt/TagCompound.java:88-90 | a nested compound is read by the non-root constructor |
| NbtFormat.ParseListItems | app/src/main/java/fr/rader/imbob/types/nbt/TagList.java:50-94 | readList reads exactly count unnamed children, each with the list's child id |
| NbtFormat.ParseCompoundItems | app/src/main/java/fr/rader/imbob/types/nbt/TagCompound.java:51-101 | readCompound reads named children up to the terminating 0 |
| NbtFormat.ParseChild | app/src/main/java/fr/rader/imbob/types/nbt/TagCompound.java:53-58 | one turn of that loop: the id, 0 ending the compound, otherwise a named child |
| NbtFormat.ParseNbt | app/src/main/java/fr/rader/imbob/utils/data/DataReader.java:179-186 | readNBT: a 0 first byte is null; otherwise a named non-root compound |
| NbtFormat.NameRoundTrip | app/src/main/java/fr/rader/imbob/types/nbt/TagCompound.java:58 | a name written by write reads back through readString(readShort()) |
| NbtFormat.CountRoundTrip | app/src/main/java/fr/rader/imbob/types/nbt/TagList.java:51 | a count written with writeInt reads back with readInt |
| NbtFormat.SignedByteRoundTrip | app/src/main/java/fr/rader/imbob/types/nbt/TagList.java:104 | the child id written with writeByte reads back as the same signed byte |
| NbtFormat.PayloadRoundTrip | app/src/main/java/fr/rader/imbob/types/nbt/TagCompound.java:60-99 | the payload of a well-formed tag of any kind reads back as the same tag, ending right after it |
| NbtFormat.FixedPayloadRoundTrip | app/src/main/java/fr/rader/imbob/types/nbt/TagCompound.java:61-78 | the same for the fixed-size tags |
| NbtFormat.ByteTagRoundTrip | app/src/main/java/fr/rader/imbob/types/nbt/TagCompound.java:61-63 | the same for a byte |
| NbtFormat.ShortTagRoundTrip | app/src/main/java/fr/rader/imbob/types/nbt/TagCompound.java:64-66 | the same for a short |
| NbtFormat.IntTagRoundTrip | app/src/main/java/fr/rader/imbob/types/nbt/TagCompound.java:67-69 | the same for an int |
| NbtFormat.LongTagRoundTrip | app/src/main/java/fr/rader/imbob/types/nbt/TagCompound.java:70-72 | the same for a long |
| NbtFormat.FloatTagRoundTrip | app/src/main/java/fr/rader/imbob/types/nbt/TagCompound.java:73-75 | the same for a float's four bytes |
| NbtFormat.DoubleTagRoundTrip | app/src/main/java/fr/rader/imbob/types/nbt/TagDouble.java:31-39 | the same for a double's eight bytes |
| NbtFormat.TextTagRoundTrip | app/src/main/java/fr/rader/imbob/types/nbt/TagString.java:31-40 | the same for a string |
| NbtFormat.ArrayPayloadRoundTrip | app/src/main/java/fr/rader/imbob/types/nbt/TagCompound.java:79-96 | the same for the arrays |
| NbtFormat.ByteArrayTagRoundTrip | app/src/main/java/fr/rader/imbob/types/nbt/TagCompound.java:79-81 | the same for a byte array |
| NbtFormat.IntArrayTagRoundTrip | app/src/main/java/fr/rader/imbob/types/nbt/TagCompound.java:91-93 | the same for an int array |
| NbtFormat.LongArrayTagRoundTrip | app/src/main/java/fr/rader/imbob/types/nbt/TagCompound.java:94-96 | the same for a long array |
| NbtFormat.ListTagRoundTrip | app/src/main/java/fr/rader/imbob/types/nbt/TagList.java:97-110 | a list's child id and count followed by children that read back give the list |
| NbtFormat.ListPayloadRoundTrip | app/src/main/java/fr/rader/imbob/types/nbt/TagList.java:97-110 | the payload of a well-formed list reads back as the list |
| NbtFormat.ListItemsRoundTrip | app/src/main/java/fr/rader/imbob/types/nbt/TagList.java:50-94 | a list's children, written one after the other, read back in order |
| NbtFormat.CompoundTagRoundTrip | app/src/main/java/fr/rader/imbob/types/nbt/TagCompound.java:37-49 | children that read back give the non-root compound |
| NbtFormat.CompoundPayloadRoundTrip | app/src/main/java/fr/rader/imbob/types/nbt/TagCompound.java:104-118 | the payload of a well-formed compound reads back as the compound |
| NbtFormat.CompoundItemsRoundTrip | app/src/main/java/fr/rader/imbob/types/nbt/TagCompound.java:51-101 | a compound's children and the terminating 0 read back in order |
| NbtFormat.NbtRoundTrip | app/src/main/java/fr/rader/imbob/utils/data/DataReader.java:179-186 | readNBT reads back what a named, non-root, well-formed compound writes |
| NbtTags.ReadPayload | app/src/main/java/fr/rader/imbob/types/nbt/TagCompound.java:60-99 | the reading switch consumes exactly what ParsePayload reads and returns its tag, or fails as it does |
| NbtTags.ReadFixed | app/src/main/java/fr/rader/imbob/types/nbt/TagCompound.java:61-78 | the same for the fixed-size tags |
| NbtTags.ReadArray | app/src/main/java/fr/rader/imbob/types/nbt/TagCompound.java:79-96 | the same for the arrays |
| NbtTags.ReadText | app/src/main/java/fr/rader/imbob/types/nbt/TagCompound.java:82-84 | the same for a string |
| NbtTags.ReadChild | app/src/main/java/fr/rader/imbob/types/nbt/TagCompound.java:53-58 | one turn of readCompound's loop follows ParseChild |
| NbtTags.ReadNbt | app/src/main/java/fr/rader/imbob/utils/data/DataReader.java:179-186 | readNBT returns null for a 0 byte and otherwise a new compound holding exactly the tag ParseNbt reads |
| NbtTags.WriteTag | app/src/main/java/fr/rader/imbob/types/nbt/TagCompound.java:113-115 | `tag.write(writer)` for any tag appends exactly Encode of the tag |
| NbtTags.WriteLeaf | app/src/main/java/fr/rader/imbob/types/nbt/TagDouble.java:31-39 | a numeric or array tag writes its header and then its payload |
| NbtTags.WriteFixedPayload | app/src/main/java/fr/rader/imbob/types/nbt/TagDouble.java:38 | a numeric or array tag's payload |
| NbtTags.WriteHeader | app/src/main/java/fr/rader/imbob/types/nbt/TagString.java:32-36 | the header: the id and the name when the tag has one |
| NbtTags.WriteCompound | app/src/main/java/fr/rader/imbob/types/nbt/TagCompound.java:104-118 | TagCompound.write appends the header (no name for a root), the children in order and a 0 |
| NbtTags.WriteList | app/src/main/java/fr/rader/imbob/types/nbt/TagList.java:97-110 | TagList.write appends the header, the child id, the count and the children in order |
| NbtTags.ListWritten | app/src/main/java/fr/rader/imbob/types/nbt/TagList.java:97-110 | those four writes in turn make up Encode of the list |
| NbtTags.WriteChildren | app/src/main/java/fr/rader/imbob/types/nbt/TagCompound.java:113-115 | the children loop appends each child's bytes in order |
| NbtTags.WriteText | app/src/main/java/fr/rader/imbob/types/nbt/TagString.java:31-40 | TagString.write appends the header and the length-prefixed value |
| NbtTags.TagCompound.Value | app/src/main/java/fr/rader/imbob/types/nbt/TagCompound.java:16-18 | the compound's fields as a tag value: name, root flag, children |
| NbtTags.TagCompound.constructor | app/src/main/java/fr/rader/imbob/types/nbt/TagCompound.java:28-35 | new TagCompound(name): not root, no children |
| NbtTags.TagCompound.FromReader | app/src/main/java/fr/rader/imbob/types/nbt/TagCompound.java:37-49 | the reading constructor returns a new compound holding exactly the children readCompound reads, or fails as it does |
| NbtTags.TagCompound.Rooted | app/src/main/java/fr/rader/imbob/types/nbt/TagCompound.java:41-46 | the reading constructor's fields before the children are read |
| NbtTags.TagCompound.ReadCompound | app/src/main/java/fr/rader/imbob/types/nbt/TagCompound.java:51-101 | readCompound adds each child read to the compound, in order, and ends after the 0 |
| NbtTags.TagCompound.Write | app/src/main/java/fr/rader/imbob/types/nbt/TagCompound.java:104-118 | write appends exactly Encode of the compound |
| NbtTags.TagCompound.Add | app/src/main/java/fr/rader/imbob/types/nbt/TagCompound.java:120-126 | add appends a named tag; an unnamed one is an IllegalArgumentException and leaves the children as they were |
| NbtTags.TagCompound.RemoveName | app/src/main/java/fr/rader/imbob/types/nbt/TagCompound.java:128-130 | remove(name) removes every child with that name and keeps every other child, in order |
| NbtTags.TagCompound.RemoveAt | app/src/main/java/fr/rader/imbob/types/nbt/TagCompound.java:132-136 | remove(index) removes the child at a valid index; IndexOutOfBoundsException and no change otherwise |
| NbtTags.TagCompound.RemoveTag | app/src/main/java/fr/rader/imbob/types/nbt/TagCompound.java:138-140 | remove(tag) removes the first child equal to the tag |
| NbtTags.TagCompound.Replace | app/src/main/java/fr/rader/imbob/types/nbt/TagCompound.java:142-150 | replace sets the child at a valid index to a named tag and leaves the rest; a bad index or an unnamed tag throws and changes nothing |
| NbtTags.TagCompound.GetAt | app/src/main/java/fr/rader/imbob/types/nbt/TagCompound.java:152-156 | get(index) is the child at a valid index, IndexOutOfBoundsException otherwise |
| NbtTags.TagCompound.GetByName | app/src/main/java/fr/rader/imbob/types/nbt/TagCompound.java:158-166 | get(name) is the first child with that name, null exactly when none has it |
| NbtTags.TagCompound.HasName | app/src/main/java/fr/rader/imbob/types/nbt/TagCompound.java:168-170 | has(name) exactly when some child has that name |
| NbtTags.TagCompound.HasAt | app/src/main/java/fr/rader/imbob/types/nbt/TagCompound.java:176-178 | has(index) is true for a valid index and throws otherwise |
| NbtTags.TagCompound.IsEmpty | app/src/main/java/fr/rader/imbob/types/nbt/TagCompound.java:180-182 | isEmpty: true exactly when size() is 0, which is exactly when get(0) throws |
| NbtTags.TagList.Value | app/src/main/java/fr/rader/imbob/types/nbt/TagList.java:14-15 | the list's fields as a tag value: name, child id, children |
| NbtTags.TagList.constructor | app/src/main/java/fr/rader/imbob/types/nbt/TagList.java:31-37 | a new list has the name and child id and no children |
| NbtTags.TagList.FromReader | app/src/main/java/fr/rader/imbob/types/nbt/TagList.java:25-29 | the reading constructor returns a new list holding exactly what ParseList reads, or fails as it does |
| NbtTags.TagList.ReadList | app/src/main/java/fr/rader/imbob/types/nbt/TagList.java:50-94 | readList reads the count and then the children |
| NbtTags.TagList.ReadItems | app/src/main/java/fr/rader/imbob/types/nbt/TagList.java:52-93 | the loop adds each child read, in order; a negative count reads none |
| NbtTags.TagList.Write | app/src/main/java/fr/rader/imbob/types/nbt/TagList.java:97-110 | write appends exactly Encode of the list |
| NbtTags.TagList.Add | app/src/main/java/fr/rader/imbob/types/nbt/TagList.java:116-126 | add appends an unnamed tag of the list's child id; a named tag or another id is an IllegalArgumentException and changes nothing |
| NbtTags.TagList.RemoveAt | app/src/main/java/fr/rader/imbob/types/nbt/TagList.java:128-132 | remove(index) removes the child at a valid index; IndexOutOfBoundsException and no change otherwise |
| NbtTags.TagList.RemoveTag | app/src/main/java/fr/rader/imbob/types/nbt/TagList.java:134-136 | remove(tag) removes the first child equal to the tag |
| NbtTags.TagList.Replace | app/src/main/java/fr/rader/imbob/types/nbt/TagList.java:138-146 | replace sets the child at a valid index to an unnamed tag and leaves the rest; a bad index or a named tag throws and changes nothing |
| NbtTags.TagList.GetAt | app/src/main/java/fr/rader/imbob/types/nbt/TagList.java:148-152 | get(index) is the child at a valid index, IndexOutOfBoundsException otherwise |
| NbtTags.TagList.HasAt | app/src/main/java/fr/rader/imbob/types/nbt/TagList.java:162-164 | has(index) is true for a valid index and throws otherwise |
| NbtTags.TagList.IsEmpty | app/src/main/java/fr/rader/imbob/types/nbt/TagList.java:154-156 | isEmpty: true exactly when size() is 0, which is exactly when get(0) throws |
| NbtTags.TagString.constructor | app/src/main/java/fr/rader/imbob/types/nbt/TagString.java:16-20 | a new string tag has the name and value and the id 8 |
| NbtTags.TagString.Value | app/src/main/java/fr/rader/imbob/types/nbt/TagString.java:9 | the tag's fields as a tag value |
| NbtTags.TagString.SetValue | app/src/main/java/fr/rader/imbob/types/nbt/TagString.java:26-28 | setValue replaces the value |
| NbtTags.TagString.Write | app/src/main/java/fr/rader/imbob/types/nbt/TagString.java:31-40 | write appends exactly Encode of the string tag |
| NbtTags.LowByte | app/src/main/java/fr/rader/imbob/types/nbt/TagList.java:104 | writeByte keeps the low 8 bits of the id |
| NbtTags.EncodeAllAppend | app/src/main/java/fr/rader/imbob/types/nbt/TagCompound.java:113-115 | writing two runs of children is writing them one after the other |
| NbtTags.ChildGlue | app/src/main/java/fr/rader/imbob/types/nbt/TagCompound.java:52-100 | one turn of readCompound's loop: an error ends the read, a 0 ends the children, a child is kept and the loop goes on |
| NbtTags.ListItemsAhead | app/src/main/java/fr/rader/imbob/types/nbt/TagList.java:52-93 | one turn of readList's loop: an error ends the read, a child is kept and the loop goes on |
| Registry.Thresholds | app/src/main/java/fr/rader/imbob/packets/PacketMetaData.java:30-31 | one looked-up protocol per version entry, in the map's insertion order |
| Registry.ScanFrom | app/src/main/java/fr/rader/imbob/packets/PacketMetaData.java:50-55 | the for-each with its early return, from entry k: the first entry the protocol falls under, every earlier one a miss; nothing exactly when every entry is a miss; NullPointerException at the first unknown version name reached |
| Registry.ScanResult | app/src/main/java/fr/rader/imbob/packets/PacketMetaData.java:50-58 | the scan from the start stops at the first hit, finds nothing exactly when no entry is hit, and succeeds exactly in those two cases |
| Registry.ScanStopsAt | app/src/main/java/fr/rader/imbob/packets/PacketMetaData.java:50-55 | the scan runs past the misses up to the hit and stops there |
| Registry.PacketIdForProtocol | app/src/main/java/fr/rader/imbob/packets/PacketMetaData.java:48-59 | getPacketIdForProtocol: the id of the first entry whose protocol is at or after the packet's; -1 when there is none; NullPointerException for an unknown version name reached first |
| Registry.ConfigurationPacketId | app/src/main/java/fr/rader/imbob/packets/PacketMetaData.java:61-72 | getConfigurationPacketId: the same with the comparison reversed |
| Registry.MetaAccept | app/src/main/java/fr/rader/imbob/packets/PacketMetaData.java:26-40 | accept: only the first entry the packet's protocol falls under decides, by id equality; none means false |
| Registry.AcceptIsIdMatch | app/src/main/java/fr/rader/imbob/packets/PacketMetaData.java:26-59 | accept and getPacketIdForProtocol fail together; otherwise a packet is accepted exactly when its id is the one getPacketIdForProtocol gives (the -1 answer never accepts) |
| Registry.PacketAcceptor.Of | app/src/main/java/fr/rader/imbob/packets/PacketAcceptor.java:24-26 | accept(packet): a non-configuration acceptor with no bounds |
| Registry.PacketAcceptor.OfPhase | app/src/main/java/fr/rader/imbob/packets/PacketAcceptor.java:34-36 | accept(packet, isConfigurationPacket): that phase, no bounds |
| Registry.PacketAcceptor.Bounded | app/src/main/java/fr/rader/imbob/packets/PacketAcceptor.java:13-16 | an acceptor with the given fields |
| Registry.PacketAcceptor.From | app/src/main/java/fr/rader/imbob/packets/PacketAcceptor.java:44-47 | from(version) sets the lower bound and keeps the rest |
| Registry.PacketAcceptor.To | app/src/main/java/fr/rader/imbob/packets/PacketAcceptor.java:55-58 | to(version) sets the upper bound and keeps the rest |
| Registry.PacketAcceptor.Accept | app/src/main/java/fr/rader/imbob/packets/PacketAcceptor.java:70-92 | a packet of the other phase is refused; otherwise it is accepted exactly when it lies within the bounds that are set, both inclusive, and the metadata accepts it; the metadata is not consulted outside the bounds |
| Registry.PacketIds | app/src/main/java/fr/rader/imbob/packets/Packets.java:65-66 | the id each packet data gives for the protocol; only NullPointerException can fail |
| Registry.GetByIdFrom | app/src/main/java/fr/rader/imbob/packets/Packets.java:65-71 | the loop from entry k: the first packet data with the id, every earlier one giving another id; null exactly when all give other ids |
| Registry.GetById | app/src/main/java/fr/rader/imbob/packets/Packets.java:64-72 | Packets.get(protocol, packetId): the first packet data whose getPacketIdForProtocol is the id; null exactly when none |
| Registry.GetByName | app/src/main/java/fr/rader/imbob/packets/Packets.java:74-82 | Packets.get(name): the first packet data with that name; null exactly when none |
| Registry.LexTotal | app/src/main/java/fr/rader/imbob/packets/Packets.java:36 | String.compareTo orders any two names |
| Registry.LexTrans | app/src/main/java/fr/rader/imbob/packets/Packets.java:36 | and the order is transitive |
| Registry.PrependSorted | app/src/main/java/fr/rader/imbob/packets/Packets.java:36 | a name no greater than a sorted list's elements can go in front |
| Registry.HeadBelowAll | app/src/main/java/fr/rader/imbob/packets/Packets.java:36 | a name below the head of a sorted list is below all of it |
| Registry.HeadBelowInserted | app/src/main/java/fr/rader/imbob/packets/Packets.java:36 | the head of a sorted list stays below it after an insertion behind it |
| Registry.Insert | app/src/main/java/fr/rader/imbob/packets/Packets.java:36 | inserting into a sorted list keeps it sorted and adds exactly the name |
| Registry.SortNames | app/src/main/java/fr/rader/imbob/packets/Packets.java:36 | Collections.sort: a sorted permutation of the names |
| Registry.RemoveText | app/src/main/java/fr/rader/imbob/packets/Packets.java:39 | String.replace(".psl", "") never lengthens the name |
| Registry.RemovePslSuffix | app/src/main/java/fr/rader/imbob/packets/Packets.java:39 | a name without a dot loses exactly its ".psl" suffix |
| Registry.FileNumbers | app/src/main/java/fr/rader/imbob/packets/Packets.java:39 | one parseInt result per name |
| Registry.PickDownPicks | app/src/main/java/fr/rader/imbob/packets/Packets.java:38-47 | the descending loop below i: a number at most the version with every later entry above it; nothing exactly when all are above; otherwise the NumberFormatException of the last entry that is not a number |
| Registry.SchemaFolder | app/src/main/java/fr/rader/imbob/packets/Packets.java:29-33 | the folder: the ImBob folder, "protocols/", the packet data's name and '/'; NullPointerException when no packet data has the id |
| Registry.GetPSLPath | app/src/main/java/fr/rader/imbob/packets/Packets.java:28-50 | the method builds the path that PslPathAsWritten describes |
| Registry.PickSchema | app/src/main/java/fr/rader/imbob/packets/Packets.java:38-47 | the loop from the last name down gives PickDown's answer |
| Registry.PslPathAsWrittenPicks | app/src/main/java/fr/rader/imbob/packets/Packets.java:28-50 | as written, the file picked is the last one in string order whose number is at most the version; with none, the path is the folder alone |
| Registry.NewestUpTo | app/src/main/java/fr/rader/imbob/packets/Packets.java:38-47 | corrected: the greatest number at most the version, whatever the order of the names, and error exactly when a name is not a number |
| Registry.PslPath | app/src/main/java/fr/rader/imbob/packets/Packets.java:28-50 | corrected: the folder followed by the newest schema at or before the protocol's version |
| Registry.StringOrderPicksOlderSchema | app/src/main/java/fr/rader/imbob/packets/Packets.java:36-47 | for files 47, 340 and 498 and version 400 the loop picks 47, while the newest schema at or before 400 is 340 |
| Registry.PicksOlder | app/src/main/java/fr/rader/imbob/packets/Packets.java:36-47 | the same for any names with those numbers |
| Registry.FileNumberRoundTrip | app/src/main/java/fr/rader/imbob/packets/Packets.java:39-43 | the name the path appends for a number parses back to that number |
| Registry.FileNameExample | app/src/main/java/fr/rader/imbob/packets/Packets.java:39 | "47.psl", "340.psl" and "498.psl" give 47, 340 and 498 |
| Registry.InsertFront | app/src/main/java/fr/rader/imbob/packets/Packets.java:36 | an insertion step puts a smaller name in front |
| Registry.InsertPast | app/src/main/java/fr/rader/imbob/packets/Packets.java:36 | an insertion step passes a smaller head |
| Registry.SortExample | app/src/main/java/fr/rader/imbob/packets/Packets.java:36 | "340.psl" sorts before "47.psl" and "498.psl" |
| Registry.SortThree | app/src/main/java/fr/rader/imbob/packets/Packets.java:36 | three names where the second sorts first and the third last |
| Registry.SortCons | app/src/main/java/fr/rader/imbob/packets/Packets.java:36 | sorting a name in front is inserting it into the sorted rest |
| Registry.SortTwo | app/src/main/java/fr/rader/imbob/packets/Packets.java:36 | two names in order stay in order |
| Tasks.AbstractTask.constructor | app/src/main/java/fr/rader/imbob/tasks/AbstractTask.java:18-34 | without a Task annotation the name is the class's simple name and the priority 0; with one both come from the annotation |
| Tasks.AbstractTask.Accept | app/src/main/java/fr/rader/imbob/tasks/AbstractTask.java:52-64 | accept asks the acceptors in order and returns the combined answer AcceptsAny describes |
| Tasks.Answers | app/src/main/java/fr/rader/imbob/tasks/AbstractTask.java:54-59 | one answer per acceptor, in order |
| Tasks.DecideTrue | app/src/main/java/fr/rader/imbob/tasks/AbstractTask.java:52-64 | accept is true exactly when some acceptor accepts and every one before it declines |
| Tasks.TrueFrom | app/src/main/java/fr/rader/imbob/tasks/AbstractTask.java:54-59 | a true answer names the acceptor that gave it |
| Tasks.FromTrue | app/src/main/java/fr/rader/imbob/tasks/AbstractTask.java:54-59 | the first accepting acceptor makes the answer true |
| Tasks.DecideFalse | app/src/main/java/fr/rader/imbob/tasks/AbstractTask.java:52-64 | accept is false exactly when every acceptor declines; a task without acceptors accepts nothing |
| Tasks.FalseFrom | app/src/main/java/fr/rader/imbob/tasks/AbstractTask.java:54-63 | the same from any position reached |
| Tasks.DecideErr | app/src/main/java/fr/rader/imbob/tasks/AbstractTask.java:54-59 | an exception comes from the first acceptor that does not answer, all earlier ones declining |
| Tasks.ErrFrom | app/src/main/java/fr/rader/imbob/tasks/AbstractTask.java:54-59 | the same from any position reached |
| Tasks.AcceptsAnyAppend | app/src/main/java/fr/rader/imbob/tasks/AbstractTask.java:41-43 | acceptPacket adds the acceptor last: it is asked only when all earlier ones decline |
| Tasks.DecideAppend | app/src/main/java/fr/rader/imbob/tasks/AbstractTask.java:41-64 | the same for the answers |
| Tasks.PacketQueue.constructor | app/src/main/java/fr/rader/imbob/tasks/TaskExecutor.java:117 | `new LinkedList<>()`: empty |
| Tasks.PacketQueue.Add | app/src/main/java/fr/rader/imbob/tasks/TaskExecutor.java:139 | add appends at the tail |
| Tasks.PacketQueue.Poll | app/src/main/java/fr/rader/imbob/tasks/TaskExecutor.java:150 | poll removes and returns the head; null on an empty queue |
| Tasks.Names | app/src/main/java/fr/rader/imbob/windows/impl/TaskListWindow.java:101-110 | one name per task |
| Tasks.WithoutNameKeeps | app/src/main/java/fr/rader/imbob/windows/impl/TaskListWindow.java:68 | removeIf keeps exactly the tasks with another name |
| Tasks.WithoutNameSplits | app/src/main/java/fr/rader/imbob/windows/impl/TaskListWindow.java:68 | removeIf keeps the relative order |
| Tasks.AddedOnce | app/src/main/java/fr/rader/imbob/windows/impl/TaskListWindow.java:64-73 | after addTask exactly one listed task has the added task's name, and it is the last |
| Tasks.TaskListWindow.constructor | app/src/main/java/fr/rader/imbob/windows/impl/TaskListWindow.java:20-26 | a new window has no tasks and an empty name array |
| Tasks.TaskListWindow.AddTask | app/src/main/java/fr/rader/imbob/windows/impl/TaskListWindow.java:64-73 | addTask removes the tasks with the new task's name, appends the task and rebuilds the names |
| Tasks.TaskListWindow.RemoveNamed | app/src/main/java/fr/rader/imbob/windows/impl/TaskListWindow.java:68 | removeIf on the name |
| Tasks.TaskListWindow.HasTask | app/src/main/java/fr/rader/imbob/windows/impl/TaskListWindow.java:82-95 | hasTask exactly when some listed task has the same name |
| Tasks.TaskListWindow.UpdateNames | app/src/main/java/fr/rader/imbob/windows/impl/TaskListWindow.java:101-110 | a new array as long as the list, entry i holding task i's name; the list is unchanged |
| Tasks.TaskListWindow.RemoveSelected | app/src/main/java/fr/rader/imbob/windows/impl/TaskListWindow.java:43-52 | Remove Task: nothing happens for an empty list or a selection at or past its end; a negative selection throws IndexOutOfBoundsException; otherwise the selected task is removed and the names rebuilt |
| Executor.CompareAsWrittenCycles | app/src/main/java/fr/rader/imbob/tasks/TaskExecutor.java:41 | the comparator `t2 - t1` as written on 32-bit ints orders 1 before 0, 0 before -2^31 and -2^31 before 1: not an order |
| Executor.ComparePriority | app/src/main/java/fr/rader/imbob/tasks/TaskExecutor.java:41 | the intended comparator: negative exactly when the first priority is higher, zero exactly when equal, positive exactly when lower |
| Executor.ComparePriorityIsOrder | app/src/main/java/fr/rader/imbob/tasks/TaskExecutor.java:41 | the intended comparator is antisymmetric and transitive, as Collections.sort requires |
| Executor.InsertByPriority | app/src/main/java/fr/rader/imbob/tasks/TaskExecutor.java:41 | one insertion step of the sort keeps the same tasks, with the inserted one added |
| Executor.InsertBelow | app/src/main/java/fr/rader/imbob/tasks/TaskExecutor.java:41 | insertion keeps every priority under a common bound |
| Executor.InsertKeepsDescending | app/src/main/java/fr/rader/imbob/tasks/TaskExecutor.java:41 | inserting into a list in descending priority keeps it descending |
| Executor.SortByPriority | app/src/main/java/fr/rader/imbob/tasks/TaskExecutor.java:41 | the sorted task list is in descending priority and holds exactly the same tasks |
| Executor.WithPriorityAppend | app/src/main/java/fr/rader/imbob/tasks/TaskExecutor.java:41 | the tasks of one priority in a concatenation are those of each part, in order |
| Executor.NoneWithPriority | app/src/main/java/fr/rader/imbob/tasks/TaskExecutor.java:41 | a list with no task of a priority has none to keep in order |
| Executor.InsertStable | app/src/main/java/fr/rader/imbob/tasks/TaskExecutor.java:41 | insertion places a task behind every task of equal priority already sorted |
| Executor.KeptBehindHead | app/src/main/java/fr/rader/imbob/tasks/TaskExecutor.java:41 | keeping the head in front preserves the order of equal-priority tasks behind it |
| Executor.InsertedInFront | app/src/main/java/fr/rader/imbob/tasks/TaskExecutor.java:41 | a task of higher priority than the head goes first without reordering equal ones |
| Executor.DescendingRest | app/src/main/java/fr/rader/imbob/tasks/TaskExecutor.java:41 | the tail of a descending list is descending |
| Executor.BelowHead | app/src/main/java/fr/rader/imbob/tasks/TaskExecutor.java:41 | a descending list whose head is below a priority has no task of that priority |
| Executor.OneWithPriority | app/src/main/java/fr/rader/imbob/tasks/TaskExecutor.java:41 | a single task is kept exactly when it has the priority |
| Executor.SortStable | app/src/main/java/fr/rader/imbob/tasks/TaskExecutor.java:41 | the sort is stable, as Collections.sort promises: tasks of equal priority keep their relative order |
| Executor.PositionsIn | app/src/main/java/fr/rader/imbob/tasks/TaskExecutor.java:41 | two equal-priority tasks appear among that priority's tasks in their original order |
| Executor.SortKeepsOrder | app/src/main/java/fr/rader/imbob/tasks/TaskExecutor.java:41 | of two tasks with equal priority the earlier one still runs first after the sort |
| Executor.ParseOpening | app/src/main/java/fr/rader/imbob/tasks/TaskExecutor.java:107-111 | the first record (timestamp, size, then size bytes) is read within the input |
| Executor.ParseHeader | app/src/main/java/fr/rader/imbob/tasks/TaskExecutor.java:122-124 | a record header is two ints and a varint id: 9 to 13 bytes within the input |
| Executor.ParseRecord | app/src/main/java/fr/rader/imbob/tasks/TaskExecutor.java:143-147 | a whole record is its header followed by size minus the id's length bytes, within the input |
| Executor.OpeningVerbatim | app/src/main/java/fr/rader/imbob/tasks/TaskExecutor.java:107-111 | the first record is copied out byte for byte as it was read |
| Executor.RecordVerbatim | app/src/main/java/fr/rader/imbob/tasks/TaskExecutor.java:143-147 | a record no task took is written back byte for byte when its id was written canonically |
| Executor.CopiedVerbatim | app/src/main/java/fr/rader/imbob/tasks/TaskExecutor.java:143-147 | copying a canonical record through extends an exact copy of the input by that record |
| Executor.UntouchedSnoc | app/src/main/java/fr/rader/imbob/tasks/TaskExecutor.java:129-147 | a recording stays untouched exactly while no record was queued for a task |
| Executor.TracedSnoc | app/src/main/java/fr/rader/imbob/tasks/TaskExecutor.java:121-163 | each record's trace records which tasks accepted it and one clone per accepting task |
| Executor.DrainedReadsBack | app/src/main/java/fr/rader/imbob/tasks/TaskExecutor.java:149-161 | a record the drain writes reads back, by the copy-through reader, as the same timestamp, id and payload |
| Executor.SizeFits | app/src/main/java/fr/rader/imbob/tasks/TaskExecutor.java:158 | the size field written is the payload length plus the id's varint length |
| Executor.HeaderReadsBack | app/src/main/java/fr/rader/imbob/tasks/TaskExecutor.java:122-124 | a written header reads back as the same timestamp, size and id |
| Executor.DrainedAllSnoc | app/src/main/java/fr/rader/imbob/tasks/TaskExecutor.java:149-161 | draining one more packet appends its record to the output |
| Executor.WriteRecord | app/src/main/java/fr/rader/imbob/tasks/TaskExecutor.java:144-147 | writing a record appends timestamp, size, varint id and payload |
| Executor.CopyOpening | app/src/main/java/fr/rader/imbob/tasks/TaskExecutor.java:107-111 | the first record is read and written unchanged; a short input is an error |
| Executor.ReadHeader | app/src/main/java/fr/rader/imbob/tasks/TaskExecutor.java:122-124 | reads timestamp, size and id as the header reader defines; a short input is an error |
| Executor.CopyThrough | app/src/main/java/fr/rader/imbob/tasks/TaskExecutor.java:143-147 | writes the header back and copies size minus the id's length bytes unchanged; a short input is an error |
| Executor.CachedDefinition | app/src/main/java/fr/rader/imbob/tasks/TaskExecutor.java:198-213 | a cached id answers from the cache; a new one is built and cached only when building succeeds; nothing cached is lost |
| Executor.LookupIsFactory | app/src/main/java/fr/rader/imbob/tasks/TaskExecutor.java:198-213 | while the cache holds only definitions of the current version the lookup answers what building would |
| Executor.LookupTwice | app/src/main/java/fr/rader/imbob/tasks/TaskExecutor.java:198-213 | a second lookup of the same id changes nothing |
| Executor.StaleCacheAnswersOldVersion | app/src/main/java/fr/rader/imbob/tasks/TaskExecutor.java:90 | the cache is keyed by id alone, so without the clear at the start a second recording of another version would get the old definitions |
| Executor.SkinTasks | app/src/main/java/fr/rader/imbob/tasks/TaskExecutor.java:129-141 | collects the state every task may change |
| Executor.QueueAndRun | app/src/main/java/fr/rader/imbob/tasks/TaskExecutor.java:139-140 | queues a clone sharing the packet's id and entries, then runs the task, leaving the packet's entry list in place |
| Executor.RunTask | app/src/main/java/fr/rader/imbob/tasks/TaskExecutor.java:140 | only the weather task adds packets to the queue |
| Executor.Wanted | app/src/main/java/fr/rader/imbob/tasks/TaskExecutor.java:130 | one accept answer per task |
| Executor.WantedMeans | app/src/main/java/fr/rader/imbob/tasks/TaskExecutor.java:130 | a task takes the packet exactly when its acceptors answer true |
| Executor.Count | app/src/main/java/fr/rader/imbob/tasks/TaskExecutor.java:139 | the number of accepting tasks; zero exactly when none accepts |
| Executor.CountSnoc | app/src/main/java/fr/rader/imbob/tasks/TaskExecutor.java:139 | one more accepting task adds one clone |
| Executor.HeaderThenPayload | app/src/main/java/fr/rader/imbob/tasks/TaskExecutor.java:121-147 | a read header followed by a copied payload is a whole record copied through |
| Executor.SerializesSnoc | app/src/main/java/fr/rader/imbob/tasks/TaskExecutor.java:149-161 | each drained packet's payload is the serializer's encoding of its entries |
| Executor.TaskExecutor.constructor | app/src/main/java/fr/rader/imbob/tasks/TaskExecutor.java:40-50 | the tasks are kept sorted by descending priority, the same tasks, and the definition cache starts empty |
| Executor.TaskExecutor.GetPacketDefinition | app/src/main/java/fr/rader/imbob/tasks/TaskExecutor.java:198-213 | answers and updates the cache as CachedDefinition describes |
| Executor.TaskExecutor.Decode | app/src/main/java/fr/rader/imbob/tasks/TaskExecutor.java:134-137 | decodes the packet's payload with its id's definition, exactly as the deserializer's block decoder reads it |
| Executor.TaskExecutor.Offer | app/src/main/java/fr/rader/imbob/tasks/TaskExecutor.java:134-140 | decodes the packet only the first time a task takes it, then queues a clone sharing its entries |
| Executor.TaskExecutor.Accepted | app/src/main/java/fr/rader/imbob/tasks/TaskExecutor.java:133-140 | an accepting task's turn records it and keeps the pipeline's invariant |
| Executor.TaskExecutor.Step | app/src/main/java/fr/rader/imbob/tasks/TaskExecutor.java:129-141 | one iteration of the task loop asks one task and keeps the invariant |
| Executor.TaskExecutor.ApplyTasks | app/src/main/java/fr/rader/imbob/tasks/TaskExecutor.java:129-141 | every task is asked in order; the packet is decoded once if any accepts; one clone is queued per accepting task; with none the queue and the reader are unchanged |
| Executor.TaskExecutor.WritePacket | app/src/main/java/fr/rader/imbob/tasks/TaskExecutor.java:150-160 | a queued packet is serialized with its id's definition and written as a record with the current timestamp; on error nothing is written |
| Executor.TaskExecutor.DrainStep | app/src/main/java/fr/rader/imbob/tasks/TaskExecutor.java:149-161 | one iteration of the drain polls the head packet and writes its record |
| Executor.TaskExecutor.WriteHead | app/src/main/java/fr/rader/imbob/tasks/TaskExecutor.java:150-160 | the polled packet's record (timestamp, length, serialized body) is appended after what was written so far; on a serializer error the output is unchanged |
| Executor.TaskExecutor.Drain | app/src/main/java/fr/rader/imbob/tasks/TaskExecutor.java:149-161 | the queue is emptied in order, each packet written as the record of its serialized entries; an error stops after the failing packet |
| Executor.TaskExecutor.Emit | app/src/main/java/fr/rader/imbob/tasks/TaskExecutor.java:143-162 | a packet no task took is copied through; otherwise the queue is drained in its place |
| Executor.TaskExecutor.RunTasks | app/src/main/java/fr/rader/imbob/tasks/TaskExecutor.java:128-141 | a fresh packet for the header is offered to every task with the traces ApplyTasks gives |
| Executor.TaskExecutor.Process | app/src/main/java/fr/rader/imbob/tasks/TaskExecutor.java:126-162 | one record is either copied through or replaced by the records of its decoded, edited and re-serialized clones |
| Executor.TaskExecutor.EditRecord | app/src/main/java/fr/rader/imbob/tasks/TaskExecutor.java:121-163 | reads one header, processes its record and advances the reader |
| Executor.TaskExecutor.EditNext | app/src/main/java/fr/rader/imbob/tasks/TaskExecutor.java:121-163 | a record no task takes extends an exact copy of the input |
| Executor.TaskExecutor.EditTurn | app/src/main/java/fr/rader/imbob/tasks/TaskExecutor.java:121-163 | one loop iteration extends the per-record traces |
| Executor.TaskExecutor.EditRecords | app/src/main/java/fr/rader/imbob/tasks/TaskExecutor.java:121-163 | the loop over all records: when no task took any record the output is the input |
| Executor.TaskExecutor.Open | app/src/main/java/fr/rader/imbob/tasks/TaskExecutor.java:93-111 | a reader on the recording and a fresh writer; succeeds exactly when the first record can be read, and then that record is copied byte for byte |
| Executor.TaskExecutor.Pipeline | app/src/main/java/fr/rader/imbob/tasks/TaskExecutor.java:113-117 | a new serializer, a deserializer reading from the recording, and an empty queue |
| Executor.TaskExecutor.ApplyTaskEdits | app/src/main/java/fr/rader/imbob/tasks/TaskExecutor.java:86-186 | a recording no task touches (and written canonically) comes out byte for byte unchanged; every record's trace follows the tasks' answers |
| WeatherChanger.InsertedFor | app/src/main/java/fr/rader/imbob/tasks/impl/WeatherChangerTask.java:47-90 | the change_game_state packets inserted after join_game: none for Clear; begin rain with 0 then rain level 1 for Rain; those plus thunder level 1 for Thunder |
| WeatherChanger.InsertedAreWeatherReasons | app/src/main/java/fr/rader/imbob/tasks/impl/WeatherChangerTask.java:18-21 | every inserted packet carries a weather reason, and rain always begins first |
| WeatherChanger.WeatherChangerTask.constructor | app/src/main/java/fr/rader/imbob/tasks/impl/WeatherChangerTask.java:15-39 | the task is named Weather Changer with priority 0, accepts change_game_state and join_game in every version, and starts on Clear |
| WeatherChanger.WeatherChangerTask.Execute | app/src/main/java/fr/rader/imbob/tasks/impl/WeatherChangerTask.java:42-112 | an out-of-range selection is an index error; join_game appends the inserted packets; change_game_state drops the queued packet exactly when its reason is a weather reason; other packets change nothing |
| WeatherChanger.JoinGame | app/src/main/java/fr/rader/imbob/tasks/impl/WeatherChangerTask.java:47-91 | nothing is added for Clear; otherwise change_game_state's id for the packet's protocol is looked up and the packets InsertedFor lists are appended in order |
| WeatherChanger.QueuedAll | app/src/main/java/fr/rader/imbob/tasks/impl/WeatherChangerTask.java:78-89 | the queue after the branch is the old queue followed by the packets built, one per inserted reason |
| WeatherChanger.GameStates | app/src/main/java/fr/rader/imbob/tasks/impl/WeatherChangerTask.java:57-89 | builds one fresh change_game_state packet per inserted reason, each with its reason and float value |
| WeatherChanger.Enqueue | app/src/main/java/fr/rader/imbob/tasks/impl/WeatherChangerTask.java:78-79 | the packets are added at the tail in order |
| WeatherChanger.Fill | app/src/main/java/fr/rader/imbob/tasks/impl/WeatherChangerTask.java:67-68 | an empty packet gets the entries reason then value |
| WeatherChanger.ChangeGameState | app/src/main/java/fr/rader/imbob/tasks/impl/WeatherChangerTask.java:93-110 | reads reason as an Integer; a weather reason polls the head of the queue, any other reason leaves it; a missing reason is a NullPointerException |
| TimeChanger.Magnitude | app/src/main/java/fr/rader/imbob/tasks/impl/TimeChangerTask.java:40 | the absolute value of a mathematical integer |
| TimeChanger.JavaAbs | app/src/main/java/fr/rader/imbob/tasks/impl/TimeChangerTask.java:40 | Math.abs on an int: the magnitude, except that Integer.MIN_VALUE is returned unchanged |
| TimeChanger.JavaRem | app/src/main/java/fr/rader/imbob/tasks/impl/TimeChangerTask.java:40 | Java's % with a positive divisor: the remainder of the magnitudes, with the sign of the dividend |
| TimeChanger.NewTimeOfDay | app/src/main/java/fr/rader/imbob/tasks/impl/TimeChangerTask.java:39-40 | the intended new time: between -24000 exclusive and 0, equal to minus the time of day modulo a day |
| TimeChanger.MostNegativeTimeIsPositive | app/src/main/java/fr/rader/imbob/tasks/impl/TimeChangerTask.java:40 | as written, the time of day Integer.MIN_VALUE yields 11648, outside the promised range |
| TimeChanger.AsWrittenAgrees | app/src/main/java/fr/rader/imbob/tasks/impl/TimeChangerTask.java:40 | for every other time of day the expression as written and the intended one agree |
| TimeChanger.SetTime | app/src/main/java/fr/rader/imbob/tasks/impl/TimeChangerTask.java:43-48 | time_of_day set to the new time; a missing entry is a NullPointerException, a non-variable one a ClassCastException |
| TimeChanger.Child | app/src/main/java/fr/rader/imbob/tasks/impl/TimeChangerTask.java:57-67 | a named child of a compound is the first tag with that name |
| TimeChanger.FixElement | app/src/main/java/fr/rader/imbob/tasks/impl/TimeChangerTask.java:64-68 | fails exactly when fixed_time exists and is not a long, with a ClassCastException |
| TimeChanger.FixElementSets | app/src/main/java/fr/rader/imbob/tasks/impl/TimeChangerTask.java:64-68 | afterwards fixed_time is the new time: appended when absent, replaced in place when present |
| TimeChanger.FixDimension | app/src/main/java/fr/rader/imbob/tasks/impl/TimeChangerTask.java:61-69 | one dimension type's element is edited, keeping the tag's kind and name |
| TimeChanger.FixDimensionSets | app/src/main/java/fr/rader/imbob/tasks/impl/TimeChangerTask.java:61-69 | an edited dimension type holds the new fixed time and as many children as before |
| TimeChanger.Fixes | app/src/main/java/fr/rader/imbob/tasks/impl/TimeChangerTask.java:61-69 | one edit result per dimension type |
| TimeChanger.FixListSets | app/src/main/java/fr/rader/imbob/tasks/impl/TimeChangerTask.java:61-69 | the loop succeeds exactly when every dimension type can be edited, and then every one holds the new fixed time |
| TimeChanger.FixDimensions | app/src/main/java/fr/rader/imbob/tasks/impl/TimeChangerTask.java:61-69 | the loop over the dimension types computes FixList |
| TimeChanger.FixCodec | app/src/main/java/fr/rader/imbob/tasks/impl/TimeChangerTask.java:56-69 | the codec's minecraft:dimension_type compound and its value list must exist; the compound keeps its name and kind |
| TimeChanger.DimensionsReplaced | app/src/main/java/fr/rader/imbob/tasks/impl/TimeChangerTask.java:57-58 | replacing the value list inside dimension_type is what the codec's dimension types then read |
| TimeChanger.ChildReplaced | app/src/main/java/fr/rader/imbob/tasks/impl/TimeChangerTask.java:57-67 | replacing the first child of a name makes it the child of that name |
| TimeChanger.FixCodecSets | app/src/main/java/fr/rader/imbob/tasks/impl/TimeChangerTask.java:56-69 | after the edit every dimension type of the codec holds the new fixed time, and there are as many as before |
| TimeChanger.FixCodecTree | app/src/main/java/fr/rader/imbob/tasks/impl/TimeChangerTask.java:56-69 | the edit of the codec tree computes FixCodec |
| TimeChanger.FixJoinGame | app/src/main/java/fr/rader/imbob/tasks/impl/TimeChangerTask.java:54-69 | join_game's dimension_codec entry is replaced by the edited compound, and nothing else changes |
| TimeChanger.CodecAt | app/src/main/java/fr/rader/imbob/tasks/impl/TimeChangerTask.java:54-56 | the dimension_codec entry found by name, holding a compound |
| TimeChanger.FixJoinGameSets | app/src/main/java/fr/rader/imbob/tasks/impl/TimeChangerTask.java:50-71 | after the join_game edit every dimension type of the codec holds the new fixed time |
| TimeChanger.TimeChangerTask.constructor | app/src/main/java/fr/rader/imbob/tasks/impl/TimeChangerTask.java:19-35 | named by the class's simple name with priority 0 (TaskName is not the annotation the base class reads); accepts time_update in every version and join_game from 1.16; starts at noon |
| TimeChanger.TimeChangerTask.Render | app/src/main/java/fr/rader/imbob/tasks/impl/TimeChangerTask.java:78 | the time of day is clamped to 0..24000; one already in range is kept |
| TimeChanger.TimeChangerTask.Execute | app/src/main/java/fr/rader/imbob/tasks/impl/TimeChangerTask.java:38-73 | edits the packet's entries as Edit describes with the intended new time; on error the entries are unchanged |
| TimeChanger.Edit | app/src/main/java/fr/rader/imbob/tasks/impl/TimeChangerTask.java:42-72 | a null packet name is a NullPointerException; packets other than time_update and join_game are left unchanged |
| TimeChanger.JoinGame | app/src/main/java/fr/rader/imbob/tasks/impl/TimeChangerTask.java:50-71 | the join_game branch applies FixJoinGame to the entry list, or changes nothing on error |
| UsernameChanger.RenameEntry | app/src/main/java/fr/rader/imbob/tasks/impl/UsernameChangerTask.java:48-58 | non-match entries are skipped; a match entry keeps its kind, name, match value and entry count; the only failures are a missing name (NullPointerException) or a wrongly typed one (ClassCastException) |
| UsernameChanger.RenameEntrySets | app/src/main/java/fr/rader/imbob/tasks/impl/UsernameChangerTask.java:53-58 | a match entry whose name is the target gets exactly its name entry replaced by the new name; any other entry is unchanged |
| UsernameChanger.Renames | app/src/main/java/fr/rader/imbob/tasks/impl/UsernameChangerTask.java:48-59 | one rename result per entry of a player |
| UsernameChanger.RenameAllMeans | app/src/main/java/fr/rader/imbob/tasks/impl/UsernameChangerTask.java:48-59 | the inner loop succeeds exactly when every entry can be renamed, and then each entry is that entry renamed |
| UsernameChanger.RenameEntries | app/src/main/java/fr/rader/imbob/tasks/impl/UsernameChangerTask.java:48-59 | the inner loop computes RenameAll |
| UsernameChanger.EditFromOk | app/src/main/java/fr/rader/imbob/tasks/impl/UsernameChangerTask.java:45-60 | the loop over players succeeds exactly when every player from i on exists and can be edited |
| UsernameChanger.EditFromSets | app/src/main/java/fr/rader/imbob/tasks/impl/UsernameChangerTask.java:45-60 | after the loop each visited player is that player edited, the rest unchanged, the count kept |
| UsernameChanger.RenamePlayers | app/src/main/java/fr/rader/imbob/tasks/impl/UsernameChangerTask.java:44-60 | the players array entry is rebuilt with every player's entries renamed, keeping its name; the first error stops it |
| UsernameChanger.Rename | app/src/main/java/fr/rader/imbob/tasks/impl/UsernameChangerTask.java:37-70 | the edit keeps the number of top-level entries |
| UsernameChanger.OtherActionsKeep | app/src/main/java/fr/rader/imbob/tasks/impl/UsernameChangerTask.java:42-70 | any action other than add player leaves the packet as it was |
| UsernameChanger.RenameSets | app/src/main/java/fr/rader/imbob/tasks/impl/UsernameChangerTask.java:43-62 | with action add player the players array keeps its name and size, and each player is that player renamed |
| UsernameChanger.UsernameChangerTask.constructor | app/src/main/java/fr/rader/imbob/tasks/impl/UsernameChangerTask.java:19-33 | named by the class's simple name with priority 0 (TaskName is not the annotation the base class reads); accepts player_info in every version; both usernames start empty |
| UsernameChanger.UsernameChangerTask.Execute | app/src/main/java/fr/rader/imbob/tasks/impl/UsernameChangerTask.java:36-71 | edits the packet's entries as Rename describes; on error they are unchanged; a packet never decoded is a NullPointerException |
| SkinChanger.FindIn | app/src/main/java/fr/rader/imbob/tasks/impl/SkinChangerTask.java:61-67 | a block's entry looked up by name has that name and belongs to the block |
| SkinChanger.FindIsGet | app/src/main/java/fr/rader/imbob/tasks/impl/SkinChangerTask.java:61-67 | the lookup agrees with the data block's own get, and finds something exactly when contains is true |
| SkinChanger.FindInFirst | app/src/main/java/fr/rader/imbob/tasks/impl/SkinChangerTask.java:61-67 | the lookup is the first entry of that name |
| SkinChanger.Lookup | app/src/main/java/fr/rader/imbob/tasks/impl/SkinChangerTask.java:61-67 | the entries a lookup by name may read all carry that name |
| SkinChanger.Named | app/src/main/java/fr/rader/imbob/tasks/impl/SkinChangerTask.java:133-134 | the entries a lookup in many blocks may read all carry that name |
| SkinChanger.FieldAs | app/src/main/java/fr/rader/imbob/tasks/impl/SkinChangerTask.java:46 | a typed get that succeeds returns a value of the requested class |
| SkinChanger.FieldAsDereferences | app/src/main/java/fr/rader/imbob/tasks/impl/SkinChangerTask.java:46 | a failed cast is a ClassCastException and a missing entry, dereferenced, a NullPointerException |
| SkinChanger.StringField | app/src/main/java/fr/rader/imbob/tasks/impl/SkinChangerTask.java:67 | a String entry is read as its text; otherwise a NullPointerException or a ClassCastException |
| SkinChanger.ArrayField | app/src/main/java/fr/rader/imbob/tasks/impl/SkinChangerTask.java:59 | a DataBlockArray entry is read as the array; otherwise a NullPointerException or a ClassCastException |
| SkinChanger.VarIntField | app/src/main/java/fr/rader/imbob/tasks/impl/SkinChangerTask.java:103 | a VarInt entry is read as its value; otherwise a NullPointerException or a ClassCastException |
| SkinChanger.IntegerField | app/src/main/java/fr/rader/imbob/tasks/impl/SkinChangerTask.java:46 | an Integer entry is read as its value; otherwise a NullPointerException or a ClassCastException |
| SkinChanger.PropertySteps | app/src/main/java/fr/rader/imbob/tasks/impl/SkinChangerTask.java:133-140 | one answer per property of the forEach |
| SkinChanger.WrittenBy | app/src/main/java/fr/rader/imbob/tasks/impl/SkinChangerTask.java:135-136 | one property's step writes only its value and signature entries |
| SkinChanger.Written | app/src/main/java/fr/rader/imbob/tasks/impl/SkinChangerTask.java:133-140 | the forEach writes only value and signature entries |
| SkinChanger.TargetOutcome | app/src/main/java/fr/rader/imbob/tasks/impl/SkinChangerTask.java:130-151 | for a target player the properties loop runs to completion, and the flag ends raised exactly when it was already raised or some property is textures |
| SkinChanger.Turn | app/src/main/java/fr/rader/imbob/tasks/impl/SkinChangerTask.java:117-152 | a player's turn stops the loop only at the target while no skin is known, and raises the flag only at the target with a textures property |
| SkinChanger.TurnsAt | app/src/main/java/fr/rader/imbob/tasks/impl/SkinChangerTask.java:117-152 | the player loop is one turn followed by the rest: an error or an early return ends it |
| SkinChanger.ViewsOf | app/src/main/java/fr/rader/imbob/tasks/impl/SkinChangerTask.java:117 | one view per player |
| SkinChanger.TurnsStop | app/src/main/java/fr/rader/imbob/tasks/impl/SkinChangerTask.java:72-75 | the loop returns early only when some player is the target and the skin is unknown |
| SkinChanger.TurnsRaise | app/src/main/java/fr/rader/imbob/tasks/impl/SkinChangerTask.java:85 | the flag is raised only when a skin is known and some target player has a textures property |
| SkinChanger.TurnsWithoutTarget | app/src/main/java/fr/rader/imbob/tasks/impl/SkinChangerTask.java:117-122 | a packet without the target player runs to the end and changes nothing |
| SkinChanger.FootprintFrom | app/src/main/java/fr/rader/imbob/tasks/impl/SkinChangerTask.java:117-152 | the objects the loop may write include every player's |
| SkinChanger.ReadsFrom | app/src/main/java/fr/rader/imbob/tasks/impl/SkinChangerTask.java:117-152 | the objects the loop reads are exactly the union of each player's |
| SkinChanger.ReadsArePacket | app/src/main/java/fr/rader/imbob/tasks/impl/SkinChangerTask.java:117-152 | a player's reads are packet data, never the task |
| SkinChanger.ReadsOf | app/src/main/java/fr/rader/imbob/tasks/impl/SkinChangerTask.java:117-152 | one read set per player |
| SkinChanger.ReadsFromArePacket | app/src/main/java/fr/rader/imbob/tasks/impl/SkinChangerTask.java:117-152 | everything the loop reads is packet data, so fetching the skin does not change what it reads |
| SkinChanger.AddTextures | app/src/main/java/fr/rader/imbob/tasks/impl/SkinChangerTask.java:143-147 | a fresh property is appended holding name textures, the skin's value, is_signed true and its signature |
| SkinChanger.AddMissingTextures | app/src/main/java/fr/rader/imbob/tasks/impl/SkinChangerTask.java:142-151 | appends the textures property; before 1.19.3 number_of_properties grows by one, wrapping at 32 bits; a missing or wrongly typed count is an error |
| SkinChanger.SkinChangerTask.constructor | app/src/main/java/fr/rader/imbob/tasks/impl/SkinChangerTask.java:19-43 | named Skin Changer with priority 100, accepts player_info in every version, starts with empty inputs, no cached skin and the flag down |
| SkinChanger.SkinChangerTask.SetInputs | app/src/main/java/fr/rader/imbob/tasks/impl/SkinChangerTask.java:169-170 | the two text inputs are set |
| SkinChanger.SkinChangerTask.EditProperty | app/src/main/java/fr/rader/imbob/tasks/impl/SkinChangerTask.java:133-140 | one property: textures gets the skin's value and signature and raises the flag; any other is untouched; a missing name is a NullPointerException |
| SkinChanger.SkinChangerTask.EditProperties | app/src/main/java/fr/rader/imbob/tasks/impl/SkinChangerTask.java:133-140 | the forEach: fails exactly when some property fails, and otherwise raises the flag exactly when it was raised or some property is textures, writing the skin into each of them |
| SkinChanger.SkinChangerTask.EditTarget | app/src/main/java/fr/rader/imbob/tasks/impl/SkinChangerTask.java:130-151 | the target's properties are edited; when no textures property was found one is appended (and the count raised before 1.19.3) |
| SkinChanger.SkinChangerTask.EditPlayer | app/src/main/java/fr/rader/imbob/tasks/impl/SkinChangerTask.java:117-152 | one player's turn does what Turn describes, and every value written holds the skin |
| SkinChanger.SkinChangerTask.EditPlayers | app/src/main/java/fr/rader/imbob/tasks/impl/SkinChangerTask.java:117-152 | the player loop does what Turns describes |
| SkinChanger.SkinChangerTask.EditFetched | app/src/main/java/fr/rader/imbob/tasks/impl/SkinChangerTask.java:116-155 | after the loop the flag is reset to false, except after the early return for an unknown skin |
| SkinChanger.SkinChangerTask.EditList | app/src/main/java/fr/rader/imbob/tasks/impl/SkinChangerTask.java:111-155 | the skin is fetched once and cached, then the player loop runs with it |
| SkinChanger.SkinChangerTask.Execute | app/src/main/java/fr/rader/imbob/tasks/impl/SkinChangerTask.java:45-165 | edit761 from 1.19.3 (action bit 0, actions list) and edit before (action VarInt 0, players list); a packet not adding players changes nothing |
| Search.FirstIndex | app/src/main/java/fr/rader/imbob/types/nbt/TagCompound.java:158-166 | the position of the first element passing the test: it passes, none before it does, and there is none exactly when no element passes |
| Search.First | app/src/main/java/fr/rader/imbob/types/nbt/TagCompound.java:158-166 | the first element passing the test: it passes, it is in the list with none passing before it, and there is none exactly when no element passes |
| Search.FirstAt | app/src/main/java/fr/rader/imbob/types/nbt/TagCompound.java:158-166 | an element that passes with none passing before it is the one found |
| Search.RemoveAll | app/src/main/java/fr/rader/imbob/types/nbt/TagCompound.java:128-130 | removeIf keeps exactly the elements that fail the test, and no others |
| Search.RemoveAllNone | app/src/main/java/fr/rader/imbob/types/nbt/TagCompound.java:128-130 | removeIf with nothing to remove leaves the list unchanged |
| Search.RemoveAllAppend | app/src/main/java/fr/rader/imbob/types/nbt/TagCompound.java:128-130 | removeIf on a concatenation works part by part, keeping the order |
| Search.RemoveFirst | app/src/main/java/fr/rader/imbob/types/nbt/TagCompound.java:138-140 | List.remove(Object) removes the first occurrence and keeps the rest in order; an absent element changes nothing |
| Search.Prepend | app/src/main/java/fr/rader/imbob/tasks/impl/UsernameChangerTask.java:48-59 | putting results already gathered before the rest of a loop's results |
| Search.CollectMeans | app/src/main/java/fr/rader/imbob/tasks/impl/UsernameChangerTask.java:48-59 | a loop over results succeeds exactly when every step does, and then yields each step's value in order |
| Search.PrependStep | app/src/main/java/fr/rader/imbob/tasks/impl/UsernameChangerTask.java:48-59 | one successful step moves its value from the rest of the loop to the results gathered |
| Search.RaiseFrom | app/src/main/java/fr/rader/imbob/tasks/impl/SkinChangerTask.java:133-140 | a flag raised before the forEach stays raised after it |
| Search.RaiseFromCollects | app/src/main/java/fr/rader/imbob/tasks/impl/SkinChangerTask.java:133-140 | the forEach fails exactly when some step fails, and otherwise raises the flag exactly when it was raised or some step raised it |

## Left out

- Executable model: the classes and methods call the corrected member for five of the seven rows under "## Findings": the task comparator, getValueAs, getVariableValue, the new time of day and writing a null compound. There the as-written behaviour is stated and proved only in the lemmas the row names. The other two are modelled as written:
  - readPosition: Reader.DataReader.ReadPosition and Tokens.ParsePosition take z from the low 26 bits, as the code does. Positions.Unpack and Positions.NewLayoutRoundTrip hold the corrected reading, which no other member uses. The round-trip lemmas for tokens and packets therefore cover POSITION fields before 1.14 only.
  - getPSLPath: Registry.GetPSLPath picks the schema file after sorting the names as strings (PslPathAsWritten). Registry.PslPath and Registry.NewestUpTo hold the corrected choice, which no other member uses.
- Packets.Packet.IsEmpty: tests `data.isEmpty() && entries == null` where app/src/main/java/fr/rader/imbob/packets/Packet.java:51-53 tests only the data block. The repository mixes revisions of Packet. Packet.java has no entry list, while PacketDeserializer, PacketSerializer and TaskExecutor call setEntry, getEntries and clone on it. Taken literally, a decoded packet would stay "empty": every accepting task would decode it again from the advanced reader, and the record would then be copied through from the wrong position. The model takes the reading under which the loop works: a packet with a decoded entry list is not empty. So it is decoded once and copied through only when no task accepted it.
- Executor.TaskExecutor.ApplyTasks: queues one clone per accepting task, as TaskExecutor.java:139 does. When weather and time both accept join_game (from 1.16), the packet is written twice. The code gives no evident intended behaviour, so this is modelled as written and is not listed as a finding.
- Serialization.MatchSpliceBreaksRoundTrip: has no corrected counterpart. The fix would belong in MatchRule and the schema compiler, and MatchRule.java is not part of this model.
- Registry.PacketAcceptor.From: returns a new acceptor with the lower bound set, where PacketAcceptor.java:44-47 sets `fromVersion` on `this` and returns `this`. The bounds are constants so that acceptance does not depend on the heap. Every caller chains the call on an acceptor it has just built, so it sees the same acceptor either way.
- Registry.PacketAcceptor.To: returns a new acceptor with the upper bound set, where PacketAcceptor.java:55-58 sets `toVersion` on `this`; the same reasoning applies.
- Tasks.AbstractTask.constructor: takes the task's acceptors as a parameter. In the source each subclass constructor registers them with acceptPacket (AbstractTask.java:41-43); the list never changes after construction.
- Deserialization.PacketDeserializer: its methods require a non-null reader. The NullPointerException the source throws without one is not modelled.
- Writer.DataWriter: the IOException that flush can raise on the output stream is not modelled; the stream is a sequence of bytes.
- Registry.PslPath: the listing of the schema folder is a parameter. The case of `File.list()` returning null is not modelled.
- Protocols: ProtocolVersion.getInstance returning null after an IOException is not modelled. The registry of versions is a parameter.
- SkinChanger.SkinChangerTask.Execute: requires that no player's turn changes what a later turn reads (Separated). This rules out aliased property arrays and Data objects. That a packet built by the deserializer satisfies it is not proved.
- Strings: characters are ASCII. Java's Unicode-aware toLowerCase is modelled as ASCII lower-casing. CharacterUtils is not part of this model; its tests are taken to be the ASCII ranges their names say. The NullPointerException of hasUpperCaseLetters and isSnakeCase on a null string is not modelled.
- Inconsistent revisions: the source does not compile as given, and the model takes one reading of each inconsistency:
  - Packet's setEntry, getEntries and clone: an entry list beside the data block;
  - `VarInt.getValue`: the held int;
  - `new DataWriter(false)`: the in-memory writer;
  - `@TaskName` against `@Task`: the name is passed to the constructor;
  - `ProtocolVersion.MC_1_14` against `get(...)`: named protocol constants 477, 735 and 761;
  - the one-argument VariableEntry constructor;
  - getEntriesForIndex on ArrayEntry.
- Effects outside the model: the progress bar, `System.out.println(tasks)`, reading and writing the replay zip and its JSON metadata, threads, LoggerWindow and the UI. The packet-definition factory (the schema compiler) and the Mojang skin lookup are function parameters.
- Floating-point fields (float and double) are kept as their raw bytes and never interpreted.
- Varints: a non-canonical encoding (a redundant 0x80 continuation byte) reads as its value but is written back in canonical form. The round-trip lemmas therefore start from bytes the writer produced, not from arbitrary input.
- UTF-8: the writer encodes each character in 1 to 4 bytes. A supplementary character (0x10000 and above) counts as two units in String.length(), the two halves of its surrogate pair. A lone surrogate, which Java writes as '?', cannot occur, because a Dafny char is a Unicode scalar value. The reader reads one char per byte.
- Executor.TaskExecutor: `reader.hasNext()` is taken to be "bytes remain". The length a decode consumes is not checked against the record's size, just as in the source.
- Entries: entry trees are values. A clone that shares entry objects with the packet it came from, and later in-place edits seen through both, are not captured.

## Findings

| source | as written | input that shows it | evidently intended | confidence | as-written member | corrected member |
|---|---|---|---|---|---|---|
| app/src/main/java/fr/rader/imbob/tasks/TaskExecutor.java:41 | tasks are sorted by `o2.getPriority() - o1.getPriority()` on 32-bit ints, which overflows | priorities 1, 0 and -2^31: 1 sorts before 0, 0 before -2^31 and -2^31 before 1, so the comparator is not an order | compare the priorities without overflow, highest first | not executed | Executor.CompareAsWrittenCycles | Executor.ComparePriorityIsOrder |
| app/src/main/java/fr/rader/imbob/psl/packets/serialization/entries/VariableEntry.java:20-22 | getValueAs casts the entry itself (`clazz.cast(this)`), not its value | any VariableEntry holding a VarInt, asked for VarInt.class: ClassCastException | `clazz.cast(value)` | not executed | Entries.ValueAsCastsTheEntry | Entries.GetValueAs |
| app/src/main/java/fr/rader/imbob/psl/packets/serialization/PacketDeserializer.java:159-189 | getVariableValue parses the entry's own text, so parseInt throws NumberFormatException | an array whose length variable `count` was read as the VarInt 2 | parse the value's text | not executed | Deserialization.LookupAsWrittenNeverSucceeds | Deserialization.Lookup |
| app/src/main/java/fr/rader/imbob/tasks/impl/TimeChangerTask.java:40 | `-(Math.abs(timeOfDay) % 24000)`, and Math.abs(Integer.MIN_VALUE) is negative | time of day Integer.MIN_VALUE gives 11648, a positive time | a time in -23999..0 | not executed | TimeChanger.MostNegativeTimeIsPositive | TimeChanger.NewTimeOfDay |
| app/src/main/java/fr/rader/imbob/utils/data/DataReader.java:204-208 | from 1.14 z is taken from bits 0-25 of the long, over y's 12 bits | position (0, 0, 1) written from 1.14 reads back as (0, 0, 4096) | z from bits 12-37, as writePosition packs it | not executed | Tokens.NewLayoutTokenLosesZ | Positions.NewLayoutRoundTrip |
| app/src/main/java/fr/rader/imbob/packets/Packets.java:28-50 | schema files are sorted by name as strings before the newest one up to the version is picked | files 47.psl, 340.psl and 498.psl at version 400: 47.psl is picked | 340.psl, the newest schema at or before the version | not executed | Registry.StringOrderPicksOlderSchema | Registry.PslPath |
| app/src/main/java/fr/rader/imbob/utils/data/DataWriter.java:191-195 | an NBT field is written with `compound.write`, which throws NullPointerException on a null compound | the input byte [0], which readNBT reads as null | write the single 0 byte back | not executed | Tokens.AbsentCompoundNotWritable | Tokens.AbsentCompoundRoundTrip |
