/** Packet: a protocol version and packet id that never change, a name, and the fields
    a task edits. Fields are kept two ways, as the code that uses them does: the
    DataBlock of Packet.java (`add`/`update`/`get`), and the entry list the deserializer
    fills (`setEntry`), which the serializer and the tasks read. */
module Packets {
  import opened Base
  import opened Protocols
  import opened Tokens
  import opened Entries
  import opened DataBlocks

  class Packet {
    const protocol: Protocol
    const packetId: Int32
    /** `isConfigurationPacket`: whether the packet belongs to the configuration phase. */
    const configuration: bool
    const data: DataBlock
    var packetName: Option<string>
    /** The decoded entries (`setEntry`), null until the packet is decoded. */
    var entries: EntryList?

    /** `new Packet(protocol, id)`: no fields, no name, not decoded. */
    constructor (protocol: Protocol, packetId: Int32)
      ensures this.protocol == protocol && this.packetId == packetId && !configuration
      ensures fresh(data) && data.data == [] && packetName == None && entries == null
    {
      this.protocol := protocol;
      this.packetId := packetId;
      this.configuration := false;
      this.data := new DataBlock();
      this.packetName := None;
      this.entries := null;
    }

    /** `new Packet(protocol, id, isConfigurationPacket)`. */
    constructor Configured(protocol: Protocol, packetId: Int32, configuration: bool)
      ensures this.protocol == protocol && this.packetId == packetId
      ensures this.configuration == configuration
      ensures fresh(data) && data.data == [] && packetName == None && entries == null
    {
      this.protocol := protocol;
      this.packetId := packetId;
      this.configuration := configuration;
      this.data := new DataBlock();
      this.packetName := None;
      this.entries := null;
    }

    /** A field-by-field copy of `other`: the copy shares its data block and its entry
        list. */
    constructor Copy(other: Packet)
      ensures protocol == other.protocol && packetId == other.packetId
      ensures configuration == other.configuration && data == other.data
      ensures packetName == other.packetName && entries == other.entries
    {
      this.protocol := other.protocol;
      this.packetId := other.packetId;
      this.configuration := other.configuration;
      this.data := other.data;
      this.packetName := other.packetName;
      this.entries := other.entries;
    }

    method SetPacketName(name: Option<string>)
      modifies this
      ensures packetName == name && entries == old(entries)
    {
      packetName := name;
    }

    /** `setEntry`: the packet now holds the decoded list. */
    method SetEntries(list: EntryList)
      modifies this
      ensures entries == list && packetName == old(packetName)
    {
      entries := list;
    }

    /** add(name, value): a new field at the end of the data block. A later `get(name)`
        finds it unless a field of that name was there before. */
    method Add(name: string, value: Field)
      modifies data
      ensures |data.data| == |old(data.data)| + 1 && data.data[..|old(data.data)|] == old(data.data)
      ensures fresh(data.data[|old(data.data)|])
      ensures data.data[|old(data.data)|].name == name && data.data[|old(data.data)|].value == value
      ensures old(data.Get(name)).Some? ==> data.Get(name) == old(data.Get(name))
      ensures old(data.Get(name)).None? ==> data.Get(name) == Some(data.data[|old(data.data)|])
    {
      data.Add(name, value);
      DataBlocks.AddThenGet(old(data.data), data.data, name, data.data[|old(data.data)|]);
    }

    /** update(name, value): the first field of that name takes the value; nothing
        changes when there is none. */
    method Update(name: string, value: Field)
      modifies data.data
      ensures !old(data.Contains(name)) ==> unchanged(old(data.data))
      ensures old(data.Contains(name)) ==> old(data.Get(name)).value.value == value
      ensures forall d :: d in old(data.data) && Some(d) != old(data.Get(name)) ==> d.value == old(d.value)
    {
      data.Update(name, value);
    }

    /** get(name, clazz). */
    function Get(name: string, c: FieldClass): (r: Result<Option<Field>>)
      reads this, data, data.data
    {
      data.GetAs(name, c)
    }

    /** Whether the packet holds nothing yet: no field in its data block and no decoded
        entry list. */
    predicate IsEmpty()
      reads this, data
      ensures IsEmpty() <==> (forall name :: !data.Contains(name)) && entries == null
    {
      data.IsEmpty() && entries == null
    }

    /** cloneEmpty: a new packet of the same protocol, id and name, with no fields; the
        original is left as it was. */
    method CloneEmpty() returns (p: Packet)
      ensures fresh(p) && fresh(p.data) && p.IsEmpty() && !p.configuration
      ensures p.protocol == protocol && p.packetId == packetId && p.packetName == packetName
    {
      p := new Packet(protocol, packetId);
      p.SetPacketName(packetName);
    }

    /** `clone()`, which TaskExecutor queues: a shallow copy, so edits made afterwards
        through the shared entry list or data block show in both. */
    method Clone() returns (p: Packet)
      ensures fresh(p) && p.protocol == protocol && p.packetId == packetId
      ensures p.configuration == configuration && p.packetName == packetName
      ensures p.data == data && p.entries == entries
    {
      p := new Packet.Copy(this);
    }
  }
}
