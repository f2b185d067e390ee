/** WeatherChangerTask: after join_game it queues change_game_state packets that start
    rain (and thunder) at full level, and it drops the recorded change_game_state
    packets that would change the weather again. */
module WeatherChanger {
  import opened Base
  import opened Protocols
  import opened Tokens
  import Entries
  import opened DataBlocks
  import opened Registry
  import opened Tasks
  import Packets

  const BEGIN_RAIN: Int32 := 1
  const END_RAIN: Int32 := 2
  const RAIN_LEVEL_CHANGE: Int32 := 7
  const THUNDER_LEVEL_CHANGE: Int32 := 8

  const WEATHERS: seq<string> := ["Clear", "Rain", "Thunder"]

  /** The float values the queued packets carry, as the big-endian IEEE 754 bytes a
      FloatValue holds: 0f and 1f. */
  const ZERO_F: seq<Byte> := [0x00, 0x00, 0x00, 0x00]
  const ONE_F: seq<Byte> := [0x3F, 0x80, 0x00, 0x00]

  /** The (reason, value) pairs queued after join_game for a weather, in order. */
  function InsertedFor(weather: string): (r: seq<(Int32, seq<Byte>)>)
    ensures weather == "Clear" ==> r == []
    ensures weather == "Rain" ==> r == [(BEGIN_RAIN, ZERO_F), (RAIN_LEVEL_CHANGE, ONE_F)]
    ensures weather == "Thunder" ==>
              r == [(BEGIN_RAIN, ZERO_F), (RAIN_LEVEL_CHANGE, ONE_F), (THUNDER_LEVEL_CHANGE, ONE_F)]
  {
    if weather == "Clear" then []
    else if weather == "Thunder" then [(BEGIN_RAIN, ZERO_F), (RAIN_LEVEL_CHANGE, ONE_F), (THUNDER_LEVEL_CHANGE, ONE_F)]
    else [(BEGIN_RAIN, ZERO_F), (RAIN_LEVEL_CHANGE, ONE_F)]
  }

  /** The reasons of change_game_state that change the weather. */
  predicate IsWeatherReason(reason: int) {
    reason == BEGIN_RAIN || reason == END_RAIN || reason == RAIN_LEVEL_CHANGE || reason == THUNDER_LEVEL_CHANGE
  }

  /** Every packet the task queues has a weather reason: the task would drop its own
      packets if it met them as recorded ones, and keeps every other reason. */
  lemma InsertedAreWeatherReasons(weather: string)
    requires weather in WEATHERS
    ensures forall k :: 0 <= k < |InsertedFor(weather)| ==> IsWeatherReason(InsertedFor(weather)[k].0)
    ensures weather != "Clear" ==> InsertedFor(weather)[0] == (BEGIN_RAIN, ZERO_F)
  {
  }

  /** A queued change_game_state packet: the protocol and id given, not a configuration
      packet, no name, and exactly the fields `reason` then `value`. */
  predicate GameStatePacket(p: Packets.Packet, protocol: Protocol, id: Int32, reason: Int32, value: seq<Byte>)
    reads p, p.data, p.data.data
  {
    p.protocol == protocol && p.packetId == id && !p.configuration && p.packetName == None &&
    p.entries == null && |p.data.data| == 2 &&
    p.data.data[0].name == "reason" && p.data.data[0].value == Plain(IntValue(reason)) &&
    p.data.data[1].name == "value" && p.data.data[1].value == Plain(FloatValue(value))
  }

  class WeatherChangerTask {
    const task: AbstractTask
    /** The ImInt of the weather combo box, an index into WEATHERS. */
    var selectedWeather: Int32

    /** `@Task("Weather Changer")`, priority 0; accepts change_game_state and join_game,
        looked up in the packet data by name. */
    constructor (changeGameState: PacketMetaData, joinGame: PacketMetaData)
      ensures fresh(task) && task.taskName == "Weather Changer" && task.priority == 0
      ensures |task.acceptors| == 2 && fresh(task.acceptors[0]) && fresh(task.acceptors[1])
      ensures task.acceptors[0].packetToAccept == changeGameState && !task.acceptors[0].configuration
      ensures task.acceptors[1].packetToAccept == joinGame && !task.acceptors[1].configuration
      ensures forall k :: 0 <= k < 2 ==> task.acceptors[k].fromVersion.None? && task.acceptors[k].toVersion.None?
      ensures selectedWeather == 0
    {
      var a := new PacketAcceptor.Of(changeGameState);
      var b := new PacketAcceptor.Of(joinGame);
      var t := new AbstractTask(Some(TaskAnnotation("Weather Changer", 0)), "WeatherChangerTask", [a, b]);
      task := t;
      selectedWeather := 0;
    }

    /** execute: the weather index is checked first (WEATHERS[i]), then the packet's
        name chooses the branch. */
    method Execute(registry: seq<Protocol>, packetData: seq<PacketMetaData>, packet: Packets.Packet, queue: PacketQueue)
      returns (r: Result<()>)
      modifies queue
      ensures !(0 <= selectedWeather < |WEATHERS|) ==>
                r == Err(IndexOutOfBounds) && queue.items == old(queue.items)
      ensures 0 <= selectedWeather < |WEATHERS| && packet.packetName.None? ==>
                r == Err(NullPointer) && queue.items == old(queue.items)
      ensures 0 <= selectedWeather < |WEATHERS| && packet.packetName == Some("join_game") ==>
                var pairs := InsertedFor(WEATHERS[selectedWeather]);
                var meta := GetByName(packetData, "change_game_state");
                (pairs == [] ==> r == Ok(()) && queue.items == old(queue.items)) &&
                (pairs != [] && meta.None? ==> r == Err(NullPointer) && queue.items == old(queue.items)) &&
                (pairs != [] && meta.Some? ==>
                   var id := PacketIdForProtocol(registry, meta.value, packet.protocol);
                   (id.Err? ==> r == Err(id.error) && queue.items == old(queue.items)) &&
                   (id.Ok? ==> r == Ok(()) && QueuedTail(old(queue.items), queue.items, packet.protocol, id.value, pairs)))
      ensures 0 <= selectedWeather < |WEATHERS| && packet.packetName == Some("change_game_state") ==>
                GameStateDropped(packet.Get("reason", ValueClassOf(Entries.IntegerClass)), old(queue.items), queue.items, r)
      ensures 0 <= selectedWeather < |WEATHERS| && packet.packetName.Some? &&
              packet.packetName.value != "join_game" && packet.packetName.value != "change_game_state" ==>
                r == Ok(()) && queue.items == old(queue.items)
    {
      if !(0 <= selectedWeather < |WEATHERS|) {
        return Err(IndexOutOfBounds);
      }
      var newWeather := WEATHERS[selectedWeather];
      if packet.packetName.None? {
        // the switch on a null string
        return Err(NullPointer);
      }
      var name := packet.packetName.value;
      if name == "join_game" {
        r := JoinGame(registry, packetData, packet.protocol, newWeather, queue);
      } else if name == "change_game_state" {
        r := ChangeGameState(packet, queue);
      } else {
        r := Ok(());
      }
    }
  }

  /** What the change_game_state branch leaves: the reason read as an Integer (null
      cannot be unboxed), and the queue head dropped for a weather reason. */
  predicate GameStateDropped(reason: Result<Option<Field>>, before: seq<Packets.Packet>, after: seq<Packets.Packet>, r: Result<()>) {
    if reason.Err? then r == Err(reason.error) && after == before
    else if reason.value.None? then r == Err(NullPointer) && after == before
    else
      r == Ok(()) &&
      var f := reason.value.value;
      after == if f.Plain? && f.plain.IntValue? && IsWeatherReason(f.plain.intValue) && before != [] then before[1..] else before
  }

  /** The join_game branch: nothing for Clear; otherwise change_game_state and its id
      for the protocol are looked up, then one fresh packet per (reason, value) pair of
      the weather is queued, in order, at the tail. */
  method JoinGame(registry: seq<Protocol>, packetData: seq<PacketMetaData>, protocol: Protocol, weather: string,
                  queue: PacketQueue) returns (r: Result<()>)
    modifies queue
    ensures InsertedFor(weather) == [] ==> r == Ok(()) && queue.items == old(queue.items)
    ensures InsertedFor(weather) != [] && GetByName(packetData, "change_game_state").None? ==>
              r == Err(NullPointer) && queue.items == old(queue.items)
    ensures InsertedFor(weather) != [] && GetByName(packetData, "change_game_state").Some? ==>
              var id := PacketIdForProtocol(registry, GetByName(packetData, "change_game_state").value, protocol);
              (id.Err? ==> r == Err(id.error) && queue.items == old(queue.items)) &&
              (id.Ok? ==> r == Ok(()) && QueuedTail(old(queue.items), queue.items, protocol, id.value, InsertedFor(weather)))
  {
    if weather == "Clear" {
      return Ok(());
    }
    var meta := GetByName(packetData, "change_game_state");
    if meta.None? {
      return Err(NullPointer);
    }
    var id :- PacketIdForProtocol(registry, meta.value, protocol);
    var ps := GameStates(protocol, id, weather == "Thunder");
    ghost var before := queue.items;
    Enqueue(queue, ps);
    QueuedAll(before, queue.items, ps, protocol, id, InsertedFor(weather));
    return Ok(());
  }

  /** Appending packets that match `pairs` one by one queues them at the tail. */
  lemma QueuedAll(before: seq<Packets.Packet>, after: seq<Packets.Packet>, ps: seq<Packets.Packet>,
                  protocol: Protocol, id: Int32, pairs: seq<(Int32, seq<Byte>)>)
    requires after == before + ps && |ps| == |pairs|
    requires forall k :: 0 <= k < |ps| ==> GameStatePacket(ps[k], protocol, id, pairs[k].0, pairs[k].1)
    ensures QueuedTail(before, after, protocol, id, pairs)
  {
    assert after[..|before|] == before;
    forall k | 0 <= k < |pairs|
      ensures GameStatePacket(after[|before| + k], protocol, id, pairs[k].0, pairs[k].1)
    {
      assert after[|before| + k] == ps[k];
    }
  }

  /** The packets join_game queues: begin rain at level 0, set the rain level to 1 and,
      for thunder, set the thunder level to 1; the later ones are `cloneEmpty` of the
      first. */
  method GameStates(protocol: Protocol, id: Int32, thunder: bool) returns (ps: seq<Packets.Packet>)
    ensures |ps| == |InsertedFor(if thunder then "Thunder" else "Rain")|
    ensures forall k :: 0 <= k < |ps| ==> fresh(ps[k]) && fresh(ps[k].data)
    ensures forall k :: 0 <= k < |ps| ==>
              GameStatePacket(ps[k], protocol, id, InsertedFor(if thunder then "Thunder" else "Rain")[k].0,
                              InsertedFor(if thunder then "Thunder" else "Rain")[k].1)
  {
    var beginRain := new Packets.Packet.Configured(protocol, id, false);
    Fill(beginRain, BEGIN_RAIN, ZERO_F);
    var setRainLevel := beginRain.CloneEmpty();
    Fill(setRainLevel, RAIN_LEVEL_CHANGE, ONE_F);
    assert GameStatePacket(beginRain, protocol, id, BEGIN_RAIN, ZERO_F);
    if thunder {
      var setThunderLevel := beginRain.CloneEmpty();
      Fill(setThunderLevel, THUNDER_LEVEL_CHANGE, ONE_F);
      ps := [beginRain, setRainLevel, setThunderLevel];
    } else {
      ps := [beginRain, setRainLevel];
    }
  }

  /** The packets after `before` in `after` are change_game_state packets for `pairs`. */
  ghost predicate QueuedTail(before: seq<Packets.Packet>, after: seq<Packets.Packet>, protocol: Protocol, id: Int32,
                             pairs: seq<(Int32, seq<Byte>)>)
    reads after, set k | 0 <= k < |after| :: after[k].data
    reads set k, i | 0 <= k < |after| && 0 <= i < |after[k].data.data| :: after[k].data.data[i]
  {
    |after| == |before| + |pairs| && after[..|before|] == before &&
    forall k :: 0 <= k < |pairs| ==> GameStatePacket(after[|before| + k], protocol, id, pairs[k].0, pairs[k].1)
  }

  /** `add` of each packet, in order. */
  method Enqueue(queue: PacketQueue, ps: seq<Packets.Packet>)
    modifies queue
    ensures queue.items == old(queue.items) + ps
  {
    for i := 0 to |ps|
      invariant queue.items == old(queue.items) + ps[..i]
    {
      queue.Add(ps[i]);
    }
  }

  /** `add("reason", reason)` then `add("value", value)` on a packet with no fields. */
  method Fill(p: Packets.Packet, reason: Int32, value: seq<Byte>)
    requires p.data.data == []
    modifies p.data
    ensures |p.data.data| == 2 && fresh(p.data.data[0]) && fresh(p.data.data[1])
    ensures p.data.data[0].name == "reason" && p.data.data[0].value == Plain(IntValue(reason))
    ensures p.data.data[1].name == "value" && p.data.data[1].value == Plain(FloatValue(value))
  {
    p.Add("reason", Plain(IntValue(reason)));
    p.Add("value", Plain(FloatValue(value)));
  }

  /** The change_game_state branch. */
  method ChangeGameState(packet: Packets.Packet, queue: PacketQueue) returns (r: Result<()>)
    modifies queue
    ensures GameStateDropped(packet.Get("reason", ValueClassOf(Entries.IntegerClass)), old(queue.items), queue.items, r)
  {
    var reason :- packet.Get("reason", ValueClassOf(Entries.IntegerClass));
    if reason.None? {
      // unboxing null into an int
      return Err(NullPointer);
    }
    if !IsWeatherReason(reason.value.plain.intValue) {
      return Ok(());
    }
    var polled := queue.Poll();
    return Ok(());
  }
}
