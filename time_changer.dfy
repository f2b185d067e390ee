/** TimeChangerTask: every time_update gets a fixed, negative time of day (a negative
    time stops the daylight cycle), and from 1.16 on every dimension type of join_game's
    dimension codec gets a `fixed_time` tag with that time. The NBT tree is a value
    here: an edit of a tag inside it is the tree with that tag replaced. */
module TimeChanger {
  import opened Base
  import opened Tokens
  import opened Entries
  import N = NbtFormat
  import Search
  import NbtTags
  import Maths
  import opened Protocols
  import Registry
  import opened Tasks
  import Packets

  const TICKS_PER_DAY: int := 24000
  const NOON: Int32 := 6000
  const INT_MIN: int := -0x8000_0000

  // ---------------------------------------------------------------- the new time

  /** The magnitude of a number, without Java's int overflow. */
  function Magnitude(x: int): (r: nat)
    ensures r == x || r == -x
  {
    if x < 0 then -x else x
  }

  /** Math.abs(int): the negation wraps, so the most negative int is its own absolute
      value. */
  function JavaAbs(x: Int32): (r: Int32)
    ensures x != INT_MIN ==> r == Magnitude(x)
    ensures x == INT_MIN ==> r == x
  {
    if x == INT_MIN then x else Magnitude(x)
  }

  /** Java's `%` on a positive divisor: the remainder has the sign of the dividend. */
  function JavaRem(a: int, b: int): (r: int)
    requires b > 0
    ensures Magnitude(r) == Magnitude(a) % b
    ensures a >= 0 ==> 0 <= r
    ensures a < 0 ==> r <= 0
  {
    if a >= 0 then a % b else -((-a) % b)
  }

  /** `-(Math.abs(timeOfDay) % TICKS_PER_DAY)` as written, in int arithmetic. */
  function NewTimeAsWritten(timeOfDay: Int32): int {
    -JavaRem(JavaAbs(timeOfDay), TICKS_PER_DAY)
  }

  /** The new time as the comment above it intends: a value in (-24000, 0] that is
      the time of day, taken modulo a day, made negative. */
  function NewTimeOfDay(timeOfDay: Int32): (r: Int64)
    ensures -TICKS_PER_DAY < r <= 0
    ensures (Magnitude(timeOfDay) + r) % TICKS_PER_DAY == 0
  {
    -(Magnitude(timeOfDay) % TICKS_PER_DAY)
  }

  /** The most negative int escapes the intended range: Math.abs leaves it negative,
      and the negated remainder is positive. */
  lemma MostNegativeTimeIsPositive()
    ensures NewTimeAsWritten(INT_MIN as Int32) == 11648
    ensures !(-TICKS_PER_DAY < NewTimeAsWritten(INT_MIN as Int32) <= 0)
  {
    assert JavaAbs(INT_MIN as Int32) == -2147483648;
    assert JavaRem(-2147483648, TICKS_PER_DAY) == -((2147483648) % TICKS_PER_DAY);
  }

  /** Everywhere else the expression as written is the intended one, in particular on
      the [0, 24000] that render clamps the input into. */
  lemma AsWrittenAgrees(timeOfDay: Int32)
    requires timeOfDay != INT_MIN
    ensures NewTimeAsWritten(timeOfDay) == NewTimeOfDay(timeOfDay)
  {
  }

  // ---------------------------------------------------------------- time_update

  /** time_update: `getEntry("time_of_day").getAs(VariableEntry.class).setValue(t)` on
      the packet's entry list. */
  function SetTime(items: seq<Entry>, t: Int64): (r: Result<seq<Entry>>)
    ensures r.Ok? <==> GetByName(items, "time_of_day").Ok? && GetByName(items, "time_of_day").value.Some? &&
                       GetByName(items, "time_of_day").value.value.VariableEntry?
    ensures (GetByName(items, "time_of_day").Ok? && GetByName(items, "time_of_day").value.Some? &&
             !GetByName(items, "time_of_day").value.value.VariableEntry?) ==> r == Err(ClassCast)
    ensures GetByName(items, "time_of_day") == Ok(None) ==> r == Err(NullPointer)
    ensures r.Ok? ==> IndexByName(items, "time_of_day").Ok? && IndexByName(items, "time_of_day").value.Some? &&
                      r.value == items[IndexByName(items, "time_of_day").value.value :=
                                       VariableEntry(Some("time_of_day"), LongValue(t))]
    ensures r.Ok? ==> GetByName(r.value, "time_of_day") == Ok(Some(VariableEntry(Some("time_of_day"), LongValue(t))))
  {
    var found :- IndexByName(items, "time_of_day");
    if found.None? then Err(NullPointer)
    else
      var i := found.value;
      var entry :- GetAs(items[i], VariableClass);
      var after := SetValue(entry, LongValue(t));
      ReplaceFound(items, "time_of_day", i, after);
      Ok(items[i := after])
  }

  // ---------------------------------------------------------------- join_game

  /** `get(name)` of a TagCompound: the first child of that name. */
  function Child(items: seq<N.Tag>, name: string): (r: Option<N.Tag>)
    ensures r == Search.First(items, NbtTags.NameIs(name))
  {
    Search.First(items, NbtTags.NameIs(name))
  }

  /** The fixed time an element compound holds: its first `fixed_time` child, when that
      is a TagLong. */
  function FixedTime(items: seq<N.Tag>): Option<Int64> {
    match Child(items, "fixed_time")
    case Some(tag) => if tag.TagLong? then Some(tag.longValue) else None
    case None => None
  }

  /** The body of the loop on one element compound: add `fixed_time` when it has none,
      otherwise `getAsTagLong().setValue(t)` on the first one, which is a
      ClassCastException when that child is not a TagLong. */
  function FixElement(items: seq<N.Tag>, t: Int64): (r: Result<seq<N.Tag>>)
    ensures r.Err? <==> Child(items, "fixed_time").Some? && !Child(items, "fixed_time").value.TagLong?
    ensures r.Err? ==> r.error == ClassCast
  {
    match Search.FirstIndex(items, NbtTags.NameIs("fixed_time"))
    case None => Ok(items + [N.TagLong(Some("fixed_time"), t)])
    case Some(i) =>
      if items[i].TagLong? then Ok(items[i := N.TagLong(items[i].name, t)]) else Err(ClassCast)
  }

  /** After the edit the element's fixed time is `t`: the tag was appended when there
      was none, with every child kept, and otherwise only the first `fixed_time` child
      changed. */
  lemma FixElementSets(items: seq<N.Tag>, t: Int64)
    requires FixElement(items, t).Ok?
    ensures FixedTime(FixElement(items, t).value) == Some(t)
    ensures Child(items, "fixed_time").None? ==> FixElement(items, t).value == items + [N.TagLong(Some("fixed_time"), t)]
    ensures Child(items, "fixed_time").Some? ==>
              var i := Search.FirstIndex(items, NbtTags.NameIs("fixed_time")).value;
              FixElement(items, t).value == items[i := N.TagLong(Some("fixed_time"), t)]
  {
    var test := NbtTags.NameIs("fixed_time");
    var out := FixElement(items, t).value;
    match Search.FirstIndex(items, test)
    case None =>
      assert forall j :: 0 <= j < |items| ==> out[j] == items[j];
      Search.FirstAt(out, test, |items|);
    case Some(i) =>
      assert forall j :: 0 <= j < i ==> out[j] == items[j];
      Search.FirstAt(out, test, i);
  }

  /** The body of the for-each loop on one dimension type: the item is cast to
      TagCompound, its `element` child is a compound (null is a
      NullPointerException), and that element gets its fixed time. */
  function FixDimension(d: N.Tag, t: Int64): (r: Result<N.Tag>)
    ensures r.Ok? ==> d.TagCompound? && r.value.TagCompound? && r.value.name == d.name && r.value.isRoot == d.isRoot
  {
    if !d.TagCompound? then Err(ClassCast)
    else match Search.FirstIndex(d.items, NbtTags.NameIs("element"))
      case None => Err(NullPointer)
      case Some(i) =>
        var element := d.items[i];
        if !element.TagCompound? then Err(ClassCast)
        else
          var fixed :- FixElement(element.items, t);
          Ok(N.TagCompound(d.name, d.isRoot, d.items[i := N.TagCompound(element.name, element.isRoot, fixed)]))
  }

  /** The fixed time of a dimension type, read back along the same path. */
  function DimensionTime(d: N.Tag): Option<Int64> {
    if !d.TagCompound? then None
    else match Child(d.items, "element")
      case Some(e) => if e.TagCompound? then FixedTime(e.items) else None
      case None => None
  }

  /** A dimension type the loop got through holds the new fixed time, and the rest of
      it is as it was. */
  lemma FixDimensionSets(d: N.Tag, t: Int64)
    requires FixDimension(d, t).Ok?
    ensures DimensionTime(FixDimension(d, t).value) == Some(t)
    ensures |FixDimension(d, t).value.items| == |d.items|
  {
    var test := NbtTags.NameIs("element");
    var i := Search.FirstIndex(d.items, test).value;
    var element := d.items[i];
    FixElementSets(element.items, t);
    var out := FixDimension(d, t).value;
    assert forall j :: 0 <= j < i ==> out.items[j] == d.items[j];
    Search.FirstAt(out.items, test, i);
  }

  /** The loop body's outcome for every dimension type. */
  function Fixes(items: seq<N.Tag>, t: Int64): (r: seq<Result<N.Tag>>)
    ensures |r| == |items| && forall j :: 0 <= j < |items| ==> r[j] == FixDimension(items[j], t)
  {
    seq(|items|, j requires 0 <= j < |items| => FixDimension(items[j], t))
  }

  /** The whole loop: the first exception ends it. */
  function FixList(items: seq<N.Tag>, t: Int64): Result<seq<N.Tag>> {
    Search.Collect(Fixes(items, t), 0)
  }

  /** Every dimension type after a successful loop has fixed time `t`; the loop fails
      exactly when some dimension type cannot be fixed. */
  lemma FixListSets(items: seq<N.Tag>, t: Int64)
    ensures FixList(items, t).Ok? <==> forall j :: 0 <= j < |items| ==> FixDimension(items[j], t).Ok?
    ensures FixList(items, t).Ok? ==> |FixList(items, t).value| == |items|
    ensures FixList(items, t).Ok? ==>
              forall j :: 0 <= j < |items| ==> DimensionTime(FixList(items, t).value[j]) == Some(t)
  {
    var rs := Fixes(items, t);
    Search.CollectMeans(rs, 0);
    if FixList(items, t).Ok? {
      forall j | 0 <= j < |items|
        ensures DimensionTime(FixList(items, t).value[j]) == Some(t)
      {
        assert FixList(items, t).value[j - 0] == rs[j].value;
        FixDimensionSets(items[j], t);
      }
    }
  }

  /** The loop as the source runs it, one dimension type after another. */
  method FixDimensions(items: seq<N.Tag>, t: Int64) returns (r: Result<seq<N.Tag>>)
    ensures r == FixList(items, t)
  {
    ghost var rs := Fixes(items, t);
    var fixed: seq<N.Tag> := [];
    var i := 0;
    while i < |items|
      invariant 0 <= i <= |items|
      invariant FixList(items, t) == Search.Prepend(fixed, Search.Collect(rs, i))
    {
      var d := FixDimension(items[i], t);
      assert rs[i] == d;
      if d.Err? {
        return Err(d.error);
      }
      Search.PrependStep(rs, fixed, i);
      fixed := fixed + [d.value];
      i := i + 1;
    }
    assert Search.Collect(rs, i) == Ok([]) && fixed + [] == fixed;
    return Ok(fixed);
  }

  /** The dimension types of a codec: the `value` list of its
      `minecraft:dimension_type` compound. */
  function Dimensions(codec: N.Tag): Option<seq<N.Tag>> {
    if !codec.TagCompound? then None
    else match Child(codec.items, "minecraft:dimension_type")
      case Some(registry) =>
        if !registry.TagCompound? then None
        else (match Child(registry.items, "value")
          case Some(list) => if list.TagList? then Some(list.items) else None
          case None => None)
      case None => None
  }

  /** The join_game edit of the dimension codec compound: the
      `minecraft:dimension_type` child must be a compound and its `value` child a
      list (null children are NullPointerExceptions, other tags ClassCastExceptions),
      then every item of the list is fixed. */
  function FixCodec(codec: N.Tag, t: Int64): (r: Result<N.Tag>)
    requires codec.TagCompound?
    ensures r.Ok? ==> r.value.TagCompound? && r.value.name == codec.name && r.value.isRoot == codec.isRoot
    ensures r.Ok? ==> Dimensions(codec).Some? && FixList(Dimensions(codec).value, t).Ok?
  {
    match Search.FirstIndex(codec.items, NbtTags.NameIs("minecraft:dimension_type"))
    case None => Err(NullPointer)
    case Some(i) =>
      var registry := codec.items[i];
      if !registry.TagCompound? then Err(ClassCast)
      else match Search.FirstIndex(registry.items, NbtTags.NameIs("value"))
        case None => Err(NullPointer)
        case Some(j) =>
          var list := registry.items[j];
          if !list.TagList? then Err(ClassCast)
          else
            var fixed :- FixList(list.items, t);
            Ok(WithDimensions(codec, i, j, fixed))
  }

  /** The codec with its dimension type list's items replaced by `fixed`. */
  function WithDimensions(codec: N.Tag, i: nat, j: nat, fixed: seq<N.Tag>): N.Tag
    requires codec.TagCompound? && i < |codec.items| && codec.items[i].TagCompound?
    requires j < |codec.items[i].items| && codec.items[i].items[j].TagList?
  {
    var registry := codec.items[i];
    var list := registry.items[j];
    N.TagCompound(codec.name, codec.isRoot,
      codec.items[i := N.TagCompound(registry.name, registry.isRoot, registry.items[j := N.TagList(list.name, list.childrenId, fixed)])])
  }

  /** Replacing the list found along the path of Dimensions leaves it found along the
      same path. */
  lemma DimensionsReplaced(codec: N.Tag, i: nat, j: nat, fixed: seq<N.Tag>)
    requires codec.TagCompound?
    requires Search.FirstIndex(codec.items, NbtTags.NameIs("minecraft:dimension_type")) == Some(i)
    requires codec.items[i].TagCompound?
    requires Search.FirstIndex(codec.items[i].items, NbtTags.NameIs("value")) == Some(j)
    requires codec.items[i].items[j].TagList?
    ensures Dimensions(codec) == Some(codec.items[i].items[j].items)
    ensures Dimensions(WithDimensions(codec, i, j, fixed)) == Some(fixed)
  {
    var registry := codec.items[i];
    var list := registry.items[j];
    var registry' := N.TagCompound(registry.name, registry.isRoot, registry.items[j := N.TagList(list.name, list.childrenId, fixed)]);
    ChildReplaced(registry.items, "value", j, N.TagList(list.name, list.childrenId, fixed));
    ChildReplaced(codec.items, "minecraft:dimension_type", i, registry');
  }

  /** Overwriting the first child of a name with a tag of that name: `get(name)` finds
      the new tag where it found the old one. */
  lemma ChildReplaced(items: seq<N.Tag>, name: string, i: nat, x: N.Tag)
    requires Search.FirstIndex(items, NbtTags.NameIs(name)) == Some(i) && x.name == Some(name)
    ensures Child(items, name) == Some(items[i])
    ensures Child(items[i := x], name) == Some(x)
  {
    var out := items[i := x];
    assert forall k :: 0 <= k < i ==> out[k] == items[k];
    Search.FirstAt(out, NbtTags.NameIs(name), i);
  }

  /** join_game leaves every dimension type of the codec with fixed time `t`, and the
      codec has as many dimension types as before. */
  lemma FixCodecSets(codec: N.Tag, t: Int64)
    requires codec.TagCompound? && FixCodec(codec, t).Ok?
    ensures Dimensions(codec).Some? && Dimensions(FixCodec(codec, t).value).Some?
    ensures |Dimensions(FixCodec(codec, t).value).value| == |Dimensions(codec).value|
    ensures forall k :: 0 <= k < |Dimensions(codec).value| ==>
              DimensionTime(Dimensions(FixCodec(codec, t).value).value[k]) == Some(t)
  {
    var i := Search.FirstIndex(codec.items, NbtTags.NameIs("minecraft:dimension_type")).value;
    var j := Search.FirstIndex(codec.items[i].items, NbtTags.NameIs("value")).value;
    var items := codec.items[i].items[j].items;
    FixListSets(items, t);
    var fixed := FixList(items, t).value;
    assert FixCodec(codec, t).value == WithDimensions(codec, i, j, fixed);
    DimensionsReplaced(codec, i, j, fixed);
  }

  /** The compound edit as the source runs it: the two lookups, then the loop. */
  method FixCodecTree(codec: N.Tag, t: Int64) returns (r: Result<N.Tag>)
    requires codec.TagCompound?
    ensures r == FixCodec(codec, t)
  {
    var i := Search.FirstIndex(codec.items, NbtTags.NameIs("minecraft:dimension_type"));
    if i.None? {
      return Err(NullPointer);
    }
    var registry := codec.items[i.value];
    if !registry.TagCompound? {
      return Err(ClassCast);
    }
    var j := Search.FirstIndex(registry.items, NbtTags.NameIs("value"));
    if j.None? {
      return Err(NullPointer);
    }
    var list := registry.items[j.value];
    if !list.TagList? {
      return Err(ClassCast);
    }
    var fixed :- FixDimensions(list.items, t);
    return Ok(WithDimensions(codec, i.value, j.value, fixed));
  }

  /** join_game on the packet's entry list: `dimension_codec` is a VariableEntry whose
      value, cast to TagCompound, is edited (a null compound is a
      NullPointerException); the entry then holds the edited compound. */
  function FixJoinGame(items: seq<Entry>, t: Int64): (r: Result<seq<Entry>>)
    ensures r.Ok? ==> CodecAt(items).Some? && FixCodec(CodecAt(items).value.1, t).Ok? &&
                      r.value == items[CodecAt(items).value.0 :=
                                       VariableEntry(Some("dimension_codec"), NbtValue(Some(FixCodec(CodecAt(items).value.1, t).value)))]
  {
    var found :- IndexByName(items, "dimension_codec");
    if found.None? then Err(NullPointer)
    else
      var i := found.value;
      var entry :- GetAs(items[i], VariableClass);
      var value :- GetValueAs(entry, TagCompoundClass);
      if value == NbtValue(None) then Err(NullPointer)
      else
        var codec :- FixCodec(value.nbt.value, t);
        Ok(items[i := SetValue(entry, NbtValue(Some(codec)))])
  }

  /** Where the `dimension_codec` entry is and the compound it holds, when `get` finds
      a VariableEntry holding a compound. */
  function CodecAt(items: seq<Entry>): (r: Option<(nat, N.Tag)>)
    ensures r.Some? ==> r.value.0 < |items| && r.value.1.TagCompound? &&
                        IndexByName(items, "dimension_codec") == Ok(Some(r.value.0)) &&
                        items[r.value.0] == VariableEntry(Some("dimension_codec"), NbtValue(Some(r.value.1)))
  {
    match IndexByName(items, "dimension_codec")
    case Ok(Some(i)) =>
      var e := items[i];
      if e.VariableEntry? && e.value.NbtValue? && e.value.nbt.Some? && e.value.nbt.value.TagCompound?
      then Some((i, e.value.nbt.value)) else None
    case _ => None
  }

  /** After join_game the `dimension_codec` entry holds the codec with every dimension
      type fixed at `t`, as many as before. */
  lemma FixJoinGameSets(items: seq<Entry>, t: Int64)
    requires FixJoinGame(items, t).Ok?
    ensures CodecAt(items).Some? && CodecAt(FixJoinGame(items, t).value).Some?
    ensures var before := CodecAt(items).value.1;
            var after := CodecAt(FixJoinGame(items, t).value).value.1;
            Dimensions(before).Some? && Dimensions(after).Some? &&
            |Dimensions(after).value| == |Dimensions(before).value| &&
            forall k :: 0 <= k < |Dimensions(before).value| ==> DimensionTime(Dimensions(after).value[k]) == Some(t)
  {
    var (i, codec) := CodecAt(items).value;
    var fixed := FixCodec(codec, t).value;
    var e := VariableEntry(Some("dimension_codec"), NbtValue(Some(fixed)));
    ReplaceFound(items, "dimension_codec", i, e);
    assert CodecAt(FixJoinGame(items, t).value) == Some((i, fixed));
    FixCodecSets(codec, t);
  }

  // ---------------------------------------------------------------- the task

  class TimeChangerTask {
    const task: AbstractTask
    /** The ImInt of the "Time Of Day" input. */
    var timeOfDay: Int32

    /** The class carries `@TaskName`, not the `@Task` annotation AbstractTask reads, so
        the task is named after its class, with priority 0. It accepts time_update,
        and join_game from 1.16 on; the time starts at noon. */
    constructor (timeUpdate: Registry.PacketMetaData, joinGame: Registry.PacketMetaData)
      ensures fresh(task) && task.taskName == "TimeChangerTask" && task.priority == 0
      ensures |task.acceptors| == 2 && fresh(task.acceptors[0]) && fresh(task.acceptors[1])
      ensures task.acceptors[0].packetToAccept == timeUpdate && task.acceptors[0].fromVersion.None?
      ensures task.acceptors[1].packetToAccept == joinGame && task.acceptors[1].fromVersion == Some(MC_1_16)
      ensures forall k :: 0 <= k < 2 ==> !task.acceptors[k].configuration && task.acceptors[k].toVersion.None?
      ensures timeOfDay == NOON
    {
      timeOfDay := NOON;
      var a := new Registry.PacketAcceptor.Of(timeUpdate);
      var b := new Registry.PacketAcceptor.Of(joinGame);
      b := b.From(MC_1_16);
      var t := new AbstractTask(None, "TimeChangerTask", [a, b]);
      task := t;
    }

    /** render: the input is clamped into [0, 24000] before it is shown. */
    method Render()
      modifies this
      ensures timeOfDay == Maths.Clamp(old(timeOfDay), 0, TICKS_PER_DAY)
      ensures 0 <= timeOfDay <= TICKS_PER_DAY
      ensures 0 <= old(timeOfDay) <= TICKS_PER_DAY ==> timeOfDay == old(timeOfDay)
    {
      Maths.ClampLaws(timeOfDay, 0, TICKS_PER_DAY);
      timeOfDay := Maths.Clamp(timeOfDay, 0, TICKS_PER_DAY);
    }

    /** execute: the switch on the packet name (null is a NullPointerException) edits
        the packet's entry list; a packet without one fails on `getEntry`. */
    method Execute(packet: Packets.Packet) returns (r: Result<()>)
      modifies packet.entries
      ensures packet.entries == old(packet.entries)
      ensures packet.entries == null ==>
                r == if packet.packetName.Some? && packet.packetName.value !in {"time_update", "join_game"}
                     then Ok(()) else Err(NullPointer)
      ensures packet.entries != null ==>
                var spec := Edit(packet.packetName, old(packet.entries.items), NewTimeOfDay(timeOfDay));
                (spec.Ok? ==> r == Ok(()) && packet.entries.items == spec.value) &&
                (spec.Err? ==> r == Err(spec.error) && packet.entries.items == old(packet.entries.items))
    {
      var newTimeOfDay := NewTimeOfDay(timeOfDay);
      if packet.packetName.None? {
        return Err(NullPointer);
      }
      var name := packet.packetName.value;
      if name != "time_update" && name != "join_game" {
        return Ok(());
      }
      var entries := packet.entries;
      if entries == null {
        return Err(NullPointer);
      }
      if name == "time_update" {
        var items :- SetTime(entries.items, newTimeOfDay);
        entries.items := items;
      } else {
        r := JoinGame(entries, newTimeOfDay);
        return r;
      }
      return Ok(());
    }
  }

  /** What execute does to a packet's entry list: the switch on the name, null being a
      NullPointerException, and other packets left alone. */
  function Edit(name: Option<string>, items: seq<Entry>, t: Int64): (r: Result<seq<Entry>>)
    ensures name.None? ==> r == Err(NullPointer)
    ensures name.Some? && name.value !in {"time_update", "join_game"} ==> r == Ok(items)
  {
    match name
    case None => Err(NullPointer)
    case Some(n) =>
      if n == "time_update" then SetTime(items, t)
      else if n == "join_game" then FixJoinGame(items, t)
      else Ok(items)
  }

  /** The join_game branch on the entry list, step by step. */
  method JoinGame(entries: EntryList, t: Int64) returns (r: Result<()>)
    modifies entries
    ensures var spec := FixJoinGame(old(entries.items), t);
            (spec.Ok? ==> r == Ok(()) && entries.items == spec.value) &&
            (spec.Err? ==> r == Err(spec.error) && entries.items == old(entries.items))
  {
    var found :- IndexByName(entries.items, "dimension_codec");
    if found.None? {
      return Err(NullPointer);
    }
    var i := found.value;
    var entry :- GetAs(entries.items[i], VariableClass);
    var value :- GetValueAs(entry, TagCompoundClass);
    if value == NbtValue(None) {
      return Err(NullPointer);
    }
    var codec :- FixCodecTree(value.nbt.value, t);
    entries.Set(i, SetValue(entry, NbtValue(Some(codec))));
    return Ok(());
  }
}
