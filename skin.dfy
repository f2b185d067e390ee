/** SkinChangerTask: in player_info packets that add players, the target player's
    `textures` property takes the value and signature of another player's skin, fetched
    once from Mojang's servers. The task works on the packet's DataBlock: a list of
    players, each a block whose `properties` field is a DataBlockArray of property
    blocks. Data names never change and the edit only ever writes Data named `value`,
    `signature` and `number_of_properties`, so every lookup by any other name finds
    the same object with the same value however far the edit has gone. */
module SkinChanger {
  import opened Base
  import opened Tokens
  import opened Entries
  import opened DataBlocks
  import opened Protocols
  import Search
  import Registry
  import opened Tasks
  import Packets

  const ACTION_ADD_PLAYER: Int32 := 0
  const ACTION_ADD_PLAYER_BIT: Int32 := 0x01
  const TEXTURES: string := "textures"

  /** The `String[]` MojangAPI.getSkinData returns: the textures value and its
      signature. */
  datatype SkinData = SkinData(value: string, signature: string)

  // ---------------------------------------------------------------- field lookups

  /** `get(name)`: the first Data with the name. */
  function Find(b: DataBlock, name: string): Option<Data>
    reads b
  {
    FindIn(b.data, name)
  }

  function FindIn(ds: seq<Data>, name: string): (r: Option<Data>)
    ensures r.Some? ==> r.value.name == name && r.value in ds
  {
    if ds == [] then None else if ds[0].name == name then Some(ds[0]) else FindIn(ds[1..], name)
  }

  /** Find is DataBlock.get(name), and it finds something exactly when the block
      contains the name. */
  lemma FindIsGet(b: DataBlock, name: string)
    ensures Find(b, name) == b.Get(name)
    ensures Find(b, name).Some? <==> b.Contains(name)
  {
    FindInFirst(b.data, name);
  }

  lemma {:induction false} FindInFirst(ds: seq<Data>, name: string)
    ensures FindIn(ds, name) == Search.First(ds, (d: Data) => d.name == name)
  {
    if ds != [] {
      FindInFirst(ds[1..], name);
    }
  }

  /** The Data `get(name)` finds, as a frame. */
  function Lookup(b: DataBlock, name: string): (r: set<Data>)
    reads b
    ensures forall d :: d in r ==> d.name == name && d in b.data
    ensures Find(b, name).Some? ==> Find(b, name).value in r
  {
    if Find(b, name).Some? then {Find(b, name).value} else {}
  }

  /** The Data `get(name)` finds in each of a list of blocks. */
  function Named(bs: seq<DataBlock>, name: string): (r: set<Data>)
    reads bs
    ensures forall d :: d in r ==> d.name == name
  {
    set k | 0 <= k < |bs| && Find(bs[k], name).Some? :: Find(bs[k], name).value
  }

  /** `get(name, clazz)` whose result is then used: no field of that name or a null
      value is a NullPointerException when the result is dereferenced, a value of
      another class a ClassCastException. */
  function FieldAs(b: DataBlock, name: string, c: FieldClass): (r: Result<Field>)
    reads b, Lookup(b, name)
    ensures r.Ok? ==> FieldIsInstance(r.value, c)
  {
    match Find(b, name)
    case None => Err(NullPointer)
    case Some(d) =>
      if d.value == NULL then Err(NullPointer)
      else if FieldIsInstance(d.value, c) then Ok(d.value)
      else Err(ClassCast)
  }

  /** FieldAs is `DataBlock.get(name, clazz)` followed by a dereference: the cast's
      exception, or a NullPointerException for a null result. */
  lemma FieldAsDereferences(b: DataBlock, name: string, c: FieldClass)
    ensures b.GetAs(name, c).Err? ==> FieldAs(b, name, c) == Err(ClassCast)
    ensures b.GetAs(name, c) == Ok(None) ==> FieldAs(b, name, c) == Err(NullPointer)
    ensures b.GetAs(name, c).Ok? && b.GetAs(name, c).value.Some? ==>
              FieldAs(b, name, c) == Ok(b.GetAs(name, c).value.value)
  {
    FindIsGet(b, name);
  }

  /** `get(name, String.class)`, used. */
  function StringField(b: DataBlock, name: string): (r: Result<string>)
    reads b, Lookup(b, name)
    ensures r.Ok? ==> Find(b, name).Some? && Find(b, name).value.value == Plain(StringValue(r.value))
    ensures r.Err? ==> r.error in {NullPointer, ClassCast}
  {
    var f :- FieldAs(b, name, ValueClassOf(StringClass));
    Ok(f.plain.text)
  }

  /** `get(name, DataBlockArray.class)`, used. */
  function ArrayField(b: DataBlock, name: string): (r: Result<DataBlockArray>)
    reads b, Lookup(b, name)
    ensures r.Ok? ==> Find(b, name).Some? && Find(b, name).value.value == Blocks(r.value)
    ensures r.Err? ==> r.error in {NullPointer, ClassCast}
  {
    var f :- FieldAs(b, name, DataBlockArrayClass);
    Ok(f.blocks)
  }

  /** `get(name, VarInt.class).get()`. */
  function VarIntField(b: DataBlock, name: string): (r: Result<Int32>)
    reads b, Lookup(b, name)
    ensures r.Ok? ==> Find(b, name).Some? && Find(b, name).value.value == Plain(VarIntValue(r.value))
    ensures r.Err? ==> r.error in {NullPointer, ClassCast}
  {
    var f :- FieldAs(b, name, ValueClassOf(VarIntClass));
    Ok(f.plain.varInt)
  }

  /** `get(name, Integer.class)` unboxed into an int. */
  function IntegerField(b: DataBlock, name: string): (r: Result<Int32>)
    reads b, Lookup(b, name)
    ensures r.Ok? ==> Find(b, name).Some? && Find(b, name).value.value == Plain(IntValue(r.value))
    ensures r.Err? ==> r.error in {NullPointer, ClassCast}
  {
    var f :- FieldAs(b, name, ValueClassOf(IntegerClass));
    Ok(f.plain.intValue)
  }

  // ---------------------------------------------------------------- the properties

  /** The forEach body on one property: Ok(true) for the textures property, whose
      `value` and `signature` fields then take the skin (a missing one is a
      NullPointerException); Ok(false) for any other property. */
  function PropertyStep(p: DataBlock): Result<bool>
    reads p, Lookup(p, "name")
  {
    var name :- StringField(p, "name");
    if name != TEXTURES then Ok(false)
    else if Find(p, "value").None? || Find(p, "signature").None? then Err(NullPointer)
    else Ok(true)
  }

  /** The body's outcome on every property of a list. */
  function PropertySteps(ps: seq<DataBlock>): (r: seq<Result<bool>>)
    reads ps, Named(ps, "name")
    ensures |r| == |ps| && forall k :: 0 <= k < |ps| ==> r[k] == PropertyStep(ps[k])
  {
    seq(|ps|, k reads ps, Named(ps, "name") requires 0 <= k < |ps| => PropertyStep(ps[k]))
  }

  /** The Data the forEach body may write on one property: `value` and `signature`
      of a property named textures. */
  function WrittenBy(p: DataBlock): (r: set<Data>)
    reads p, Lookup(p, "name")
    ensures forall d :: d in r ==> (d.name == "value" || d.name == "signature") && d in p.data
  {
    if StringField(p, "name") == Ok(TEXTURES) then Lookup(p, "value") + Lookup(p, "signature") else {}
  }

  /** The Data the forEach may write on a list of properties. */
  function Written(ps: seq<DataBlock>, i: nat): (r: set<Data>)
    requires i <= |ps|
    reads ps, Named(ps, "name")
    ensures forall d :: d in r ==> d.name == "value" || d.name == "signature"
    decreases |ps| - i
  {
    if i == |ps| then {} else WrittenBy(ps[i]) + Written(ps, i + 1)
  }

  /** Whether a written Data holds its part of the skin. */
  predicate HoldsSkin(d: Data, skin: SkinData)
    reads d
  {
    d.value == Plain(StringValue(if d.name == "value" then skin.value else skin.signature))
  }

  /** Whether a textures property carries the skin. */
  predicate CarriesSkin(p: DataBlock, skin: SkinData)
    reads p, Lookup(p, "value"), Lookup(p, "signature")
  {
    Find(p, "value").Some? && Find(p, "value").value.value == Plain(StringValue(skin.value)) &&
    Find(p, "signature").Some? && Find(p, "signature").value.value == Plain(StringValue(skin.signature))
  }

  /** A property whose block and name Data are as they were gives the body's outcome
      it gave then. */
  twostate lemma NameKept(p: DataBlock)
    requires unchanged(p) && unchanged(Lookup(p, "name"))
    ensures PropertyStep(p) == old(PropertyStep(p)) && WrittenBy(p) == old(WrittenBy(p))
  {
  }

  // ---------------------------------------------------------------- the players

  /** Whether the loop edits this player: in the 1.19.3 layout a block without a
      name is skipped; otherwise the name must be a string (a missing or null one is
      a NullPointerException) equal to the target. */
  function IsTarget(b: DataBlock, legacy: bool, target: string): Result<bool>
    reads b, Lookup(b, "name")
  {
    if !legacy && Find(b, "name").None? then Ok(false)
    else
      var name :- StringField(b, "name");
      Ok(name == target)
  }

  /** A target player's turn once the skin is known, as a value: the forEach over the
      properties array `a`, then, when no textures property was found (nor before, in
      this packet), the `number_of_properties` read of the layout before 1.19.3. Ok
      holds the new hasSkinBeenChanged. */
  function TargetOutcome(b: DataBlock, a: DataBlockArray, legacy: bool, flag: bool): (r: Result<bool>)
    reads b, Lookup(b, "number_of_properties"), a, a.dataBlocks, Named(a.dataBlocks, "name")
    ensures r.Ok? ==> Search.Collect(PropertySteps(a.dataBlocks), 0).Ok? &&
                      r.value == (flag || true in Search.Collect(PropertySteps(a.dataBlocks), 0).value)
  {
    var found :- Search.Collect(PropertySteps(a.dataBlocks), 0);
    var changed := flag || true in found;
    if !changed && legacy && VarIntField(b, "number_of_properties").Err? then
      Err(VarIntField(b, "number_of_properties").error)
    else Ok(changed)
  }

  /** What one player's turn depends on, read off the packet before the turn: whether
      it is a target, its `properties` array, whether the forEach finds a textures
      property (or the exception it throws), its `number_of_properties` VarInt, the
      Data the forEach writes, and the `number_of_properties` Data the layout before
      1.19.3 writes. */
  datatype PlayerView = PlayerView(isTarget: Result<bool>, properties: Result<DataBlockArray>,
                                   textures: Result<bool>, count: Result<Int32>,
                                   written: set<Data>, countData: set<Data>)

  ghost function ViewOf(b: DataBlock, legacy: bool, target: string): PlayerView
    reads *
  {
    var properties := ArrayField(b, "properties");
    var textures :=
      if properties.Err? then Err(properties.error)
      else match Search.Collect(PropertySteps(properties.value.dataBlocks), 0)
        case Ok(found) => Ok(true in found)
        case Err(e) => Err(e);
    var written := if properties.Ok? then Written(properties.value.dataBlocks, 0) else {};
    PlayerView(IsTarget(b, legacy, target), properties, textures, VarIntField(b, "number_of_properties"),
               written, if legacy then Lookup(b, "number_of_properties") else {})
  }

  /** One player's turn on its view: Ok((next, flag)) when it finishes, `next` false
      for the `return` on a skin player that does not exist, `flag` the new
      hasSkinBeenChanged; or the exception it throws. */
  function Turn(v: PlayerView, legacy: bool, skin: Option<SkinData>, flag: bool): (r: Result<(bool, bool)>)
    ensures r.Ok? && !r.value.0 ==> v.isTarget == Ok(true) && skin.None? && r.value.1 == flag
    ensures r.Ok? && r.value.1 != flag ==> v.isTarget == Ok(true) && v.textures == Ok(true) && r.value.1
  {
    var isTarget :- v.isTarget;
    if !isTarget then Ok((true, flag))
    else if skin.None? then Ok((false, flag))
    else
      var a :- v.properties;
      var textures :- v.textures;
      var changed := flag || textures;
      if !changed && legacy && v.count.Err? then Err(v.count.error) else Ok((true, changed))
  }

  /** A turn that goes on to the next player leaves the rest of the loop to the
      next player. */
  lemma TurnsAt(vs: seq<PlayerView>, legacy: bool, skin: Option<SkinData>, flag: bool, i: nat)
    requires i < |vs|
    ensures var t := Turn(vs[i], legacy, skin, flag);
            (t.Err? ==> Turns(vs, legacy, skin, flag, i) == Err(t.error)) &&
            (t.Ok? && !t.value.0 ==> Turns(vs, legacy, skin, flag, i) == Ok(t.value)) &&
            (t.Ok? && t.value.0 ==> Turns(vs, legacy, skin, flag, i) == Turns(vs, legacy, skin, t.value.1, i + 1))
  {
  }

  /** The objects one turn may change: for a target, its properties array, the Data the
      forEach may write and the `number_of_properties` Data. */
  function Footprint(v: PlayerView): set<object> {
    if v.isTarget == Ok(true) && v.properties.Ok? then {v.properties.value} + v.written + v.countData else {}
  }

  /** The Data one turn writes the skin into. */
  function WrittenOf(v: PlayerView): set<Data> {
    if v.isTarget == Ok(true) && v.properties.Ok? then v.written else {}
  }

  /** Every player's view. */
  ghost function ViewsOf(ps: seq<DataBlock>, legacy: bool, target: string): (r: seq<PlayerView>)
    reads *
    ensures |r| == |ps|
    ensures forall j {:trigger ViewOf(ps[j], legacy, target)} :: 0 <= j < |ps| ==> r[j] == ViewOf(ps[j], legacy, target)
  {
    if ps == [] then [] else ViewsOf(ps[..|ps| - 1], legacy, target) + [ViewOf(ps[|ps| - 1], legacy, target)]
  }

  /** The player loop from player `i` on: Ok((true, flag)) when every player is done,
      Ok((false, flag)) at the `return`, or the first exception. */
  function Turns(vs: seq<PlayerView>, legacy: bool, skin: Option<SkinData>, flag: bool, i: nat): Result<(bool, bool)>
    requires i <= |vs|
    decreases |vs| - i
  {
    if i == |vs| then Ok((true, flag))
    else
      var out :- Turn(vs[i], legacy, skin, flag);
      if !out.0 then Ok(out)
      else Turns(vs, legacy, skin, out.1, i + 1)
  }

  /** The loop stops early only at a target player, and only while no skin is known. */
  lemma {:induction false} TurnsStop(vs: seq<PlayerView>, legacy: bool, skin: Option<SkinData>, flag: bool, i: nat)
    requires i <= |vs|
    ensures var out := Turns(vs, legacy, skin, flag, i);
            out.Ok? && !out.value.0 ==>
              skin.None? && exists j :: i <= j < |vs| && vs[j].isTarget == Ok(true)
    decreases |vs| - i
  {
    if i < |vs| {
      var t := Turn(vs[i], legacy, skin, flag);
      if t.Ok? && t.value.0 {
        TurnsStop(vs, legacy, skin, t.value.1, i + 1);
      }
    }
  }

  /** The flag is raised only by a target player that has a textures property, once
      the skin is known; once raised it stays raised. */
  lemma {:induction false} TurnsRaise(vs: seq<PlayerView>, legacy: bool, skin: Option<SkinData>, flag: bool, i: nat)
    requires i <= |vs|
    ensures var out := Turns(vs, legacy, skin, flag, i);
            out.Ok? && out.value.1 != flag ==>
              !flag && out.value.1 && skin.Some? &&
              exists j :: i <= j < |vs| && vs[j].isTarget == Ok(true) && vs[j].textures == Ok(true)
    decreases |vs| - i
  {
    if i < |vs| {
      var t := Turn(vs[i], legacy, skin, flag);
      if t.Ok? && t.value.0 {
        TurnsRaise(vs, legacy, skin, t.value.1, i + 1);
      }
    }
  }

  /** With no target player in the list, the loop runs to its end and keeps the flag. */
  lemma {:induction false} TurnsWithoutTarget(vs: seq<PlayerView>, legacy: bool, skin: Option<SkinData>, flag: bool, i: nat)
    requires i <= |vs|
    requires forall j :: i <= j < |vs| ==> vs[j].isTarget == Ok(false)
    ensures Turns(vs, legacy, skin, flag, i) == Ok((true, flag))
    decreases |vs| - i
  {
    if i < |vs| {
      TurnsWithoutTarget(vs, legacy, skin, flag, i + 1);
    }
  }

  /** The Data the turns before player `i` write. */
  function WrittenBefore(vs: seq<PlayerView>, i: nat): set<Data>
    requires i <= |vs|
  {
    if i == 0 then {} else WrittenBefore(vs, i - 1) + WrittenOf(vs[i - 1])
  }

  /** The objects the loop may change from player `i` on. */
  function FootprintFrom(vs: seq<PlayerView>, i: nat): (r: set<object>)
    requires i <= |vs|
    ensures forall j :: i <= j < |vs| ==> Footprint(vs[j]) <= r
    decreases |vs| - i
  {
    if i == |vs| then {} else Footprint(vs[i]) + FootprintFrom(vs, i + 1)
  }

  /** Every object one player's turn reads before writing: the player block, its
      `name`, `properties` and `number_of_properties` Data, the properties array, its
      blocks and their `name` Data. */
  ghost function PlayerReads(b: DataBlock, legacy: bool): set<object>
    reads *
  {
    {b} + Lookup(b, "name") + Lookup(b, "properties") + Lookup(b, "number_of_properties") +
    match ArrayField(b, "properties")
    case Err(_) => {}
    case Ok(a) => {a} + (set k | 0 <= k < |a.dataBlocks| :: a.dataBlocks[k]) + Named(a.dataBlocks, "name")
  }

  /** Everything the turns from player `i` on read. */
  function ReadsFrom(views: seq<set<object>>, i: nat): (r: set<object>)
    requires i <= |views|
    ensures forall j :: i <= j < |views| ==> views[j] <= r
    ensures forall o :: o in r ==> exists j :: i <= j < |views| && o in views[j]
    decreases |views| - i
  {
    if i == |views| then {} else views[i] + ReadsFrom(views, i + 1)
  }

  /** A player's turn reads only packet objects. */
  lemma ReadsArePacket(b: DataBlock, legacy: bool)
    ensures forall o :: o in PlayerReads(b, legacy) ==> o is Data || o is DataBlock || o is DataBlockArray
  {
  }

  /** Every player's reads. */
  ghost function ReadsOf(ps: seq<DataBlock>, legacy: bool): (r: seq<set<object>>)
    reads *
    ensures |r| == |ps|
    ensures forall j {:trigger PlayerReads(ps[j], legacy)} :: 0 <= j < |ps| ==> r[j] == PlayerReads(ps[j], legacy)
  {
    if ps == [] then [] else ReadsOf(ps[..|ps| - 1], legacy) + [PlayerReads(ps[|ps| - 1], legacy)]
  }

  /** No turn changes the players array nor what a later turn reads. */
  predicate Apart(players: object, vs: seq<PlayerView>, views: seq<set<object>>) {
    |vs| == |views| &&
    (forall i :: 0 <= i < |vs| ==> players !in Footprint(vs[i])) &&
    forall i :: 0 < i <= |vs| ==> Footprint(vs[i - 1]) !! ReadsFrom(views, i)
  }

  /** No player's turn changes what a later player's turn reads, nor the players
      array: the properties arrays and `number_of_properties` Data are separate
      objects. The edit assumes this of the packet it is given; that the blocks
      built from a decoded packet are laid out so is not proved here. */
  ghost predicate Separated(players: DataBlockArray, legacy: bool, target: string)
    reads *
  {
    Apart(players, ViewsOf(players.dataBlocks, legacy, target), ReadsOf(players.dataBlocks, legacy))
  }

  /** Where the player list is: `players` before 1.19.3, `actions` since. */
  function PlayersKey(legacy: bool): string {
    if legacy then "players" else "actions"
  }

  /** Whether the packet adds players: before 1.19.3 the `action` VarInt is
      ADD_PLAYER; since, bit 0 of the `action` Integer bitfield is set. Java's
      `(action & 1) != 0` on a negative int tests the two's complement low bit, which is
      the Euclidean `action % 2`. A missing `action` is a NullPointerException, one of
      another type a ClassCastException. */
  function AddsPlayers(b: DataBlock, legacy: bool): Result<bool>
    reads b, Lookup(b, "action")
  {
    if legacy then
      var action :- VarIntField(b, "action");
      Ok(action == ACTION_ADD_PLAYER)
    else
      var action :- IntegerField(b, "action");
      Ok(action % 2 == ACTION_ADD_PLAYER_BIT)
  }

  /** Every player's view in a packet, or the exception reading the player list. */
  ghost function PacketViews(b: DataBlock, legacy: bool, target: string): Result<seq<PlayerView>>
    reads *
  {
    var players :- ArrayField(b, PlayersKey(legacy));
    Ok(ViewsOf(players.dataBlocks, legacy, target))
  }

  /** How `execute` ends on a packet that adds players, given the players' views (or
      the exception reading the list), the fetched skin and the flag before: the result
      `r` and the flag after. The flag is reset only when the loop reaches its end. */
  predicate Ran(views: Result<seq<PlayerView>>, legacy: bool, skin: Option<SkinData>, flag: bool,
                r: Result<()>, flag': bool)
  {
    match views
    case Err(e) => r == Err(e)
    case Ok(vs) =>
      match Turns(vs, legacy, skin, flag, 0)
      case Err(e) => r == Err(e)
      case Ok((finished, raised)) => r == Ok(()) && flag' == (!finished && raised)
  }

  /** What the player loop over a packet may change. */
  ghost function PacketFootprint(b: DataBlock, legacy: bool, target: string): set<object>
    reads *
  {
    match PacketViews(b, legacy, target)
    case Err(_) => {}
    case Ok(vs) => FootprintFrom(vs, 0)
  }

  /** A properties array whose blocks and their names are unchanged gives the forEach
      the same outcome and the same Data to write. */
  twostate lemma PropertiesKept(a: DataBlockArray)
    requires unchanged(a) && unchanged(set k | 0 <= k < |a.dataBlocks| :: a.dataBlocks[k])
    requires unchanged(Named(a.dataBlocks, "name"))
    ensures PropertySteps(a.dataBlocks) == old(PropertySteps(a.dataBlocks))
    ensures Written(a.dataBlocks, 0) == old(Written(a.dataBlocks, 0))
  {
    assert unchanged(a.dataBlocks);
  }

  /** A player block as one turn reads it: with the packet's layout and the target name. */
  datatype Player = Player(block: DataBlock, legacy: bool, target: string)

  /** A player whose reads are unchanged has the same view. */
  twostate lemma ViewKept(p: Player)
    requires unchanged(old(PlayerReads(p.block, p.legacy)))
    ensures ViewOf(p.block, p.legacy, p.target) == old(ViewOf(p.block, p.legacy, p.target))
    ensures PlayerReads(p.block, p.legacy) == old(PlayerReads(p.block, p.legacy))
  {
    var b := p.block;
    assert unchanged(b) && unchanged(Lookup(b, "name")) && unchanged(Lookup(b, "properties"));
    assert unchanged(Lookup(b, "number_of_properties"));
    if ArrayField(b, "properties").Ok? {
      PropertiesKept(ArrayField(b, "properties").value);
    }
  }

  /** The players of a packet as the turns read them. */
  datatype Players = Players(blocks: seq<DataBlock>, legacy: bool, target: string)

  /** Players whose reads are unchanged keep their views and reads. */
  twostate lemma {:induction false} PlayersKept(p: Players)
    requires unchanged(old(ReadsFrom(ReadsOf(p.blocks, p.legacy), 0)))
    ensures ViewsOf(p.blocks, p.legacy, p.target) == old(ViewsOf(p.blocks, p.legacy, p.target))
    ensures ReadsOf(p.blocks, p.legacy) == old(ReadsOf(p.blocks, p.legacy))
    decreases |p.blocks|
  {
    if p.blocks != [] {
      var ps, n := p.blocks, |p.blocks| - 1;
      ghost var views: seq<set<object>> := old(ReadsOf(ps, p.legacy));
      assert old(ReadsOf(ps[..n], p.legacy)) == views[..n];
      assert ReadsFrom(views[..n], 0) <= ReadsFrom(views, 0) by {
        forall o: object | o in ReadsFrom(views[..n], 0) ensures o in ReadsFrom(views, 0) {
          var k :| 0 <= k < n && o in views[..n][k];
          assert views[..n][k] == views[k];
        }
      }
      PlayersKept(Players(ps[..n], p.legacy, p.target));
      assert views[n] == old(PlayerReads(ps[n], p.legacy));
      ViewKept(Player(ps[n], p.legacy, p.target));
    }
  }

  /** A packet block as the player loop reads it: with the layout and the target name. */
  datatype PlayerList = PlayerList(block: DataBlock, legacy: bool, target: string)

  /** A packet whose reads are unchanged keeps its views, its footprint and its
      separation. */
  twostate lemma PacketKept(p: PlayerList)
    requires unchanged(p.block)
    requires unchanged(old(Lookup(p.block, PlayersKey(p.legacy))))
    requires old(ArrayField(p.block, PlayersKey(p.legacy))).Ok? ==>
               var a := old(ArrayField(p.block, PlayersKey(p.legacy))).value;
               unchanged(old({a} + ReadsFrom(ReadsOf(a.dataBlocks, p.legacy), 0)))
    ensures ArrayField(p.block, PlayersKey(p.legacy)) == old(ArrayField(p.block, PlayersKey(p.legacy)))
    ensures PacketViews(p.block, p.legacy, p.target) == old(PacketViews(p.block, p.legacy, p.target))
    ensures PacketFootprint(p.block, p.legacy, p.target) == old(PacketFootprint(p.block, p.legacy, p.target))
    ensures var players := ArrayField(p.block, PlayersKey(p.legacy));
            players.Ok? ==>
              Separated(players.value, p.legacy, p.target) == old(Separated(players.value, p.legacy, p.target))
  {
    var players := old(ArrayField(p.block, PlayersKey(p.legacy)));
    if players.Ok? {
      PlayersKept(Players(players.value.dataBlocks, p.legacy, p.target));
    }
  }

  /** The player loop reads only packet objects, never the task. */
  lemma ReadsFromArePacket(ps: seq<DataBlock>, legacy: bool, views: seq<set<object>>)
    requires |views| == |ps|
    requires forall j {:trigger PlayerReads(ps[j], legacy)} :: 0 <= j < |ps| ==>
               views[j] == PlayerReads(ps[j], legacy)
    ensures forall o :: o in ReadsFrom(views, 0) ==> o is Data || o is DataBlock || o is DataBlockArray
  {
    forall o | o in ReadsFrom(views, 0)
      ensures o is Data || o is DataBlock || o is DataBlockArray
    {
      var j :| 0 <= j < |views| && o in views[j];
      ReadsArePacket(ps[j], legacy);
      assert views[j] == PlayerReads(ps[j], legacy);
    }
  }

  /** The property block the task adds when the player has no textures property. */
  predicate IsTexturesBlock(p: DataBlock, skin: SkinData)
    reads p, p.data
  {
    |p.data| == 4 &&
    p.data[0].name == "name" && p.data[0].value == Plain(StringValue(TEXTURES)) &&
    p.data[1].name == "value" && p.data[1].value == Plain(StringValue(skin.value)) &&
    p.data[2].name == "is_signed" && p.data[2].value == Flag(true) &&
    p.data[3].name == "signature" && p.data[3].value == Plain(StringValue(skin.signature))
  }

  /** `properties.create()` and the four `add`s of the textures property. */
  method AddTextures(properties: DataBlockArray, skin: SkinData) returns (textures: DataBlock)
    modifies properties
    ensures properties.dataBlocks == old(properties.dataBlocks) + [textures]
    ensures fresh(textures) && IsTexturesBlock(textures, skin)
    ensures forall d :: d in textures.data ==> fresh(d)
  {
    textures := properties.Create();
    textures.Add("name", Plain(StringValue(TEXTURES)));
    textures.Add("value", Plain(StringValue(skin.value)));
    textures.Add("is_signed", Flag(true));
    textures.Add("signature", Plain(StringValue(skin.signature)));
  }

  /** The block run when no textures property was found: a textures property is
      appended and, before 1.19.3, the player's `number_of_properties` VarInt grows by
      one (wrapping at 32 bits). The skin already written stays in place. */
  method AddMissingTextures(player: DataBlock, properties: DataBlockArray, legacy: bool, skin: SkinData,
                            ghost holding: set<Data>) returns (r: Result<()>)
    requires forall d :: d in holding ==> HoldsSkin(d, skin)
    modifies properties, if legacy then Lookup(player, "number_of_properties") else {}
    ensures var n := |old(properties.dataBlocks)|;
            |properties.dataBlocks| == n + 1 && properties.dataBlocks[..n] == old(properties.dataBlocks) &&
            fresh(properties.dataBlocks[n]) && IsTexturesBlock(properties.dataBlocks[n], skin)
    ensures forall d :: d in holding ==> HoldsSkin(d, skin)
    ensures !legacy ==> r == Ok(())
    ensures legacy ==> var count := old(VarIntField(player, "number_of_properties"));
              (count.Err? ==> r == Err(count.error)) &&
              (count.Ok? ==>
                 r == Ok(()) && Find(player, "number_of_properties").Some? &&
                 Find(player, "number_of_properties").value.value == Plain(VarIntValue(S32(count.value as int + 1))))
  {
    var textures := AddTextures(properties, skin);
    if legacy {
      var count :- VarIntField(player, "number_of_properties");
      var numberOfProperties := Find(player, "number_of_properties").value;
      // a VarInt field holds no skin string, so the Data edited before are other objects
      assert !HoldsSkin(numberOfProperties, skin);
      numberOfProperties.SetValue(Plain(VarIntValue(S32(count as int + 1))));
    }
    return Ok(());
  }

  class SkinChangerTask {
    const task: AbstractTask
    /** The ImStrings of the two text inputs: the player to edit and the player whose
        skin is copied. */
    var targetUsername: string
    var fetchValue: string
    /** The fetched skin; None until fetched, and again when the player does not
        exist. */
    var cachedSkinData: Option<SkinData>
    var hasSkinBeenChanged: bool

    /** Named "Skin Changer" with priority 100 by its `@Task` annotation, so that it
        runs before the username changer; accepts player_info. */
    constructor (playerInfo: Registry.PacketMetaData)
      ensures fresh(task) && task.taskName == "Skin Changer" && task.priority == 100
      ensures |task.acceptors| == 1 && fresh(task.acceptors[0])
      ensures task.acceptors[0].packetToAccept == playerInfo && !task.acceptors[0].configuration
      ensures task.acceptors[0].fromVersion.None? && task.acceptors[0].toVersion.None?
      ensures targetUsername == "" && fetchValue == "" && cachedSkinData.None? && !hasSkinBeenChanged
    {
      targetUsername := "";
      fetchValue := "";
      cachedSkinData := None;
      hasSkinBeenChanged := false;
      var a := new Registry.PacketAcceptor.Of(playerInfo);
      var t := new AbstractTask(Some(TaskAnnotation("Skin Changer", 100)), "SkinChangerTask", [a]);
      task := t;
    }

    /** render's two text inputs. */
    method SetInputs(target: string, fetch: string)
      modifies this`targetUsername, this`fetchValue
      ensures targetUsername == target && fetchValue == fetch
    {
      targetUsername := target;
      fetchValue := fetch;
    }

    /** The forEach body on one property. */
    method EditProperty(p: DataBlock, skin: SkinData, ghost earlier: set<Data>) returns (r: Result<bool>)
      requires forall d :: d in earlier ==> HoldsSkin(d, skin)
      modifies this`hasSkinBeenChanged, WrittenBy(p)
      ensures r == old(PropertyStep(p))
      ensures r == Ok(true) ==> hasSkinBeenChanged
      ensures r.Ok? ==> forall d :: d in earlier + old(WrittenBy(p)) ==> HoldsSkin(d, skin)
      ensures r != Ok(true) ==> hasSkinBeenChanged == old(hasSkinBeenChanged)
    {
      var name :- StringField(p, "name");
      if name != TEXTURES {
        return Ok(false);
      }
      var value := Find(p, "value");
      if value.None? {
        return Err(NullPointer);
      }
      value.value.SetValue(Plain(StringValue(skin.value)));
      var signature := Find(p, "signature");
      if signature.None? {
        return Err(NullPointer);
      }
      signature.value.SetValue(Plain(StringValue(skin.signature)));
      assert old(WrittenBy(p)) == {value.value, signature.value};
      hasSkinBeenChanged := true;
      return Ok(true);
    }

    /** `properties.forEach(...)`: every textures property takes the skin and raises
        the flag; the first exception ends the loop. Only the textures properties'
        value and signature Data are written. */
    method EditProperties(props: DataBlockArray, skin: SkinData, ghost earlier: set<Data>) returns (r: Result<()>)
      requires forall d :: d in earlier ==> HoldsSkin(d, skin)
      modifies this`hasSkinBeenChanged, Written(props.dataBlocks, 0)
      ensures var spec := old(Search.Collect(PropertySteps(props.dataBlocks), 0));
              (spec.Ok? <==> r.Ok?) && (spec.Err? ==> r == Err(spec.error)) &&
              (spec.Ok? ==> hasSkinBeenChanged == (old(hasSkinBeenChanged) || true in spec.value))
      ensures r.Ok? ==> forall d :: d in earlier + old(Written(props.dataBlocks, 0)) ==> HoldsSkin(d, skin)
    {
      var ps := props.dataBlocks;
      ghost var steps := PropertySteps(ps);
      Search.RaiseFromCollects(steps, 0, hasSkinBeenChanged);
      ghost var soFar: set<Data> := earlier;
      var i := 0;
      while i < |ps|
        invariant 0 <= i <= |ps| && ps == props.dataBlocks
        invariant Search.RaiseFrom(steps, 0, old(hasSkinBeenChanged)) == Search.RaiseFrom(steps, i, hasSkinBeenChanged)
        invariant old(Written(ps, i)) <= old(Written(ps, 0))
        invariant earlier + old(Written(ps, 0)) == soFar + old(Written(ps, i))
        invariant forall d :: d in soFar ==> HoldsSkin(d, skin)
      {
        NameKept(ps[i]);
        ghost var mine := old(WrittenBy(ps[i]));
        assert old(Written(ps, i)) == mine + old(Written(ps, i + 1));
        var here := EditProperty(ps[i], skin, soFar);
        if here.Err? {
          return Err(here.error);
        }
        soFar := soFar + mine;
        i := i + 1;
      }
      return Ok(());
    }

    /** A target player's turn once the skin is known: its textures properties take
        the skin; when none was found (and none before it in this packet), a textures
        property is appended and, before 1.19.3, the player's `number_of_properties`
        grows by one. */
    method EditTarget(player: DataBlock, properties: DataBlockArray, legacy: bool, skin: SkinData,
                      ghost earlier: set<Data>) returns (r: Result<()>)
      requires forall d :: d in earlier ==> HoldsSkin(d, skin)
      modifies this`hasSkinBeenChanged, properties, Written(properties.dataBlocks, 0)
      modifies if legacy then Lookup(player, "number_of_properties") else {}
      ensures var out := old(TargetOutcome(player, properties, legacy, hasSkinBeenChanged));
              (out.Err? ==> r == Err(out.error)) &&
              (out.Ok? ==> r == Ok(()) && hasSkinBeenChanged == out.value)
      ensures r.Ok? ==> forall d :: d in earlier + old(Written(properties.dataBlocks, 0)) ==> HoldsSkin(d, skin)
      ensures r.Ok? && hasSkinBeenChanged ==> properties.dataBlocks == old(properties.dataBlocks)
      ensures r.Ok? && !hasSkinBeenChanged ==>
                var n := |old(properties.dataBlocks)|;
                |properties.dataBlocks| == n + 1 && properties.dataBlocks[..n] == old(properties.dataBlocks) &&
                fresh(properties.dataBlocks[n]) && IsTexturesBlock(properties.dataBlocks[n], skin)
      ensures r.Ok? && !hasSkinBeenChanged && legacy ==>
                old(VarIntField(player, "number_of_properties")).Ok? &&
                Find(player, "number_of_properties").Some? &&
                Find(player, "number_of_properties").value.value ==
                  Plain(VarIntValue(S32(old(VarIntField(player, "number_of_properties")).value as int + 1)))
    {
      ghost var count := VarIntField(player, "number_of_properties");
      var edited := EditProperties(properties, skin, earlier);
      if edited.Err? {
        return Err(edited.error);
      }
      if !hasSkinBeenChanged {
        // the forEach wrote only value and signature Data
        assert VarIntField(player, "number_of_properties") == count;
        var added :- AddMissingTextures(player, properties, legacy, skin, earlier + old(Written(properties.dataBlocks, 0)));
      }
      return Ok(());
    }

    /** One player of the loop: Ok(true) goes on to the next player, Ok(false) is the
        `return` for a skin player that does not exist. */
    method EditPlayer(player: DataBlock, legacy: bool, ghost earlier: set<Data>, ghost v: PlayerView)
      returns (r: Result<bool>)
      requires v == ViewOf(player, legacy, targetUsername)
      requires cachedSkinData.Some? ==> forall d :: d in earlier ==> HoldsSkin(d, cachedSkinData.value)
      modifies this`hasSkinBeenChanged, Footprint(v)
      ensures var out := Turn(v, legacy, cachedSkinData, old(hasSkinBeenChanged));
              (out.Err? ==> r == Err(out.error)) &&
              (out.Ok? ==> r == Ok(out.value.0) && hasSkinBeenChanged == out.value.1)
      ensures targetUsername == old(targetUsername) && cachedSkinData == old(cachedSkinData)
      ensures r.Ok? && cachedSkinData.Some? ==> forall d :: d in earlier + WrittenOf(v) ==> HoldsSkin(d, cachedSkinData.value)
    {
      if !legacy && Find(player, "name").None? {
        return Ok(true);
      }
      var name :- StringField(player, "name");
      if name != targetUsername {
        return Ok(true);
      }
      if cachedSkinData.None? {
        return Ok(false);
      }
      var properties :- ArrayField(player, "properties");
      var edited := EditTarget(player, properties, legacy, cachedSkinData.value, earlier);
      if edited.Err? {
        return Err(edited.error);
      }
      return Ok(true);
    }

    /** `for (DataBlock player : players)`: each player's turn in order until the
        `return` or an exception. The iteration reads the players array once; no turn
        changes it (Separated). `views` holds what each player's turn reads. */
    method EditPlayers(players: DataBlockArray, legacy: bool, ghost earlier: set<Data>,
                       ghost vs: seq<PlayerView>, ghost views: seq<set<object>>)
      returns (r: Result<bool>)
      requires |vs| == |views| == |players.dataBlocks|
      requires forall j {:trigger ViewOf(players.dataBlocks[j], legacy, targetUsername)} :: 0 <= j < |vs| ==>
                 vs[j] == ViewOf(players.dataBlocks[j], legacy, targetUsername)
      requires forall j {:trigger PlayerReads(players.dataBlocks[j], legacy)} :: 0 <= j < |views| ==>
                 views[j] == PlayerReads(players.dataBlocks[j], legacy)
      requires Apart(players, vs, views)
      requires cachedSkinData.Some? ==> forall d :: d in earlier ==> HoldsSkin(d, cachedSkinData.value)
      modifies this`hasSkinBeenChanged, FootprintFrom(vs, 0)
      ensures targetUsername == old(targetUsername) && cachedSkinData == old(cachedSkinData)
      ensures var out := Turns(vs, legacy, cachedSkinData, old(hasSkinBeenChanged), 0);
              (out.Err? ==> r == Err(out.error)) &&
              (out.Ok? ==> r == Ok(out.value.0) && hasSkinBeenChanged == out.value.1)
      ensures r.Ok? && cachedSkinData.Some? ==>
                forall d :: d in earlier + WrittenBefore(vs, |vs|) ==> HoldsSkin(d, cachedSkinData.value)
    {
      var ps := players.dataBlocks;
      ReadsFromArePacket(ps, legacy, views);
      assert this !in ReadsFrom(views, 0) by {
        var o: object := this;
        assert !(o is Data || o is DataBlock || o is DataBlockArray);
      }
      var i := 0;
      while i < |ps|
        invariant 0 <= i <= |ps| && ps == players.dataBlocks
        invariant targetUsername == old(targetUsername) && cachedSkinData == old(cachedSkinData)
        invariant Turns(vs, legacy, cachedSkinData, old(hasSkinBeenChanged), 0) ==
                  Turns(vs, legacy, cachedSkinData, hasSkinBeenChanged, i)
        invariant unchanged(ReadsFrom(views, i)) && this !in ReadsFrom(views, i)
        invariant cachedSkinData.Some? ==>
                    forall d :: d in earlier + WrittenBefore(vs, i) ==> HoldsSkin(d, cachedSkinData.value)
      {
        assert ViewOf(ps[i], legacy, targetUsername) == vs[i] by {
          assert views[i] == old(PlayerReads(ps[i], legacy));
          ViewKept(Player(ps[i], legacy, targetUsername));
        }
        assert Footprint(vs[i]) !! ReadsFrom(views, i + 1);
        TurnsAt(vs, legacy, cachedSkinData, hasSkinBeenChanged, i);
        var next := EditPlayer(ps[i], legacy, earlier + WrittenBefore(vs, i), vs[i]);
        if next.Err? {
          return Err(next.error);
        }
        if !next.value {
          return Ok(false);
        }
        i := i + 1;
      }
      return Ok(true);
    }

    /** The player loop of `edit` and `edit761` once the skin is fetched; the flag is
        reset when the loop runs to its end (not at the `return` for an unknown skin
        player, nor after an exception). */
    method EditFetched(b: DataBlock, legacy: bool) returns (r: Result<()>)
      requires var players := ArrayField(b, PlayersKey(legacy));
               players.Ok? ==> Separated(players.value, legacy, targetUsername)
      modifies this`hasSkinBeenChanged, PacketFootprint(b, legacy, targetUsername)
      ensures targetUsername == old(targetUsername) && cachedSkinData == old(cachedSkinData)
      ensures Ran(old(PacketViews(b, legacy, targetUsername)), legacy, cachedSkinData, old(hasSkinBeenChanged),
                  r, hasSkinBeenChanged)
      ensures var views := old(PacketViews(b, legacy, targetUsername));
              views.Ok? && r.Ok? && cachedSkinData.Some? ==>
                forall d :: d in WrittenBefore(views.value, |views.value|) ==> HoldsSkin(d, cachedSkinData.value)
    {
      var players :- ArrayField(b, PlayersKey(legacy));
      ghost var vs := ViewsOf(players.dataBlocks, legacy, targetUsername);
      ghost var views := ReadsOf(players.dataBlocks, legacy);
      var done :- EditPlayers(players, legacy, {}, vs, views);
      if done {
        hasSkinBeenChanged := false;
      }
      return Ok(());
    }

    /** `edit` and `edit761` once the packet is known to add players: the skin is
        fetched when none is cached, then the player loop runs. */
    method EditList(b: DataBlock, legacy: bool, mojang: string -> Option<SkinData>) returns (r: Result<()>)
      requires var players := ArrayField(b, PlayersKey(legacy));
               players.Ok? ==> Separated(players.value, legacy, targetUsername)
      modifies this`cachedSkinData, this`hasSkinBeenChanged, PacketFootprint(b, legacy, targetUsername)
      ensures var skin := if old(cachedSkinData).None? then mojang(old(fetchValue)) else old(cachedSkinData);
              cachedSkinData == skin &&
              Ran(old(PacketViews(b, legacy, targetUsername)), legacy, skin, old(hasSkinBeenChanged),
                  r, hasSkinBeenChanged)
      ensures var views := old(PacketViews(b, legacy, targetUsername));
              views.Ok? && r.Ok? && cachedSkinData.Some? ==>
                forall d :: d in WrittenBefore(views.value, |views.value|) ==> HoldsSkin(d, cachedSkinData.value)
    {
      ghost var found := ArrayField(b, PlayersKey(legacy));
      if found.Ok? {
        ghost var views := ReadsOf(found.value.dataBlocks, legacy);
        ReadsFromArePacket(found.value.dataBlocks, legacy, views);
        assert this !in ReadsFrom(views, 0) by {
          var o: object := this;
          assert !(o is Data || o is DataBlock || o is DataBlockArray);
        }
      }
      if cachedSkinData.None? {
        cachedSkinData := mojang(fetchValue);
      }
      // the fetch changed only the task: the packet reads as before
      PacketKept(PlayerList(b, legacy, targetUsername));
      r := EditFetched(b, legacy);
    }

    /** `execute`: `edit761` from 1.19.3 on, `edit` before. A packet that does not add
        players is left alone. */
    method Execute(packet: Packets.Packet, mojang: string -> Option<SkinData>) returns (r: Result<()>)
      requires var legacy := !IsAfterInclusive(packet.protocol, MC_1_19_3);
               var players := ArrayField(packet.data, PlayersKey(legacy));
               players.Ok? ==> Separated(players.value, legacy, targetUsername)
      modifies this`cachedSkinData, this`hasSkinBeenChanged
      modifies PacketFootprint(packet.data, !IsAfterInclusive(packet.protocol, MC_1_19_3), targetUsername)
      ensures var legacy := !IsAfterInclusive(packet.protocol, MC_1_19_3);
              var adds := old(AddsPlayers(packet.data, legacy));
              adds != Ok(true) ==>
                r == (if adds.Err? then Err(adds.error) else Ok(())) &&
                cachedSkinData == old(cachedSkinData) && hasSkinBeenChanged == old(hasSkinBeenChanged)
      ensures var legacy := !IsAfterInclusive(packet.protocol, MC_1_19_3);
              var skin := if old(cachedSkinData).None? then mojang(old(fetchValue)) else old(cachedSkinData);
              old(AddsPlayers(packet.data, legacy)) == Ok(true) ==>
                cachedSkinData == skin &&
                Ran(old(PacketViews(packet.data, legacy, targetUsername)), legacy, skin, old(hasSkinBeenChanged),
                    r, hasSkinBeenChanged)
      ensures var legacy := !IsAfterInclusive(packet.protocol, MC_1_19_3);
              var views := old(PacketViews(packet.data, legacy, targetUsername));
              old(AddsPlayers(packet.data, legacy)) == Ok(true) && views.Ok? && r.Ok? && cachedSkinData.Some? ==>
                forall d :: d in WrittenBefore(views.value, |views.value|) ==> HoldsSkin(d, cachedSkinData.value)
    {
      var legacy := !IsAfterInclusive(packet.protocol, MC_1_19_3);
      var adds :- AddsPlayers(packet.data, legacy);
      if !adds {
        return Ok(());
      }
      r := EditList(packet.data, legacy, mojang);
    }

  }
}
