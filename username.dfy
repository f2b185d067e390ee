/** UsernameChangerTask: in player_info packets that add players, every player whose
    name is the target gets the new name. The decoded entries are values: renaming a
    player is the entry tree with that name entry replaced. */
module UsernameChanger {
  import opened Base
  import opened Tokens
  import opened Entries
  import Search
  import Registry
  import opened Tasks
  import Packets

  const ACTION_ADD_PLAYER: Int32 := 0
  const ACTION_UPDATE_DISPLAY_NAME: Int32 := 3

  // ---------------------------------------------------------------- one entry

  /** The body of the inner loop on one entry of a player: entries that are not a
      MatchEntry are skipped; in a MatchEntry, `getEntry("name")` must be a
      VariableEntry (null is a NullPointerException) holding a string (null cannot be
      compared), and it takes the new name when it equals the target. */
  function RenameEntry(e: Entry, target: string, newName: string): (r: Result<Entry>)
    ensures !e.MatchEntry? ==> r == Ok(e)
    ensures r.Ok? ==> r.value.MatchEntry? == e.MatchEntry? && r.value.name == e.name
    ensures r.Ok? && e.MatchEntry? ==> r.value.matchValue == e.matchValue && |r.value.entries| == |e.entries|
    ensures r.Err? ==> r.error in {NullPointer, ClassCast}
  {
    if !e.MatchEntry? then Ok(e)
    else
      var found :- IndexByName(e.entries, "name");
      if found.None? then Err(NullPointer)
      else
        var k := found.value;
        var username :- GetAs(e.entries[k], VariableClass);
        var value :- GetValueAs(username, StringClass);
        if value == NbtValue(None) then Err(NullPointer)
        else if value.text == target then
          Ok(MatchEntry(e.name, e.entries[k := SetValue(username, StringValue(newName))], e.matchValue))
        else Ok(e)
  }

  /** The name a MatchEntry carries, when `getEntry("name")` finds a VariableEntry
      holding a string. */
  function NameOf(e: Entry): Option<string> {
    if !e.MatchEntry? then None
    else match GetByName(e.entries, "name")
      case Ok(Some(v)) => if v.VariableEntry? && v.value.StringValue? then Some(v.value.text) else None
      case _ => None
  }

  /** A renamed entry: a match entry named after the target now carries the new name
      and nothing else in it changed; any other entry is left as it was. */
  lemma RenameEntrySets(e: Entry, target: string, newName: string)
    requires RenameEntry(e, target, newName).Ok?
    ensures NameOf(e) == Some(target) ==> NameOf(RenameEntry(e, target, newName).value) == Some(newName)
    ensures NameOf(e) == Some(target) ==>
              var k := IndexByName(e.entries, "name").value.value;
              RenameEntry(e, target, newName).value.entries == e.entries[k := VariableEntry(Some("name"), StringValue(newName))]
    ensures NameOf(e) != Some(target) ==> RenameEntry(e, target, newName).value == e
  {
    if e.MatchEntry? {
      var k := IndexByName(e.entries, "name").value.value;
      var renamed := VariableEntry(Some("name"), StringValue(newName));
      ReplaceFound(e.entries, "name", k, renamed);
    }
  }

  // ---------------------------------------------------------------- one player

  /** The inner loop's outcome for every entry of a player. */
  function Renames(entries: seq<Entry>, target: string, newName: string): (r: seq<Result<Entry>>)
    ensures |r| == |entries| && forall j :: 0 <= j < |entries| ==> r[j] == RenameEntry(entries[j], target, newName)
  {
    seq(|entries|, j requires 0 <= j < |entries| => RenameEntry(entries[j], target, newName))
  }

  /** The inner loop over a player's entries: the first exception ends it. */
  function RenameAll(entries: seq<Entry>, target: string, newName: string): Result<seq<Entry>> {
    Search.Collect(Renames(entries, target, newName), 0)
  }

  /** The inner loop succeeds exactly when every entry can be looked at, and then each
      entry is that entry renamed. */
  lemma RenameAllMeans(entries: seq<Entry>, target: string, newName: string)
    ensures RenameAll(entries, target, newName).Ok? <==>
              forall j :: 0 <= j < |entries| ==> RenameEntry(entries[j], target, newName).Ok?
    ensures RenameAll(entries, target, newName).Ok? ==>
              |RenameAll(entries, target, newName).value| == |entries| &&
              forall j :: 0 <= j < |entries| ==>
                RenameAll(entries, target, newName).value[j] == RenameEntry(entries[j], target, newName).value
  {
    var rs := Renames(entries, target, newName);
    Search.CollectMeans(rs, 0);
    if RenameAll(entries, target, newName).Ok? {
      forall j | 0 <= j < |entries|
        ensures RenameAll(entries, target, newName).value[j] == RenameEntry(entries[j], target, newName).value
      {
        assert RenameAll(entries, target, newName).value[j - 0] == rs[j].value;
      }
    }
  }

  /** The inner loop as the source runs it. */
  method RenameEntries(entries: seq<Entry>, target: string, newName: string) returns (r: Result<seq<Entry>>)
    ensures r == RenameAll(entries, target, newName)
  {
    ghost var rs := Renames(entries, target, newName);
    var renamed: seq<Entry> := [];
    var i := 0;
    while i < |entries|
      invariant 0 <= i <= |entries|
      invariant RenameAll(entries, target, newName) == Search.Prepend(renamed, Search.Collect(rs, i))
    {
      var e := RenameEntry(entries[i], target, newName);
      assert rs[i] == e;
      if e.Err? {
        return Err(e.error);
      }
      Search.PrependStep(rs, renamed, i);
      renamed := renamed + [e.value];
      i := i + 1;
    }
    assert Search.Collect(rs, i) == Ok([]) && renamed + [] == renamed;
    return Ok(renamed);
  }

  // ---------------------------------------------------------------- all players

  /** The inner loop as a function of a player's entries. */
  function Renamer(target: string, newName: string): seq<Entry> -> Result<seq<Entry>> {
    (entries: seq<Entry>) => RenameAll(entries, target, newName)
  }

  /** The outer loop from index `i` to `n`: `getEntriesForIndex(i)` must map (null is a
      NullPointerException when iterated), and the player's entries are edited in
      place. */
  function EditFrom(players: seq<Slot>, edit: seq<Entry> -> Result<seq<Entry>>, i: nat, n: nat): (r: Result<seq<Slot>>)
    requires i <= n
    decreases n - i
  {
    if i == n then Ok(players)
    else match SlotOf(players, i)
      case None => Err(NullPointer)
      case Some(entries) =>
        var edited :- edit(entries);
        EditFrom(SetSlot(players, i, edited), edit, i + 1, n)
  }

  /** The outer loop succeeds exactly when each index in [i, n) maps to a player whose
      entries can be edited. */
  lemma {:induction false} EditFromOk(players: seq<Slot>, edit: seq<Entry> -> Result<seq<Entry>>, i: nat, n: nat)
    requires i <= n
    ensures EditFrom(players, edit, i, n).Ok? <==>
              forall j: int :: i <= j < n ==> SlotOf(players, j).Some? && edit(SlotOf(players, j).value).Ok?
    decreases n - i
  {
    if i < n && SlotOf(players, i).Some? && edit(SlotOf(players, i).value).Ok? {
      var edited := edit(SlotOf(players, i).value).value;
      var next := SetSlot(players, i, edited);
      EditFromOk(next, edit, i + 1, n);
      assert EditFrom(players, edit, i, n) == EditFrom(next, edit, i + 1, n);
      if EditFrom(next, edit, i + 1, n).Ok? {
        forall j | i <= j < n
          ensures SlotOf(players, j).Some? && edit(SlotOf(players, j).value).Ok?
        {
          if j > i {
            SetSlotGet(players, i, edited, j);
            assert SlotOf(next, j).Some? && edit(SlotOf(next, j).value).Ok?;
          }
        }
      } else {
        var j :| i + 1 <= j < n && !(SlotOf(next, j).Some? && edit(SlotOf(next, j).value).Ok?);
        SetSlotGet(players, i, edited, j);
        assert !(SlotOf(players, j).Some? && edit(SlotOf(players, j).value).Ok?);
      }
    } else if i < n {
      assert EditFrom(players, edit, i, n).Err?;
      assert !(SlotOf(players, i).Some? && edit(SlotOf(players, i).value).Ok?);
    }
  }

  /** After a successful outer loop each index in [i, n) holds its player's entries
      edited, and every other index keeps its entries. */
  lemma {:induction false} EditFromSets(players: seq<Slot>, edit: seq<Entry> -> Result<seq<Entry>>, i: nat, n: nat, j: int)
    requires i <= n && EditFrom(players, edit, i, n).Ok?
    ensures i <= j < n ==> SlotOf(players, j).Some? && edit(SlotOf(players, j).value).Ok? &&
                           SlotOf(EditFrom(players, edit, i, n).value, j) == Some(edit(SlotOf(players, j).value).value)
    ensures !(i <= j < n) ==> SlotOf(EditFrom(players, edit, i, n).value, j) == SlotOf(players, j)
    ensures |EditFrom(players, edit, i, n).value| == |players|
    decreases n - i
  {
    if i < n {
      var edited := edit(SlotOf(players, i).value).value;
      var next := SetSlot(players, i, edited);
      assert EditFrom(players, edit, i, n) == EditFrom(next, edit, i + 1, n);
      EditFromSets(next, edit, i + 1, n, j);
      SetSlotGet(players, i, edited, j);
    }
  }

  /** The outer loop as the source runs it: `players.size()` is read on every test,
      and renaming a player does not change it. */
  method RenamePlayers(players: Entry, target: string, newName: string) returns (r: Result<Entry>)
    requires players.ArrayEntry?
    ensures var spec := EditFrom(players.slots, Renamer(target, newName), 0, |players.slots|);
            (spec.Ok? ==> r == Ok(ArrayEntry(players.name, spec.value))) && (spec.Err? ==> r == Err(spec.error))
  {
    var slots := players.slots;
    var i := 0;
    while i < |slots|
      invariant 0 <= i <= |slots| && |slots| == |players.slots|
      invariant EditFrom(players.slots, Renamer(target, newName), 0, |players.slots|) ==
                EditFrom(slots, Renamer(target, newName), i, |players.slots|)
    {
      var entries := SlotOf(slots, i);
      if entries.None? {
        return Err(NullPointer);
      }
      var renamed :- RenameEntries(entries.value, target, newName);
      slots := SetSlot(slots, i, renamed);
      i := i + 1;
    }
    return Ok(ArrayEntry(players.name, slots));
  }

  // ---------------------------------------------------------------- the packet

  /** What execute does to player_info's entry list. The action is read as
      `getEntry("action").getAs(VariableEntry.class).getValueAs(VarInt.class)` (a null
      VarInt is a NullPointerException on `getValue`); action 0 renames the players of
      the `players` ArrayEntry; action 3 and every other action change nothing. */
  function Rename(items: seq<Entry>, target: string, newName: string): (r: Result<seq<Entry>>)
    ensures r.Ok? ==> |r.value| == |items|
  {
    var foundAction :- IndexByName(items, "action");
    if foundAction.None? then Err(NullPointer)
    else
      var actionEntry :- GetAs(items[foundAction.value], VariableClass);
      var action :- GetValueAs(actionEntry, VarIntClass);
      if action == NbtValue(None) then Err(NullPointer)
      else if action.varInt != ACTION_ADD_PLAYER then Ok(items)
      else
        var foundPlayers :- IndexByName(items, "players");
        if foundPlayers.None? then Err(NullPointer)
        else
          var p := foundPlayers.value;
          var players :- GetAs(items[p], ArrayClass);
          var renamed :- EditFrom(players.slots, Renamer(target, newName), 0, |players.slots|);
          Ok(items[p := ArrayEntry(players.name, renamed)])
  }

  /** The action the packet carries, when it is a VarInt. */
  function ActionOf(items: seq<Entry>): Option<Int32> {
    match GetByName(items, "action")
    case Ok(Some(e)) => if e.VariableEntry? && e.value.VarIntValue? then Some(e.value.varInt) else None
    case _ => None
  }

  /** Only action 0 touches the packet. */
  lemma OtherActionsKeep(items: seq<Entry>, target: string, newName: string)
    requires ActionOf(items).Some? && ActionOf(items).value != ACTION_ADD_PLAYER
    ensures Rename(items, target, newName) == Ok(items)
  {
  }

  /** After action 0 the `players` entry is the same array with each player index in
      [0, size) renamed. */
  lemma RenameSets(items: seq<Entry>, target: string, newName: string)
    requires ActionOf(items) == Some(ACTION_ADD_PLAYER) && Rename(items, target, newName).Ok?
    ensures var p := IndexByName(items, "players").value.value;
            var before := items[p];
            var after := Rename(items, target, newName).value[p];
            before.ArrayEntry? && after.ArrayEntry? && after.name == before.name &&
            |after.slots| == |before.slots| &&
            forall j :: 0 <= j < |before.slots| ==>
              SlotOf(before.slots, j).Some? && SlotOf(after.slots, j).Some? &&
              RenameAll(SlotOf(before.slots, j).value, target, newName) == Ok(SlotOf(after.slots, j).value)
  {
    var p := IndexByName(items, "players").value.value;
    EditFromSets(items[p].slots, Renamer(target, newName), 0, |items[p].slots|, 0);
    forall j | 0 <= j < |items[p].slots|
      ensures SlotOf(items[p].slots, j).Some? && SlotOf(Rename(items, target, newName).value[p].slots, j).Some? &&
              RenameAll(SlotOf(items[p].slots, j).value, target, newName) ==
                Ok(SlotOf(Rename(items, target, newName).value[p].slots, j).value)
    {
      EditFromSets(items[p].slots, Renamer(target, newName), 0, |items[p].slots|, j);
    }
  }

  // ---------------------------------------------------------------- the task

  class UsernameChangerTask {
    const task: AbstractTask
    /** The ImStrings of the two text inputs. */
    var targetUsername: string
    var newUsername: string

    /** Named after its class (it has no `@Task` annotation), priority 0; accepts
        player_info. Both names start empty. */
    constructor (playerInfo: Registry.PacketMetaData)
      ensures fresh(task) && task.taskName == "UsernameChangerTask" && task.priority == 0
      ensures |task.acceptors| == 1 && fresh(task.acceptors[0])
      ensures task.acceptors[0].packetToAccept == playerInfo && !task.acceptors[0].configuration
      ensures task.acceptors[0].fromVersion.None? && task.acceptors[0].toVersion.None?
      ensures targetUsername == "" && newUsername == ""
    {
      targetUsername := "";
      newUsername := "";
      var a := new Registry.PacketAcceptor.Of(playerInfo);
      var t := new AbstractTask(None, "UsernameChangerTask", [a]);
      task := t;
    }

    /** execute on the packet's entry list; a packet without one fails on
        `getEntry`. */
    method Execute(packet: Packets.Packet) returns (r: Result<()>)
      modifies packet.entries
      ensures packet.entries == old(packet.entries)
      ensures packet.entries == null ==> r == Err(NullPointer)
      ensures packet.entries != null ==>
                var spec := Rename(old(packet.entries.items), targetUsername, newUsername);
                (spec.Ok? ==> r == Ok(()) && packet.entries.items == spec.value) &&
                (spec.Err? ==> r == Err(spec.error) && packet.entries.items == old(packet.entries.items))
    {
      var entries := packet.entries;
      if entries == null {
        return Err(NullPointer);
      }
      var items := entries.items;
      var foundAction :- IndexByName(items, "action");
      if foundAction.None? {
        return Err(NullPointer);
      }
      var actionEntry :- GetAs(items[foundAction.value], VariableClass);
      var action :- GetValueAs(actionEntry, VarIntClass);
      if action == NbtValue(None) {
        return Err(NullPointer);
      }
      if action.varInt != ACTION_ADD_PLAYER {
        return Ok(());
      }
      var foundPlayers :- IndexByName(items, "players");
      if foundPlayers.None? {
        return Err(NullPointer);
      }
      var p := foundPlayers.value;
      var players :- GetAs(items[p], ArrayClass);
      var renamed :- RenamePlayers(players, targetUsername, newUsername);
      entries.Set(p, renamed);
      return Ok(());
    }
  }
}
