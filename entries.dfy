/** The decoded form of a packet: the PacketEntry family (PacketEntry, VariableEntry,
    ArrayEntry, SimpleArrayEntry, MatchEntry and the condition entry the serializer
    reads) and EntryList's lookup by name. Entries are values here; each mutator of the
    source is a function from the entry before to the entry after. */
module Entries {
  import opened Base
  import opened Tokens
  import N = NbtFormat
  import Search

  /** A VariableEntry on its own, as a SimpleArrayEntry lists them. */
  datatype Variable = Variable(name: Option<string>, value: Value)

  /** A decoded field. The name is final and may be null (`None`).
      - VariableEntry: one value.
      - ArrayEntry: a LinkedHashMap from element index to that element's entries, kept
        as its slots in insertion order.
      - SimpleArrayEntry: a list of unnamed values.
      - MatchEntry: the chosen branch's entries and the value that chose it.
      - ConditionEntry: the entries of a condition's block, empty when it was not
        taken. */
  datatype Entry =
    | VariableEntry(name: Option<string>, value: Value)
    | ArrayEntry(name: Option<string>, slots: seq<Slot>)
    | SimpleArrayEntry(name: Option<string>, variables: seq<Variable>)
    | MatchEntry(name: Option<string>, entries: seq<Entry>, matchValue: Int32)
    | ConditionEntry(name: Option<string>, entries: seq<Entry>)

  /** One mapping of an ArrayEntry: an element index and the entries of that element. */
  datatype Slot = Slot(index: int, entries: seq<Entry>)

  // ---------------------------------------------------------------- PacketEntry.getAs

  /** The classes `getAs` can be asked for. */
  datatype EntryClass = EntryBase | VariableClass | ArrayClass | SimpleArrayClass | MatchClass | ConditionClass

  predicate IsInstance(e: Entry, c: EntryClass) {
    match c
    case EntryBase => true
    case VariableClass => e.VariableEntry?
    case ArrayClass => e.ArrayEntry?
    case SimpleArrayClass => e.SimpleArrayEntry?
    case MatchClass => e.MatchEntry?
    case ConditionClass => e.ConditionEntry?
  }

  /** PacketEntry.getAs: the entry itself when it is an instance of the class asked for,
      a ClassCastException otherwise. */
  function GetAs(e: Entry, c: EntryClass): (r: Result<Entry>)
    ensures r.Ok? <==> IsInstance(e, c)
    ensures r.Ok? ==> r.value == e
    ensures r.Err? ==> r.error == ClassCast
  {
    if IsInstance(e, c) then Ok(e) else Err(ClassCast)
  }

  // ---------------------------------------------------------------- VariableEntry

  /** VariableEntry.setValue: the value is replaced, the name stays. */
  function SetValue(e: Entry, v: Value): (r: Entry)
    requires e.VariableEntry?
    ensures r.VariableEntry? && r.name == e.name && r.value == v
  {
    e.(value := v)
  }

  /** The classes `getValueAs` callers ask for: Object, the entry classes, and the
      classes of the values a field can hold. */
  datatype ValueClass =
    | ObjectClass | PacketEntryClass | VariableEntryClass
    | IntegerClass | LongClass | StringClass | FloatClass | DoubleClass
    | VarIntClass | VarLongClass | TagCompoundClass | PositionClass | UuidClass

  /** Whether a field value is an instance of class `c`. The absent compound is Java's
      null, which is an instance of nothing. */
  predicate ValueIsInstance(v: Value, c: ValueClass) {
    match c
    case ObjectClass => v != NbtValue(None)
    case PacketEntryClass | VariableEntryClass => false
    case IntegerClass => v.IntValue?
    case LongClass => v.LongValue?
    case StringClass => v.StringValue?
    case FloatClass => v.FloatValue?
    case DoubleClass => v.DoubleValue?
    case VarIntClass => v.VarIntValue?
    case VarLongClass => v.VarLongValue?
    case TagCompoundClass => v.NbtValue? && v.nbt.Some? && v.nbt.value.TagCompound?
    case PositionClass => v.PositionValue?
    case UuidClass => v.UuidValue?
  }

  /** VariableEntry.getValueAs as written: `clazz.cast(this)` casts the entry, not its
      value, so it succeeds, giving the entry back, only for the classes a VariableEntry
      belongs to. */
  function GetValueAsWritten(e: Entry, c: ValueClass): (r: Result<Entry>)
    requires e.VariableEntry?
    ensures r.Ok? <==> c in {ObjectClass, PacketEntryClass, VariableEntryClass}
    ensures r.Ok? ==> r.value == e
    ensures r.Err? ==> r.error == ClassCast
  {
    if c in {ObjectClass, PacketEntryClass, VariableEntryClass} then Ok(e) else Err(ClassCast)
  }

  /** getValueAs as its callers use it: the value cast to `c`. A null value casts to
      every class. */
  function GetValueAs(e: Entry, c: ValueClass): (r: Result<Value>)
    requires e.VariableEntry?
    ensures r.Ok? <==> ValueIsInstance(e.value, c) || e.value == NbtValue(None)
    ensures r.Ok? ==> r.value == e.value
    ensures r.Err? ==> r.error == ClassCast
  {
    if ValueIsInstance(e.value, c) || e.value == NbtValue(None) then Ok(e.value) else Err(ClassCast)
  }

  /** No field value is reachable through getValueAs as written: asked for the class of
      the value it holds, a VariableEntry throws ClassCastException, while the corrected
      cast returns the value. */
  lemma ValueAsCastsTheEntry(e: Entry, c: ValueClass)
    requires e.VariableEntry? && ValueIsInstance(e.value, c)
    requires c != ObjectClass
    ensures GetValueAsWritten(e, c) == Err(ClassCast)
    ensures GetValueAs(e, c) == Ok(e.value)
  {
  }

  /** The case UsernameChangerTask meets: `getValueAs(VarInt.class)` on the action field. */
  lemma VarIntActionNotReadable(name: Option<string>, action: Int32)
    ensures GetValueAsWritten(VariableEntry(name, VarIntValue(action)), VarIntClass) == Err(ClassCast)
    ensures GetValueAs(VariableEntry(name, VarIntValue(action)), VarIntClass) == Ok(VarIntValue(action))
  {
  }

  // ---------------------------------------------------------------- EntryList.get

  /** EntryList.get(name) and MatchEntry.getEntry(name): the first entry whose name
      equals `name`, or null. `entry.getName().equals(name)` throws NullPointerException
      when an unnamed entry comes before the first match. */
  function GetByName(entries: seq<Entry>, name: string): (r: Result<Option<Entry>>)
    ensures r.Err? ==> r.error == NullPointer
    ensures r == Ok(None) <==> forall i :: 0 <= i < |entries| ==> Passed(entries[i], name)
    ensures r.Ok? && r.value.Some? ==>
              exists i :: 0 <= i < |entries| && entries[i] == r.value.value &&
                entries[i].name == Some(name) && forall j :: 0 <= j < i ==> Passed(entries[j], name)
    ensures r.Err? ==>
              exists i :: 0 <= i < |entries| && entries[i].name.None? &&
                forall j :: 0 <= j < i ==> Passed(entries[j], name)
  {
    GetFrom(entries, name, 0)
  }

  /** An entry the lookup goes past: named, with another name. */
  predicate Passed(e: Entry, name: string) {
    e.name.Some? && e.name != Some(name)
  }

  /** The loop of `get` from position `k` on, every entry before it passed. */
  function GetFrom(entries: seq<Entry>, name: string, k: nat): (r: Result<Option<Entry>>)
    requires k <= |entries|
    requires forall j :: 0 <= j < k ==> Passed(entries[j], name)
    ensures r.Err? ==> r.error == NullPointer
    ensures r == Ok(None) <==> forall i :: 0 <= i < |entries| ==> Passed(entries[i], name)
    ensures r.Ok? && r.value.Some? ==>
              exists i :: 0 <= i < |entries| && entries[i] == r.value.value &&
                entries[i].name == Some(name) && forall j :: 0 <= j < i ==> Passed(entries[j], name)
    ensures r.Err? ==>
              exists i :: 0 <= i < |entries| && entries[i].name.None? &&
                forall j :: 0 <= j < i ==> Passed(entries[j], name)
    decreases |entries| - k
  {
    if k == |entries| then Ok(None)
    else if entries[k].name.None? then Err(NullPointer)
    else if entries[k].name.value == name then Ok(Some(entries[k]))
    else GetFrom(entries, name, k + 1)
  }

  /** The position of the entry `get(name)` finds: a task that changes that entry in
      place changes the list at this position. */
  function IndexByName(entries: seq<Entry>, name: string): (r: Result<Option<nat>>)
    ensures r.Err? <==> GetByName(entries, name).Err?
    ensures r.Err? ==> r.error == NullPointer
    ensures r == Ok(None) <==> GetByName(entries, name) == Ok(None)
    ensures r.Ok? && r.value.Some? ==>
              r.value.value < |entries| && entries[r.value.value].name == Some(name) &&
              GetByName(entries, name) == Ok(Some(entries[r.value.value])) &&
              forall j :: 0 <= j < r.value.value ==> Passed(entries[j], name)
  {
    IndexFrom(entries, name, 0)
  }

  function IndexFrom(entries: seq<Entry>, name: string, k: nat): (r: Result<Option<nat>>)
    requires k <= |entries|
    requires forall j :: 0 <= j < k ==> Passed(entries[j], name)
    ensures r.Err? <==> GetFrom(entries, name, k).Err?
    ensures r.Err? ==> r.error == NullPointer
    ensures r == Ok(None) <==> GetFrom(entries, name, k) == Ok(None)
    ensures r.Ok? && r.value.Some? ==>
              k <= r.value.value < |entries| && entries[r.value.value].name == Some(name) &&
              GetFrom(entries, name, k) == Ok(Some(entries[r.value.value])) &&
              forall j :: 0 <= j < r.value.value ==> Passed(entries[j], name)
    decreases |entries| - k
  {
    if k == |entries| then Ok(None)
    else if entries[k].name.None? then Err(NullPointer)
    else if entries[k].name.value == name then Ok(Some(k))
    else IndexFrom(entries, name, k + 1)
  }

  /** Overwriting the entry `get(name)` finds with another entry of that name: `get`
      finds the new one, and every other position keeps its entry. */
  lemma ReplaceFound(entries: seq<Entry>, name: string, i: nat, e: Entry)
    requires IndexByName(entries, name) == Ok(Some(i)) && e.name == Some(name)
    ensures GetByName(entries[i := e], name) == Ok(Some(e))
    ensures IndexByName(entries[i := e], name) == Ok(Some(i))
  {
    var after := entries[i := e];
    assert forall j :: 0 <= j < i ==> after[j] == entries[j];
    IndexFromAt(after, name, 0, i);
  }

  /** The lookup stops at the first entry with the name when every entry before it is
      passed. */
  lemma {:induction false} IndexFromAt(entries: seq<Entry>, name: string, k: nat, i: nat)
    requires k <= i < |entries| && entries[i].name == Some(name)
    requires forall j :: 0 <= j < i ==> Passed(entries[j], name)
    ensures IndexFrom(entries, name, k) == Ok(Some(i))
    decreases i - k
  {
    if k < i {
      IndexFromAt(entries, name, k + 1, i);
    }
  }

  /** Among named entries the lookup is the plain first-match search. */
  lemma GetByNameIsFirst(entries: seq<Entry>, name: string)
    requires forall i :: 0 <= i < |entries| ==> entries[i].name.Some?
    ensures GetByName(entries, name) == Ok(Search.First(entries, (e: Entry) => e.name == Some(name)))
  {
    var r := GetByName(entries, name);
    var test := (e: Entry) => e.name == Some(name);
    if r == Ok(None) {
    } else {
      var i :| 0 <= i < |entries| && entries[i] == r.value.value && entries[i].name == Some(name) &&
               forall j :: 0 <= j < i ==> Passed(entries[j], name);
      Search.FirstAt(entries, test, i);
    }
  }

  // ---------------------------------------------------------------- ArrayEntry

  /** The keys of a map are distinct: no two slots share an index. */
  predicate DistinctIndices(slots: seq<Slot>) {
    forall a, b :: 0 <= a < b < |slots| ==> slots[a].index != slots[b].index
  }

  /** `new ArrayEntry(name)`: no elements. */
  function NewArrayEntry(name: Option<string>): (r: Entry)
    ensures r.ArrayEntry? && r.name == name && ArraySize(r) == 0 && DistinctIndices(r.slots)
  {
    ArrayEntry(name, [])
  }

  /** ArrayEntry.size: the number of mapped indices. */
  function ArraySize(a: Entry): nat
    requires a.ArrayEntry?
  {
    |a.slots|
  }

  /** ArrayEntry.get(index): the entries mapped to `index`, or null. */
  function ArrayGet(a: Entry, index: int): (r: Option<seq<Entry>>)
    requires a.ArrayEntry?
  {
    SlotOf(a.slots, index)
  }

  /** The entries of the first slot holding `index`, or null. */
  function SlotOf(slots: seq<Slot>, index: int): Option<seq<Entry>>
  {
    if slots == [] then None
    else if slots[0].index == index then Some(slots[0].entries)
    else SlotOf(slots[1..], index)
  }

  /** An index maps to nothing exactly when no slot holds it, and otherwise to the
      entries of a slot that holds it. */
  lemma {:induction false} SlotOfMeans(slots: seq<Slot>, index: int)
    ensures SlotOf(slots, index).None? <==> forall k :: 0 <= k < |slots| ==> slots[k].index != index
    ensures SlotOf(slots, index).Some? ==>
              exists k :: 0 <= k < |slots| && slots[k] == Slot(index, SlotOf(slots, index).value)
  {
    if slots != [] && slots[0].index != index {
      SlotOfMeans(slots[1..], index);
      assert forall k :: 1 <= k < |slots| ==> slots[k] == slots[1..][k - 1];
      if SlotOf(slots, index).Some? {
        var k :| 0 <= k < |slots[1..]| && slots[1..][k] == Slot(index, SlotOf(slots, index).value);
        assert slots[k + 1] == Slot(index, SlotOf(slots, index).value);
      }
    } else if slots != [] {
      assert slots[0] == Slot(index, SlotOf(slots, index).value);
    }
  }

  /** With distinct indices the slot holding an index is the answer. */
  lemma SlotOfAt(slots: seq<Slot>, k: nat)
    requires DistinctIndices(slots) && k < |slots|
    ensures SlotOf(slots, slots[k].index) == Some(slots[k].entries)
  {
    SlotOfMeans(slots, slots[k].index);
    var r := SlotOf(slots, slots[k].index);
    var k' :| 0 <= k' < |slots| && slots[k'] == Slot(slots[k].index, r.value);
    assert k' == k;
  }

  /** The array after the list `get(index)` returned was edited in place: the first
      slot mapping `index` holds the new entries, every slot keeps its index. */
  function SetSlot(slots: seq<Slot>, index: int, entries: seq<Entry>): (r: seq<Slot>)
    ensures |r| == |slots| && forall k :: 0 <= k < |slots| ==> r[k].index == slots[k].index
  {
    if slots == [] then []
    else if slots[0].index == index then [Slot(index, entries)] + slots[1..]
    else [slots[0]] + SetSlot(slots[1..], index, entries)
  }

  /** After the edit `get(index)` gives the new entries and every other index its old
      ones. */
  lemma {:induction false} SetSlotGet(slots: seq<Slot>, index: int, entries: seq<Entry>, j: int)
    requires SlotOf(slots, index).Some?
    ensures SlotOf(SetSlot(slots, index, entries), j) == if j == index then Some(entries) else SlotOf(slots, j)
  {
    var r := SetSlot(slots, index, entries);
    if slots[0].index != index {
      SetSlotGet(slots[1..], index, entries, j);
      assert r[1..] == SetSlot(slots[1..], index, entries);
    } else {
      assert r[1..] == slots[1..];
    }
  }

  /** ArrayEntry.set(index, entries): a new index is appended after the others, an index
      already mapped keeps its place and gets the new entries. */
  function ArraySet(a: Entry, index: int, entries: seq<Entry>): (r: Entry)
    requires a.ArrayEntry? && DistinctIndices(a.slots)
    ensures r.ArrayEntry? && r.name == a.name && DistinctIndices(r.slots)
    ensures ArrayGet(a, index).None? ==> r.slots == a.slots + [Slot(index, entries)]
    ensures ArrayGet(a, index).Some? ==>
              exists k :: 0 <= k < |a.slots| && a.slots[k].index == index &&
                r.slots == a.slots[k := Slot(index, entries)]
  {
    SlotOfMeans(a.slots, index);
    match Search.FirstIndex(a.slots, (s: Slot) => s.index == index)
    case None => ArrayEntry(a.name, a.slots + [Slot(index, entries)])
    case Some(k) => ArrayEntry(a.name, a.slots[k := Slot(index, entries)])
  }

  /** What `set` promises through `get` and `size`: the index now maps to the new
      entries, and the size grows by one exactly when the index was not mapped. */
  lemma ArraySetGet(a: Entry, index: int, entries: seq<Entry>)
    requires a.ArrayEntry? && DistinctIndices(a.slots)
    ensures ArrayGet(ArraySet(a, index, entries), index) == Some(entries)
    ensures ArraySize(ArraySet(a, index, entries)) ==
              ArraySize(a) + (if ArrayGet(a, index).None? then 1 else 0)
  {
    var r := ArraySet(a, index, entries);
    if ArrayGet(a, index).None? {
      SlotOfAt(r.slots, |a.slots|);
    } else {
      var k :| 0 <= k < |a.slots| && a.slots[k].index == index && r.slots == a.slots[k := Slot(index, entries)];
      SlotOfAt(r.slots, k);
    }
  }

  /** `set` leaves the entries of every other index as they were. */
  lemma ArraySetKeepsOthers(a: Entry, index: int, entries: seq<Entry>, j: int)
    requires a.ArrayEntry? && DistinctIndices(a.slots) && j != index
    ensures ArrayGet(ArraySet(a, index, entries), j) == ArrayGet(a, j)
  {
    var r := ArraySet(a, index, entries);
    SlotOfMeans(a.slots, j);
    SlotOfMeans(r.slots, j);
    if ArrayGet(a, j).Some? {
      var k :| 0 <= k < |a.slots| && a.slots[k] == Slot(j, ArrayGet(a, j).value);
      assert r.slots[k] == a.slots[k];
      SlotOfAt(r.slots, k);
    } else {
      assert forall k :: 0 <= k < |r.slots| ==> r.slots[k].index != j;
    }
  }

  /** ArrayEntry.add(entries): `set(size(), entries)`. */
  function ArrayAdd(a: Entry, entries: seq<Entry>): (r: Entry)
    requires a.ArrayEntry? && DistinctIndices(a.slots)
    ensures r.ArrayEntry? && DistinctIndices(r.slots)
    ensures ArrayGet(r, ArraySize(a)) == Some(entries)
    ensures ArrayGet(a, ArraySize(a)).None? ==> ArraySize(r) == ArraySize(a) + 1
  {
    ArraySetGet(a, ArraySize(a), entries);
    ArraySet(a, ArraySize(a), entries)
  }

  /** The slots `n` adds give, one per element, indexed from 0. */
  function Counted(lists: seq<seq<Entry>>, from: nat): (r: seq<Slot>)
    ensures |r| == |lists|
  {
    if lists == [] then [] else [Slot(from, lists[0])] + Counted(lists[1..], from + 1)
  }

  /** Adding `lists` one after another to an empty array maps exactly the indices
      0 .. n-1, in that order, to those lists; iteration yields them in order. */
  lemma {:induction false} AddsFromEmpty(name: Option<string>, lists: seq<seq<Entry>>)
    ensures AddAll(NewArrayEntry(name), lists).slots == Counted(lists, 0)
  {
    AddsFrom(NewArrayEntry(name), lists);
  }

  /** `add` applied to each list in turn. */
  function AddAll(a: Entry, lists: seq<seq<Entry>>): (r: Entry)
    requires a.ArrayEntry? && DistinctIndices(a.slots)
    ensures r.ArrayEntry? && DistinctIndices(r.slots)
    decreases |lists|
  {
    if lists == [] then a else AddAll(ArrayAdd(a, lists[0]), lists[1..])
  }

  /** Indices 0 .. n-1, in order. */
  predicate CountedIndices(slots: seq<Slot>) {
    forall k :: 0 <= k < |slots| ==> slots[k].index == k
  }

  /** Adding to an array whose indices are 0 .. n-1 continues the count. */
  lemma {:induction false} AddsFrom(a: Entry, lists: seq<seq<Entry>>)
    requires a.ArrayEntry? && DistinctIndices(a.slots) && CountedIndices(a.slots)
    ensures AddAll(a, lists).slots == a.slots + Counted(lists, |a.slots|)
    decreases |lists|
  {
    if lists != [] {
      AddAppends(a, lists[0]);
      var b := ArrayAdd(a, lists[0]);
      AddsFrom(b, lists[1..]);
      CountedStep(a.slots, lists, b.slots, AddAll(b, lists[1..]).slots);
    }
  }

  lemma CountedStep(pre: seq<Slot>, lists: seq<seq<Entry>>, mid: seq<Slot>, all: seq<Slot>)
    requires lists != [] && mid == pre + [Slot(|pre|, lists[0])]
    requires all == mid + Counted(lists[1..], |mid|)
    ensures all == pre + Counted(lists, |pre|)
  {
    var rest := Counted(lists[1..], |pre| + 1);
    assert Counted(lists, |pre|) == [Slot(|pre|, lists[0])] + rest;
    assert |mid| == |pre| + 1;
    ConcatAssoc(pre, [Slot(|pre|, lists[0])], rest);
  }

  lemma AddAppends(a: Entry, l: seq<Entry>)
    requires a.ArrayEntry? && DistinctIndices(a.slots) && CountedIndices(a.slots)
    ensures ArrayAdd(a, l).slots == a.slots + [Slot(|a.slots|, l)]
    ensures CountedIndices(ArrayAdd(a, l).slots)
  {
    SlotOfMeans(a.slots, |a.slots|);
    assert ArrayGet(a, |a.slots|).None?;
  }

  // ---------------------------------------------------------------- SimpleArrayEntry

  /** `new SimpleArrayEntry(name)`: no values. */
  function NewSimpleArrayEntry(name: Option<string>): (r: Entry)
    ensures r.SimpleArrayEntry? && r.name == name && r.variables == []
  {
    SimpleArrayEntry(name, [])
  }

  /** SimpleArrayEntry.addVariable: the variable goes at the end. */
  function AddVariable(a: Entry, v: Variable): (r: Entry)
    requires a.SimpleArrayEntry?
    ensures r.SimpleArrayEntry? && r.name == a.name
    ensures |r.variables| == |a.variables| + 1 && r.variables[|a.variables|] == v
    ensures r.variables[..|a.variables|] == a.variables
  {
    a.(variables := a.variables + [v])
  }

  /** SimpleArrayEntry.setVariable(index, value): `List.add(index, ...)` inserts an
      unnamed variable holding `value` before the one at `index`, and throws
      IndexOutOfBoundsException unless 0 <= index <= size. */
  function SetVariable(a: Entry, index: int, value: Value): (r: Result<Entry>)
    requires a.SimpleArrayEntry?
    ensures r.Ok? <==> 0 <= index <= |a.variables|
    ensures r.Err? ==> r.error == IndexOutOfBounds
    ensures r.Ok? ==> r.value.SimpleArrayEntry? && r.value.name == a.name &&
                      |r.value.variables| == |a.variables| + 1 &&
                      r.value.variables[index] == Variable(None, value) &&
                      r.value.variables[..index] == a.variables[..index] &&
                      r.value.variables[index + 1..] == a.variables[index..]
  {
    if 0 <= index <= |a.variables| then
      var vs := a.variables[..index] + [Variable(None, value)] + a.variables[index..];
      assert vs[index + 1..] == a.variables[index..];
      Ok(a.(variables := vs))
    else Err(IndexOutOfBounds)
  }

  /** SimpleArrayEntry.getVariable(index): `List.get`, IndexOutOfBoundsException outside
      the list. */
  function GetVariable(a: Entry, index: int): (r: Result<Variable>)
    requires a.SimpleArrayEntry?
    ensures r.Ok? <==> 0 <= index < |a.variables|
    ensures r.Ok? ==> r.value == a.variables[index]
    ensures r.Err? ==> r.error == IndexOutOfBounds
  {
    if 0 <= index < |a.variables| then Ok(a.variables[index]) else Err(IndexOutOfBounds)
  }

  /** Inserting at the end is appending: the deserializer's `setVariable(i, value)` with
      `i` the current size reads back as the last variable, and the earlier ones stay. */
  lemma SetAtEndAppends(a: Entry, value: Value)
    requires a.SimpleArrayEntry?
    ensures SetVariable(a, |a.variables|, value) == Ok(AddVariable(a, Variable(None, value)))
    ensures GetVariable(SetVariable(a, |a.variables|, value).value, |a.variables|) == Ok(Variable(None, value))
  {
    var n := |a.variables|;
    assert a.variables[..n] == a.variables && a.variables[n..] == [];
    assert a.variables[..n] + [Variable(None, value)] + a.variables[n..] == a.variables + [Variable(None, value)];
  }

  // ---------------------------------------------------------------- MatchEntry

  /** `new MatchEntry()`: no name, no entries, value 0. */
  function NewMatchEntry(): (r: Entry)
    ensures r.MatchEntry? && r.name.None? && r.entries == [] && r.matchValue == 0
  {
    MatchEntry(None, [], 0)
  }

  /** MatchEntry.setEntries: the whole list is replaced. */
  function SetEntries(m: Entry, entries: seq<Entry>): (r: Entry)
    requires m.MatchEntry?
    ensures r.MatchEntry? && r.entries == entries && r.matchValue == m.matchValue && r.name == m.name
  {
    m.(entries := entries)
  }

  /** MatchEntry.setValue. */
  function SetMatchValue(m: Entry, value: Int32): (r: Entry)
    requires m.MatchEntry?
    ensures r.MatchEntry? && r.matchValue == value && r.entries == m.entries && r.name == m.name
  {
    m.(matchValue := value)
  }

  /** MatchEntry.getEntry(name): the same first-match search over the branch entries. */
  function GetEntry(m: Entry, name: string): (r: Result<Option<Entry>>)
    requires m.MatchEntry?
    ensures r.Ok? && r.value.Some? ==> r.value.value in m.entries && r.value.value.name == Some(name)
  {
    var r := GetByName(m.entries, name);
    if r.Ok? && r.value.Some? then
      ghost var i :| 0 <= i < |m.entries| && m.entries[i] == r.value.value && m.entries[i].name == Some(name) &&
                     forall j :: 0 <= j < i ==> Passed(m.entries[j], name);
      r
    else r
  }

  /** The getters of a match entry give back what the setters stored last. */
  lemma MatchSettersGetters(m: Entry, entries: seq<Entry>, value: Int32, name: string)
    requires m.MatchEntry?
    ensures SetMatchValue(SetEntries(m, entries), value).entries == entries
    ensures SetEntries(SetMatchValue(m, value), entries).matchValue == value
    ensures GetEntry(SetEntries(m, entries), name) == GetByName(entries, name)
  {
  }

  // ---------------------------------------------------------------- EntryList

  /** The list object a packet holds after decoding (`packet.setEntry`): the tasks edit
      the packet through it, and a shallow copy of the packet shares it. */
  class EntryList {
    var items: seq<Entry>

    constructor (items: seq<Entry>)
      ensures this.items == items
    {
      this.items := items;
    }

    /** EntryList.get(name). */
    function Get(name: string): (r: Result<Option<Entry>>)
      reads this
    {
      GetByName(items, name)
    }

    method Add(e: Entry)
      modifies this
      ensures items == old(items) + [e]
    {
      items := items + [e];
    }

    /** The entry at position `i` changed in place (a setter called on the entry `get`
        returned): the list holds the entry's new state there. */
    method Set(i: nat, e: Entry)
      requires i < |items|
      modifies this
      ensures items == old(items)[i := e]
    {
      items := items[i := e];
    }
  }
}
