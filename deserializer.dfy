/** PacketDeserializer: reads a packet's fields by walking its definition's rules.
    Every block of rules pushes a scope on the variable stack; a variable rule's entry
    goes both to the block's output and to the top scope, where later array, match and
    condition rules look up their length or discriminant. Match and condition blocks are
    spliced into the parent's output.

    The pure functions (DecodeBlock and the Decode* family) say what a walk reads from a
    byte sequence; the class's methods are proved to read exactly that. */
module Deserialization {
  import opened Base
  import opened Wire
  import opened Protocols
  import opened Tokens
  import opened Rules
  import opened Entries
  import opened Reader
  import Decimal
  import Packets

  /** The variable stack: one scope per block being read, outermost first. A scope holds
      the variable entries its block has read so far. */
  type Scopes = seq<seq<Entry>>

  // ---------------------------------------------------------------- variable lookup

  /** The lookup of `getVariableValue`: `for (EntryList list : stack)` walks the scopes
      from the bottom (outermost) up and takes the first scope whose `get(name)` is not
      null. A NullPointerException from `get` ends the walk. */
  function FindVariable(stack: Scopes, name: string): (r: Result<Option<Entry>>)
  {
    FindFrom(stack, name, 0)
  }

  /** The scope does not hold the name: its `get(name)` is null. */
  predicate Misses(scope: seq<Entry>, name: string) {
    GetByName(scope, name) == Ok(None)
  }

  function FindFrom(stack: Scopes, name: string, k: nat): Result<Option<Entry>>
    requires k <= |stack|
    decreases |stack| - k
  {
    if k == |stack| then Ok(None)
    else
      if Misses(stack[k], name) then FindFrom(stack, name, k + 1) else GetByName(stack[k], name)
  }

  /** The search from scope k finds nothing exactly when every scope from k on misses
      the name; otherwise its answer is the `get(name)` of the first scope from k on
      that does not miss it. */
  lemma {:induction false} FindFromMeans(stack: Scopes, name: string, k: nat)
    requires k <= |stack|
    ensures FindFrom(stack, name, k) == Ok(None) <==> forall j :: k <= j < |stack| ==> Misses(stack[j], name)
    ensures FindFrom(stack, name, k) != Ok(None) ==>
              exists j :: k <= j < |stack| && GetByName(stack[j], name) == FindFrom(stack, name, k) &&
                forall i :: k <= i < j ==> Misses(stack[i], name)
    decreases |stack| - k
  {
    if k < |stack| {
      if Misses(stack[k], name) {
        FindFromMeans(stack, name, k + 1);
        if FindFrom(stack, name, k) != Ok(None) {
          var j :| k + 1 <= j < |stack| && GetByName(stack[j], name) == FindFrom(stack, name, k + 1) &&
                   forall i :: k + 1 <= i < j ==> Misses(stack[i], name);
          assert forall i :: k <= i < j ==> Misses(stack[i], name);
        }
      } else {
        assert !(forall j :: k <= j < |stack| ==> Misses(stack[j], name));
      }
    }
  }

  /** `getVariableValue(name, Object.class)` with the value, not the entry, coming out
      of `getValueAs`: null when no scope holds the name or when the entry's value is
      null. */
  function VariableValue(stack: Scopes, name: string): (r: Result<Option<Value>>)
  {
    var found :- FindVariable(stack, name);
    if found.None? then Ok(None)
    else
      var e :- Entries.GetAs(found.value, VariableClass);
      var v := GetValueAs(e, ObjectClass).value;
      Ok(if v == NbtValue(None) then None else Some(v))
  }

  /** The int `getValueFromVariable` makes of a value: a VarInt gives its own value, any
      other value goes through `Integer.parseInt(value.toString())`. Only integers and
      strings have a decimal text; every other value's text makes parseInt throw. */
  function IntOf(v: Value): (r: Result<Int32>)
    ensures v.VarIntValue? ==> r == Ok(v.varInt)
    ensures v.IntValue? ==> r == Ok(v.intValue)
    ensures v.LongValue? ==> (r.Ok? <==> -(TWO_31 as int) <= v.longValue < TWO_31) &&
                             (r.Ok? ==> r.value == v.longValue)
    ensures v.StringValue? ==> r == Decimal.ParseInt(v.text)
    ensures r.Err? ==> r.error == NumberFormat
  {
    match v
    case VarIntValue(i) => Ok(i)
    case IntValue(i) =>
      Decimal.ParseIntText(i);
      Decimal.ParseInt(Decimal.IntText(i))
    case LongValue(l) =>
      Decimal.ParseIntText(l);
      Decimal.ParseInt(Decimal.IntText(l))
    case StringValue(text) => Decimal.ParseInt(text)
    case _ => Err(NumberFormat)
  }

  /** getValueFromVariable: IllegalStateException("Undefined variable") when the lookup
      gives null, otherwise the int of the value. */
  function Lookup(stack: Scopes, name: string): (r: Result<Int32>)
    ensures FindVariable(stack, name) == Ok(None) ==> r == Err(UndefinedVariable(name))
    ensures FindVariable(stack, name).Err? ==> r == Err(FindVariable(stack, name).error)
    ensures FindVariable(stack, name).Ok? && FindVariable(stack, name).value.Some? ==>
              var e := FindVariable(stack, name).value.value;
              e.VariableEntry? ==>
                r == (if e.value == NbtValue(None) then Err(UndefinedVariable(name)) else IntOf(e.value))
  {
    var v :- VariableValue(stack, name);
    if v.None? then Err(UndefinedVariable(name)) else IntOf(v.value)
  }

  /** How `toString` spells an optional name: its text, or "null". */
  function NameText(name: Option<string>): string {
    if name.Some? then name.value else "null"
  }

  /** VariableEntry.toString, with `valueText` standing for the value's own toString. */
  function EntryText(e: Entry, valueText: string): (t: string)
    requires e.VariableEntry?
  {
    "VariableEntry{name=" + NameText(e.name) + ", value=" + valueText + "}"
  }

  /** getValueFromVariable as written: `getValueAs(Object.class)` returns the entry
      itself, so it is never null, is never a VarInt, and `Integer.parseInt` receives the
      entry's toString. `valueText` stands for the toString of the entry's value. */
  function LookupAsWritten(stack: Scopes, name: string, valueText: string): (r: Result<Int32>)
  {
    var found :- FindVariable(stack, name);
    if found.None? then Err(UndefinedVariable(name))
    else
      var e :- Entries.GetAs(found.value, VariableClass);
      var o := GetValueAsWritten(e, ObjectClass).value;
      Decimal.ParseInt(EntryText(o, valueText))
  }

  /** As written, no variable ever gives a number: every lookup that finds its variable
      ends in NumberFormatException, whatever the value, while the corrected lookup
      gives the value of an int or VarInt field. */
  lemma LookupAsWrittenNeverSucceeds(stack: Scopes, name: string, valueText: string)
    ensures LookupAsWritten(stack, name, valueText).Err?
    ensures FindVariable(stack, name).Ok? && FindVariable(stack, name).value.Some? &&
            FindVariable(stack, name).value.value.VariableEntry? ==>
              LookupAsWritten(stack, name, valueText) == Err(NumberFormat)
  {
    var found := FindVariable(stack, name);
    if found.Ok? && found.value.Some? && found.value.value.VariableEntry? {
      var t := EntryText(found.value.value, valueText);
      assert t[0] == 'V';
    }
  }

  /** The smallest case: a block that read a VarInt `count` of 2. */
  lemma CountLookupExample(valueText: string)
    ensures LookupAsWritten([[VariableEntry(Some("count"), VarIntValue(2))]], "count", valueText) == Err(NumberFormat)
    ensures Lookup([[VariableEntry(Some("count"), VarIntValue(2))]], "count") == Ok(2)
  {
    var stack: Scopes := [[VariableEntry(Some("count"), VarIntValue(2))]];
    assert GetByName(stack[0], "count") == Ok(Some(stack[0][0]));
    assert FindVariable(stack, "count") == Ok(Some(stack[0][0]));
    LookupAsWrittenNeverSucceeds(stack, "count", valueText);
  }

  // ---------------------------------------------------------------- what a walk reads

  /** What one rule contributes: the entries it adds to its block's output, the entries
      it adds to the block's scope, and where reading stops. */
  datatype Step = Step(entries: seq<Entry>, declared: seq<Entry>, next: nat)

  /** The top scope after `peek().add(...)` of the declared entries. */
  function Declare(stack: Scopes, declared: seq<Entry>): (r: Scopes)
    requires |stack| > 0
    ensures |r| == |stack| && r[..|stack| - 1] == stack[..|stack| - 1]
    ensures r[|stack| - 1] == stack[|stack| - 1] + declared
    ensures declared == [] ==> r == stack
  {
    assert stack[|stack| - 1] + [] == stack[|stack| - 1];
    stack[|stack| - 1 := stack[|stack| - 1] + declared]
  }

  /** deserializeCodeBlockFromRules: a fresh scope on top of `stack`, then every rule in
      order. The scope is gone again afterwards, so the caller's stack is unaffected. */
  function DecodeBlock(s: seq<Byte>, p: nat, stack: Scopes, rules: seq<Rule>, protocol: Protocol)
    : (r: Result<Parsed<seq<Entry>>>)
    ensures r.Ok? ==> p <= r.value.next
    decreases rules, 1
  {
    DecodeRules(s, p, stack + [[]], [], rules, protocol)
  }

  /** The loop over a block's rules, from the entries `acc` read so far. */
  function DecodeRules(s: seq<Byte>, p: nat, stack: Scopes, acc: seq<Entry>, rules: seq<Rule>,
                       protocol: Protocol): (r: Result<Parsed<seq<Entry>>>)
    requires |stack| > 0
    ensures r.Ok? ==> p <= r.value.next && acc <= r.value.value
    decreases rules, 0
  {
    if rules == [] then Ok(Parsed(acc, p))
    else
      var st :- DecodeRule(s, p, stack, rules[0], protocol);
      DecodeRules(s, st.next, Declare(stack, st.declared), acc + st.entries, rules[1..], protocol)
  }

  /** One rule, by its kind. */
  function DecodeRule(s: seq<Byte>, p: nat, stack: Scopes, rule: Rule, protocol: Protocol)
    : (r: Result<Step>)
    ensures r.Ok? ==> p <= r.value.next
    ensures r.Ok? && !rule.VariableRule? ==> r.value.declared == []
    ensures rule.VariableRule? ==>
              var v := ParseToken(s, p, rule.ruleType, protocol);
              (r.Ok? <==> v.Ok?) &&
              (r.Ok? ==> r.value.entries == r.value.declared == [VariableEntry(rule.name, v.value.value)] &&
                         r.value.next == v.value.next)
    decreases rule, 1
  {
    match rule
    case VariableRule(name, t) =>
      var v :- ParseToken(s, p, t, protocol);
      var e := VariableEntry(name, v.value);
      Ok(Step([e], [e], v.next))
    case MatchRule(_, _, _) => DecodeMatch(s, p, stack, rule, protocol)
    case ArrayRule(_, _, _) => DecodeArray(s, p, stack, rule, protocol)
    case SimpleArrayRule(_, _, _) => DecodeSimpleArray(s, p, stack, rule, protocol)
    case ConditionRule(_, _, _, _) => DecodeCondition(s, p, stack, rule, protocol)
  }

  /** deserializeMatch: the rules of the branch for the variable's value, read as a
      block whose entries go straight into the parent's output. */
  function DecodeMatch(s: seq<Byte>, p: nat, stack: Scopes, rule: Rule, protocol: Protocol)
    : (r: Result<Step>)
    requires rule.MatchRule?
    ensures r.Ok? ==> p <= r.value.next && r.value.declared == []
    ensures r.Ok? ==> Lookup(stack, rule.variable).Ok? &&
                      var i := BranchIndex(rule.branches, Lookup(stack, rule.variable).value);
                      i.Ok? &&
                      DecodeBlock(s, p, stack, rule.branches[i.value].rules, protocol) ==
                        Ok(Parsed(r.value.entries, r.value.next))
    decreases rule, 0
  {
    var value :- Lookup(stack, rule.variable);
    var i :- BranchIndex(rule.branches, value);
    var d :- DecodeBlock(s, p, stack, rule.branches[i].rules, protocol);
    Ok(Step(d.value, [], d.next))
  }

  /** deserializeArray: as many blocks of the array's rules as the length variable says,
      at indices 0, 1, ... of one ArrayEntry. */
  function DecodeArray(s: seq<Byte>, p: nat, stack: Scopes, rule: Rule, protocol: Protocol)
    : (r: Result<Step>)
    requires rule.ArrayRule?
    ensures r.Ok? ==> p <= r.value.next && r.value.declared == []
    ensures r.Ok? ==> Lookup(stack, rule.lengthVariable).Ok? &&
                      var n := Lookup(stack, rule.lengthVariable).value;
                      |r.value.entries| == 1 && r.value.entries[0].ArrayEntry? &&
                      r.value.entries[0].name == rule.name &&
                      CountedIndices(r.value.entries[0].slots) &&
                      |r.value.entries[0].slots| == (if n > 0 then n else 0) &&
                      (n <= 0 ==> r.value.next == p)
    decreases rule, 0
  {
    var n :- Lookup(stack, rule.lengthVariable);
    var els :- DecodeElements(s, p, stack, rule.rules, protocol, 0, n);
    Ok(Step([ArrayEntry(rule.name, els.value)], [], els.next))
  }

  /** The array elements from index `i` on, up to `n` exclusive. */
  function DecodeElements(s: seq<Byte>, p: nat, stack: Scopes, rules: seq<Rule>, protocol: Protocol,
                          i: nat, n: int): (r: Result<Parsed<seq<Slot>>>)
    ensures r.Ok? ==> p <= r.value.next
    ensures r.Ok? ==> |r.value.value| == (if i < n then n - i else 0)
    ensures r.Ok? ==> forall k :: 0 <= k < |r.value.value| ==> r.value.value[k].index == i + k
    ensures i >= n ==> r == Ok(Parsed([], p))
    decreases rules, 2, n - i
  {
    if i >= n then Ok(Parsed([], p))
    else
      var b :- DecodeBlock(s, p, stack, rules, protocol);
      var rest :- DecodeElements(s, b.next, stack, rules, protocol, i + 1, n);
      Ok(Parsed([Slot(i, b.value)] + rest.value, rest.next))
  }

  /** deserializeSimpleArray: as many values of the element type as the length variable
      says, in one SimpleArrayEntry. */
  function DecodeSimpleArray(s: seq<Byte>, p: nat, stack: Scopes, rule: Rule, protocol: Protocol)
    : (r: Result<Step>)
    requires rule.SimpleArrayRule?
    ensures r.Ok? ==> p <= r.value.next && r.value.declared == []
    ensures r.Ok? ==> Lookup(stack, rule.lengthVariable).Ok? &&
                      var n := Lookup(stack, rule.lengthVariable).value;
                      |r.value.entries| == 1 && r.value.entries[0].SimpleArrayEntry? &&
                      r.value.entries[0].name == rule.name &&
                      |r.value.entries[0].variables| == (if n > 0 then n else 0) &&
                      forall j :: 0 <= j < |r.value.entries[0].variables| ==>
                        HasClassOf(rule.elementType, r.value.entries[0].variables[j].value)
    decreases rule, 0
  {
    var n :- Lookup(stack, rule.lengthVariable);
    var vs :- DecodeValues(s, p, rule.elementType, protocol, if n < 0 then 0 else n);
    Ok(Step([SimpleArrayEntry(rule.name, vs.value)], [], vs.next))
  }

  /** `k` values of type `t`, each as an unnamed variable. */
  function DecodeValues(s: seq<Byte>, p: nat, t: TokenType, protocol: Protocol, k: nat)
    : (r: Result<Parsed<seq<Variable>>>)
    ensures r.Ok? ==> p <= r.value.next && |r.value.value| == k
    ensures r.Ok? ==> forall j :: 0 <= j < k ==> r.value.value[j].name.None? && HasClassOf(t, r.value.value[j].value)
    decreases k
  {
    if k == 0 then Ok(Parsed([], p))
    else
      var v :- ParseToken(s, p, t, protocol);
      var rest :- DecodeValues(s, v.next, t, protocol, k - 1);
      Ok(Parsed([Entries.Variable(None, v.value)] + rest.value, rest.next))
  }

  /** deserializeCondition: nothing when the branch is not taken, otherwise the branch's
      block, spliced into the parent's output. */
  function DecodeCondition(s: seq<Byte>, p: nat, stack: Scopes, rule: Rule, protocol: Protocol)
    : (r: Result<Step>)
    requires rule.ConditionRule?
    ensures r.Ok? ==> p <= r.value.next && r.value.declared == []
    ensures Lookup(stack, rule.variable).Err? ==> r == Err(Lookup(stack, rule.variable).error)
    ensures Lookup(stack, rule.variable).Ok? && !rule.isBranchTaken(Lookup(stack, rule.variable).value) ==>
              r == Ok(Step([], [], p))
    ensures Lookup(stack, rule.variable).Ok? && rule.isBranchTaken(Lookup(stack, rule.variable).value) ==>
              var d := DecodeBlock(s, p, stack, rule.branchRules, protocol);
              (r.Ok? <==> d.Ok?) && (r.Ok? ==> r.value == Step(d.value.value, [], d.value.next))
    decreases rule, 0
  {
    var value :- Lookup(stack, rule.variable);
    if !rule.isBranchTaken(value) then Ok(Step([], [], p))
    else
      var d :- DecodeBlock(s, p, stack, rule.branchRules, protocol);
      Ok(Step(d.value, [], d.next))
  }

  // ---------------------------------------------------------------- the deserializer

  /** What a method that reads a block returns, against the walk that specifies it. */
  ghost predicate Outcome<T>(r: Result<T>, spec: Result<Parsed<T>>, pos: nat) {
    if spec.Ok? then r == Ok(spec.value.value) && pos == spec.value.next
    else r == Err(spec.error)
  }

  /** What a method that reads one rule returns and leaves in the scopes, against the
      step that specifies it. */
  ghost predicate StepOutcome(r: Result<seq<Entry>>, spec: Result<Step>, pos: nat,
                              before: Scopes, after: Scopes)
    requires |before| > 0
  {
    if spec.Ok? then r == Ok(spec.value.entries) && pos == spec.value.next &&
                     after == Declare(before, spec.value.declared)
    else r == Err(spec.error)
  }

  class PacketDeserializer {
    var variablesStack: Scopes
    /** Set by `deserialize` from the definition; null before. */
    var protocol: Option<Protocol>
    /** Set by `setDataReader`; null before. */
    var reader: DataReader?

    constructor ()
      ensures variablesStack == [] && protocol == None && reader == null
    {
      variablesStack := [];
      protocol := None;
      reader := null;
    }

    method SetDataReader(reader: DataReader)
      modifies this
      ensures this.reader == reader
      ensures variablesStack == old(variablesStack) && protocol == old(protocol)
    {
      this.reader := reader;
    }

    /** deserialize: the protocol comes from the definition, the packet receives the
        entries of the definition's rules and the definition's packet name. */
    method Deserialize(definition: Rules.PacketDefinition, packet: Packets.Packet) returns (e: Option<Error>)
      requires reader != null && reader.Valid()
      modifies this, reader, packet
      ensures reader == old(reader) && reader.Valid() && protocol == Some(definition.protocol)
      ensures var spec := DecodeBlock(reader.data, old(reader.pos), old(variablesStack),
                                      definition.rules.items, definition.protocol);
              (spec.Ok? ==> e == None && reader.pos == spec.value.next &&
                            variablesStack == old(variablesStack) &&
                            packet.entries != null && fresh(packet.entries) &&
                            packet.entries.items == spec.value.value &&
                            packet.packetName == definition.packetName) &&
              (spec.Err? ==> e == Some(spec.error) && packet.entries == old(packet.entries) &&
                             packet.packetName == old(packet.packetName))
    {
      protocol := Some(definition.protocol);
      var r := DeserializeBlock(definition.rules.items);
      if r.Err? {
        return Some(r.error);
      }
      var list := new EntryList(r.value);
      packet.SetEntries(list);
      packet.SetPacketName(definition.packetName);
      return None;
    }

    /** deserializeCodeBlockFromRules: push a scope, deserialize each rule, pop the
        scope. */
    method DeserializeBlock(rules: seq<Rule>) returns (r: Result<seq<Entry>>)
      requires reader != null && reader.Valid() && protocol.Some?
      modifies this, reader
      ensures reader == old(reader) && reader.Valid() && protocol == old(protocol)
      ensures Outcome(r, DecodeBlock(reader.data, old(reader.pos), old(variablesStack), rules,
                                     protocol.value), reader.pos)
      ensures r.Ok? ==> variablesStack == old(variablesStack)
      decreases rules, 1
    {
      ghost var s, p0, outer := reader.data, reader.pos, variablesStack;
      variablesStack := variablesStack + [[]];
      var entries: seq<Entry> := [];
      var i := 0;
      while i < |rules|
        invariant i <= |rules|
        invariant reader == old(reader) && reader.Valid() && protocol == old(protocol)
        invariant |variablesStack| == |outer| + 1 && variablesStack[..|outer|] == outer
        invariant DecodeBlock(s, p0, outer, rules, protocol.value) ==
                  DecodeRules(s, reader.pos, variablesStack, entries, rules[i..], protocol.value)
      {
        ghost var q, before := reader.pos, variablesStack;
        assert rules[i..][0] == rules[i] && rules[i..][1..] == rules[i + 1..];
        var step := DeserializeRule(rules[i]);
        if step.Err? {
          return Err(step.error);
        }
        entries := entries + step.value;
        i := i + 1;
      }
      variablesStack := variablesStack[..|variablesStack| - 1];
      return Ok(entries);
    }

    /** The dispatch on the rule's class. */
    method DeserializeRule(rule: Rule) returns (r: Result<seq<Entry>>)
      requires reader != null && reader.Valid() && protocol.Some? && |variablesStack| > 0
      modifies this, reader
      ensures reader == old(reader) && reader.Valid() && protocol == old(protocol)
      ensures StepOutcome(r, DecodeRule(reader.data, old(reader.pos), old(variablesStack), rule,
                                        protocol.value), reader.pos, old(variablesStack), variablesStack)
      decreases rule, 1
    {
      match rule
      case VariableRule(_, _) => r := DeserializeVariable(rule);
      case MatchRule(_, _, _) => r := DeserializeMatch(rule);
      case ArrayRule(_, _, _) => r := DeserializeArray(rule);
      case SimpleArrayRule(_, _, _) => r := DeserializeSimpleArray(rule);
      case ConditionRule(_, _, _, _) => r := DeserializeCondition(rule);
    }

    /** deserializeVariable: one value of the rule's type, as an entry added to the
        output and to the top scope. */
    method DeserializeVariable(rule: Rule) returns (r: Result<seq<Entry>>)
      requires rule.VariableRule?
      requires reader != null && reader.Valid() && protocol.Some? && |variablesStack| > 0
      modifies this, reader
      ensures reader == old(reader) && reader.Valid() && protocol == old(protocol)
      ensures StepOutcome(r, DecodeRule(reader.data, old(reader.pos), old(variablesStack), rule,
                                        protocol.value), reader.pos, old(variablesStack), variablesStack)
      decreases rule, 0
    {
      var v :- ReadToken(reader, rule.ruleType, protocol.value);
      var entry := VariableEntry(rule.name, v);
      var top := |variablesStack| - 1;
      variablesStack := variablesStack[top := variablesStack[top] + [entry]];
      return Ok([entry]);
    }

    /** deserializeMatch. */
    method DeserializeMatch(rule: Rule) returns (r: Result<seq<Entry>>)
      requires rule.MatchRule?
      requires reader != null && reader.Valid() && protocol.Some? && |variablesStack| > 0
      modifies this, reader
      ensures reader == old(reader) && reader.Valid() && protocol == old(protocol)
      ensures StepOutcome(r, DecodeMatch(reader.data, old(reader.pos), old(variablesStack), rule,
                                         protocol.value), reader.pos, old(variablesStack), variablesStack)
      decreases rule, 0
    {
      var value :- GetValueFromVariable(rule.variable);
      var i :- BranchIndex(rule.branches, value);
      var block :- DeserializeBlock(rule.branches[i].rules);
      return Ok(block);
    }

    /** deserializeArray: `set(i, block)` for i = 0 .. n-1 on a new ArrayEntry. */
    method DeserializeArray(rule: Rule) returns (r: Result<seq<Entry>>)
      requires rule.ArrayRule?
      requires reader != null && reader.Valid() && protocol.Some? && |variablesStack| > 0
      modifies this, reader
      ensures reader == old(reader) && reader.Valid() && protocol == old(protocol)
      ensures StepOutcome(r, DecodeArray(reader.data, old(reader.pos), old(variablesStack), rule,
                                         protocol.value), reader.pos, old(variablesStack), variablesStack)
      decreases rule, 0
    {
      var n :- GetValueFromVariable(rule.lengthVariable);
      var entry := NewArrayEntry(rule.name);
      ghost var s, p0, stack := reader.data, reader.pos, variablesStack;
      GlueNil(entry.slots, DecodeElements(s, p0, stack, rule.rules, protocol.value, 0, n));
      var i: nat := 0;
      while i < n
        invariant reader == old(reader) && reader.Valid() && protocol == old(protocol)
        invariant variablesStack == stack
        invariant entry.ArrayEntry? && entry.name == rule.name && |entry.slots| == i
        invariant DistinctIndices(entry.slots) && CountedIndices(entry.slots)
        invariant DecodeElements(s, p0, stack, rule.rules, protocol.value, 0, n) ==
                  Glue(entry.slots, DecodeElements(s, reader.pos, stack, rule.rules, protocol.value, i, n))
        decreases n - i
      {
        ghost var q := reader.pos;
        var block :- DeserializeBlock(rule.rules);
        ElementsGlueStep(s, q, reader.pos, stack, rule.rules, protocol.value, i, n, entry.slots, block);
        SlotOfMeans(entry.slots, i);
        entry := ArraySet(entry, i, block);
        i := i + 1;
      }
      GlueEnd(entry.slots, DecodeElements(s, reader.pos, stack, rule.rules, protocol.value, i, n), reader.pos);
      return Ok([entry]);
    }

    /** deserializeSimpleArray: `setVariable(i, value)` for i = 0 .. n-1 on a new
        SimpleArrayEntry. */
    method DeserializeSimpleArray(rule: Rule) returns (r: Result<seq<Entry>>)
      requires rule.SimpleArrayRule?
      requires reader != null && reader.Valid() && protocol.Some? && |variablesStack| > 0
      modifies this, reader
      ensures reader == old(reader) && reader.Valid() && protocol == old(protocol)
      ensures StepOutcome(r, DecodeSimpleArray(reader.data, old(reader.pos), old(variablesStack), rule,
                                               protocol.value), reader.pos, old(variablesStack), variablesStack)
      decreases rule, 0
    {
      var n :- GetValueFromVariable(rule.lengthVariable);
      SimpleArrayOfValues(reader.data, reader.pos, variablesStack, rule, protocol.value, n, if n < 0 then 0 else n);
      var entry :- ReadSimpleArray(rule, n);
      return Ok([entry]);
    }

    /** The loop of deserializeSimpleArray: `n` values of the element type, each set at
        the end of a new SimpleArrayEntry. */
    method ReadSimpleArray(rule: Rule, n: Int32) returns (r: Result<Entry>)
      requires rule.SimpleArrayRule? && reader != null && reader.Valid() && protocol.Some?
      modifies reader
      ensures reader.Valid()
      ensures var vs := DecodeValues(reader.data, old(reader.pos), rule.elementType, protocol.value,
                                     if n < 0 then 0 else n);
              if vs.Ok? then r == Ok(SimpleArrayEntry(rule.name, vs.value.value)) && reader.pos == vs.value.next
              else r == Err(vs.error)
    {
      var entry := NewSimpleArrayEntry(rule.name);
      ghost var s, p0 := reader.data, reader.pos;
      ghost var k: nat := if n < 0 then 0 else n;
      GlueNil(entry.variables, DecodeValues(s, p0, rule.elementType, protocol.value, k));
      var i: nat := 0;
      while i < n
        invariant reader.Valid() && i <= k
        invariant entry.SimpleArrayEntry? && entry.name == rule.name && |entry.variables| == i
        invariant DecodeValues(s, p0, rule.elementType, protocol.value, k) ==
                  Glue(entry.variables, DecodeValues(s, reader.pos, rule.elementType, protocol.value, k - i))
        decreases n - i
      {
        entry :- SetNextValue(rule, entry, i, p0, k);
        i := i + 1;
      }
      GlueEnd(entry.variables, DecodeValues(s, reader.pos, rule.elementType, protocol.value, k - i), reader.pos);
      return Ok(entry);
    }

    /** A turn of deserializeSimpleArray's loop: `setVariable(i, readFromTokenType(..))`. */
    method SetNextValue(rule: Rule, entry: Entry, i: nat, ghost p0: nat, ghost k: nat) returns (r: Result<Entry>)
      requires rule.SimpleArrayRule? && reader != null && reader.Valid() && protocol.Some?
      requires entry.SimpleArrayEntry? && entry.name == rule.name && |entry.variables| == i < k
      requires DecodeValues(reader.data, p0, rule.elementType, protocol.value, k) ==
               Glue(entry.variables, DecodeValues(reader.data, reader.pos, rule.elementType, protocol.value, k - i))
      modifies reader
      ensures reader.Valid()
      ensures r.Ok? ==>
                r.value.SimpleArrayEntry? && r.value.name == rule.name && |r.value.variables| == i + 1 &&
                DecodeValues(reader.data, p0, rule.elementType, protocol.value, k) ==
                Glue(r.value.variables, DecodeValues(reader.data, reader.pos, rule.elementType, protocol.value, k - (i + 1)))
      ensures r.Err? ==> DecodeValues(reader.data, p0, rule.elementType, protocol.value, k) == Err(r.error)
    {
      ghost var q := reader.pos;
      var read := ReadToken(reader, rule.elementType, protocol.value);
      if read.Err? {
        ValuesGlueErr(reader.data, q, rule.elementType, protocol.value, k - i, entry.variables);
        return Err(read.error);
      }
      var v := read.value;
      SetAtEndAppends(entry, v);
      var next := SetVariable(entry, i, v).value;
      ValuesLoopStep(reader.data, p0, q, reader.pos, rule.elementType, protocol.value, k, i, entry.variables, v,
                     next.variables);
      return Ok(next);
    }

    /** deserializeCondition. */
    method DeserializeCondition(rule: Rule) returns (r: Result<seq<Entry>>)
      requires rule.ConditionRule?
      requires reader != null && reader.Valid() && protocol.Some? && |variablesStack| > 0
      modifies this, reader
      ensures reader == old(reader) && reader.Valid() && protocol == old(protocol)
      ensures StepOutcome(r, DecodeCondition(reader.data, old(reader.pos), old(variablesStack), rule,
                                             protocol.value), reader.pos, old(variablesStack), variablesStack)
      decreases rule, 0
    {
      var value :- GetValueFromVariable(rule.variable);
      if !rule.isBranchTaken(value) {
        return Ok([]);
      }
      var block :- DeserializeBlock(rule.branchRules);
      return Ok(block);
    }

    /** getVariableValue(name, Object.class), with getValueAs giving the value: the
        scopes are searched bottom first. */
    method GetVariableValue(name: string) returns (r: Result<Option<Value>>)
      ensures r == VariableValue(variablesStack, name)
    {
      var k := 0;
      while k < |variablesStack|
        invariant k <= |variablesStack|
        invariant FindVariable(variablesStack, name) == FindFrom(variablesStack, name, k)
      {
        var found := variablesStack[k];
        var hit :- GetByName(found, name);
        if hit.Some? {
          var e :- Entries.GetAs(hit.value, VariableClass);
          var v := GetValueAs(e, ObjectClass).value;
          return Ok(if v == NbtValue(None) then None else Some(v));
        }
        k := k + 1;
      }
      return Ok(None);
    }

    /** getValueFromVariable. */
    method GetValueFromVariable(name: string) returns (r: Result<Int32>)
      ensures r == Lookup(variablesStack, name)
    {
      var v :- GetVariableValue(name);
      if v.None? {
        return Err(UndefinedVariable(name));
      }
      return IntOf(v.value);
    }
  }

  /** One block of an array's loop moves an element from the rest to the front. */
  lemma ElementsGlueStep(s: seq<Byte>, q: nat, q2: nat, stack: Scopes, rules: seq<Rule>, protocol: Protocol,
                         i: nat, n: int, pre: seq<Slot>, block: seq<Entry>)
    requires i < n && DecodeBlock(s, q, stack, rules, protocol) == Ok(Parsed(block, q2))
    ensures Glue(pre, DecodeElements(s, q, stack, rules, protocol, i, n)) ==
            Glue(pre + [Slot(i, block)], DecodeElements(s, q2, stack, rules, protocol, i + 1, n))
  {
    var rest := DecodeElements(s, q2, stack, rules, protocol, i + 1, n);
    if rest.Ok? {
      ConcatAssoc(pre, [Slot(i, block)], rest.value.value);
    }
  }

  /** A simple array once its length is known: the values, or their exception. */
  lemma SimpleArrayOfValues(s: seq<Byte>, p: nat, stack: Scopes, rule: Rule, protocol: Protocol, n: Int32, k: nat)
    requires rule.SimpleArrayRule? && Lookup(stack, rule.lengthVariable) == Ok(n) && k == (if n < 0 then 0 else n)
    ensures var vs := DecodeValues(s, p, rule.elementType, protocol, k);
            DecodeSimpleArray(s, p, stack, rule, protocol) ==
              if vs.Ok? then Ok(Step([SimpleArrayEntry(rule.name, vs.value.value)], [], vs.value.next))
              else Err(vs.error)
  {
  }

  /** A turn of the simple array's loop: one more value read, one fewer to go. */
  lemma ValuesLoopStep(s: seq<Byte>, p0: nat, q: nat, q2: nat, t: TokenType, protocol: Protocol, k: nat, i: nat,
                       pre: seq<Variable>, v: Value, post: seq<Variable>)
    requires i < k && DecodeValues(s, p0, t, protocol, k) == Glue(pre, DecodeValues(s, q, t, protocol, k - i))
    requires ParseToken(s, q, t, protocol) == Ok(Parsed(v, q2)) && post == pre + [Entries.Variable(None, v)]
    ensures DecodeValues(s, p0, t, protocol, k) == Glue(post, DecodeValues(s, q2, t, protocol, k - (i + 1)))
  {
    var left := k - i;
    ValuesGlueStep(s, q, q2, t, protocol, left, pre, v);
    assert left - 1 == k - (i + 1);
  }

  /** A value that fails to read ends the array's loop with its exception. */
  lemma ValuesGlueErr(s: seq<Byte>, q: nat, t: TokenType, protocol: Protocol, k: nat, pre: seq<Variable>)
    requires k > 0 && ParseToken(s, q, t, protocol).Err?
    ensures Glue(pre, DecodeValues(s, q, t, protocol, k)) == Err(ParseToken(s, q, t, protocol).error)
  {
  }

  lemma ValuesGlueStep(s: seq<Byte>, q: nat, q2: nat, t: TokenType, protocol: Protocol, k: nat,
                       pre: seq<Variable>, v: Value)
    requires k > 0 && ParseToken(s, q, t, protocol) == Ok(Parsed(v, q2))
    ensures Glue(pre, DecodeValues(s, q, t, protocol, k)) ==
            Glue(pre + [Entries.Variable(None, v)], DecodeValues(s, q2, t, protocol, k - 1))
  {
    var rest := DecodeValues(s, q2, t, protocol, k - 1);
    if rest.Ok? {
      ConcatAssoc(pre, [Entries.Variable(None, v)], rest.value.value);
    }
  }
}
