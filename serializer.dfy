/** PacketSerializer: writes a packet's entries back by walking its definition's rules.
    Rules and entries are paired by position; the kind of the ENTRY decides what is
    written, and the rule is cast to the matching rule kind.

    EncodeBlock and its family say which bytes a walk writes; the class's methods are
    proved to write exactly those. For blocks of variable, array and simple-array rules,
    every fitting block is written (FitsEncodes), and reading the written bytes back
    with the deserializer gives the entries again (BlockReads). Match and condition rules do not round-trip: the deserializer
    splices their entries into the parent block, while the serializer expects one
    MatchEntry or condition entry in the rule's own place (MatchSpliceBreaksRoundTrip). */
module Serialization {
  import opened Base
  import opened Wire
  import opened Protocols
  import opened Tokens
  import opened Rules
  import opened Entries
  import opened Writer
  import opened Deserialization
  import Packets

  // ---------------------------------------------------------------- what a walk writes

  /** serializeBlock: for each rule in order, the entry at the same position. An entry
      list shorter than the rule list throws IndexOutOfBoundsException at the first
      rule without an entry; entries past the last rule are not looked at. */
  function EncodeBlock(rules: seq<Rule>, entries: seq<Entry>): (r: Result<seq<Byte>>)
    ensures r.Ok? ==> |rules| <= |entries|
    decreases rules, 1
  {
    if rules == [] then Ok([])
    else if entries == [] then Err(IndexOutOfBounds)
    else
      var head :- EncodeEntry(rules[0], entries[0]);
      var tail :- EncodeBlock(rules[1..], entries[1..]);
      Ok(head + tail)
  }

  /** The rule kind an entry kind is written with. */
  predicate KindsAgree(rule: Rule, entry: Entry) {
    match entry
    case VariableEntry(_, _) => rule.VariableRule?
    case ArrayEntry(_, _) => rule.ArrayRule?
    case SimpleArrayEntry(_, _) => rule.SimpleArrayRule?
    case MatchEntry(_, _, _) => rule.MatchRule?
    case ConditionEntry(_, _) => rule.ConditionRule?
  }

  /** One rule and its entry. The rule is cast to the kind the entry calls for, except
      for a condition entry without entries, which writes nothing before any cast. A
      match entry is written with the branch for the value it stores. */
  function EncodeEntry(rule: Rule, entry: Entry): (r: Result<seq<Byte>>)
    ensures entry.ConditionEntry? && entry.entries == [] ==> r == Ok([])
    ensures !KindsAgree(rule, entry) && !(entry.ConditionEntry? && entry.entries == []) ==>
              r == Err(ClassCast)
    ensures entry.VariableEntry? && rule.VariableRule? ==> r == TokenBytes(rule.ruleType, entry.value)
    ensures entry.MatchEntry? && rule.MatchRule? && r.Ok? ==>
              BranchIndex(rule.branches, entry.matchValue).Ok? &&
              r == EncodeBlock(rule.branches[BranchIndex(rule.branches, entry.matchValue).value].rules,
                               entry.entries)
    decreases rule, 0
  {
    match entry
    case VariableEntry(_, value) =>
      if !rule.VariableRule? then Err(ClassCast) else TokenBytes(rule.ruleType, value)
    case ArrayEntry(_, slots) =>
      if !rule.ArrayRule? then Err(ClassCast) else EncodeElements(rule.rules, slots, 0)
    case SimpleArrayEntry(_, variables) =>
      if !rule.SimpleArrayRule? then Err(ClassCast) else EncodeValues(rule.elementType, variables)
    case ConditionEntry(_, entries) =>
      if entries == [] then Ok([])
      else if !rule.ConditionRule? then Err(ClassCast)
      else EncodeBlock(rule.branchRules, entries)
    case MatchEntry(_, entries, value) =>
      if !rule.MatchRule? then Err(ClassCast)
      else
        var i :- BranchIndex(rule.branches, value);
        EncodeBlock(rule.branches[i].rules, entries)
  }

  /** The loop over an array entry's indices `i` .. size-1: each index's list, written
      with the array's rules. An index with no list gives null, which only a block
      without rules can take. */
  function EncodeElements(rules: seq<Rule>, slots: seq<Slot>, i: nat): (r: Result<seq<Byte>>)
    requires i <= |slots|
    decreases rules, 3, |slots| - i
  {
    if i == |slots| then Ok([])
    else
      var block :- IndexBytes(rules, slots, i);
      var rest :- EncodeElements(rules, slots, i + 1);
      Ok(block + rest)
  }

  /** The list at one index, written with the array's rules. */
  function IndexBytes(rules: seq<Rule>, slots: seq<Slot>, i: int): (r: Result<seq<Byte>>)
    ensures SlotOf(slots, i).None? ==> (r.Ok? <==> rules == [])
    decreases rules, 2
  {
    match SlotOf(slots, i)
    case None => if rules == [] then Ok([]) else Err(NullPointer)
    case Some(entries) => EncodeBlock(rules, entries)
  }

  /** A simple array's values, in order, each with the element type. */
  function EncodeValues(t: TokenType, variables: seq<Variable>): (r: Result<seq<Byte>>)
    ensures r.Ok? <==> forall j :: 0 <= j < |variables| ==> TokenBytes(t, variables[j].value).Ok?
  {
    if variables == [] then Ok([])
    else
      var head :- TokenBytes(t, variables[0].value);
      var tail :- EncodeValues(t, variables[1..]);
      Ok(head + tail)
  }

  /** serialize: the definition's rules over the packet's entries; a packet that was
      never decoded has a null entry list, which only a definition without rules can
      take. */
  function EncodePacket(rules: seq<Rule>, entries: Option<seq<Entry>>): (r: Result<seq<Byte>>)
    ensures entries.None? ==> (r.Ok? <==> rules == [])
  {
    match entries
    case None => if rules == [] then Ok([]) else Err(NullPointer)
    case Some(es) => EncodeBlock(rules, es)
  }

  // ---------------------------------------------------------------- properties

  /** Rules and entries are paired by position: entries past the last rule change
      nothing. */
  lemma {:induction false} ExtraEntriesIgnored(rules: seq<Rule>, entries: seq<Entry>, extra: seq<Entry>)
    requires |rules| <= |entries|
    ensures EncodeBlock(rules, entries + extra) == EncodeBlock(rules, entries)
    decreases rules
  {
    if rules != [] {
      assert (entries + extra)[0] == entries[0];
      assert (entries + extra)[1..] == entries[1..] + extra;
      ExtraEntriesIgnored(rules[1..], entries[1..], extra);
    }
  }

  /** An array entry whose indices are 0 .. n-1 in order, as the deserializer builds
      them, is written list by list in insertion order. */
  function EncodeSlots(rules: seq<Rule>, slots: seq<Slot>): (r: Result<seq<Byte>>)
  {
    if slots == [] then Ok([])
    else
      var head :- EncodeBlock(rules, slots[0].entries);
      var tail :- EncodeSlots(rules, slots[1..]);
      Ok(head + tail)
  }

  lemma ElementsInIndexOrder(rules: seq<Rule>, slots: seq<Slot>)
    requires CountedIndices(slots)
    ensures EncodeElements(rules, slots, 0) == EncodeSlots(rules, slots)
  {
    ElementsFrom(rules, slots, 0);
    assert slots[0..] == slots;
  }

  lemma {:induction false} ElementsFrom(rules: seq<Rule>, slots: seq<Slot>, i: nat)
    requires CountedIndices(slots) && i <= |slots|
    ensures EncodeElements(rules, slots, i) == EncodeSlots(rules, slots[i..])
    decreases |slots| - i
  {
    if i < |slots| {
      SlotOfAt(slots, i);
      assert slots[i..][0] == slots[i] && slots[i..][1..] == slots[i + 1..];
      ElementsFrom(rules, slots, i + 1);
    }
  }

  // ---------------------------------------------------------------- round trip

  /** The entries of a block the deserializer would give back: every rule is a variable,
      array or simple-array rule whose entry has the rule's name, values the reader gives
      back unchanged, and lengths equal to what the length variable holds in the scopes
      at that point. `stack` is the stack the block's rules are read with, its own scope
      on top. */
  predicate Fits(rules: seq<Rule>, entries: seq<Entry>, stack: Scopes, protocol: Protocol)
    requires |stack| > 0
    decreases rules, 1
  {
    |rules| == |entries| &&
    (rules != [] ==>
       FitsOne(rules[0], entries[0], stack, protocol) &&
       Fits(rules[1..], entries[1..], Declare(stack, Declared(rules[0], entries[0])), protocol))
  }

  /** What reading a rule adds to the top scope: the entry of a variable rule. */
  function Declared(rule: Rule, entry: Entry): seq<Entry> {
    if rule.VariableRule? then [entry] else []
  }

  predicate FitsOne(rule: Rule, entry: Entry, stack: Scopes, protocol: Protocol)
    requires |stack| > 0
    decreases rule, 0
  {
    match rule
    case VariableRule(name, t) =>
      entry.VariableEntry? && entry.name == name && Readable(t, entry.value, protocol)
    case ArrayRule(name, length, rules) =>
      entry.ArrayEntry? && entry.name == name && CountedIndices(entry.slots) &&
      Lookup(stack, length).Ok? && Lookup(stack, length).value == |entry.slots| &&
      forall k :: 0 <= k < |entry.slots| ==> Fits(rules, entry.slots[k].entries, stack + [[]], protocol)
    case SimpleArrayRule(name, length, t) =>
      entry.SimpleArrayEntry? && entry.name == name &&
      Lookup(stack, length).Ok? && Lookup(stack, length).value == |entry.variables| &&
      ReadableValues(t, entry.variables, protocol)
    case _ => false
  }

  /** Unnamed values the reader gives back unchanged. */
  predicate ReadableValues(t: TokenType, variables: seq<Variable>, protocol: Protocol) {
    variables != [] ==>
      variables[0].name.None? && Readable(t, variables[0].value, protocol) &&
      ReadableValues(t, variables[1..], protocol)
  }

  /** Entries that fit their rules can be written. */
  lemma {:induction false} FitsEncodes(rules: seq<Rule>, entries: seq<Entry>, stack: Scopes, protocol: Protocol)
    requires |stack| > 0 && Fits(rules, entries, stack, protocol)
    ensures EncodeBlock(rules, entries).Ok?
    decreases rules, 1
  {
    if rules != [] {
      FitsOneEncodes(rules[0], entries[0], stack, protocol);
      FitsEncodes(rules[1..], entries[1..], Declare(stack, Declared(rules[0], entries[0])), protocol);
    }
  }

  lemma {:induction false} FitsOneEncodes(rule: Rule, entry: Entry, stack: Scopes, protocol: Protocol)
    requires |stack| > 0 && FitsOne(rule, entry, stack, protocol)
    ensures EncodeEntry(rule, entry).Ok?
    decreases rule, 0
  {
    match rule
    case VariableRule(_, _) =>
    case ArrayRule(_, _, _) =>
      ArrayEncodes(rule, entry, stack, protocol);
    case SimpleArrayRule(_, _, t) =>
      ValuesEncode(t, entry.variables, protocol);
  }

  lemma {:induction false} ArrayEncodes(rule: Rule, entry: Entry, stack: Scopes, protocol: Protocol)
    requires |stack| > 0 && rule.ArrayRule? && FitsOne(rule, entry, stack, protocol)
    ensures EncodeEntry(rule, entry).Ok?
    decreases rule, 0, 0
  {
    forall k | 0 <= k < |entry.slots|
      ensures EncodeBlock(rule.rules, entry.slots[k].entries).Ok?
    {
      FitsEncodes(rule.rules, entry.slots[k].entries, stack + [[]], protocol);
    }
    SlotsEncode(rule.rules, entry.slots);
    ElementsInIndexOrder(rule.rules, entry.slots);
  }

  lemma {:induction false} ValuesEncode(t: TokenType, variables: seq<Variable>, protocol: Protocol)
    requires ReadableValues(t, variables, protocol)
    ensures EncodeValues(t, variables).Ok?
  {
    if variables != [] {
      ValuesEncode(t, variables[1..], protocol);
    }
  }

  lemma {:induction false} SlotsEncode(rules: seq<Rule>, slots: seq<Slot>)
    requires forall k :: 0 <= k < |slots| ==> EncodeBlock(rules, slots[k].entries).Ok?
    ensures EncodeSlots(rules, slots).Ok?
  {
    if slots != [] {
      SlotsEncode(rules, slots[1..]);
    }
  }

  /** The deserializer reads back what the serializer wrote: from the written bytes, a
      block of variable, array and simple-array rules gives the very entries, and stops
      right after them. */
  lemma {:induction false} BlockReads(s: seq<Byte>, p: nat, stack: Scopes, rules: seq<Rule>,
                                      entries: seq<Entry>, protocol: Protocol, bs: seq<Byte>, e: nat)
    requires Fits(rules, entries, stack + [[]], protocol)
    requires EncodeBlock(rules, entries) == Ok(bs) && At(s, p, bs) && e == p + |bs|
    ensures DecodeBlock(s, p, stack, rules, protocol) == Ok(Parsed(entries, e))
    decreases rules, 2
  {
    RulesRead(s, p, stack + [[]], [], rules, entries, protocol, bs, e);
    assert [] + entries == entries;
  }

  lemma {:induction false} RulesRead(s: seq<Byte>, p: nat, stack: Scopes, acc: seq<Entry>, rules: seq<Rule>,
                                     entries: seq<Entry>, protocol: Protocol, bs: seq<Byte>, e: nat)
    requires |stack| > 0 && Fits(rules, entries, stack, protocol)
    requires EncodeBlock(rules, entries) == Ok(bs) && At(s, p, bs) && e == p + |bs|
    ensures DecodeRules(s, p, stack, acc, rules, protocol) == Ok(Parsed(acc + entries, e))
    decreases rules, 1
  {
    if rules == [] {
      assert acc + entries == acc;
    } else {
      var tail, q, stack' := HeadReads(s, p, stack, rules, entries, protocol, bs, e);
      RulesRead(s, q, stack', acc + [entries[0]], rules[1..], entries[1..], protocol, tail, e);
      RulesCons(s, p, stack, acc, rules, protocol, Step([entries[0]], Declared(rules[0], entries[0]), q),
                Parsed(acc + [entries[0]] + entries[1..], e));
      AccCons(acc, entries);
    }
  }

  /** The first rule of a fitting block reads its entry back, and leaves the rest of
      the bytes fitting the rest of the block. */
  lemma {:induction false} HeadReads(s: seq<Byte>, p: nat, stack: Scopes, rules: seq<Rule>, entries: seq<Entry>,
                                     protocol: Protocol, bs: seq<Byte>, e: nat)
    returns (tail: seq<Byte>, q: nat, stack': Scopes)
    requires |stack| > 0 && rules != [] && Fits(rules, entries, stack, protocol)
    requires EncodeBlock(rules, entries) == Ok(bs) && At(s, p, bs) && e == p + |bs|
    ensures |entries| == |rules| && stack' == Declare(stack, Declared(rules[0], entries[0]))
    ensures DecodeRule(s, p, stack, rules[0], protocol) == Ok(Step([entries[0]], Declared(rules[0], entries[0]), q))
    ensures Fits(rules[1..], entries[1..], stack', protocol)
    ensures EncodeBlock(rules[1..], entries[1..]) == Ok(tail) && At(s, q, tail) && e == q + |tail|
    decreases rules, 0
  {
    var head;
    head, tail := BlockSplit(s, p, rules, entries, bs);
    q := p + |head|;
    stack' := Declare(stack, Declared(rules[0], entries[0]));
    assert |entries| == |rules| && FitsOne(rules[0], entries[0], stack, protocol) &&
           Fits(rules[1..], entries[1..], stack', protocol) by {
      var _ := FitsTail(rules, entries, stack, protocol);
    }
    RuleReads(s, p, stack, rules[0], entries[0], protocol, head, q);
  }

  /** The entries read so far, then the first of the rest, then the others. */
  lemma AccCons(acc: seq<Entry>, entries: seq<Entry>)
    requires entries != []
    ensures acc + [entries[0]] + entries[1..] == acc + entries
  {
    assert [entries[0]] + entries[1..] == entries;
    ConcatAssoc(acc, [entries[0]], entries[1..]);
  }

  /** The bytes of a non-empty block: its first entry's, then the rest's, one after
      the other in the input. */
  lemma BlockSplit(s: seq<Byte>, p: nat, rules: seq<Rule>, entries: seq<Entry>, bs: seq<Byte>)
    returns (head: seq<Byte>, tail: seq<Byte>)
    requires rules != [] && EncodeBlock(rules, entries) == Ok(bs) && At(s, p, bs)
    ensures entries != [] && EncodeEntry(rules[0], entries[0]) == Ok(head)
    ensures EncodeBlock(rules[1..], entries[1..]) == Ok(tail) && |bs| == |head| + |tail|
    ensures At(s, p, head) && At(s, p + |head|, tail)
  {
    head := EncodeEntry(rules[0], entries[0]).value;
    tail := EncodeBlock(rules[1..], entries[1..]).value;
    AtSplit(s, p, head, tail);
  }

  /** The first rule of a fitting block fits, and so does the rest, in the scopes the
      first rule leaves. */
  lemma FitsTail(rules: seq<Rule>, entries: seq<Entry>, stack: Scopes, protocol: Protocol) returns (stack': Scopes)
    requires |stack| > 0 && rules != [] && Fits(rules, entries, stack, protocol)
    ensures |entries| == |rules| && stack' == Declare(stack, Declared(rules[0], entries[0]))
    ensures FitsOne(rules[0], entries[0], stack, protocol) && Fits(rules[1..], entries[1..], stack', protocol)
  {
    stack' := Declare(stack, Declared(rules[0], entries[0]));
  }

  /** The rule loop's first step. */
  lemma RulesCons(s: seq<Byte>, p: nat, stack: Scopes, acc: seq<Entry>, rules: seq<Rule>, protocol: Protocol,
                  step: Step, rest: Parsed<seq<Entry>>)
    requires |stack| > 0 && rules != []
    requires DecodeRule(s, p, stack, rules[0], protocol) == Ok(step)
    requires DecodeRules(s, step.next, Declare(stack, step.declared), acc + step.entries, rules[1..], protocol) == Ok(rest)
    ensures DecodeRules(s, p, stack, acc, rules, protocol) == Ok(rest)
  {
  }

  lemma {:induction false} RuleReads(s: seq<Byte>, p: nat, stack: Scopes, rule: Rule, entry: Entry,
                                     protocol: Protocol, bs: seq<Byte>, e: nat)
    requires |stack| > 0 && FitsOne(rule, entry, stack, protocol)
    requires EncodeEntry(rule, entry) == Ok(bs) && At(s, p, bs) && e == p + |bs|
    ensures DecodeRule(s, p, stack, rule, protocol) == Ok(Step([entry], Declared(rule, entry), e))
    decreases rule, 1
  {
    match rule
    case VariableRule(_, t) =>
      TokenRoundTrip(s, p, t, entry.value, protocol, e);
      assert entry == VariableEntry(rule.name, entry.value);
    case ArrayRule(_, _, _) =>
      ArrayReads(s, p, stack, rule, entry, protocol, bs, e);
    case SimpleArrayRule(_, _, _) =>
      SimpleArrayReads(s, p, stack, rule, entry, protocol, bs, e);
  }

  lemma SimpleArrayReads(s: seq<Byte>, p: nat, stack: Scopes, rule: Rule, entry: Entry,
                         protocol: Protocol, bs: seq<Byte>, e: nat)
    requires |stack| > 0 && rule.SimpleArrayRule? && FitsOne(rule, entry, stack, protocol)
    requires EncodeEntry(rule, entry) == Ok(bs) && At(s, p, bs) && e == p + |bs|
    ensures DecodeSimpleArray(s, p, stack, rule, protocol) == Ok(Step([entry], [], e))
  {
    var variables := SimpleArrayFits(rule, entry, stack, protocol, bs);
    ValuesRead(s, p, rule.elementType, variables, protocol, bs, |variables|, e);
    SimpleArrayOf(s, p, stack, rule, protocol, |variables|, Parsed(variables, e));
  }

  /** What fitting says of a simple array entry. */
  lemma SimpleArrayFits(rule: Rule, entry: Entry, stack: Scopes, protocol: Protocol, bs: seq<Byte>)
    returns (variables: seq<Variable>)
    requires |stack| > 0 && rule.SimpleArrayRule? && FitsOne(rule, entry, stack, protocol)
    requires EncodeEntry(rule, entry) == Ok(bs)
    ensures entry == SimpleArrayEntry(rule.name, variables)
    ensures Lookup(stack, rule.lengthVariable) == Ok(|variables|)
    ensures ReadableValues(rule.elementType, variables, protocol)
    ensures EncodeValues(rule.elementType, variables) == Ok(bs)
  {
    variables := entry.variables;
  }

  /** A simple array reads its length, then that many values. */
  lemma SimpleArrayOf(s: seq<Byte>, p: nat, stack: Scopes, rule: Rule, protocol: Protocol, n: nat,
                      values: Parsed<seq<Variable>>)
    requires |stack| > 0 && rule.SimpleArrayRule?
    requires Lookup(stack, rule.lengthVariable) == Ok(n)
    requires DecodeValues(s, p, rule.elementType, protocol, n) == Ok(values)
    ensures DecodeSimpleArray(s, p, stack, rule, protocol) ==
              Ok(Step([SimpleArrayEntry(rule.name, values.value)], [], values.next))
  {
  }

  lemma {:induction false} ArrayReads(s: seq<Byte>, p: nat, stack: Scopes, rule: Rule, entry: Entry,
                                      protocol: Protocol, bs: seq<Byte>, e: nat)
    requires |stack| > 0 && rule.ArrayRule? && FitsOne(rule, entry, stack, protocol)
    requires EncodeEntry(rule, entry) == Ok(bs) && At(s, p, bs) && e == p + |bs|
    ensures DecodeArray(s, p, stack, rule, protocol) == Ok(Step([entry], [], e))
    decreases rule, 0
  {
    var slots := ArrayFits(rule, entry, stack, protocol, bs);
    ElementsRead(s, p, stack, rule.rules, slots, 0, |slots|, protocol, bs, e);
    assert slots[0..] == slots;
    ArrayOf(s, p, stack, rule, protocol, |slots|, Parsed(slots, e));
  }

  /** What fitting says of an array entry. */
  lemma ArrayFits(rule: Rule, entry: Entry, stack: Scopes, protocol: Protocol, bs: seq<Byte>)
    returns (slots: seq<Slot>)
    requires |stack| > 0 && rule.ArrayRule? && FitsOne(rule, entry, stack, protocol)
    requires EncodeEntry(rule, entry) == Ok(bs)
    ensures entry == ArrayEntry(rule.name, slots) && CountedIndices(slots)
    ensures Lookup(stack, rule.lengthVariable) == Ok(|slots|)
    ensures forall k :: 0 <= k < |slots| ==> Fits(rule.rules, slots[k].entries, stack + [[]], protocol)
    ensures EncodeElements(rule.rules, slots, 0) == Ok(bs)
  {
    slots := entry.slots;
  }

  /** An array reads its length, then that many elements. */
  lemma ArrayOf(s: seq<Byte>, p: nat, stack: Scopes, rule: Rule, protocol: Protocol, n: nat,
                elements: Parsed<seq<Slot>>)
    requires |stack| > 0 && rule.ArrayRule?
    requires Lookup(stack, rule.lengthVariable) == Ok(n)
    requires DecodeElements(s, p, stack, rule.rules, protocol, 0, n) == Ok(elements)
    ensures DecodeArray(s, p, stack, rule, protocol) ==
              Ok(Step([ArrayEntry(rule.name, elements.value)], [], elements.next))
  {
  }

  lemma {:induction false} ElementsRead(s: seq<Byte>, p: nat, stack: Scopes, rules: seq<Rule>, slots: seq<Slot>,
                                        i: nat, n: nat, protocol: Protocol, bs: seq<Byte>, e: nat)
    requires i <= |slots| && n == |slots| && CountedIndices(slots)
    requires forall k :: 0 <= k < |slots| ==> Fits(rules, slots[k].entries, stack + [[]], protocol)
    requires EncodeElements(rules, slots, i) == Ok(bs) && At(s, p, bs) && e == p + |bs|
    ensures DecodeElements(s, p, stack, rules, protocol, i, n) == Ok(Parsed(slots[i..], e))
    decreases rules, 3, |slots| - i
  {
    if i < |slots| {
      assert Fits(rules, slots[i].entries, stack + [[]], protocol);
      var tail, q := ElementHeadReads(s, p, stack, rules, slots, i, protocol, bs, e);
      ElementsRead(s, q, stack, rules, slots, i + 1, n, protocol, tail, e);
      ElementsCons(s, p, stack, rules, protocol, slots, i, n, q, e);
    } else {
      assert bs == [] && slots[i..] == [];
    }
  }

  /** The element at i reads back its block, and leaves the rest of the bytes for the
      elements after it. */
  lemma ElementHeadReads(s: seq<Byte>, p: nat, stack: Scopes, rules: seq<Rule>, slots: seq<Slot>,
                         i: nat, protocol: Protocol, bs: seq<Byte>, e: nat) returns (tail: seq<Byte>, q: nat)
    requires i < |slots| && CountedIndices(slots) && Fits(rules, slots[i].entries, stack + [[]], protocol)
    requires EncodeElements(rules, slots, i) == Ok(bs) && At(s, p, bs) && e == p + |bs|
    ensures DecodeBlock(s, p, stack, rules, protocol) == Ok(Parsed(slots[i].entries, q))
    ensures EncodeElements(rules, slots, i + 1) == Ok(tail) && At(s, q, tail) && e == q + |tail|
    decreases rules, 3, |slots| - i, 0
  {
    var head;
    head, tail := ElementsSplit(s, p, rules, slots, i, bs);
    q := p + |head|;
    BlockReads(s, p, stack, rules, slots[i].entries, protocol, head, q);
  }

  /** Counted slots from index i: the slot at i, then the rest. */
  lemma CountedFrom(slots: seq<Slot>, i: nat)
    requires i < |slots| && CountedIndices(slots)
    ensures slots[i..] == [Slot(i, slots[i].entries)] + slots[i + 1..]
  {
    assert slots[i] == Slot(i, slots[i].entries);
  }

  /** The bytes of the elements from index i: the list at i, then the rest. */
  lemma ElementsSplit(s: seq<Byte>, p: nat, rules: seq<Rule>, slots: seq<Slot>, i: nat, bs: seq<Byte>)
    returns (head: seq<Byte>, tail: seq<Byte>)
    requires i < |slots| && CountedIndices(slots) && EncodeElements(rules, slots, i) == Ok(bs) && At(s, p, bs)
    ensures EncodeBlock(rules, slots[i].entries) == Ok(head)
    ensures EncodeElements(rules, slots, i + 1) == Ok(tail) && |bs| == |head| + |tail|
    ensures At(s, p, head) && At(s, p + |head|, tail)
  {
    SlotOfAt(slots, i);
    head := IndexBytes(rules, slots, i).value;
    tail := EncodeElements(rules, slots, i + 1).value;
    AtSplit(s, p, head, tail);
  }

  /** The element loop's first step. */
  lemma ElementsCons(s: seq<Byte>, p: nat, stack: Scopes, rules: seq<Rule>, protocol: Protocol, slots: seq<Slot>,
                     i: nat, n: int, q: nat, e: nat)
    requires i < |slots| && i < n && CountedIndices(slots)
    requires DecodeBlock(s, p, stack, rules, protocol) == Ok(Parsed(slots[i].entries, q))
    requires DecodeElements(s, q, stack, rules, protocol, i + 1, n) == Ok(Parsed(slots[i + 1..], e))
    ensures DecodeElements(s, p, stack, rules, protocol, i, n) == Ok(Parsed(slots[i..], e))
  {
    CountedFrom(slots, i);
  }

  lemma {:induction false} ValuesRead(s: seq<Byte>, p: nat, t: TokenType, variables: seq<Variable>,
                                      protocol: Protocol, bs: seq<Byte>, k: nat, e: nat)
    requires ReadableValues(t, variables, protocol)
    requires EncodeValues(t, variables) == Ok(bs) && At(s, p, bs)
    requires k == |variables| && e == p + |bs|
    ensures DecodeValues(s, p, t, protocol, k) == Ok(Parsed(variables, e))
    decreases k
  {
    if k != 0 {
      var tail, q := ValueHeadReads(s, p, t, variables, protocol, bs, e);
      ValuesRead(s, q, t, variables[1..], protocol, tail, k - 1, e);
      ValuesCons(s, p, t, protocol, variables, k, q, e);
    }
  }

  /** The first of non-empty values reads back, and leaves the rest of the bytes for
      the others. */
  lemma ValueHeadReads(s: seq<Byte>, p: nat, t: TokenType, variables: seq<Variable>,
                       protocol: Protocol, bs: seq<Byte>, e: nat) returns (tail: seq<Byte>, q: nat)
    requires variables != [] && ReadableValues(t, variables, protocol)
    requires EncodeValues(t, variables) == Ok(bs) && At(s, p, bs) && e == p + |bs|
    ensures variables[0].name.None? && ParseToken(s, p, t, protocol) == Ok(Parsed(variables[0].value, q))
    ensures ReadableValues(t, variables[1..], protocol)
    ensures EncodeValues(t, variables[1..]) == Ok(tail) && At(s, q, tail) && e == q + |tail|
  {
    var head;
    head, tail := ValuesSplit(s, p, t, variables, protocol, bs);
    q := p + |head|;
    TokenRoundTrip(s, p, t, variables[0].value, protocol, q);
  }

  /** The bytes of non-empty values: the first one's, then the rest's. */
  lemma ValuesSplit(s: seq<Byte>, p: nat, t: TokenType, variables: seq<Variable>, protocol: Protocol, bs: seq<Byte>)
    returns (head: seq<Byte>, tail: seq<Byte>)
    requires variables != [] && ReadableValues(t, variables, protocol) && EncodeValues(t, variables) == Ok(bs)
    requires At(s, p, bs)
    ensures variables[0].name.None? && Readable(t, variables[0].value, protocol)
    ensures ReadableValues(t, variables[1..], protocol)
    ensures TokenBytes(t, variables[0].value) == Ok(head)
    ensures EncodeValues(t, variables[1..]) == Ok(tail) && |bs| == |head| + |tail|
    ensures At(s, p, head) && At(s, p + |head|, tail)
  {
    head := TokenBytes(t, variables[0].value).value;
    tail := EncodeValues(t, variables[1..]).value;
    AtSplit(s, p, head, tail);
  }

  /** The value loop's first step. */
  lemma ValuesCons(s: seq<Byte>, p: nat, t: TokenType, protocol: Protocol, variables: seq<Variable>,
                   k: nat, q: nat, e: nat)
    requires k > 0 && variables != [] && variables[0].name.None?
    requires ParseToken(s, p, t, protocol) == Ok(Parsed(variables[0].value, q))
    requires DecodeValues(s, q, t, protocol, k - 1) == Ok(Parsed(variables[1..], e))
    ensures DecodeValues(s, p, t, protocol, k) == Ok(Parsed(variables, e))
  {
    assert variables == [Entries.Variable(None, variables[0].value)] + variables[1..];
  }

  /** A match rule does not round-trip: its branch's entries come out of the
      deserializer spliced into the parent block, and the serializer, finding a variable
      entry where it expects the MatchEntry, throws ClassCastException. The block reads
      a byte `k` and matches on it; the bytes [1, 7] select the branch that reads a byte
      `x`. */
  lemma MatchSpliceBreaksRoundTrip()
    ensures var rules := [VariableRule(Some("k"), BYTE),
                          MatchRule(None, "k", [Branch(1, [VariableRule(Some("x"), BYTE)])])];
            var read := [VariableEntry(Some("k"), IntValue(1)), VariableEntry(Some("x"), IntValue(7))];
            DecodeBlock([1, 7], 0, [], rules, DEFAULT_PROTOCOL) == Ok(Parsed(read, 2)) &&
            EncodeBlock(rules, read) == Err(ClassCast)
  {
    var k := VariableEntry(Some("k"), IntValue(1));
    var x := VariableEntry(Some("x"), IntValue(7));
    var rules := [VariableRule(Some("k"), BYTE), MatchRule(None, "k", [Branch(1, [VariableRule(Some("x"), BYTE)])])];
    SpliceReads(k, x, rules);
    assert EncodeEntry(rules[0], k) == Ok([1]);
    assert EncodeBlock(rules[1..], [k, x][1..]) == Err(ClassCast);
  }

  /** The deserializer's half of the example: the branch's `x` lands next to `k`. */
  lemma SpliceReads(k: Entry, x: Entry, rules: seq<Rule>)
    requires k == VariableEntry(Some("k"), IntValue(1)) && x == VariableEntry(Some("x"), IntValue(7))
    requires rules == [VariableRule(Some("k"), BYTE),
                       MatchRule(None, "k", [Branch(1, [VariableRule(Some("x"), BYTE)])])]
    ensures DecodeBlock([1, 7], 0, [], rules, DEFAULT_PROTOCOL) == Ok(Parsed([k, x], 2))
  {
    var s: seq<Byte> := [1, 7];
    assert DecodeRule(s, 0, [[]], rules[0], DEFAULT_PROTOCOL) == Ok(Step([k], [k], 1)) by {
      assert At(s, 0, [1]);
      ByteTokenRoundTrip(s, 0, BYTE, 1, DEFAULT_PROTOCOL);
      VariableOf(s, 0, [[]], rules[0], DEFAULT_PROTOCOL, Parsed(IntValue(1), 1));
    }
    assert DecodeRule(s, 1, Declare([[]], [k]), rules[1], DEFAULT_PROTOCOL) == Ok(Step([x], [], 2)) by {
      DeclareOne(k);
      SpliceBranch(k, x, rules[1]);
    }
    RulesTwo(s, 0, [[]], [], rules, DEFAULT_PROTOCOL, Step([k], [k], 1), Step([x], [], 2));
    assert [] + [k] + [x] == [k, x];
  }

  /** The match of the example, with `k` = 1 in scope, reads the branch's byte `x`. */
  lemma SpliceBranch(k: Entry, x: Entry, rule: Rule)
    requires k == VariableEntry(Some("k"), IntValue(1)) && x == VariableEntry(Some("x"), IntValue(7))
    requires rule == MatchRule(None, "k", [Branch(1, [VariableRule(Some("x"), BYTE)])])
    ensures DecodeRule([1, 7], 1, [[k]], rule, DEFAULT_PROTOCOL) == Ok(Step([x], [], 2))
  {
    var s: seq<Byte> := [1, 7];
    var inner := rule.branches[0].rules;
    assert At(s, 1, [7]);
    ByteTokenRoundTrip(s, 1, BYTE, 7, DEFAULT_PROTOCOL);
    VariableOf(s, 1, [[k], []], inner[0], DEFAULT_PROTOCOL, Parsed(IntValue(7), 2));
    RulesLast(s, 1, [[k], []], [], inner, DEFAULT_PROTOCOL, Step([x], [x], 2));
    assert [[k]] + [[]] == [[k], []] && [] + [x] == [x];
    SpliceLookup(k);
    assert BranchIndex(rule.branches, 1) == Ok(0);
    MatchOf(s, 1, [[k]], rule, DEFAULT_PROTOCOL, 1, 0, Parsed([x], 2));
  }

  /** A variable rule reads one token and declares it. */
  lemma VariableOf(s: seq<Byte>, p: nat, stack: Scopes, rule: Rule, protocol: Protocol, v: Parsed<Value>)
    requires rule.VariableRule? && ParseToken(s, p, rule.ruleType, protocol) == Ok(v)
    ensures DecodeRule(s, p, stack, rule, protocol) ==
              Ok(Step([VariableEntry(rule.name, v.value)], [VariableEntry(rule.name, v.value)], v.next))
  {
  }

  /** The first declaration in an empty scope. */
  lemma DeclareOne(k: Entry)
    ensures Declare([[]], [k]) == [[k]]
  {
    assert [] + [k] == [k];
  }

  /** The rule loop over a block of two rules. */
  lemma RulesTwo(s: seq<Byte>, p: nat, stack: Scopes, acc: seq<Entry>, rules: seq<Rule>, protocol: Protocol,
                 a: Step, b: Step)
    requires |stack| > 0 && |rules| == 2
    requires DecodeRule(s, p, stack, rules[0], protocol) == Ok(a)
    requires DecodeRule(s, a.next, Declare(stack, a.declared), rules[1], protocol) == Ok(b)
    ensures DecodeRules(s, p, stack, acc, rules, protocol) == Ok(Parsed(acc + a.entries + b.entries, b.next))
  {
    RulesLast(s, a.next, Declare(stack, a.declared), acc + a.entries, rules[1..], protocol, b);
    RulesCons(s, p, stack, acc, rules, protocol, a, Parsed(acc + a.entries + b.entries, b.next));
  }

  /** The rule loop over its last rule. */
  lemma RulesLast(s: seq<Byte>, p: nat, stack: Scopes, acc: seq<Entry>, rules: seq<Rule>, protocol: Protocol,
                  step: Step)
    requires |stack| > 0 && |rules| == 1
    requires DecodeRule(s, p, stack, rules[0], protocol) == Ok(step)
    ensures DecodeRules(s, p, stack, acc, rules, protocol) == Ok(Parsed(acc + step.entries, step.next))
  {
    assert rules[1..] == [];
  }

  /** The example's scopes give `k` the value 1. */
  lemma SpliceLookup(k: Entry)
    requires k == VariableEntry(Some("k"), IntValue(1))
    ensures Lookup([[k]], "k") == Ok(1)
  {
    assert GetByName([k], "k") == Ok(Some(k));
    assert FindFrom([[k]], "k", 0) == Ok(Some(k));
  }

  /** A match reads its discriminant, then the chosen branch's block. */
  lemma MatchOf(s: seq<Byte>, p: nat, stack: Scopes, rule: Rule, protocol: Protocol, v: Int32, i: nat,
                d: Parsed<seq<Entry>>)
    requires rule.MatchRule? && Lookup(stack, rule.variable) == Ok(v)
    requires BranchIndex(rule.branches, v) == Ok(i)
    requires DecodeBlock(s, p, stack, rule.branches[i].rules, protocol) == Ok(d)
    ensures DecodeRule(s, p, stack, rule, protocol) == Ok(Step(d.value, [], d.next))
  {
  }

  // ---------------------------------------------------------------- the serializer

  /** What a writing method did, against the bytes that specify it: on success exactly
      those bytes were appended; on failure the exception is reported. */
  ghost predicate Emits(e: Option<Error>, spec: Result<seq<Byte>>, before: seq<Byte>, after: seq<Byte>) {
    if spec.Ok? then e == None && after == before + spec.value else e == Some(spec.error)
  }

  /** The bytes `done` already written, followed by what is left to write. */
  function Prefixed(done: seq<Byte>, rest: Result<seq<Byte>>): (r: Result<seq<Byte>>)
    ensures done == [] ==> r == rest
  {
    assert rest.Ok? ==> [] + rest.value == rest.value;
    if rest.Ok? then Ok(done + rest.value) else rest
  }

  /** One value of a simple array's loop: its bytes move from what is left to write to
      what is written, or its exception is the loop's. */
  lemma ValuesStep(t: TokenType, variables: seq<Variable>, i: nat, done: seq<Byte>)
    requires i < |variables|
    ensures var b := TokenBytes(t, variables[i].value);
            (b.Err? ==> Prefixed(done, EncodeValues(t, variables[i..])) == Err(b.error)) &&
            (b.Ok? ==> Prefixed(done, EncodeValues(t, variables[i..])) ==
                       Prefixed(done + b.value, EncodeValues(t, variables[i + 1..])))
  {
    assert variables[i..][0] == variables[i] && variables[i..][1..] == variables[i + 1..];
    var b := TokenBytes(t, variables[i].value);
    var tail := EncodeValues(t, variables[i + 1..]);
    if b.Ok? && tail.Ok? {
      ConcatAssoc(done, b.value, tail.value);
    }
  }

  /** One index of an array's loop, as ValuesStep for a simple array. */
  lemma ElementsStep(rules: seq<Rule>, slots: seq<Slot>, i: nat, done: seq<Byte>)
    requires i < |slots|
    ensures var b := IndexBytes(rules, slots, i);
            (b.Err? ==> Prefixed(done, EncodeElements(rules, slots, i)) == Err(b.error)) &&
            (b.Ok? ==> Prefixed(done, EncodeElements(rules, slots, i)) ==
                       Prefixed(done + b.value, EncodeElements(rules, slots, i + 1)))
  {
    var b := IndexBytes(rules, slots, i);
    var tail := EncodeElements(rules, slots, i + 1);
    if b.Ok? && tail.Ok? {
      ConcatAssoc(done, b.value, tail.value);
    }
  }

  class PacketSerializer {
    /** The writer in list mode: the bytes go to its internal list. */
    const writer: DataWriter
    /** Set by `serialize` from the packet; null before. */
    var protocol: Option<Protocol>

    ghost predicate Valid()
      reads this, writer
    {
      writer.Valid() && writer.listMode
    }

    constructor ()
      ensures Valid() && fresh(writer) && fresh(writer.buffer) && writer.data == [] && protocol == None
    {
      writer := new DataWriter();
      protocol := None;
    }

    /** getData: the writer's list. */
    function Data(): (r: seq<Byte>)
      reads this, writer
      requires Valid()
      ensures r == writer.Written()
    {
      writer.data
    }

    /** serialize: the list is cleared first, so afterwards it holds this packet's bytes
        and nothing else. */
    method Serialize(definition: Rules.PacketDefinition, packet: Packets.Packet) returns (e: Option<Error>)
      requires Valid()
      modifies this, writer, writer.buffer
      ensures Valid() && protocol == Some(packet.protocol)
      ensures var spec := EncodePacket(definition.rules.items,
                                       if packet.entries == null then None else Some(packet.entries.items));
              (spec.Ok? ==> e == None && writer.data == spec.value) &&
              (spec.Err? ==> e == Some(spec.error))
    {
      writer.data := [];
      protocol := Some(packet.protocol);
      if packet.entries == null {
        if definition.rules.items != [] {
          return Some(NullPointer);
        }
        return None;
      }
      e := SerializeBlock(definition.rules.items, packet.entries.items);
    }

    method SerializeBlock(rules: seq<Rule>, entries: seq<Entry>) returns (e: Option<Error>)
      requires Valid()
      modifies writer, writer.buffer
      ensures Valid() && Emits(e, EncodeBlock(rules, entries), old(writer.data), writer.data)
      decreases rules, 1
    {
      ghost var done: seq<Byte> := [];
      var i := 0;
      assert rules[0..] == rules && entries[0..] == entries;
      while i < |rules|
        invariant i <= |rules| && i <= |entries| && Valid()
        invariant writer.data == old(writer.data) + done
        invariant EncodeBlock(rules, entries) == Prefixed(done, EncodeBlock(rules[i..], entries[i..]))
      {
        if i == |entries| {
          return Some(IndexOutOfBounds);
        }
        assert rules[i..][0] == rules[i] && rules[i..][1..] == rules[i + 1..];
        assert entries[i..][0] == entries[i] && entries[i..][1..] == entries[i + 1..];
        var err := SerializeEntry(rules[i], entries[i]);
        if err.Some? {
          return err;
        }
        ghost var head := EncodeEntry(rules[i], entries[i]).value;
        ghost var tail := EncodeBlock(rules[i + 1..], entries[i + 1..]);
        if tail.Ok? {
          ConcatAssoc(done, head, tail.value);
        }
        done := done + head;
        i := i + 1;
      }
      assert done + [] == done;
      return None;
    }

    method SerializeEntry(rule: Rule, entry: Entry) returns (e: Option<Error>)
      requires Valid()
      modifies writer, writer.buffer
      ensures Valid() && Emits(e, EncodeEntry(rule, entry), old(writer.data), writer.data)
      decreases rule, 1
    {
      match entry
      case VariableEntry(_, value) =>
        if !rule.VariableRule? {
          return Some(ClassCast);
        }
        e := WriteToken(writer, rule.ruleType, value);
      case ArrayEntry(_, _) =>
        if !rule.ArrayRule? {
          return Some(ClassCast);
        }
        e := SerializeArray(rule, entry);
      case SimpleArrayEntry(_, _) =>
        if !rule.SimpleArrayRule? {
          return Some(ClassCast);
        }
        e := SerializeValues(rule.elementType, entry.variables);
      case ConditionEntry(_, entries) =>
        if entries == [] {
          return None;
        }
        if !rule.ConditionRule? {
          return Some(ClassCast);
        }
        e := SerializeBlock(rule.branchRules, entries);
      case MatchEntry(_, entries, value) =>
        if !rule.MatchRule? {
          return Some(ClassCast);
        }
        var i := BranchIndex(rule.branches, value);
        if i.Err? {
          return Some(i.error);
        }
        e := SerializeBlock(rule.branches[i.value].rules, entries);
    }

    /** The loop over an array entry's indices 0 .. size-1. */
    method SerializeArray(rule: Rule, entry: Entry) returns (e: Option<Error>)
      requires Valid() && rule.ArrayRule? && entry.ArrayEntry?
      modifies writer, writer.buffer
      ensures Valid() && Emits(e, EncodeElements(rule.rules, entry.slots, 0), old(writer.data), writer.data)
      decreases rule, 0
    {
      ghost var done: seq<Byte> := [];
      var i := 0;
      while i < |entry.slots|
        invariant i <= |entry.slots| && Valid()
        invariant writer.data == old(writer.data) + done
        invariant EncodeElements(rule.rules, entry.slots, 0) ==
                  Prefixed(done, EncodeElements(rule.rules, entry.slots, i))
        decreases |entry.slots| - i
      {
        ElementsStep(rule.rules, entry.slots, i, done);
        var entries := ArrayGet(entry, i);
        if entries.None? {
          if rule.rules != [] {
            return Some(NullPointer);
          }
        } else {
          var err := SerializeBlock(rule.rules, entries.value);
          if err.Some? {
            return err;
          }
        }
        done := done + IndexBytes(rule.rules, entry.slots, i).value;
        i := i + 1;
      }
      assert done + [] == done;
      return None;
    }

    /** The loop over a simple array's values. */
    method SerializeValues(t: TokenType, variables: seq<Variable>) returns (e: Option<Error>)
      requires Valid()
      modifies writer, writer.buffer
      ensures Valid() && Emits(e, EncodeValues(t, variables), old(writer.data), writer.data)
    {
      ghost var done: seq<Byte> := [];
      var i := 0;
      assert variables[0..] == variables;
      while i < |variables|
        invariant i <= |variables| && Valid()
        invariant writer.data == old(writer.data) + done
        invariant EncodeValues(t, variables) == Prefixed(done, EncodeValues(t, variables[i..]))
      {
        ValuesStep(t, variables, i, done);
        var err := WriteToken(writer, t, variables[i].value);
        if err.Some? {
          return err;
        }
        ghost var head := TokenBytes(t, variables[i].value).value;
        assert writer.data == old(writer.data) + done + head;
        ConcatAssoc(old(writer.data), done, head);
        done := done + head;
        i := i + 1;
      }
      assert done + [] == done;
      return None;
    }
  }
}
