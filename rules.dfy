/** The packet schema: the rules a packet definition is made of (Rule.java,
    VariableRule.java and the rule kinds the deserializer and serializer dispatch on),
    and PacketDefinition, which takes the packet's name off the front of its rule list. */
module Rules {
  import opened Base
  import opened Protocols
  import opened Tokens
  import Search

  /** A schema rule. Every rule has an optional name (`getName`, null when absent).
      - VariableRule: one field of a token type.
      - MatchRule: a switch on an earlier field; `getRulesForValue` picks the rules of
        the first branch whose value is the field's value.
      - ArrayRule: a block of rules repeated as many times as an earlier field says.
      - SimpleArrayRule: as many unnamed values of one token type as an earlier field
        says.
      - ConditionRule: a block read only when `isBranchTaken` holds of an earlier
        field's value. */
  datatype Rule =
    | VariableRule(name: Option<string>, ruleType: TokenType)
    | MatchRule(name: Option<string>, variable: string, branches: seq<Branch>)
    | ArrayRule(name: Option<string>, lengthVariable: string, rules: seq<Rule>)
    | SimpleArrayRule(name: Option<string>, lengthVariable: string, elementType: TokenType)
    | ConditionRule(name: Option<string>, variable: string, isBranchTaken: int -> bool,
                    branchRules: seq<Rule>)

  /** One case of a match rule. */
  datatype Branch = Branch(value: int, rules: seq<Rule>)

  /** The classes `getAs` can be asked for: `Rule` itself and its subclasses. */
  datatype RuleClass = RuleBase | Variable | Match | Array | SimpleArray | Condition

  /** Whether `r` is an instance of class `c`. */
  predicate IsInstance(r: Rule, c: RuleClass) {
    match c
    case RuleBase => true
    case Variable => r.VariableRule?
    case Match => r.MatchRule?
    case Array => r.ArrayRule?
    case SimpleArray => r.SimpleArrayRule?
    case Condition => r.ConditionRule?
  }

  /** Rule.getAs: the rule itself when it is an instance of the class asked for, a
      ClassCastException otherwise. */
  function GetAs(r: Rule, c: RuleClass): (res: Result<Rule>)
    ensures res.Ok? <==> IsInstance(r, c)
    ensures res.Ok? ==> res.value == r
    ensures res.Err? ==> res.error == ClassCast
  {
    if IsInstance(r, c) then Ok(r) else Err(ClassCast)
  }

  /** Exactly one subclass fits a rule, and `Rule` fits every rule: casting a rule to
      two different subclasses cannot both succeed. */
  lemma OneSubclass(r: Rule, c: RuleClass, d: RuleClass)
    requires c != RuleBase && d != RuleBase && c != d
    ensures !(GetAs(r, c).Ok? && GetAs(r, d).Ok?)
    ensures GetAs(r, RuleBase) == Ok(r)
  {
  }

  /** MatchRule.getRulesForValue: the index of the first branch for `value`; a match
      without such a branch has no rules to give. */
  function BranchIndex(branches: seq<Branch>, value: int): (r: Result<nat>)
    ensures r.Ok? ==> r.value < |branches| && branches[r.value].value == value &&
                      forall j :: 0 <= j < r.value ==> branches[j].value != value
    ensures r.Err? <==> forall j :: 0 <= j < |branches| ==> branches[j].value != value
    ensures r.Err? ==> r.error == NoMatchingBranch
  {
    match Search.FirstIndex(branches, (b: Branch) => b.value == value)
    case None => Err(NoMatchingBranch)
    case Some(i) => Ok(i)
  }

  /** The list of rules `new PacketDefinition(rules, ...)` receives. The constructor
      shortens the caller's own list, so the list is an object both share. */
  class RuleList {
    var items: seq<Rule>

    constructor (items: seq<Rule>)
      ensures this.items == items
    {
      this.items := items;
    }
  }

  class PacketDefinition {
    /** The very list the constructor received, now without its first rule. */
    const rules: RuleList
    const packetName: Option<string>
    const packetId: Int32
    const protocol: Protocol

    /** The constructor body: the first rule only carries the packet's name, so its name
        becomes `packetName` and the rule is removed from the list. */
    constructor (rules: RuleList, packetId: Int32, protocol: Protocol)
      requires |rules.items| > 0
      modifies rules
      ensures this.rules == rules && rules.items == old(rules.items[1..])
      ensures packetName == old(rules.items[0].name)
      ensures this.packetId == packetId && this.protocol == protocol
    {
      this.packetName := rules.items[0].name;
      rules.items := rules.items[1..];
      this.rules := rules;
      this.packetId := packetId;
      this.protocol := protocol;
    }

    /** `new PacketDefinition(rules, packetID, protocolVersion)`, including the
        IndexOutOfBoundsException `rules.get(0)` throws on an empty list, which leaves
        the list as it was. */
    static method Create(rules: RuleList, packetId: Int32, protocol: Protocol)
      returns (r: Result<PacketDefinition>)
      modifies rules
      ensures old(rules.items) == [] <==> r.Err?
      ensures r.Err? ==> r.error == IndexOutOfBounds && rules.items == old(rules.items)
      ensures r.Ok? ==> fresh(r.value) && r.value.rules == rules &&
                        r.value.packetName == old(rules.items[0].name) &&
                        old(rules.items) == [old(rules.items[0])] + rules.items
      ensures r.Ok? ==> r.value.packetId == packetId && r.value.protocol == protocol
    {
      if rules.items == [] {
        return Err(IndexOutOfBounds);
      }
      var d := new PacketDefinition(rules, packetId, protocol);
      r := Ok(d);
    }
  }
}
