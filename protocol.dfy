/** Protocol versions and the registry they are looked up in (Protocol.java,
    ProtocolVersion.java). */
module Protocols {
  import opened Base
  import Search

  /** A named protocol ordinal; both fields are final. */
  datatype Protocol = Protocol(name: string, version: int)

  /** The private no-argument constructor Gson uses. */
  const DEFAULT_PROTOCOL := Protocol("No Name", -1)

  /** The named versions the code refers to, with their protocol numbers. */
  const MC_1_14 := Protocol("MC_1_14", 477)
  const MC_1_16 := Protocol("MC_1_16", 735)
  const MC_1_19_3 := Protocol("MC_1_19_3", 761)

  predicate IsAfterInclusive(p: Protocol, other: Protocol) { p.version >= other.version }
  predicate IsAfterExclusive(p: Protocol, other: Protocol) { p.version > other.version }
  predicate IsBeforeInclusive(p: Protocol, other: Protocol) { p.version <= other.version }
  predicate IsBeforeExclusive(p: Protocol, other: Protocol) { p.version < other.version }

  /** The comparisons order protocols by ordinal alone: the inclusive ones are reflexive,
      the exclusive ones irreflexive, each "before" is the converse of an "after", and
      exactly one of before, same ordinal, after holds. */
  lemma ComparisonLaws(a: Protocol, b: Protocol)
    ensures IsAfterInclusive(a, a) && IsBeforeInclusive(a, a)
    ensures !IsAfterExclusive(a, a) && !IsBeforeExclusive(a, a)
    ensures IsBeforeExclusive(a, b) <==> IsAfterExclusive(b, a)
    ensures IsBeforeInclusive(a, b) <==> IsAfterInclusive(b, a)
    ensures IsAfterInclusive(a, b) <==> !IsBeforeExclusive(a, b)
    ensures IsBeforeExclusive(a, b) || a.version == b.version || IsAfterExclusive(a, b)
  {
  }

  /** ProtocolVersion.get(name): the first registered protocol with that name. */
  function Get(registry: seq<Protocol>, name: string): (r: Option<Protocol>)
    ensures r.Some? ==> r.value.name == name && r.value in registry
    ensures r.None? <==> forall i :: 0 <= i < |registry| ==> registry[i].name != name
    ensures r.Some? ==> exists i :: 0 <= i < |registry| && registry[i] == r.value &&
                          forall j :: 0 <= j < i ==> registry[j].name != name
  {
    Search.First(registry, (q: Protocol) => q.name == name)
  }

  /** ProtocolVersion.getFromId(id): the first registered protocol with that ordinal. */
  function GetFromId(registry: seq<Protocol>, id: int): (r: Option<Protocol>)
    ensures r.Some? ==> r.value.version == id && r.value in registry
    ensures r.None? <==> forall i :: 0 <= i < |registry| ==> registry[i].version != id
    ensures r.Some? ==> exists i :: 0 <= i < |registry| && registry[i] == r.value &&
                          forall j :: 0 <= j < i ==> registry[j].version != id
  {
    Search.First(registry, (q: Protocol) => q.version == id)
  }
}
