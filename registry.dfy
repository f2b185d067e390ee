/** Packet identity (PacketMetaData.java, PacketAcceptor.java, Packets.java): the id a
    packet has under each protocol, the acceptors tasks register, the registry of packet
    data and the schema file of a packet. ProtocolVersion's registry, the packet data
    list read from packets.json, the home folder and the listing of a schema folder are
    parameters. PacketData is not part of this model; it is taken to be the metadata
    it is looked up by (a name and the `versions` map). */
module Registry {
  import opened Base
  import opened Protocols
  import Decimal
  import Search
  import Platform
  import Packets

  // ---------------------------------------------------------------- PacketMetaData

  /** A packet's name and its `versions` map in insertion order: each entry names a
      protocol and gives the packet's id for protocols up to that one. */
  datatype PacketMetaData = PacketMetaData(name: string, versions: seq<(string, Int32)>)

  /** The no-argument constructor Gson uses. */
  const MISSING_META := PacketMetaData("Missing Name", [])

  /** The protocol a version key names. ProtocolVersion.get gives null for a name it
      does not know, and the comparison on it throws NullPointerException. */
  function Threshold(registry: seq<Protocol>, key: string): Result<Protocol> {
    match Get(registry, key)
    case None => Err(NullPointer)
    case Some(p) => Ok(p)
  }

  /** The protocol each entry of `versions` names, in order. */
  function Thresholds(registry: seq<Protocol>, versions: seq<(string, Int32)>): (r: seq<Result<Protocol>>)
    ensures |r| == |versions|
  {
    seq(|versions|, i requires 0 <= i < |versions| => Threshold(registry, versions[i].0))
  }

  /** Whether a protocol falls under a threshold: `protocol.isBeforeInclusive(threshold)`
      for the packet id, `threshold.isBeforeInclusive(protocol)` for the configuration
      id. */
  predicate Reaches(protocol: Protocol, threshold: Protocol, configuration: bool) {
    if configuration then IsBeforeInclusive(threshold, protocol) else IsBeforeInclusive(protocol, threshold)
  }

  /** Entry i names a known protocol and the protocol falls under it. */
  predicate Hit(thresholds: seq<Result<Protocol>>, protocol: Protocol, configuration: bool, i: int)
    requires 0 <= i < |thresholds|
  {
    thresholds[i].Ok? && Reaches(protocol, thresholds[i].value, configuration)
  }

  /** Entry i names a known protocol and the protocol does not fall under it. */
  predicate Miss(thresholds: seq<Result<Protocol>>, protocol: Protocol, configuration: bool, i: int)
    requires 0 <= i < |thresholds|
  {
    thresholds[i].Ok? && !Reaches(protocol, thresholds[i].value, configuration)
  }

  /** Entry i is the one the scan stops at. */
  predicate FirstHit(thresholds: seq<Result<Protocol>>, protocol: Protocol, configuration: bool, i: int) {
    0 <= i < |thresholds| && Hit(thresholds, protocol, configuration, i) &&
    forall j :: 0 <= j < i ==> Miss(thresholds, protocol, configuration, j)
  }

  /** The scan finds nothing: every entry is known and the protocol falls under none. */
  predicate NoHit(thresholds: seq<Result<Protocol>>, protocol: Protocol, configuration: bool) {
    forall j :: 0 <= j < |thresholds| ==> Miss(thresholds, protocol, configuration, j)
  }

  /** The for-each over `versions` with its early return, from entry k: the index of
      the first entry the protocol falls under, if any. */
  function ScanFrom(thresholds: seq<Result<Protocol>>, protocol: Protocol, configuration: bool, k: nat)
    : (r: Result<Option<nat>>)
    requires k <= |thresholds|
    ensures r.Ok? && r.value.Some? ==>
              k <= r.value.value < |thresholds| && Hit(thresholds, protocol, configuration, r.value.value) &&
              forall j :: k <= j < r.value.value ==> Miss(thresholds, protocol, configuration, j)
    ensures r == Ok(None) <==> forall j :: k <= j < |thresholds| ==> Miss(thresholds, protocol, configuration, j)
    ensures r.Err? ==> r.error == NullPointer &&
                       exists j :: k <= j < |thresholds| && thresholds[j].Err? &&
                         forall i :: k <= i < j ==> Miss(thresholds, protocol, configuration, i)
    decreases |thresholds| - k
  {
    if k == |thresholds| then Ok(None)
    else if thresholds[k].Err? then
      assert k <= k < |thresholds| && thresholds[k].Err?;
      assert !Miss(thresholds, protocol, configuration, k);
      Err(NullPointer)
    else if Reaches(protocol, thresholds[k].value, configuration) then
      assert !Miss(thresholds, protocol, configuration, k);
      Ok(Some(k))
    else
      assert Miss(thresholds, protocol, configuration, k);
      ScanFrom(thresholds, protocol, configuration, k + 1)
  }

  /** The scan from the start stops at the first hit, finds nothing exactly when no
      entry is hit, and fails only on an unknown protocol name. */
  lemma ScanResult(thresholds: seq<Result<Protocol>>, protocol: Protocol, configuration: bool)
    ensures var r := ScanFrom(thresholds, protocol, configuration, 0);
            (forall i :: FirstHit(thresholds, protocol, configuration, i) ==> r == Ok(Some(i))) &&
            (NoHit(thresholds, protocol, configuration) <==> r == Ok(None)) &&
            (r.Ok? <==> NoHit(thresholds, protocol, configuration) ||
                        exists i :: FirstHit(thresholds, protocol, configuration, i))
  {
    var r := ScanFrom(thresholds, protocol, configuration, 0);
    forall i | FirstHit(thresholds, protocol, configuration, i)
      ensures r == Ok(Some(i))
    {
      ScanStopsAt(thresholds, protocol, configuration, 0, i);
    }
    if r.Ok? && r.value.Some? {
      assert FirstHit(thresholds, protocol, configuration, r.value.value);
    }
  }

  /** A scan from k runs past the misses up to the hit at i and stops there. */
  lemma {:induction false} ScanStopsAt(thresholds: seq<Result<Protocol>>, protocol: Protocol, configuration: bool,
                                       k: nat, i: nat)
    requires k <= i < |thresholds| && Hit(thresholds, protocol, configuration, i)
    requires forall j :: k <= j < i ==> Miss(thresholds, protocol, configuration, j)
    ensures ScanFrom(thresholds, protocol, configuration, k) == Ok(Some(i))
    decreases i - k
  {
    if k < i {
      assert Miss(thresholds, protocol, configuration, k);
      ScanStopsAt(thresholds, protocol, configuration, k + 1, i);
    }
  }

  /** getPacketIdForProtocol: the id of the first entry whose protocol is at or after
      the packet's, -1 when the packet's protocol is after all of them. */
  function PacketIdForProtocol(registry: seq<Protocol>, meta: PacketMetaData, protocol: Protocol): (r: Result<Int32>)
    ensures var ts := Thresholds(registry, meta.versions);
            (forall i :: FirstHit(ts, protocol, false, i) ==> r == Ok(meta.versions[i].1)) &&
            (NoHit(ts, protocol, false) ==> r == Ok(-1)) &&
            (r.Ok? <==> NoHit(ts, protocol, false) || exists i :: FirstHit(ts, protocol, false, i))
    ensures r.Err? ==> r.error == NullPointer
  {
    var ts := Thresholds(registry, meta.versions);
    ScanResult(ts, protocol, false);
    var i :- ScanFrom(ts, protocol, false, 0);
    Ok(if i.Some? then meta.versions[i.value].1 else -1)
  }

  /** getConfigurationPacketId: the same scan with the comparison reversed, so the
      first entry whose protocol is at or before the packet's. */
  function ConfigurationPacketId(registry: seq<Protocol>, meta: PacketMetaData, protocol: Protocol): (r: Result<Int32>)
    ensures var ts := Thresholds(registry, meta.versions);
            (forall i :: FirstHit(ts, protocol, true, i) ==> r == Ok(meta.versions[i].1)) &&
            (NoHit(ts, protocol, true) ==> r == Ok(-1)) &&
            (r.Ok? <==> NoHit(ts, protocol, true) || exists i :: FirstHit(ts, protocol, true, i))
    ensures r.Err? ==> r.error == NullPointer
  {
    var ts := Thresholds(registry, meta.versions);
    ScanResult(ts, protocol, true);
    var i :- ScanFrom(ts, protocol, true, 0);
    Ok(if i.Some? then meta.versions[i.value].1 else -1)
  }

  /** PacketMetaData.accept: only the first entry the packet's protocol falls under is
      looked at, and the packet is accepted exactly when its id is that entry's; no
      such entry means no. */
  function MetaAccept(registry: seq<Protocol>, meta: PacketMetaData, protocol: Protocol, packetId: int): (r: Result<bool>)
    ensures var ts := Thresholds(registry, meta.versions);
            (forall i :: FirstHit(ts, protocol, false, i) ==> r == Ok(meta.versions[i].1 == packetId)) &&
            (NoHit(ts, protocol, false) ==> r == Ok(false))
    ensures r.Err? ==> r.error == NullPointer
  {
    var ts := Thresholds(registry, meta.versions);
    ScanResult(ts, protocol, false);
    var i :- ScanFrom(ts, protocol, false, 0);
    Ok(i.Some? && meta.versions[i.value].1 == packetId)
  }

  /** accept agrees with getPacketIdForProtocol: they fail together, and otherwise a
      packet is accepted exactly when its id is the one the metadata gives for its
      protocol, except that the "no id" answer -1 never accepts. */
  lemma AcceptIsIdMatch(registry: seq<Protocol>, meta: PacketMetaData, protocol: Protocol, packetId: int)
    ensures MetaAccept(registry, meta, protocol, packetId).Ok? <==> PacketIdForProtocol(registry, meta, protocol).Ok?
    ensures MetaAccept(registry, meta, protocol, packetId).Ok? && packetId != -1 ==>
              MetaAccept(registry, meta, protocol, packetId).value == (PacketIdForProtocol(registry, meta, protocol).value == packetId)
    ensures NoHit(Thresholds(registry, meta.versions), protocol, false) ==>
              MetaAccept(registry, meta, protocol, -1) == Ok(false) && PacketIdForProtocol(registry, meta, protocol) == Ok(-1)
  {
    ScanResult(Thresholds(registry, meta.versions), protocol, false);
  }

  // ---------------------------------------------------------------- PacketAcceptor

  /** Whether a protocol lies between the optional bounds, both inclusive. */
  predicate InRange(v: Protocol, from: Option<Protocol>, to: Option<Protocol>) {
    (from.None? || IsAfterInclusive(v, from.value)) && (to.None? || IsBeforeInclusive(v, to.value))
  }

  /** An acceptor never changes once the task that owns it is built, so its bounds
      are constants here; `from` and `to`, which the source calls only in the chain
      that builds the acceptor, give back an acceptor with the bound set. */
  class PacketAcceptor {
    const packetToAccept: PacketMetaData
    const configuration: bool
    const fromVersion: Option<Protocol>
    const toVersion: Option<Protocol>

    /** `PacketAcceptor.accept(packet)`: an acceptor of non-configuration packets, with
        no bounds. */
    constructor Of(meta: PacketMetaData)
      ensures packetToAccept == meta && !configuration
      ensures fromVersion == None && toVersion == None
    {
      packetToAccept := meta;
      configuration := false;
      fromVersion := None;
      toVersion := None;
    }

    /** `PacketAcceptor.accept(packet, isConfigurationPacket)`. */
    constructor OfPhase(meta: PacketMetaData, configuration: bool)
      ensures packetToAccept == meta && this.configuration == configuration
      ensures fromVersion == None && toVersion == None
    {
      packetToAccept := meta;
      this.configuration := configuration;
      fromVersion := None;
      toVersion := None;
    }

    /** An acceptor with the given fields, which `from` and `to` build on. */
    constructor Bounded(meta: PacketMetaData, configuration: bool, from: Option<Protocol>, to: Option<Protocol>)
      ensures packetToAccept == meta && this.configuration == configuration
      ensures fromVersion == from && toVersion == to
    {
      packetToAccept := meta;
      this.configuration := configuration;
      fromVersion := from;
      toVersion := to;
    }

    /** from(version): the lower bound, replacing any earlier one; everything else is
        kept. */
    method From(version: Protocol) returns (r: PacketAcceptor)
      ensures fresh(r) && r.packetToAccept == packetToAccept && r.configuration == configuration
      ensures r.fromVersion == Some(version) && r.toVersion == toVersion
    {
      r := new PacketAcceptor.Bounded(packetToAccept, configuration, Some(version), toVersion);
    }

    /** to(version): the upper bound, replacing any earlier one; everything else is
        kept. */
    method To(version: Protocol) returns (r: PacketAcceptor)
      ensures fresh(r) && r.packetToAccept == packetToAccept && r.configuration == configuration
      ensures r.toVersion == Some(version) && r.fromVersion == fromVersion
    {
      r := new PacketAcceptor.Bounded(packetToAccept, configuration, fromVersion, Some(version));
    }

    /** accept(packet): a packet of the other phase is refused outright; otherwise the
        packet must lie between the bounds that are set, and then the metadata decides.
        The metadata is consulted only inside the bounds (`&&` short-circuits), so its
        NullPointerException can only come from there. */
    function Accept(registry: seq<Protocol>, packet: Packets.Packet): (r: Result<bool>)
      ensures packet.configuration != configuration ==> r == Ok(false)
      ensures packet.configuration == configuration ==>
                r == (if InRange(packet.protocol, fromVersion, toVersion)
                      then MetaAccept(registry, packetToAccept, packet.protocol, packet.packetId)
                      else Ok(false))
    {
      if packet.configuration != configuration then Ok(false)
      else if toVersion.Some? then
        if fromVersion.Some? then
          if IsAfterInclusive(packet.protocol, fromVersion.value) && IsBeforeInclusive(packet.protocol, toVersion.value)
          then MetaAccept(registry, packetToAccept, packet.protocol, packet.packetId)
          else Ok(false)
        else
          if IsBeforeInclusive(packet.protocol, toVersion.value)
          then MetaAccept(registry, packetToAccept, packet.protocol, packet.packetId)
          else Ok(false)
      else if fromVersion.Some? then
        if IsAfterInclusive(packet.protocol, fromVersion.value)
        then MetaAccept(registry, packetToAccept, packet.protocol, packet.packetId)
        else Ok(false)
      else MetaAccept(registry, packetToAccept, packet.protocol, packet.packetId)
    }
  }

  // ---------------------------------------------------------------- Packets

  /** The id each packet data gives for the protocol, in order. */
  function PacketIds(registry: seq<Protocol>, packetData: seq<PacketMetaData>, protocol: Protocol)
    : (r: seq<Result<Int32>>)
    ensures |r| == |packetData|
    ensures forall j :: 0 <= j < |r| && r[j].Err? ==> r[j].error == NullPointer
  {
    seq(|packetData|, j requires 0 <= j < |packetData| => PacketIdForProtocol(registry, packetData[j], protocol))
  }

  /** The packet data at j gives some other id for the protocol. */
  predicate OtherId(ids: seq<Result<Int32>>, packetId: int, j: int)
    requires 0 <= j < |ids|
  {
    ids[j].Ok? && ids[j].value != packetId
  }

  /** Packets.get(protocol, packetId), from entry k, given the id each packet data gives
      for the protocol: the first packet data with the given id; null when there is
      none. */
  function GetByIdFrom(packetData: seq<PacketMetaData>, ids: seq<Result<Int32>>, packetId: int, k: nat)
    : (r: Result<Option<PacketMetaData>>)
    requires |ids| == |packetData| && k <= |packetData|
    ensures r.Ok? && r.value.Some? ==>
              exists i :: k <= i < |packetData| && packetData[i] == r.value.value && ids[i] == Ok(packetId) &&
                forall j :: k <= j < i ==> OtherId(ids, packetId, j)
    ensures r == Ok(None) <==> forall j :: k <= j < |packetData| ==> OtherId(ids, packetId, j)
    ensures r.Err? ==> exists i :: k <= i < |ids| && ids[i] == Err(r.error)
    decreases |packetData| - k
  {
    if k == |packetData| then Ok(None)
    else if ids[k].Err? then
      assert k <= k < |ids| && ids[k] == Err(ids[k].error);
      assert !OtherId(ids, packetId, k);
      Err(ids[k].error)
    else if ids[k].value == packetId then
      assert !OtherId(ids, packetId, k);
      Ok(Some(packetData[k]))
    else
      assert OtherId(ids, packetId, k);
      GetByIdFrom(packetData, ids, packetId, k + 1)
  }

  /** Packets.get(protocol, packetId): the first packet data whose id for the protocol
      is the given one; null when there is none. An unknown protocol name in a version
      list on the way throws NullPointerException. */
  function GetById(registry: seq<Protocol>, packetData: seq<PacketMetaData>, protocol: Protocol, packetId: int)
    : (r: Result<Option<PacketMetaData>>)
    ensures var ids := PacketIds(registry, packetData, protocol);
            (r.Ok? && r.value.Some? ==>
               exists i :: 0 <= i < |packetData| && packetData[i] == r.value.value &&
                 PacketIdForProtocol(registry, packetData[i], protocol) == Ok(packetId) &&
                 forall j :: 0 <= j < i ==> OtherId(ids, packetId, j)) &&
            (r == Ok(None) <==> forall j :: 0 <= j < |packetData| ==> OtherId(ids, packetId, j))
    ensures r.Err? ==> r.error == NullPointer
  {
    var ids := PacketIds(registry, packetData, protocol);
    GetByIdFrom(packetData, ids, packetId, 0)
  }

  /** Packets.get(name): the first packet data with that name, or null. */
  function GetByName(packetData: seq<PacketMetaData>, name: string): (r: Option<PacketMetaData>)
    ensures r.Some? ==> r.value.name == name && r.value in packetData
    ensures r.None? <==> forall i :: 0 <= i < |packetData| ==> packetData[i].name != name
    ensures r.Some? ==> exists i :: 0 <= i < |packetData| && packetData[i] == r.value &&
                          forall j :: 0 <= j < i ==> packetData[j].name != name
  {
    Search.First(packetData, (d: PacketMetaData) => d.name == name)
  }

  // ------------------------------------------------ the schema file of a packet

  /** String.compareTo order: the first differing char decides, and a proper prefix
      comes first. */
  predicate LexLeq(a: string, b: string)
    decreases |a|
  {
    a == [] || (b != [] && (a[0] < b[0] || (a[0] == b[0] && LexLeq(a[1..], b[1..]))))
  }

  lemma {:induction false} LexTotal(a: string, b: string)
    ensures LexLeq(a, b) || LexLeq(b, a)
    decreases |a|
  {
    if a != [] && b != [] && a[0] == b[0] {
      LexTotal(a[1..], b[1..]);
    }
  }

  lemma {:induction false} LexTrans(a: string, b: string, c: string)
    requires LexLeq(a, b) && LexLeq(b, c)
    ensures LexLeq(a, c)
    decreases |a|
  {
    if a != [] && a[0] == b[0] && b[0] == c[0] {
      LexTrans(a[1..], b[1..], c[1..]);
    }
  }

  predicate SortedNames(s: seq<string>) {
    forall i, j :: 0 <= i < j < |s| ==> LexLeq(s[i], s[j])
  }

  /** A name no greater than every element of a sorted list can go in front. */
  lemma PrependSorted(x: string, s: seq<string>)
    requires SortedNames(s) && forall y :: y in s ==> LexLeq(x, y)
    ensures SortedNames([x] + s)
  {
    var r := [x] + s;
    forall i, j | 0 <= i < j < |r| ensures LexLeq(r[i], r[j]) {
      assert r[j] == s[j - 1] && s[j - 1] in s;
      if i > 0 {
        assert r[i] == s[i - 1];
      }
    }
  }

  lemma HeadBelowAll(x: string, s: seq<string>)
    requires SortedNames(s) && s != [] && LexLeq(x, s[0])
    ensures forall y :: y in s ==> LexLeq(x, y)
  {
    forall y | y in s ensures LexLeq(x, y) {
      var k :| 0 <= k < |s| && s[k] == y;
      if k > 0 { LexTrans(x, s[0], s[k]); }
    }
  }

  lemma HeadBelowInserted(x: string, s: seq<string>, rest: seq<string>)
    requires SortedNames(s) && s != [] && LexLeq(s[0], x)
    requires multiset(rest) == multiset(s[1..]) + multiset{x}
    ensures forall y :: y in rest ==> LexLeq(s[0], y)
  {
    forall y | y in rest ensures LexLeq(s[0], y) {
      assert y in multiset(rest);
      if y != x {
        assert y in multiset(s[1..]);
        var k :| 0 <= k < |s[1..]| && s[1..][k] == y;
        assert s[k + 1] == y;
      }
    }
  }

  /** One insertion step of the sort. */
  function Insert(x: string, s: seq<string>): (r: seq<string>)
    requires SortedNames(s)
    ensures SortedNames(r) && multiset(r) == multiset(s) + multiset{x}
  {
    if s == [] then [x]
    else if LexLeq(x, s[0]) then
      HeadBelowAll(x, s);
      PrependSorted(x, s);
      [x] + s
    else
      var rest := Insert(x, s[1..]);
      LexTotal(x, s[0]);
      HeadBelowInserted(x, s, rest);
      PrependSorted(s[0], rest);
      assert s == [s[0]] + s[1..];
      [s[0]] + rest
  }

  /** Collections.sort of the file names: a sorted permutation. */
  function SortNames(s: seq<string>): (r: seq<string>)
    ensures SortedNames(r) && multiset(r) == multiset(s) && |r| == |s|
  {
    if s == [] then []
    else
      assert s == [s[0]] + s[1..];
      Insert(s[0], SortNames(s[1..]))
  }

  /** String.replace(pattern, ""): every occurrence of the pattern, scanned from the
      left, removed. */
  function RemoveText(s: string, pattern: string): (r: string)
    requires pattern != []
    ensures |r| <= |s|
    decreases |s|
  {
    if |s| < |pattern| then s
    else if s[..|pattern|] == pattern then RemoveText(s[|pattern|..], pattern)
    else [s[0]] + RemoveText(s[1..], pattern)
  }

  /** A name without a '.' loses exactly its ".psl" suffix. */
  lemma {:induction false} RemovePslSuffix(stem: string)
    requires forall i :: 0 <= i < |stem| ==> stem[i] != '.'
    ensures RemoveText(stem + ".psl", ".psl") == stem
    decreases |stem|
  {
    var s := stem + ".psl";
    if stem == [] {
      assert s[..4] == ".psl" && s[4..] == [];
    } else {
      assert s[..4] != ".psl" by { assert s[0] == stem[0] != '.'; }
      assert s[1..] == stem[1..] + ".psl";
      RemovePslSuffix(stem[1..]);
      assert stem == [stem[0]] + stem[1..];
    }
  }

  /** The number a schema file's name gives: `Integer.parseInt(name.replace(".psl", ""))`. */
  function FileNumber(name: string): Result<Int32> {
    Decimal.ParseInt(RemoveText(name, ".psl"))
  }

  /** The number each name gives, in order. */
  function FileNumbers(names: seq<string>): (r: seq<Result<Int32>>)
    ensures |r| == |names|
  {
    seq(|names|, j requires 0 <= j < |names| => FileNumber(names[j]))
  }

  /** Entry j is a number above the version. */
  predicate Above(numbers: seq<Result<Int32>>, version: int, j: int)
    requires 0 <= j < |numbers|
  {
    numbers[j].Ok? && numbers[j].value > version
  }

  /** The descending loop over the numbers of the sorted names below index i: the
      first number (from the end) at most the version; a name that is not a number
      throws when the loop reaches it. */
  function PickDown(numbers: seq<Result<Int32>>, version: int, i: nat): Result<Option<Int32>>
    requires i <= |numbers|
  {
    if i == 0 then Ok(None)
    else if numbers[i - 1].Err? then Err(numbers[i - 1].error)
    else if version >= numbers[i - 1].value then Ok(Some(numbers[i - 1].value))
    else PickDown(numbers, version, i - 1)
  }

  /** What the descending loop picks below index i: a number at most the version, with
      every entry after it above the version; nothing exactly when every entry is above
      it; the error of the last entry that is not a number when every entry after it is
      above the version. */
  lemma {:induction false} PickDownPicks(numbers: seq<Result<Int32>>, version: int, i: nat)
    requires i <= |numbers|
    ensures var r := PickDown(numbers, version, i);
            (r.Ok? && r.value.Some? ==>
               exists k :: 0 <= k < i && numbers[k] == Ok(r.value.value) && r.value.value <= version &&
                 forall j :: k < j < i ==> Above(numbers, version, j)) &&
            (r == Ok(None) <==> forall j :: 0 <= j < i ==> Above(numbers, version, j)) &&
            (r.Err? ==>
               exists k :: 0 <= k < i && numbers[k] == Err(r.error) &&
                 forall j :: k < j < i ==> Above(numbers, version, j))
  {
    if i > 0 {
      if numbers[i - 1].Err? {
        assert 0 <= i - 1 < i && !Above(numbers, version, i - 1);
      } else if version >= numbers[i - 1].value {
        assert 0 <= i - 1 < i && !Above(numbers, version, i - 1);
      } else {
        PickDownPicks(numbers, version, i - 1);
        assert Above(numbers, version, i - 1);
      }
    }
  }

  /** The schema folder of a packet: the protocols folder, then the packet's name. The
      packet data is looked up by id; when none has it, `getName` on null throws. */
  function SchemaFolder(home: string, registry: seq<Protocol>, packetData: seq<PacketMetaData>,
                        protocol: Protocol, packetId: int): (r: Result<string>)
    ensures var d := GetById(registry, packetData, protocol, packetId);
            (r.Ok? <==> d.Ok? && d.value.Some?) &&
            (r.Ok? ==> r.value == Platform.ImBobFolder(home) + "protocols/" + d.value.value.name + "/")
    ensures r.Err? ==> r.error == NullPointer
  {
    var packet :- GetById(registry, packetData, protocol, packetId);
    if packet.None? then Err(NullPointer)
    else Ok(Platform.ImBobFolder(home) + "protocols/" + packet.value.name + "/")
  }

  /** getPSLPath as written: the folder, then the file the descending loop over the
      names sorted as strings picks, as its number followed by ".psl"; nothing more when
      no file number is at most the protocol's version. */
  function PslPathAsWritten(home: string, registry: seq<Protocol>, packetData: seq<PacketMetaData>,
                            protocol: Protocol, packetId: int, files: seq<string>): (r: Result<string>)
  {
    var folder :- SchemaFolder(home, registry, packetData, protocol, packetId);
    var id :- PickDown(FileNumbers(SortNames(files)), protocol.version, |files|);
    Ok(if id.Some? then folder + Decimal.IntText(id.value) + ".psl" else folder)
  }

  /** getPSLPath: the folder path is built, the listed names are sorted
      (Collections.sort, as strings), and the loop picks the file to append. */
  method GetPSLPath(home: string, registry: seq<Protocol>, packetData: seq<PacketMetaData>,
                    protocol: Protocol, packetId: int, files: seq<string>) returns (r: Result<string>)
    ensures r == PslPathAsWritten(home, registry, packetData, protocol, packetId, files)
  {
    var folder := SchemaFolder(home, registry, packetData, protocol, packetId);
    if folder.Err? {
      return Err(folder.error);
    }
    var protocols := SortNames(files);
    var id := PickSchema(protocols, protocol.version);
    if id.Err? {
      return Err(id.error);
    }
    if id.value.Some? {
      return Ok(folder.value + Decimal.IntText(id.value.value) + ".psl");
    }
    return Ok(folder.value);
  }

  /** The loop of getPSLPath, from the last name down: the first number at most the
      version; parseInt throws on a name that is not a number. */
  method PickSchema(protocols: seq<string>, version: int) returns (r: Result<Option<Int32>>)
    ensures r == PickDown(FileNumbers(protocols), version, |protocols|)
  {
    ghost var numbers := FileNumbers(protocols);
    var i: nat := |protocols|;
    while i > 0
      invariant i <= |protocols|
      invariant PickDown(numbers, version, |protocols|) == PickDown(numbers, version, i)
    {
      var protocolId := FileNumber(protocols[i - 1]);
      assert protocolId == numbers[i - 1];
      if protocolId.Err? {
        return Err(protocolId.error);
      }
      if version >= protocolId.value {
        return Ok(Some(protocolId.value));
      }
      i := i - 1;
    }
    return Ok(None);
  }

  /** As written, the file picked is the last name in string order whose number is at
      most the version, and the path is the folder, then that number and ".psl". With
      every name above the version the path is the folder alone. */
  lemma PslPathAsWrittenPicks(home: string, registry: seq<Protocol>, packetData: seq<PacketMetaData>,
                              protocol: Protocol, packetId: int, files: seq<string>)
    requires SchemaFolder(home, registry, packetData, protocol, packetId).Ok?
    ensures var sorted := SortNames(files);
            var numbers := FileNumbers(sorted);
            var folder := SchemaFolder(home, registry, packetData, protocol, packetId).value;
            var r := PslPathAsWritten(home, registry, packetData, protocol, packetId, files);
            SortedNames(sorted) && multiset(sorted) == multiset(files) &&
            ((forall j :: 0 <= j < |numbers| ==> Above(numbers, protocol.version, j)) ==> r == Ok(folder)) &&
            (r.Ok? && r.value != folder ==>
               exists k :: 0 <= k < |numbers| && numbers[k].Ok? && numbers[k].value <= protocol.version &&
                 r.value == folder + Decimal.IntText(numbers[k].value) + ".psl" &&
                 forall j :: k < j < |numbers| ==> Above(numbers, protocol.version, j))
  {
    var numbers := FileNumbers(SortNames(files));
    PickDownPicks(numbers, protocol.version, |files|);
  }

  /** The newest schema at or before the version: the greatest number at most the
      version, whatever the order of the names. Every name must be a number; the first
      that is not gives the error. */
  function NewestUpTo(numbers: seq<Result<Int32>>, version: int): (r: Result<Option<Int32>>)
    ensures r.Ok? <==> forall j :: 0 <= j < |numbers| ==> numbers[j].Ok?
    ensures r.Ok? && r.value.Some? ==>
              r.value.value <= version && exists k :: 0 <= k < |numbers| && numbers[k] == Ok(r.value.value)
    ensures r.Ok? ==> forall j :: 0 <= j < |numbers| && numbers[j].value <= version ==>
                        r.value.Some? && numbers[j].value <= r.value.value
    ensures r.Err? ==> exists k :: 0 <= k < |numbers| && numbers[k] == Err(r.error)
  {
    if numbers == [] then Ok(None)
    else
      assert forall j :: 1 <= j < |numbers| ==> numbers[j] == numbers[1..][j - 1];
      if numbers[0].Err? then Err(numbers[0].error)
      else
        var id := numbers[0].value;
        var rest :- NewestUpTo(numbers[1..], version);
        if id <= version && (rest.None? || rest.value < id) then Ok(Some(id)) else Ok(rest)
  }

  /** The schema path as evidently intended: the folder, then the newest schema file at
      or before the protocol's version. */
  function PslPath(home: string, registry: seq<Protocol>, packetData: seq<PacketMetaData>,
                   protocol: Protocol, packetId: int, files: seq<string>): (r: Result<string>)
    ensures var folder := SchemaFolder(home, registry, packetData, protocol, packetId);
            var newest := NewestUpTo(FileNumbers(files), protocol.version);
            (r.Ok? <==> folder.Ok? && newest.Ok?) &&
            (r.Ok? && newest.value.None? ==> r.value == folder.value) &&
            (r.Ok? && newest.value.Some? ==> r.value == folder.value + Decimal.IntText(newest.value.value) + ".psl")
  {
    var folder :- SchemaFolder(home, registry, packetData, protocol, packetId);
    var id :- NewestUpTo(FileNumbers(files), protocol.version);
    Ok(if id.Some? then folder + Decimal.IntText(id.value) + ".psl" else folder)
  }

  /** Sorting as strings puts "340.psl" before "47.psl": for the files 47, 340 and 498
      and version 400 the loop settles on 47, where the newest schema at or before 400
      is 340. */
  lemma StringOrderPicksOlderSchema()
    ensures PickDown(FileNumbers(SortNames(["47.psl", "340.psl", "498.psl"])), 400, 3) == Ok(Some(47))
    ensures NewestUpTo(FileNumbers(["47.psl", "340.psl", "498.psl"]), 400) == Ok(Some(340))
  {
    var a, b, c := "47.psl", "340.psl", "498.psl";
    SortExample(a, b, c);
    FileNameExample(a, 47);
    FileNameExample(b, 340);
    FileNameExample(c, 498);
    PicksOlder(a, b, c);
  }

  /** The example above for any three names with those numbers. */
  lemma PicksOlder(a: string, b: string, c: string)
    requires FileNumber(a) == Ok(47) && FileNumber(b) == Ok(340) && FileNumber(c) == Ok(498)
    ensures PickDown(FileNumbers([b, a, c]), 400, 3) == Ok(Some(47))
    ensures NewestUpTo(FileNumbers([a, b, c]), 400) == Ok(Some(340))
  {
    assert FileNumbers([b, a, c]) == [Ok(340), Ok(47), Ok(498)];
    assert FileNumbers([a, b, c]) == [Ok(47), Ok(340), Ok(498)];
    assert PickDown([Ok(340), Ok(47), Ok(498)], 400, 3) == Ok(Some(47));
    assert NewestUpTo([Ok(47), Ok(340), Ok(498)], 400) == Ok(Some(340));
  }

  /** A schema file named after a non-negative number gives that number back. */
  lemma FileNumberRoundTrip(n: Int32)
    requires n >= 0
    ensures FileNumber(Decimal.IntText(n) + ".psl") == Ok(n)
  {
    var stem := Decimal.IntText(n);
    assert Decimal.AllDigits(stem);
    assert forall i :: 0 <= i < |stem| ==> stem[i] != '.' by {
      forall i | 0 <= i < |stem| ensures stem[i] != '.' {
        assert Decimal.IsDigit(stem[i]);
      }
    }
    RemovePslSuffix(stem);
    Decimal.ParseIntText(n);
  }

  lemma FileNameExample(name: string, n: Int32)
    requires (name == "47.psl" && n == 47) || (name == "340.psl" && n == 340) || (name == "498.psl" && n == 498)
    ensures FileNumber(name) == Ok(n)
  {
    if n == 47 {
      assert Decimal.Digits(47) == Decimal.Digits(4) + ['7'];
    } else if n == 340 {
      assert Decimal.Digits(34) == Decimal.Digits(3) + ['4'];
      assert Decimal.Digits(340) == Decimal.Digits(34) + ['0'];
    } else {
      assert Decimal.Digits(49) == Decimal.Digits(4) + ['9'];
      assert Decimal.Digits(498) == Decimal.Digits(49) + ['8'];
    }
    assert name == Decimal.IntText(n) + ".psl";
    FileNumberRoundTrip(n);
  }

  lemma InsertFront(x: string, s: seq<string>)
    requires SortedNames(s) && s != [] && LexLeq(x, s[0])
    ensures Insert(x, s) == [x] + s
  {
  }

  lemma InsertPast(x: string, s: seq<string>)
    requires SortedNames(s) && s != [] && !LexLeq(x, s[0])
    ensures Insert(x, s) == [s[0]] + Insert(x, s[1..])
  {
  }

  lemma SortExample(a: string, b: string, c: string)
    requires a == "47.psl" && b == "340.psl" && c == "498.psl"
    ensures SortNames([a, b, c]) == [b, a, c]
  {
    assert LexLeq(b, c) && !LexLeq(a, b);
    assert LexLeq(a, c) by { assert LexLeq(a[1..], c[1..]); }
    SortThree(a, b, c);
  }

  /** Three names where the second sorts first and the third last. */
  lemma SortThree(a: string, b: string, c: string)
    requires LexLeq(b, c) && !LexLeq(a, b) && LexLeq(a, c)
    ensures SortNames([a, b, c]) == [b, a, c]
  {
    var bc, c1 := [b, c], [c];
    assert [a, b, c] == [a] + bc && bc[1..] == c1;
    SortTwo(b, c);
    SortCons(a, bc);
    InsertPast(a, bc);
    InsertFront(a, c1);
    assert [b] + [a, c] == [b, a, c];
  }

  lemma SortCons(x: string, s: seq<string>)
    ensures SortNames([x] + s) == Insert(x, SortNames(s))
  {
    assert ([x] + s)[1..] == s;
  }

  /** Two names already in order stay in order. */
  lemma SortTwo(b: string, c: string)
    requires LexLeq(b, c)
    ensures SortNames([b, c]) == [b, c]
  {
    assert [b, c][1..] == [c];
    assert SortNames([c]) == [c];
    InsertFront(b, [c]);
  }


}
