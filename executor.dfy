/** TaskExecutor: rewrites the `recording.tmcpr` stream of a replay. Every record is a
    timestamp, a size and a packet id followed by the packet's bytes. A record no task
    accepts is copied through; a record some task accepts is decoded once, queued once
    per accepting task, edited by the tasks and written back from the queue. */
module Executor {
  import opened Base
  import opened Wire
  import opened Protocols
  import opened Registry
  import opened Tasks
  import opened Reader
  import opened Writer
  import opened VarNums
  import Packets
  import Rules
  import Entries
  import Deserialization
  import Serialization
  import WeatherChanger
  import TimeChanger
  import UsernameChanger
  import SkinChanger

  // ---------------------------------------------------------------- task order

  /** The comparator handed to `Collections.sort`, `o2.getPriority() - o1.getPriority()`,
      as written: the difference of two ints wraps around. */
  function CompareAsWritten(p1: Int32, p2: Int32): (c: Int32)
  {
    S32(p2 - p1)
  }

  /** The wrap-around makes the comparator cyclic: it puts priority 1 before 0, 0 before
      the smallest int, and the smallest int before 1, so no order satisfies it. */
  lemma CompareAsWrittenCycles()
    ensures CompareAsWritten(1, 0) < 0 && CompareAsWritten(0, -0x8000_0000) < 0
    ensures CompareAsWritten(-0x8000_0000, 1) < 0
  {
  }

  /** The intended comparator, `Integer.compare(o2.getPriority(), o1.getPriority())`:
      negative exactly when the first task has the higher priority. */
  function ComparePriority(p1: Int32, p2: Int32): (c: int)
    ensures c < 0 <==> p1 > p2
    ensures c == 0 <==> p1 == p2
    ensures c > 0 <==> p1 < p2
  {
    if p1 > p2 then -1 else if p1 == p2 then 0 else 1
  }

  /** The comparator is an order: antisymmetric and transitive, as `Collections.sort`
      requires of it. */
  lemma ComparePriorityIsOrder(a: Int32, b: Int32, c: Int32)
    ensures ComparePriority(a, b) == -ComparePriority(b, a)
    ensures ComparePriority(a, b) <= 0 && ComparePriority(b, c) <= 0 ==> ComparePriority(a, c) <= 0
  {
  }

  /** A task as TaskExecutor holds it: one of the four task classes, each with its
      AbstractTask part. */
  datatype Runner =
    | Weather(weather: WeatherChanger.WeatherChangerTask)
    | Time(time: TimeChanger.TimeChangerTask)
    | Username(username: UsernameChanger.UsernameChangerTask)
    | Skin(skin: SkinChanger.SkinChangerTask)
  {
    function Task(): AbstractTask
    {
      match this
      case Weather(t) => t.task
      case Time(t) => t.task
      case Username(t) => t.task
      case Skin(t) => t.task
    }

    function Priority(): Int32
    {
      Task().priority
    }

    /** The task object whose fields its own `execute` changes. */
    function State(): set<object>
    {
      if Skin? then {skin} else {}
    }
  }

  predicate Descending(ts: seq<Runner>)
  {
    forall i, j :: 0 <= i < j < |ts| ==> ts[i].Priority() >= ts[j].Priority()
  }

  /** One step of a stable sort: `t` goes after every task it does not precede. */
  function InsertByPriority(t: Runner, ts: seq<Runner>): (r: seq<Runner>)
    ensures multiset(r) == multiset(ts) + multiset{t}
  {
    if ts == [] then [t]
    else if ComparePriority(ts[0].Priority(), t.Priority()) <= 0 then
      assert ts == [ts[0]] + ts[1..];
      [ts[0]] + InsertByPriority(t, ts[1..])
    else [t] + ts
  }

  /** Inserting keeps every priority under a bound that `t` and `ts` are under. */
  lemma {:induction false} InsertBelow(t: Runner, ts: seq<Runner>, bound: int)
    requires t.Priority() <= bound
    requires forall i :: 0 <= i < |ts| ==> ts[i].Priority() <= bound
    ensures forall i :: 0 <= i < |InsertByPriority(t, ts)| ==> InsertByPriority(t, ts)[i].Priority() <= bound
  {
    if ts != [] && ComparePriority(ts[0].Priority(), t.Priority()) <= 0 {
      InsertBelow(t, ts[1..], bound);
    }
  }

  lemma {:induction false} InsertKeepsDescending(t: Runner, ts: seq<Runner>)
    requires Descending(ts)
    ensures Descending(InsertByPriority(t, ts))
  {
    if ts != [] && ComparePriority(ts[0].Priority(), t.Priority()) <= 0 {
      var rest := ts[1..];
      assert Descending(rest);
      InsertKeepsDescending(t, rest);
      InsertBelow(t, rest, ts[0].Priority());
      var r := InsertByPriority(t, rest);
      var all := [ts[0]] + r;
      assert InsertByPriority(t, ts) == all;
      forall i, j | 0 <= i < j < |all| ensures all[i].Priority() >= all[j].Priority() {
        assert all[j] == r[j - 1];
        if i > 0 {
          assert all[i] == r[i - 1];
        }
      }
    }
  }

  /** `Collections.sort(tasks, comparator)` with the intended comparator: the tasks by
      descending priority, the same tasks as before. */
  function SortByPriority(ts: seq<Runner>): (r: seq<Runner>)
    ensures Descending(r)
    ensures multiset(r) == multiset(ts)
  {
    if ts == [] then []
    else
      var sorted := SortByPriority(ts[..|ts| - 1]);
      InsertKeepsDescending(ts[|ts| - 1], sorted);
      assert ts == ts[..|ts| - 1] + [ts[|ts| - 1]];
      InsertByPriority(ts[|ts| - 1], sorted)
  }

  /** The tasks of priority `p`, in their order. */
  function WithPriority(ts: seq<Runner>, p: int): seq<Runner>
  {
    if ts == [] then []
    else WithPriority(ts[..|ts| - 1], p) + (if ts[|ts| - 1].Priority() == p then [ts[|ts| - 1]] else [])
  }

  lemma {:induction false} WithPriorityAppend(xs: seq<Runner>, ys: seq<Runner>, p: int)
    ensures WithPriority(xs + ys, p) == WithPriority(xs, p) + WithPriority(ys, p)
    decreases |ys|
  {
    if ys == [] {
      assert xs + ys == xs;
    } else {
      var n := |ys| - 1;
      assert (xs + ys)[..|xs + ys| - 1] == xs + ys[..n];
      WithPriorityAppend(xs, ys[..n], p);
    }
  }

  lemma {:induction false} NoneWithPriority(ts: seq<Runner>, p: int)
    requires forall i :: 0 <= i < |ts| ==> ts[i].Priority() != p
    ensures WithPriority(ts, p) == []
  {
    if ts != [] {
      NoneWithPriority(ts[..|ts| - 1], p);
    }
  }

  /** Inserting into a descending list puts `t` after every task of its priority. */
  lemma {:induction false} InsertStable(t: Runner, ts: seq<Runner>, p: int)
    requires Descending(ts)
    ensures WithPriority(InsertByPriority(t, ts), p) ==
            WithPriority(ts, p) + (if t.Priority() == p then [t] else [])
  {
    OneWithPriority(t, p);
    if ts == [] {
      assert InsertByPriority(t, ts) == [t];
    } else if ComparePriority(ts[0].Priority(), t.Priority()) <= 0 {
      DescendingRest(ts);
      var r := InsertByPriority(t, ts[1..]);
      assert InsertByPriority(t, ts) == [ts[0]] + r;
      InsertStable(t, ts[1..], p);
      KeptBehindHead(ts, r, p, if t.Priority() == p then [t] else []);
    } else {
      InsertedInFront(t, ts, p);
    }
  }

  /** A head kept in front of a tail whose priority-`p` tasks gained `own` at the end. */
  lemma KeptBehindHead(ts: seq<Runner>, r: seq<Runner>, p: int, own: seq<Runner>)
    requires ts != [] && WithPriority(r, p) == WithPriority(ts[1..], p) + own
    ensures WithPriority([ts[0]] + r, p) == WithPriority(ts, p) + own
  {
    var head, rest := [ts[0]], ts[1..];
    WithPriorityAppend(head, r, p);
    assert head + rest == ts;
    WithPriorityAppend(head, rest, p);
    calc {
      WithPriority(head + r, p);
      WithPriority(head, p) + WithPriority(r, p);
      WithPriority(head, p) + (WithPriority(rest, p) + own);
      (WithPriority(head, p) + WithPriority(rest, p)) + own;
      WithPriority(ts, p) + own;
    }
  }

  /** A task placed before a descending list whose head it outranks comes after every
      task of its priority, since there is none. */
  lemma InsertedInFront(t: Runner, ts: seq<Runner>, p: int)
    requires ts != [] && Descending(ts) && ComparePriority(ts[0].Priority(), t.Priority()) > 0
    ensures WithPriority(InsertByPriority(t, ts), p) ==
            WithPriority(ts, p) + (if t.Priority() == p then [t] else [])
  {
    assert InsertByPriority(t, ts) == [t] + ts;
    WithPriorityAppend([t], ts, p);
    OneWithPriority(t, p);
    if t.Priority() == p {
      BelowHead(ts, p);
    }
  }

  lemma DescendingRest(ts: seq<Runner>)
    requires ts != [] && Descending(ts)
    ensures Descending(ts[1..])
  {
  }

  /** A descending list whose head is below `p` holds no task of priority `p`. */
  lemma BelowHead(ts: seq<Runner>, p: int)
    requires ts != [] && Descending(ts) && ts[0].Priority() < p
    ensures WithPriority(ts, p) == []
  {
    NoneWithPriority(ts, p);
  }

  lemma OneWithPriority(t: Runner, p: int)
    ensures WithPriority([t], p) == if t.Priority() == p then [t] else []
  {
    assert [t][..0] == [];
  }

  /** The sort is stable: the tasks of any one priority keep their order, as
      `Collections.sort` promises. */
  lemma {:induction false} SortStable(ts: seq<Runner>, p: int)
    ensures WithPriority(SortByPriority(ts), p) == WithPriority(ts, p)
  {
    if ts != [] {
      var n := |ts| - 1;
      SortStable(ts[..n], p);
      InsertStable(ts[n], SortByPriority(ts[..n]), p);
    }
  }

  /** Where two tasks of priority `p` sit among the tasks of that priority. */
  lemma PositionsIn(ts: seq<Runner>, p: int, i: nat, j: nat) returns (a: nat, b: nat)
    requires i < j < |ts| && ts[i].Priority() == p && ts[j].Priority() == p
    ensures a < b < |WithPriority(ts, p)|
    ensures WithPriority(ts, p)[a] == ts[i] && WithPriority(ts, p)[b] == ts[j]
  {
    var front, middle, back := ts[..i], ts[i + 1..j], ts[j + 1..];
    assert ts == front + [ts[i]] + middle + [ts[j]] + back;
    assert WithPriority([ts[i]], p) == [ts[i]] by {
      assert [ts[i]][..0] == [];
    }
    assert WithPriority([ts[j]], p) == [ts[j]] by {
      assert [ts[j]][..0] == [];
    }
    WithPriorityAppend(front + [ts[i]] + middle + [ts[j]], back, p);
    WithPriorityAppend(front + [ts[i]] + middle, [ts[j]], p);
    WithPriorityAppend(front + [ts[i]], middle, p);
    WithPriorityAppend(front, [ts[i]], p);
    a := |WithPriority(front, p)|;
    b := a + 1 + |WithPriority(middle, p)|;
  }

  /** Stability by position: two tasks of equal priority, the first before the
      second, keep that order. */
  lemma SortKeepsOrder(ts: seq<Runner>, i: nat, j: nat)
    requires i < j < |ts| && ts[i].Priority() == ts[j].Priority()
    ensures var p := ts[i].Priority();
            var w := WithPriority(ts, p);
            exists a, b :: 0 <= a < b < |w| && w[a] == ts[i] && w[b] == ts[j] &&
                           WithPriority(SortByPriority(ts), p) == w
  {
    var p := ts[i].Priority();
    SortStable(ts, p);
    var a, b := PositionsIn(ts, p, i, j);
  }

  // ---------------------------------------------------------------- records

  /** The first record, which the loop copies without looking at it. */
  datatype Opening = Opening(timestamp: Int32, size: Int32, bytes: seq<Byte>)

  /** A record as the loop reads it when no task accepts it: the payload is what is
      left of `size` once the id's varint length is taken off. */
  datatype Record = Record(timestamp: Int32, size: Int32, id: Int32, payload: seq<Byte>)

  function ParseOpening(s: seq<Byte>, p: nat): (r: Result<Parsed<Opening>>)
    ensures r.Ok? ==> p + 8 + |r.value.value.bytes| == r.value.next <= |s|
  {
    var timestamp :- ParseInt(s, p);
    var size :- ParseInt(s, timestamp.next);
    var bytes :- ParseBytes(s, size.next, size.value);
    Ok(Parsed(Opening(timestamp.value, size.value, bytes.value), bytes.next))
  }

  function EncodeOpening(o: Opening): seq<Byte>
  {
    IntBytes(o.timestamp) + IntBytes(o.size) + o.bytes
  }

  /** The timestamp, size and id at the head of every other record. */
  function ParseHeader(s: seq<Byte>, p: nat): (r: Result<Parsed<(Int32, Int32, Int32)>>)
    ensures r.Ok? ==> p + 9 <= r.value.next <= p + 13 && r.value.next <= |s|
  {
    var timestamp :- ParseInt(s, p);
    var size :- ParseInt(s, timestamp.next);
    var id :- ParseVarInt(s, size.next);
    Ok(Parsed((timestamp.value, size.value, id.value), id.next))
  }

  /** `packetSize - packetId.size()`: an int subtraction. */
  function PayloadLength(size: Int32, id: Int32): Int32
  {
    S32(size - |VarIntBytes(id)|)
  }

  /** A record copied through: its header, then `PayloadLength` bytes. */
  function ParseRecord(s: seq<Byte>, p: nat): (r: Result<Parsed<Record>>)
    ensures r.Ok? ==> ParseHeader(s, p).Ok? && ParseHeader(s, p).value.next <= r.value.next <= |s|
  {
    var header :- ParseHeader(s, p);
    var (timestamp, size, id) := header.value;
    var payload :- ParseBytes(s, header.next, PayloadLength(size, id));
    Ok(Parsed(Record(timestamp, size, id, payload.value), payload.next))
  }

  /** What the writer emits for a record: writeInt, writeInt, writeVarInt and the
      payload. */
  function EncodeRecord(rec: Record): seq<Byte>
  {
    IntBytes(rec.timestamp) + IntBytes(rec.size) + VarIntBytes(rec.id) + rec.payload
  }

  /** The record the drain writes for a serialized packet: the size field counts the
      id's varint and the data, as an int. */
  function Drained(timestamp: Int32, id: Int32, data: seq<Byte>): Record
  {
    Record(timestamp, S32(|data| + |VarIntBytes(id)|), id, data)
  }

  /** The records the drain writes, one per queued packet, in queue order. */
  function DrainedAll(timestamp: Int32, ids: seq<Int32>, payloads: seq<seq<Byte>>): seq<Byte>
    requires |ids| == |payloads|
  {
    if ids == [] then []
    else EncodeRecord(Drained(timestamp, ids[0], payloads[0])) + DrainedAll(timestamp, ids[1..], payloads[1..])
  }

  /** The first record is copied byte for byte. */
  lemma OpeningVerbatim(s: seq<Byte>, p: nat)
    requires ParseOpening(s, p).Ok?
    ensures EncodeOpening(ParseOpening(s, p).value.value) == s[p..ParseOpening(s, p).value.next]
  {
    var o := ParseOpening(s, p).value;
    IntVerbatim(s, p);
    IntVerbatim(s, p + 4);
    assert s[p..o.next] == s[p..p + 4] + s[p + 4..p + 8] + s[p + 8..o.next];
  }

  /** A record no task accepts is copied byte for byte, provided its id was written
      in the shortest varint form (as writeVarInt always writes it). */
  lemma RecordVerbatim(s: seq<Byte>, p: nat)
    requires ParseRecord(s, p).Ok?
    requires s[p + 8..ParseHeader(s, p).value.next] == VarIntBytes(ParseRecord(s, p).value.value.id)
    ensures EncodeRecord(ParseRecord(s, p).value.value) == s[p..ParseRecord(s, p).value.next]
  {
    var h := ParseHeader(s, p).value;
    var rec := ParseRecord(s, p).value;
    IntVerbatim(s, p);
    IntVerbatim(s, p + 4);
    assert IntBytes(rec.value.timestamp) + IntBytes(rec.value.size) == s[p..p + 4] + s[p + 4..p + 8];
    SliceSplit(s, p, p + 4, p + 8);
    SliceSplit(s, p, p + 8, h.next);
    SliceSplit(s, p, h.next, rec.next);
  }

  /** Every record from `p` on that the copy-through path can read has its id in the
      shortest varint form. */
  ghost predicate CanonicalFrom(s: seq<Byte>, p: nat)
    decreases |s| - p
  {
    p < |s| ==>
      match ParseRecord(s, p)
      case Err(_) => true
      case Ok(rec) =>
        s[p + 8..ParseHeader(s, p).value.next] == VarIntBytes(rec.value.id) && CanonicalFrom(s, rec.next)
  }

  /** One record copied through extends a verbatim prefix of the input by that record. */
  lemma CopiedVerbatim(s: seq<Byte>, p: nat, written: seq<Byte>, after: seq<Byte>)
    requires p < |s| && CanonicalFrom(s, p) && ParseRecord(s, p).Ok?
    requires written == s[..p] && after == written + EncodeRecord(ParseRecord(s, p).value.value)
    ensures after == s[..ParseRecord(s, p).value.next] && CanonicalFrom(s, ParseRecord(s, p).value.next)
  {
    var next := ParseRecord(s, p).value.next;
    RecordVerbatim(s, p);
    SliceSplit(s, 0, p, next);
  }

  /** No task took any of the records. */
  predicate Untouched(traces: seq<Trace>)
  {
    forall k :: 0 <= k < |traces| ==> traces[k].copies == 0
  }

  lemma UntouchedSnoc(traces: seq<Trace>, t: Trace)
    ensures Untouched(traces + [t]) <==> Untouched(traces) && t.copies == 0
  {
    assert forall k :: 0 <= k < |traces| ==> (traces + [t])[k] == traces[k];
    assert (traces + [t])[|traces|] == t;
  }

  /** Record `k` was read into `packets[k]`, of the replay's protocol, and `traces[k]`
      says which tasks took it and how many copies were queued. */
  predicate Traced(registry: seq<Protocol>, ts: seq<Runner>, version: Protocol,
                   packets: seq<Packets.Packet?>, traces: seq<Trace>)
  {
    |packets| == |traces| &&
    forall k :: 0 <= k < |traces| ==>
      packets[k] != null && packets[k].protocol == version &&
      traces[k].accepted == Wanted(registry, ts, packets[k]) && traces[k].copies == Count(traces[k].accepted)
  }

  lemma TracedSnoc(registry: seq<Protocol>, ts: seq<Runner>, version: Protocol,
                   packets: seq<Packets.Packet?>, traces: seq<Trace>, packet: Packets.Packet?, trace: Trace)
    requires Traced(registry, ts, version, packets, traces)
    requires packet != null && packet.protocol == version && trace.accepted == Wanted(registry, ts, packet) &&
             trace.copies == Count(trace.accepted)
    ensures Traced(registry, ts, version, packets + [packet], traces + [trace])
  {
    assert forall k :: 0 <= k < |traces| ==> (traces + [trace])[k] == traces[k] && (packets + [packet])[k] == packets[k];
  }

  /** A record the drain writes is read back by the copy-through path: same timestamp,
      id and payload, as long as the size fits in an int. */
  lemma DrainedReadsBack(s: seq<Byte>, p: nat, timestamp: Int32, id: Int32, data: seq<Byte>)
    requires |data| + |VarIntBytes(id)| < TWO_31
    requires At(s, p, EncodeRecord(Drained(timestamp, id, data)))
    ensures ParseRecord(s, p) ==
            Ok(Parsed(Drained(timestamp, id, data), p + |EncodeRecord(Drained(timestamp, id, data))|))
  {
    var rec := Drained(timestamp, id, data);
    var n := |VarIntBytes(id)|;
    var head := IntBytes(timestamp) + IntBytes(rec.size) + VarIntBytes(id);
    AtSplit(s, p, head, data);
    HeaderReadsBack(s, p, timestamp, rec.size, id);
    SizeFits(id, data);
    BytesRoundTrip(s, p + |head|, data);
  }

  lemma SizeFits(id: Int32, data: seq<Byte>)
    requires |data| + |VarIntBytes(id)| < TWO_31
    ensures Drained(0, id, data).size == |data| + |VarIntBytes(id)|
    ensures PayloadLength(Drained(0, id, data).size, id) == |data|
  {
  }

  lemma HeaderReadsBack(s: seq<Byte>, p: nat, timestamp: Int32, size: Int32, id: Int32)
    requires At(s, p, IntBytes(timestamp) + IntBytes(size) + VarIntBytes(id))
    ensures ParseHeader(s, p) == Ok(Parsed((timestamp, size, id), p + 8 + |VarIntBytes(id)|))
  {
    AtSplit3(s, p, IntBytes(timestamp), IntBytes(size), VarIntBytes(id));
    IntRoundTrip(s, p, timestamp);
    IntRoundTrip(s, p + 4, size);
    VarIntRoundTrip(s, p + 8, id);
  }

  /** The records the drain writes after `ids`/`payloads`, followed by one more. */
  lemma {:induction false} DrainedAllSnoc(timestamp: Int32, ids: seq<Int32>, payloads: seq<seq<Byte>>,
                                          id: Int32, payload: seq<Byte>)
    requires |ids| == |payloads|
    ensures DrainedAll(timestamp, ids + [id], payloads + [payload]) ==
            DrainedAll(timestamp, ids, payloads) + EncodeRecord(Drained(timestamp, id, payload))
    decreases |ids|
  {
    if ids != [] {
      assert (ids + [id])[1..] == ids[1..] + [id];
      assert (payloads + [payload])[1..] == payloads[1..] + [payload];
      DrainedAllSnoc(timestamp, ids[1..], payloads[1..], id, payload);
    }
  }

  /** The four writes that put a record on the output: writeInt, writeInt, writeVarInt
      and writeByteArray. */
  method WriteRecord(out: DataWriter, rec: Record)
    requires out.Valid()
    modifies out, out.buffer
    ensures out.Valid() && out.Written() == old(out.Written()) + EncodeRecord(rec)
  {
    ghost var before := out.Written();
    out.WriteInt(rec.timestamp);
    out.WriteInt(rec.size);
    ConcatAssoc(before, IntBytes(rec.timestamp), IntBytes(rec.size));
    ghost var fields := IntBytes(rec.timestamp) + IntBytes(rec.size);
    out.WriteVarInt(rec.id);
    ConcatAssoc(before, fields, VarIntBytes(rec.id));
    fields := fields + VarIntBytes(rec.id);
    out.WriteByteArray(rec.payload);
    ConcatAssoc(before, fields, rec.payload);
  }

  /** The first record, copied as read: readInt then writeInt, readInt then writeInt,
      then readFollowingBytes of the read size. A failed read ends the copy. */
  method CopyOpening(reader: DataReader, out: DataWriter) returns (r: Result<()>)
    requires reader.Valid() && out.Valid()
    modifies reader, out, out.buffer
    ensures reader.Valid() && out.Valid()
    ensures var spec := ParseOpening(reader.data, old(reader.pos));
            (spec.Ok? ==> r.Ok? && reader.pos == spec.value.next &&
                          out.Written() == old(out.Written()) + EncodeOpening(spec.value.value)) &&
            (spec.Err? ==> r == Err(spec.error))
  {
    ghost var before := out.Written();
    var timestamp :- reader.ReadInt();
    out.WriteInt(timestamp);
    var size :- reader.ReadInt();
    out.WriteInt(size);
    ConcatAssoc(before, IntBytes(timestamp), IntBytes(size));
    var bytes :- reader.ReadFollowingBytes(size);
    out.WriteByteArray(bytes);
    ConcatAssoc(before, IntBytes(timestamp) + IntBytes(size), bytes);
    r := Ok(());
  }

  /** readInt, readInt, readVarInt: the timestamp, the size and the id of a record. */
  method ReadHeader(reader: DataReader) returns (r: Result<(Int32, Int32, Int32)>)
    requires reader.Valid()
    modifies reader
    ensures reader.Valid()
    ensures var spec := ParseHeader(reader.data, old(reader.pos));
            (spec.Ok? ==> r == Ok(spec.value.value) && reader.pos == spec.value.next) &&
            (spec.Err? ==> r == Err(spec.error))
  {
    var timestamp :- reader.ReadInt();
    var size :- reader.ReadInt();
    var id :- reader.ReadVarInt();
    return Ok((timestamp, size, id));
  }

  /** A record no task took: its header is written back as read, then its payload,
      `packetSize - packetId.size()` bytes, is read and written. */
  method CopyThrough(timestamp: Int32, size: Int32, id: Int32, reader: DataReader, out: DataWriter)
    returns (r: Result<()>)
    requires reader.Valid() && out.Valid()
    modifies reader, out, out.buffer
    ensures reader.Valid() && out.Valid()
    ensures var spec := ParseBytes(reader.data, old(reader.pos), PayloadLength(size, id));
            (spec.Ok? ==> r.Ok? && reader.pos == spec.value.next &&
                          out.Written() == old(out.Written()) + EncodeRecord(Record(timestamp, size, id, spec.value.value))) &&
            (spec.Err? ==> r == Err(spec.error))
  {
    ghost var before := out.Written();
    ghost var fields := IntBytes(timestamp) + IntBytes(size) + VarIntBytes(id);
    out.WriteInt(timestamp);
    out.WriteInt(size);
    ConcatAssoc(before, IntBytes(timestamp), IntBytes(size));
    out.WriteVarInt(id);
    ConcatAssoc(before, IntBytes(timestamp) + IntBytes(size), VarIntBytes(id));
    ghost var head := out.Written();
    assert head == before + fields;
    var payload :- reader.ReadFollowingBytes(S32(size - |VarIntBytes(id)|));
    out.WriteByteArray(payload);
    ConcatAssoc(before, fields, payload);
    r := Ok(());
  }

  // ---------------------------------------------------------------- definition cache

  /** `PacketDefinitionFactory.createPacketDefinition(version, id)`: it reads the
      packet's schema, so it is a parameter; an IOException is an error. */
  type Factory = (Protocol, Int32) -> Result<Rules.PacketDefinition>

  /** The result of a lookup in the definition cache, and the cache after it. */
  datatype Lookup = Lookup(definition: Result<Rules.PacketDefinition>, cache: map<Int32, Rules.PacketDefinition>)

  /** getPacketDefinition: build and put the definition when the id is missing, then
      get it; a failing build puts nothing. */
  function CachedDefinition(cache: map<Int32, Rules.PacketDefinition>, version: Protocol, id: Int32,
                            factory: Factory): (l: Lookup)
    ensures id in cache ==> l == Lookup(Ok(cache[id]), cache)
    ensures l.definition.Ok? ==> id in l.cache && l.cache[id] == l.definition.value
    ensures l.cache.Keys == cache.Keys + (if l.definition.Ok? then {id} else {})
    ensures forall k :: k in cache ==> k in l.cache && l.cache[k] == cache[k]
  {
    if id in cache then Lookup(Ok(cache[id]), cache)
    else
      match factory(version, id)
      case Ok(d) => Lookup(Ok(d), cache[id := d])
      case Err(e) => Lookup(Err(e), cache)
  }

  /** Every cached definition is the one the factory builds for that id and version:
      true of the cache cleared at the start of a replay, whose packets all have the
      replay's version. */
  predicate Agrees(cache: map<Int32, Rules.PacketDefinition>, version: Protocol, factory: Factory)
  {
    forall id :: id in cache ==> factory(version, id) == Ok(cache[id])
  }

  /** A cache that agrees with the factory is invisible: a lookup answers what the
      factory would, and the cache still agrees afterwards. */
  lemma LookupIsFactory(cache: map<Int32, Rules.PacketDefinition>, version: Protocol, id: Int32, factory: Factory)
    requires Agrees(cache, version, factory)
    ensures CachedDefinition(cache, version, id, factory).definition == factory(version, id)
    ensures Agrees(CachedDefinition(cache, version, id, factory).cache, version, factory)
  {
  }

  /** A definition is built at most once: a second lookup of the same id is a hit that
      returns the same definition and leaves the cache as it is. */
  lemma LookupTwice(cache: map<Int32, Rules.PacketDefinition>, version: Protocol, id: Int32, factory: Factory)
    requires CachedDefinition(cache, version, id, factory).definition.Ok?
    ensures var l := CachedDefinition(cache, version, id, factory);
            CachedDefinition(l.cache, version, id, factory) == l
  {
  }

  /** The cache is keyed by id alone: one filled for another version answers with that
      version's definition, which is why each replay starts from an empty cache. */
  lemma StaleCacheAnswersOldVersion(cache: map<Int32, Rules.PacketDefinition>, older: Protocol, newer: Protocol,
                                    id: Int32, factory: Factory)
    requires Agrees(cache, older, factory) && id in cache
    requires factory(older, id) != factory(newer, id)
    ensures CachedDefinition(cache, newer, id, factory).definition != factory(newer, id)
  {
  }

  // ---------------------------------------------------------------- the executor

  /** What the tasks need besides the packet and the queue: the protocol registry and
      the packet list the application loads, and the Mojang profile lookup. */
  datatype Context = Context(registry: seq<Protocol>, packetData: seq<PacketMetaData>,
                             mojang: string -> Option<SkinChanger.SkinData>)

  /** The skin tasks among `ts`: the only task objects an `execute` changes. */
  function SkinTasks(ts: seq<Runner>): (r: set<SkinChanger.SkinChangerTask>)
    ensures forall i :: 0 <= i < |ts| ==> ts[i].State() <= r
  {
    set i | 0 <= i < |ts| && ts[i].Skin? :: ts[i].skin
  }

  /** `packets.add(packet.clone())`, then `task.execute(packet, packets)`. */
  method QueueAndRun(runner: Runner, ctx: Context, packet: Packets.Packet, queue: PacketQueue)
    returns (r: Result<()>, ghost copy: Packets.Packet, ghost queued: seq<Packets.Packet>)
    requires packet.data.data == []
    modifies queue, packet.entries, runner.State()
    ensures packet.entries == old(packet.entries)
    ensures fresh(copy) && queued != [] && Newest(queued) == copy
    ensures copy.packetId == packet.packetId && copy.entries == packet.entries
  {
    var clone := packet.Clone();
    queue.Add(clone);
    copy, queued := clone, queue.items;
    r := RunTask(runner, ctx, packet, queue);
  }

  /** `task.execute(packet, packets)`, dispatched on the task's class. A packet read
      from the replay has an empty data block (decoding fills its entry list), so the
      skin task, which reads the data block, finds no player list. */
  method RunTask(runner: Runner, ctx: Context, packet: Packets.Packet, queue: PacketQueue) returns (r: Result<()>)
    requires packet.data.data == []
    modifies queue, packet.entries, runner.State()
    ensures packet.entries == old(packet.entries)
    ensures !runner.Weather? ==> queue.items == old(queue.items)
  {
    match runner
    case Weather(t) =>
      r := t.Execute(ctx.registry, ctx.packetData, packet, queue);
    case Time(t) =>
      r := t.Execute(packet);
    case Username(t) =>
      r := t.Execute(packet);
    case Skin(t) =>
      var legacy := !IsAfterInclusive(packet.protocol, MC_1_19_3);
      assert SkinChanger.ArrayField(packet.data, SkinChanger.PlayersKey(legacy)).Err?;
      assert SkinChanger.PacketFootprint(packet.data, legacy, t.targetUsername) == {};
      r := t.Execute(packet, ctx.mojang);
  }

  /** Whether each task's acceptors accept the packet, task by task. */
  function Wanted(registry: seq<Protocol>, ts: seq<Runner>, packet: Packets.Packet): (r: seq<bool>)
    ensures |r| == |ts|
  {
    if ts == [] then []
    else Wanted(registry, ts[..|ts| - 1], packet) + [AcceptsAny(registry, ts[|ts| - 1].Task().acceptors, packet) == Ok(true)]
  }

  /** Task `j` is wanted exactly when one of its acceptors accepts the packet before
      any of them fails. */
  lemma {:induction false} WantedMeans(registry: seq<Protocol>, ts: seq<Runner>, packet: Packets.Packet, j: nat)
    requires j < |ts|
    ensures Wanted(registry, ts, packet)[j] <==> AcceptsAny(registry, ts[j].Task().acceptors, packet) == Ok(true)
    decreases |ts|
  {
    if j < |ts| - 1 {
      WantedMeans(registry, ts[..|ts| - 1], packet, j);
      assert ts[..|ts| - 1][j] == ts[j];
    }
  }

  /** Growing a prefix by the next element. */
  lemma PrefixSnoc(w: seq<bool>, i: nat)
    requires i < |w|
    ensures w[..i] + [w[i]] == w[..i + 1]
  {
  }

  /** What happened to one packet among the tasks: which tasks accepted it, how
      often it was decoded, the entries decoding produced, and how many copies were
      queued. */
  datatype Trace = Trace(accepted: seq<bool>, decodes: nat, decoded: seq<Entries.Entry>, copies: nat)

  /** How many of the answers are yes. */
  function Count(bs: seq<bool>): (n: nat)
    ensures n <= |bs|
    ensures n == 0 <==> true !in bs
  {
    if bs == [] then 0 else (if bs[|bs| - 1] then 1 else 0) + Count(bs[..|bs| - 1])
  }

  /** One more answer adds one to the count when it is yes. */
  lemma CountSnoc(bs: seq<bool>, b: bool)
    ensures Count(bs + [b]) == Count(bs) + if b then 1 else 0
  {
    assert (bs + [b])[..|bs|] == bs;
  }

  /** The packet at the tail of a queue. */
  function Newest(q: seq<Packets.Packet>): Packets.Packet
    requires q != []
  {
    q[|q| - 1]
  }

  function EntriesOf(p: Packets.Packet): Option<seq<Entries.Entry>>
    reads p, p.entries
  {
    if p.entries == null then None else Some(p.entries.items)
  }

  /** The bytes `serialize` leaves in the serializer's list for `p` under the
      definition the lookup gave, or the exception of the lookup or of the
      serialization. */
  function Encoded(definition: Result<Rules.PacketDefinition>, p: Packets.Packet): Result<seq<Byte>>
    reads p, p.entries, if definition.Ok? then {definition.value.rules} else {}
  {
    var d :- definition;
    Serialization.EncodePacket(d.rules.items, EntriesOf(p))
  }

  /** Record `k` holds the entries `entries[k]` serialized under the rule list
      `schemas[k]`; `entries` has one item per queued packet, the records cover a
      prefix of them. */
  ghost predicate Serializes(entries: seq<Option<seq<Entries.Entry>>>, ids: seq<Int32>, payloads: seq<seq<Byte>>,
                             schemas: seq<seq<Rules.Rule>>)
  {
    |ids| == |payloads| == |schemas| <= |entries| &&
    forall k :: 0 <= k < |ids| ==> Serialization.EncodePacket(schemas[k], entries[k]) == Ok(payloads[k])
  }

  /** What a drain of the whole queue wrote: the entries of every queued packet, and
      for each of them its id, the bytes it serialized to and the rule list used. */
  datatype Batch = Batch(entries: seq<Option<seq<Entries.Entry>>>, ids: seq<Int32>, payloads: seq<seq<Byte>>,
                         schemas: seq<seq<Rules.Rule>>)

  /** Every packet of the batch was serialized. */
  ghost predicate Complete(b: Batch)
  {
    Serializes(b.entries, b.ids, b.payloads, b.schemas) && |b.ids| == |b.entries|
  }

  /** The copy-through path of a record whose header ended at `p`: the payload,
      `PayloadLength(size, id)` bytes, was read up to `pos`, and the output went from
      `w0` to `w` by the record as read. */
  ghost predicate CopiedThrough(s: seq<Byte>, p: nat, pos: nat, timestamp: Int32, size: Int32, id: Int32,
                                w0: seq<Byte>, w: seq<Byte>)
  {
    var payload := ParseBytes(s, p, PayloadLength(size, id));
    payload.Ok? && pos == payload.value.next &&
    w == w0 + EncodeRecord(Record(timestamp, size, id, payload.value.value))
  }

  /** A whole record from `p` read up to `pos` and written back as read. */
  ghost predicate RecordCopied(s: seq<Byte>, p: nat, pos: nat, w0: seq<Byte>, w: seq<Byte>)
  {
    var record := ParseRecord(s, p);
    record.Ok? && pos == record.value.next && w == w0 + EncodeRecord(record.value.value)
  }

  /** The rewrite path of a record whose header ended at `p`: the payload decoded under
      `rules` up to `pos`, giving `decoded`, and the queue drained as `batch` under the
      record's timestamp. */
  ghost predicate Rewritten(s: seq<Byte>, p: nat, pos: nat, stack: Deserialization.Scopes, rules: seq<Rules.Rule>,
                            protocol: Protocol, decoded: seq<Entries.Entry>, timestamp: Int32, batch: Batch,
                            w0: seq<Byte>, w: seq<Byte>)
  {
    Deserialization.DecodeBlock(s, p, stack, rules, protocol) == Ok(Parsed(decoded, pos)) &&
    Complete(batch) && w == w0 + DrainedAll(timestamp, batch.ids, batch.payloads)
  }

  /** A header followed by a copied payload is a copied record. */
  lemma HeaderThenPayload(s: seq<Byte>, p: nat, q: nat, pos: nat, timestamp: Int32, size: Int32, id: Int32,
                          w0: seq<Byte>, w: seq<Byte>)
    requires ParseHeader(s, p) == Ok(Parsed((timestamp, size, id), q))
    requires CopiedThrough(s, q, pos, timestamp, size, id, w0, w)
    ensures RecordCopied(s, p, pos, w0, w) && p < pos
  {
  }

  /** One more packet serialized: the next entries under `schema` gave `payload`. */
  lemma SerializesSnoc(entries: seq<Option<seq<Entries.Entry>>>, ids: seq<Int32>, payloads: seq<seq<Byte>>,
                       schemas: seq<seq<Rules.Rule>>, id: Int32, payload: seq<Byte>, schema: seq<Rules.Rule>)
    requires Serializes(entries, ids, payloads, schemas) && |ids| < |entries|
    requires Serialization.EncodePacket(schema, entries[|ids|]) == Ok(payload)
    ensures Serializes(entries, ids + [id], payloads + [payload], schemas + [schema])
  {
  }

  class TaskExecutor {
    /** The tasks, sorted by the constructor. */
    const tasks: seq<Runner>
    /** The definition cache, keyed by packet id. */
    var packetDefinitions: map<Int32, Rules.PacketDefinition>
    /** The ids the factory built a definition for since the cache was last cleared. */
    ghost var built: seq<Int32>
    /** The task objects an `execute` may change: the skin tasks. */
    ghost const skins: set<SkinChanger.SkinChangerTask>

    /** Each cached definition was built exactly once; `skins` covers every task's
        state. */
    ghost predicate Valid()
      reads this
    {
      (forall i, j :: 0 <= i < j < |built| ==> built[i] != built[j]) &&
      (forall id :: id in packetDefinitions <==> id in built) &&
      (forall i :: 0 <= i < |tasks| ==> tasks[i].State() <= skins)
    }

    /** The constructor sorts the tasks by descending priority. */
    constructor (tasks: seq<Runner>)
      ensures this.tasks == SortByPriority(tasks)
      ensures Descending(this.tasks) && multiset(this.tasks) == multiset(tasks)
      ensures packetDefinitions == map[] && Valid()
    {
      this.tasks := SortByPriority(tasks);
      skins := SkinTasks(SortByPriority(tasks));
      packetDefinitions := map[];
      built := [];
    }

    /** getPacketDefinition. */
    method GetPacketDefinition(version: Protocol, packetId: Int32, factory: Factory)
      returns (r: Result<Rules.PacketDefinition>)
      requires Valid()
      modifies this`packetDefinitions, this`built
      ensures Valid()
      ensures Lookup(r, packetDefinitions) == CachedDefinition(old(packetDefinitions), version, packetId, factory)
      ensures built == old(built) + (if packetId !in old(packetDefinitions) && r.Ok? then [packetId] else [])
    {
      if packetId !in packetDefinitions {
        var d :- factory(version, packetId);
        packetDefinitions := packetDefinitions[packetId := d];
        built := built + [packetId];
      }
      return Ok(packetDefinitions[packetId]);
    }
  
    /** `deserializer.deserialize(getPacketDefinition(version, id), packet)`. */
    method Decode(packet: Packets.Packet, deserializer: Deserialization.PacketDeserializer, factory: Factory)
      returns (r: Result<()>, ghost decoded: seq<Entries.Entry>)
      requires Valid() && Agrees(packetDefinitions, packet.protocol, factory)
      requires deserializer.reader != null && deserializer.reader.Valid()
      modifies this`packetDefinitions, this`built, packet, deserializer, deserializer.reader
      ensures Valid() && Agrees(packetDefinitions, packet.protocol, factory)
      ensures deserializer.reader == old(deserializer.reader) && deserializer.reader.Valid()
      ensures forall id :: id in old(packetDefinitions) ==>
                id in packetDefinitions && packetDefinitions[id] == old(packetDefinitions[id])
      ensures r.Ok? ==>
                packet.entries != null && fresh(packet.entries) &&
                deserializer.variablesStack == old(deserializer.variablesStack) &&
                packet.packetId in packetDefinitions &&
                var definition := packetDefinitions[packet.packetId];
                Deserialization.DecodeBlock(deserializer.reader.data, old(deserializer.reader.pos),
                                            old(deserializer.variablesStack), definition.rules.items,
                                            definition.protocol) ==
                  Ok(Parsed(decoded, deserializer.reader.pos))
    {
      decoded := [];
      var definition :- GetPacketDefinition(packet.protocol, packet.packetId, factory);
      var e := deserializer.Deserialize(definition, packet);
      if e.Some? {
        return Err(e.value), decoded;
      }
      decoded := packet.entries.items;
      return Ok(()), decoded;
    }

    /** The body of the task loop for a task that accepted the packet: decode the
        packet if it is still empty, queue a copy, run the task. */
    method Offer(runner: Runner, ctx: Context, packet: Packets.Packet, queue: PacketQueue,
                 deserializer: Deserialization.PacketDeserializer, factory: Factory)
      returns (r: Result<()>, ghost decoded: seq<Entries.Entry>, ghost copy: Packets.Packet, ghost queued: seq<Packets.Packet>)
      requires Valid() && Agrees(packetDefinitions, packet.protocol, factory)
      requires packet.data.data == [] && runner.State() <= skins
      requires deserializer.reader != null && deserializer.reader.Valid()
      modifies this`packetDefinitions, this`built, queue, packet, packet.entries, deserializer, deserializer.reader
      modifies skins
      ensures Valid() && Agrees(packetDefinitions, packet.protocol, factory)
      ensures deserializer.reader == old(deserializer.reader) && deserializer.reader.Valid()
      ensures packet.data.data == []
      ensures forall id :: id in old(packetDefinitions) ==>
                id in packetDefinitions && packetDefinitions[id] == old(packetDefinitions[id])
      ensures old(packet.entries) != null ==>
                packet.entries == old(packet.entries) && deserializer.reader.pos == old(deserializer.reader.pos)
      ensures old(packet.entries) == null && r.Ok? ==>
                packet.entries != null && fresh(packet.entries) &&
                deserializer.variablesStack == old(deserializer.variablesStack) &&
                packet.packetId in packetDefinitions &&
                var definition := packetDefinitions[packet.packetId];
                Deserialization.DecodeBlock(deserializer.reader.data, old(deserializer.reader.pos),
                                            old(deserializer.variablesStack), definition.rules.items,
                                            definition.protocol) ==
                  Ok(Parsed(decoded, deserializer.reader.pos))
      ensures r.Ok? ==> packet.entries != null && fresh(copy) && queued != [] && Newest(queued) == copy &&
                        copy.packetId == packet.packetId && copy.entries == packet.entries
    {
      copy := packet;
      queued := [];
      decoded := [];
      if packet.IsEmpty() {
        var d;
        d, decoded := Decode(packet, deserializer, factory);
        if d.Err? {
          return d, decoded, copy, queued;
        }
      }
      r, copy, queued := QueueAndRun(runner, ctx, packet, queue);
    }
  
    /** What the task loop keeps between turns. `trace` says what the turns so far did;
        `q0`, `p0` and `stack0` are the queue, the reader position and the variable
        stack before the first turn. Until a task accepts, nothing has moved; once one
        has, the packet holds entries decoded from `p0` by the cached definition. */
    ghost predicate Progress(packet: Packets.Packet, queue: PacketQueue,
                             deserializer: Deserialization.PacketDeserializer, factory: Factory, trace: Trace,
                             q0: seq<Packets.Packet>, p0: nat, stack0: Deserialization.Scopes)
      reads this, packet, packet.data, queue, deserializer, deserializer.reader
      reads if packet.packetId in packetDefinitions then {packetDefinitions[packet.packetId].rules} else {}
    {
      |trace.accepted| <= |tasks| &&
      Valid() && Agrees(packetDefinitions, packet.protocol, factory) &&
      deserializer.reader != null && deserializer.reader.Valid() &&
      packet.data.data == [] &&
      (packet.entries == null <==> trace.copies == 0) &&
      trace.decodes == (if trace.copies > 0 then 1 else 0) &&
      trace.copies == Count(trace.accepted) &&
      (trace.copies == 0 ==> queue.items == q0 && deserializer.reader.pos == p0 &&
                             deserializer.variablesStack == stack0) &&
      (trace.copies > 0 ==>
         packet.packetId in packetDefinitions &&
         var definition := packetDefinitions[packet.packetId];
         Deserialization.DecodeBlock(deserializer.reader.data, p0, stack0, definition.rules.items,
                                     definition.protocol) ==
           Ok(Parsed(trace.decoded, deserializer.reader.pos)))
    }

    /** A turn of the task loop whose task accepted the packet: the packet goes to
        Offer, and the trace records one more copy and, the first time, the decoding. */
    method Accepted(i: nat, ctx: Context, packet: Packets.Packet, queue: PacketQueue,
                deserializer: Deserialization.PacketDeserializer, factory: Factory, ghost trace: Trace,
                ghost q0: seq<Packets.Packet>, ghost p0: nat, ghost stack0: Deserialization.Scopes)
      returns (r: Result<()>, ghost next: Trace)
      requires i == |trace.accepted| < |tasks|
      requires Progress(packet, queue, deserializer, factory, trace, q0, p0, stack0)
      requires trace.accepted == Wanted(ctx.registry, tasks, packet)[..i]
      requires Wanted(ctx.registry, tasks, packet)[i]
      modifies this`packetDefinitions, this`built, queue, packet, packet.entries, deserializer, deserializer.reader
      modifies skins
      ensures Valid() && Agrees(packetDefinitions, packet.protocol, factory) && packet.data.data == []
      ensures deserializer.reader == old(deserializer.reader) && deserializer.reader.Valid()
      ensures old(packet.entries) != null ==> packet.entries == old(packet.entries)
      ensures r.Ok? && old(packet.entries) == null && packet.entries != null ==> fresh(packet.entries)
      ensures r.Ok? ==> next.accepted == trace.accepted + [true]
      ensures r.Ok? ==> Progress(packet, queue, deserializer, factory, next, q0, p0, stack0)
      ensures r.Ok? ==> next.accepted == Wanted(ctx.registry, tasks, packet)[..i + 1]
    {
      var first := packet.entries == null;
      ghost var decoded, copy, queued;
      ghost var definition := if first then null else packetDefinitions[packet.packetId];
      ghost var rules := if first then [] else definition.rules.items;
      assert tasks[i].State() <= skins;
      r, decoded, copy, queued := Offer(tasks[i], ctx, packet, queue, deserializer, factory);
      next := trace;
      if r.Err? {
        return;
      }
      next := trace.(accepted := trace.accepted + [true], copies := trace.copies + 1);
      if first {
        next := next.(decodes := 1, decoded := decoded);
      } else {
        assert packetDefinitions[packet.packetId] == definition && definition.rules.items == rules;
      }
      PrefixSnoc(Wanted(ctx.registry, tasks, packet), i);
      CountSnoc(trace.accepted, true);
    }

    /** One turn of the task loop: ask task `i` whether it accepts the packet and, if
        it does, hand the packet to it (Offer). `trace` is what the turns before it did. */
    method Step(i: nat, ctx: Context, packet: Packets.Packet, queue: PacketQueue,
                deserializer: Deserialization.PacketDeserializer, factory: Factory, ghost trace: Trace,
                ghost q0: seq<Packets.Packet>, ghost p0: nat, ghost stack0: Deserialization.Scopes)
      returns (r: Result<()>, ghost next: Trace)
      requires i == |trace.accepted| < |tasks|
      requires Progress(packet, queue, deserializer, factory, trace, q0, p0, stack0)
      requires trace.accepted == Wanted(ctx.registry, tasks, packet)[..i]
      modifies this`packetDefinitions, this`built, queue, packet, packet.entries, deserializer, deserializer.reader
      modifies skins
      ensures Valid() && Agrees(packetDefinitions, packet.protocol, factory) && packet.data.data == []
      ensures deserializer.reader == old(deserializer.reader) && deserializer.reader.Valid()
      ensures old(packet.entries) != null ==> packet.entries == old(packet.entries)
      ensures r.Ok? && old(packet.entries) == null && packet.entries != null ==> fresh(packet.entries)
      ensures r.Ok? ==> |next.accepted| == i + 1
      ensures r.Ok? ==> Progress(packet, queue, deserializer, factory, next, q0, p0, stack0)
      ensures r.Ok? ==> next.accepted == Wanted(ctx.registry, tasks, packet)[..i + 1]
    {
      next := trace;
      var accepts :- tasks[i].Task().Accept(ctx.registry, packet);
      WantedMeans(ctx.registry, tasks, packet, i);
      if accepts {
        r, next := Accepted(i, ctx, packet, queue, deserializer, factory, trace, q0, p0, stack0);
      } else {
        next := trace.(accepted := trace.accepted + [false]);
        CountSnoc(trace.accepted, false);
        PrefixSnoc(Wanted(ctx.registry, tasks, packet), i);
        r := Ok(());
      }
    }

    /** The task loop for one packet: a task that declines is skipped; before the
        first accepting task the packet is decoded, and before each accepting task a
        copy of it is queued. */
    method ApplyTasks(ctx: Context, packet: Packets.Packet, queue: PacketQueue,
                      deserializer: Deserialization.PacketDeserializer, factory: Factory)
      returns (r: Result<()>, ghost trace: Trace)
      requires Valid() && Agrees(packetDefinitions, packet.protocol, factory)
      requires packet.data.data == [] && packet.entries == null
      requires deserializer.reader != null && deserializer.reader.Valid()
      modifies this`packetDefinitions, this`built, queue, packet, deserializer, deserializer.reader
      modifies skins
      ensures Valid() && Agrees(packetDefinitions, packet.protocol, factory)
      ensures deserializer.reader == old(deserializer.reader) && deserializer.reader.Valid()
      ensures packet.data.data == []
      ensures r.Ok? ==> trace.accepted == Wanted(ctx.registry, tasks, packet)
      ensures r.Ok? ==> (packet.entries == null <==> trace.copies == 0)
      ensures r.Ok? ==> trace.copies == Count(trace.accepted)
      ensures r.Ok? ==> trace.decodes == if trace.copies > 0 then 1 else 0
      ensures r.Ok? && trace.copies == 0 ==>
                queue.items == old(queue.items) && deserializer.reader.pos == old(deserializer.reader.pos)
      ensures r.Ok? && trace.copies > 0 ==>
                packet.packetId in packetDefinitions &&
                var definition := packetDefinitions[packet.packetId];
                Deserialization.DecodeBlock(deserializer.reader.data, old(deserializer.reader.pos),
                                            old(deserializer.variablesStack), definition.rules.items,
                                            definition.protocol) ==
                  Ok(Parsed(trace.decoded, deserializer.reader.pos))
    {
      ghost var q0, p0, stack0 := queue.items, deserializer.reader.pos, deserializer.variablesStack;
      trace := Trace([], 0, [], 0);
      var i := 0;
      while i < |tasks|
        invariant i == |trace.accepted|
        invariant Progress(packet, queue, deserializer, factory, trace, q0, p0, stack0)
        invariant trace.accepted == Wanted(ctx.registry, tasks, packet)[..i]
        invariant deserializer.reader == old(deserializer.reader)
        invariant packet.entries != null ==> fresh(packet.entries)
      {
        r, trace := Step(i, ctx, packet, queue, deserializer, factory, trace, q0, p0, stack0);
        if r.Err? {
          return;
        }
        i := i + 1;
      }
      return Ok(()), trace;
    }

    /** One turn of the drain loop: `p`'s definition is looked up, `p` is serialized
        and, when both succeed, written as a record with the read timestamp; its size
        field is the int sum of the data's length and the id's varint length. `schema`
        is the definition's rule list. */
    method WritePacket(timestamp: Int32, version: Protocol, p: Packets.Packet,
                       serializer: Serialization.PacketSerializer, out: DataWriter, factory: Factory)
      returns (r: Result<seq<Byte>>, ghost schema: seq<Rules.Rule>)
      requires Valid() && Agrees(packetDefinitions, version, factory)
      requires serializer.Valid() && out.Valid()
      requires out != serializer.writer && out.buffer != serializer.writer.buffer
      modifies this`packetDefinitions, this`built, serializer, serializer.writer, serializer.writer.buffer
      modifies out, out.buffer
      ensures Valid() && Agrees(packetDefinitions, version, factory)
      ensures serializer.Valid() && out.Valid()
      ensures r == Encoded(factory(version, p.packetId), p)
      ensures r.Ok? ==> factory(version, p.packetId).Ok? && schema == factory(version, p.packetId).value.rules.items
      ensures r.Ok? ==> out.Written() == old(out.Written()) + EncodeRecord(Drained(timestamp, p.packetId, r.value))
      ensures r.Err? ==> out.Written() == old(out.Written())
    {
      schema := [];
      LookupIsFactory(packetDefinitions, version, p.packetId, factory);
      var definition := GetPacketDefinition(version, p.packetId, factory);
      if definition.Err? {
        return Err(definition.error), schema;
      }
      schema := definition.value.rules.items;
      var e := serializer.Serialize(definition.value, p);
      if e.Some? {
        return Err(e.value), schema;
      }
      var data := serializer.Data();
      WriteRecord(out, Drained(timestamp, p.packetId, data));
      return Ok(data), schema;
    }

    /** What the drain loop has written: the first `|ids|` packets of `q0`, record `k`
        holding packet `k`'s entries `entries[k]` serialized under the rule list
        `schemas[k]` of its definition. */
    ghost predicate WrittenSoFar(timestamp: Int32, version: Protocol,
                                 serializer: Serialization.PacketSerializer, out: DataWriter, factory: Factory,
                                 q0: seq<Packets.Packet>, entries: seq<Option<seq<Entries.Entry>>>, w0: seq<Byte>,
                                 ids: seq<Int32>, payloads: seq<seq<Byte>>, schemas: seq<seq<Rules.Rule>>)
      reads this, serializer, serializer.writer, out, out.buffer
    {
      Valid() && Agrees(packetDefinitions, version, factory) &&
      serializer.Valid() && out.Valid() && out != serializer.writer && out.buffer != serializer.writer.buffer &&
      |ids| == |payloads| == |schemas| <= |q0| == |entries| &&
      out.Written() == w0 + DrainedAll(timestamp, ids, payloads) &&
      Serializes(entries, ids, payloads, schemas) &&
      forall k :: 0 <= k < |ids| ==> ids[k] == q0[k].packetId
    }

    /** What the drain loop keeps: the packets written are off the queue. */
    ghost predicate Draining(timestamp: Int32, version: Protocol, queue: PacketQueue,
                             serializer: Serialization.PacketSerializer, out: DataWriter, factory: Factory,
                             q0: seq<Packets.Packet>, entries: seq<Option<seq<Entries.Entry>>>, w0: seq<Byte>,
                             ids: seq<Int32>, payloads: seq<seq<Byte>>, schemas: seq<seq<Rules.Rule>>)
      reads this, queue, serializer, serializer.writer, out, out.buffer
    {
      WrittenSoFar(timestamp, version, serializer, out, factory, q0, entries, w0, ids, payloads, schemas) &&
      queue.items == q0[|ids|..]
    }

    /** One turn of the drain loop: poll the head and write it. */
    method DrainStep(timestamp: Int32, version: Protocol, queue: PacketQueue,
                     serializer: Serialization.PacketSerializer, out: DataWriter, factory: Factory,
                     ghost q0: seq<Packets.Packet>, ghost entries: seq<Option<seq<Entries.Entry>>>, ghost w0: seq<Byte>,
                     ghost ids: seq<Int32>, ghost payloads: seq<seq<Byte>>, ghost schemas: seq<seq<Rules.Rule>>)
      returns (r: Result<()>, ghost ids': seq<Int32>, ghost payloads': seq<seq<Byte>>,
               ghost schemas': seq<seq<Rules.Rule>>)
      requires Draining(timestamp, version, queue, serializer, out, factory, q0, entries, w0, ids, payloads, schemas)
      requires queue.items != [] && entries[|ids|] == EntriesOf(queue.items[0])
      modifies this`packetDefinitions, this`built, queue, serializer, serializer.writer, serializer.writer.buffer
      modifies out, out.buffer
      ensures r.Ok? ==> |ids'| == |ids| + 1 &&
                        Draining(timestamp, version, queue, serializer, out, factory, q0, entries, w0, ids', payloads', schemas')
      ensures r.Err? ==> ids' == ids && payloads' == payloads && schemas' == schemas &&
                         |ids| < |q0| && queue.items == q0[|ids| + 1..] &&
                         Valid() && Agrees(packetDefinitions, version, factory) &&
                         serializer.Valid() && out.Valid() && out.Written() == w0 + DrainedAll(timestamp, ids, payloads)
    {
      var p := queue.Poll();
      assert p == q0[|ids|] && queue.items == q0[|ids| + 1..];
      r, ids', payloads', schemas' := WriteHead(timestamp, version, p, serializer, out, factory,
                                                q0, entries, w0, ids, payloads, schemas);
    }

    /** The second half of a turn: the polled packet `p`, the next one of `q0`, is
        written as the next record. */
    method WriteHead(timestamp: Int32, version: Protocol, p: Packets.Packet,
                     serializer: Serialization.PacketSerializer, out: DataWriter, factory: Factory,
                     ghost q0: seq<Packets.Packet>, ghost entries: seq<Option<seq<Entries.Entry>>>, ghost w0: seq<Byte>,
                     ghost ids: seq<Int32>, ghost payloads: seq<seq<Byte>>, ghost schemas: seq<seq<Rules.Rule>>)
      returns (r: Result<()>, ghost ids': seq<Int32>, ghost payloads': seq<seq<Byte>>,
               ghost schemas': seq<seq<Rules.Rule>>)
      requires WrittenSoFar(timestamp, version, serializer, out, factory, q0, entries, w0, ids, payloads, schemas)
      requires |ids| < |q0| && p == q0[|ids|] && entries[|ids|] == EntriesOf(p)
      modifies this`packetDefinitions, this`built, serializer, serializer.writer, serializer.writer.buffer
      modifies out, out.buffer
      ensures r.Ok? ==> |ids'| == |ids| + 1 &&
                        WrittenSoFar(timestamp, version, serializer, out, factory, q0, entries, w0, ids', payloads', schemas')
      ensures r.Err? ==> ids' == ids && payloads' == payloads && schemas' == schemas &&
                         Valid() && Agrees(packetDefinitions, version, factory) &&
                         serializer.Valid() && out.Valid() && out.Written() == w0 + DrainedAll(timestamp, ids, payloads)
    {
      ids', payloads', schemas' := ids, payloads, schemas;
      ghost var e := EntriesOf(p);
      var written, schema := WritePacket(timestamp, version, p, serializer, out, factory);
      if written.Err? {
        return Err(written.error), ids', payloads', schemas';
      }
      var data := written.value;
      assert EntriesOf(p) == e && Serialization.EncodePacket(schema, e) == Ok(data);
      SerializesSnoc(entries, ids, payloads, schemas, p.packetId, data, schema);
      DrainedAllSnoc(timestamp, ids, payloads, p.packetId, data);
      ConcatAssoc(w0, DrainedAll(timestamp, ids, payloads), EncodeRecord(Drained(timestamp, p.packetId, data)));
      ids', payloads', schemas' := ids + [p.packetId], payloads + [data], schemas + [schema];
      r := Ok(());
    }

    /** The drain loop: the queued packets, from the head, each written by WritePacket,
        until the queue is empty or one of them fails. Record `k` is the `k`th packet
        serialized under the rule list `schemas[k]` of its definition. */
    method Drain(timestamp: Int32, version: Protocol, queue: PacketQueue,
                 serializer: Serialization.PacketSerializer, out: DataWriter, factory: Factory)
      returns (r: Result<()>, ghost entries: seq<Option<seq<Entries.Entry>>>, ghost ids: seq<Int32>,
               ghost payloads: seq<seq<Byte>>, ghost schemas: seq<seq<Rules.Rule>>)
      requires Valid() && Agrees(packetDefinitions, version, factory)
      requires serializer.Valid() && out.Valid()
      requires out != serializer.writer && out.buffer != serializer.writer.buffer
      modifies this`packetDefinitions, this`built, queue, serializer, serializer.writer, serializer.writer.buffer
      modifies out, out.buffer
      ensures Valid() && Agrees(packetDefinitions, version, factory)
      ensures serializer.Valid() && out.Valid()
      ensures Serializes(entries, ids, payloads, schemas) && |entries| == |old(queue.items)|
      ensures forall k :: 0 <= k < |entries| ==> entries[k] == old(EntriesOf(queue.items[k]))
      ensures forall k :: 0 <= k < |ids| ==> ids[k] == old(queue.items)[k].packetId
      ensures out.Written() == old(out.Written()) + DrainedAll(timestamp, ids, payloads)
      ensures r.Ok? ==> |ids| == |old(queue.items)| && queue.items == []
      ensures r.Err? ==> |ids| < |old(queue.items)| && queue.items == old(queue.items)[|ids| + 1..]
    {
      ghost var q0, w0 := queue.items, out.Written();
      entries := seq(|q0|, k requires 0 <= k < |q0| reads q0, set p | p in q0 :: p.entries => EntriesOf(q0[k]));
      ids, payloads, schemas := [], [], [];
      while !queue.IsEmpty()
        invariant Draining(timestamp, version, queue, serializer, out, factory, q0, entries, w0, ids, payloads, schemas)
        invariant forall k :: 0 <= k < |q0| ==> entries[k] == old(EntriesOf(q0[k]))
        decreases |queue.items|
      {
        r, ids, payloads, schemas := DrainStep(timestamp, version, queue, serializer, out, factory,
                                               q0, entries, w0, ids, payloads, schemas);
        if r.Err? {
          return;
        }
      }
      return Ok(()), entries, ids, payloads, schemas;
    }

    /** After the task loop: a packet still empty (no task took it) is copied through
        from the reader; otherwise the queue is written out under the read timestamp. */
    method Emit(timestamp: Int32, size: Int32, version: Protocol, packet: Packets.Packet, ghost trace: Trace,
                reader: DataReader, serializer: Serialization.PacketSerializer, queue: PacketQueue, out: DataWriter,
                factory: Factory, ghost decodedWith: Rules.RuleList?)
      returns (r: Result<()>, ghost batch: Batch)
      requires Valid() && Agrees(packetDefinitions, version, factory)
      requires reader.Valid() && serializer.Valid() && out.Valid()
      requires out != serializer.writer && out.buffer != serializer.writer.buffer
      requires packet.data.data == [] && (packet.entries == null <==> trace.copies == 0)
      requires trace.copies == 0 ==> queue.items == []
      modifies this`packetDefinitions, this`built, queue, reader, serializer, serializer.writer, serializer.writer.buffer
      modifies out, out.buffer
      ensures Valid() && Agrees(packetDefinitions, version, factory)
      ensures reader.Valid() && serializer.Valid() && out.Valid()
      ensures decodedWith != null ==> decodedWith.items == old(decodedWith.items)
      ensures r.Ok? ==> queue.items == []
      ensures r.Ok? && trace.copies == 0 ==>
                CopiedThrough(reader.data, old(reader.pos), reader.pos, timestamp, size, packet.packetId,
                              old(out.Written()), out.Written())
      ensures r.Ok? && trace.copies > 0 ==>
                reader.pos == old(reader.pos) && Complete(batch) &&
                out.Written() == old(out.Written()) + DrainedAll(timestamp, batch.ids, batch.payloads)
    {
      batch := Batch([], [], [], []);
      if packet.IsEmpty() {
        r := CopyThrough(timestamp, size, packet.packetId, reader, out);
      } else {
        ghost var entries, ids, payloads, schemas;
        r, entries, ids, payloads, schemas := Drain(timestamp, version, queue, serializer, out, factory);
        batch := Batch(entries, ids, payloads, schemas);
      }
    }

    /** ApplyTasks on a new packet of the read id, its decoding stated against the
        definition the factory builds. */
    method RunTasks(ctx: Context, version: Protocol, id: Int32, queue: PacketQueue,
                    deserializer: Deserialization.PacketDeserializer, factory: Factory)
      returns (r: Result<()>, packet: Packets.Packet, ghost trace: Trace, ghost definition: Rules.PacketDefinition?,
               ghost rules: seq<Rules.Rule>)
      requires Valid() && Agrees(packetDefinitions, version, factory)
      requires deserializer.reader != null && deserializer.reader.Valid()
      modifies this`packetDefinitions, this`built, queue, deserializer, deserializer.reader, skins
      ensures Valid() && Agrees(packetDefinitions, version, factory)
      ensures deserializer.reader == old(deserializer.reader) && deserializer.reader.Valid()
      ensures fresh(packet) && packet.packetId == id && packet.protocol == version && packet.data.data == []
      ensures r.Ok? ==>
                trace.accepted == Wanted(ctx.registry, tasks, packet) && trace.copies == Count(trace.accepted) &&
                (packet.entries == null <==> trace.copies == 0)
      ensures r.Ok? && trace.copies == 0 ==>
                queue.items == old(queue.items) && deserializer.reader.pos == old(deserializer.reader.pos)
      ensures r.Ok? && trace.copies > 0 ==>
                definition != null && factory(version, id) == Ok(definition) && definition.rules.items == rules &&
                Deserialization.DecodeBlock(deserializer.reader.data, old(deserializer.reader.pos),
                                            old(deserializer.variablesStack), rules, definition.protocol) ==
                  Ok(Parsed(trace.decoded, deserializer.reader.pos))
    {
      packet := new Packets.Packet(version, id);
      r, trace := ApplyTasks(ctx, packet, queue, deserializer, factory);
      definition := if id in packetDefinitions then packetDefinitions[id] else null;
      rules := if definition != null then definition.rules.items else [];
    }

    /** The body of the record loop once the header is read: run the tasks on a new
        packet of the read id, then emit the record. */
    method Process(ctx: Context, version: Protocol, timestamp: Int32, size: Int32, id: Int32,
                   deserializer: Deserialization.PacketDeserializer, serializer: Serialization.PacketSerializer,
                   queue: PacketQueue, out: DataWriter, factory: Factory)
      returns (r: Result<()>, packet: Packets.Packet, ghost trace: Trace, ghost rules: seq<Rules.Rule>, ghost batch: Batch)
      requires Valid() && Agrees(packetDefinitions, version, factory)
      requires deserializer.reader != null && deserializer.reader.Valid()
      requires serializer.Valid() && out.Valid() && out != serializer.writer && out.buffer != serializer.writer.buffer
      requires queue.items == []
      modifies this`packetDefinitions, this`built, queue, deserializer, deserializer.reader
      modifies serializer, serializer.writer, serializer.writer.buffer, out, out.buffer, skins
      ensures Valid() && Agrees(packetDefinitions, version, factory)
      ensures deserializer.reader == old(deserializer.reader) && deserializer.reader.Valid()
      ensures serializer.Valid() && out.Valid()
      ensures r.Ok? ==>
                queue.items == [] && packet.packetId == id && packet.protocol == version &&
                trace.accepted == Wanted(ctx.registry, tasks, packet) && trace.copies == Count(trace.accepted)
      ensures r.Ok? && trace.copies == 0 ==>
                CopiedThrough(deserializer.reader.data, old(deserializer.reader.pos), deserializer.reader.pos,
                              timestamp, size, id, old(out.Written()), out.Written())
      ensures r.Ok? && trace.copies > 0 ==>
                factory(version, id).Ok? && factory(version, id).value.rules.items == rules &&
                Rewritten(deserializer.reader.data, old(deserializer.reader.pos), deserializer.reader.pos,
                          old(deserializer.variablesStack), rules, factory(version, id).value.protocol,
                          trace.decoded, timestamp, batch, old(out.Written()), out.Written())
    {
      batch := Batch([], [], [], []);
      ghost var w0 := out.Written();
      ghost var definition;
      r, packet, trace, definition, rules := RunTasks(ctx, version, id, queue, deserializer, factory);
      assert serializer.Valid() && out.Valid() && out.Written() == w0;
      if r.Err? {
        return;
      }
      r, batch := Emit(timestamp, size, version, packet, trace, deserializer.reader, serializer, queue, out, factory,
                       if definition != null then definition.rules else null);
    }

    /** The body of the record loop: read the header, then Process the record. */
    method EditRecord(ctx: Context, version: Protocol, deserializer: Deserialization.PacketDeserializer,
                      serializer: Serialization.PacketSerializer, queue: PacketQueue, out: DataWriter,
                      factory: Factory)
      returns (r: Result<()>, ghost packet: Packets.Packet?, ghost trace: Trace, ghost rules: seq<Rules.Rule>,
               ghost batch: Batch)
      requires Valid() && Agrees(packetDefinitions, version, factory)
      requires deserializer.reader != null && deserializer.reader.Valid()
      requires serializer.Valid() && out.Valid() && out != serializer.writer && out.buffer != serializer.writer.buffer
      requires queue.items == []
      modifies this`packetDefinitions, this`built, queue, deserializer, deserializer.reader
      modifies serializer, serializer.writer, serializer.writer.buffer, out, out.buffer, skins
      ensures Valid() && Agrees(packetDefinitions, version, factory)
      ensures deserializer.reader == old(deserializer.reader) && deserializer.reader.Valid()
      ensures serializer.Valid() && out.Valid()
      ensures r.Ok? ==> queue.items == [] && old(deserializer.reader.pos) < deserializer.reader.pos
      ensures r.Ok? ==>
                var header := ParseHeader(deserializer.reader.data, old(deserializer.reader.pos));
                header.Ok? && packet != null && packet.packetId == header.value.value.2 && packet.protocol == version &&
                trace.accepted == Wanted(ctx.registry, tasks, packet) && trace.copies == Count(trace.accepted)
      ensures r.Ok? && trace.copies == 0 ==>
                RecordCopied(deserializer.reader.data, old(deserializer.reader.pos), deserializer.reader.pos,
                             old(out.Written()), out.Written())
      ensures r.Ok? && trace.copies > 0 ==>
                var header := ParseHeader(deserializer.reader.data, old(deserializer.reader.pos));
                header.Ok? && packet != null && factory(version, packet.packetId).Ok? &&
                factory(version, packet.packetId).value.rules.items == rules &&
                Rewritten(deserializer.reader.data, header.value.next, deserializer.reader.pos,
                          old(deserializer.variablesStack), rules, factory(version, packet.packetId).value.protocol,
                          trace.decoded, header.value.value.0, batch, old(out.Written()), out.Written())
    {
      packet, trace, rules, batch := null, Trace([], 0, [], 0), [], Batch([], [], [], []);
      ghost var s, p0, w0 := deserializer.reader.data, deserializer.reader.pos, out.Written();
      var header :- ReadHeader(deserializer.reader);
      var (timestamp, size, id) := header;
      ghost var q := deserializer.reader.pos;
      assert Valid() && serializer.Valid() && out.Valid() && out.Written() == w0 && queue.items == [];
      var p;
      r, p, trace, rules, batch :=
        Process(ctx, version, timestamp, size, id, deserializer, serializer, queue, out, factory);
      packet := p;
      if r.Ok? && trace.copies == 0 {
        HeaderThenPayload(s, p0, q, deserializer.reader.pos, timestamp, size, id, w0, out.Written());
      }
    }

    /** One turn of the record loop, as the loop needs it: the record is consumed, and
        a record no task takes extends a verbatim copy of the input by itself. */
    method EditNext(ctx: Context, version: Protocol, deserializer: Deserialization.PacketDeserializer,
                    serializer: Serialization.PacketSerializer, queue: PacketQueue, out: DataWriter,
                    factory: Factory, ghost verbatim: bool)
      returns (r: Result<()>, ghost packet: Packets.Packet?, ghost trace: Trace)
      requires Valid() && Agrees(packetDefinitions, version, factory)
      requires deserializer.reader != null && deserializer.reader.Valid()
      requires serializer.Valid() && out.Valid() && out != serializer.writer && out.buffer != serializer.writer.buffer
      requires queue.items == []
      requires verbatim ==> deserializer.reader.pos < |deserializer.reader.data| &&
                            CanonicalFrom(deserializer.reader.data, deserializer.reader.pos) &&
                            out.Written() == deserializer.reader.data[..deserializer.reader.pos]
      modifies this`packetDefinitions, this`built, queue, deserializer, deserializer.reader
      modifies serializer, serializer.writer, serializer.writer.buffer, out, out.buffer, skins
      ensures Valid() && Agrees(packetDefinitions, version, factory)
      ensures deserializer.reader == old(deserializer.reader) && deserializer.reader.Valid()
      ensures serializer.Valid() && out.Valid()
      ensures r.Ok? ==>
                queue.items == [] && old(deserializer.reader.pos) < deserializer.reader.pos &&
                packet != null && packet.protocol == version &&
                trace.accepted == Wanted(ctx.registry, tasks, packet) && trace.copies == Count(trace.accepted)
      ensures r.Ok? && verbatim && trace.copies == 0 ==>
                CanonicalFrom(deserializer.reader.data, deserializer.reader.pos) &&
                out.Written() == deserializer.reader.data[..deserializer.reader.pos]
    {
      ghost var s := deserializer.reader.data;
      ghost var p := deserializer.reader.pos;
      ghost var w := out.Written();
      ghost var rules, batch;
      r, packet, trace, rules, batch := EditRecord(ctx, version, deserializer, serializer, queue, out, factory);
      if r.Ok? && verbatim && trace.copies == 0 {
        CopiedVerbatim(s, p, w, out.Written());
      }
    }

    /** EditNext with the bookkeeping of the loop: the record's packet and trace are
        appended, and a verbatim prefix stays verbatim while no task takes a record. A
        failed record leaves the packets and traces as they were. */
    method EditTurn(ctx: Context, version: Protocol, deserializer: Deserialization.PacketDeserializer,
                    serializer: Serialization.PacketSerializer, queue: PacketQueue, out: DataWriter,
                    factory: Factory, ghost packets: seq<Packets.Packet?>, ghost traces: seq<Trace>, ghost verbatim: bool)
      returns (r: Result<()>, ghost packets': seq<Packets.Packet?>, ghost traces': seq<Trace>)
      requires Valid() && Agrees(packetDefinitions, version, factory)
      requires deserializer.reader != null && deserializer.reader.Valid()
      requires serializer.Valid() && out.Valid() && out != serializer.writer && out.buffer != serializer.writer.buffer
      requires queue.items == [] && Traced(ctx.registry, tasks, version, packets, traces)
      requires verbatim && Untouched(traces) ==>
                 deserializer.reader.pos < |deserializer.reader.data| &&
                 CanonicalFrom(deserializer.reader.data, deserializer.reader.pos) &&
                 out.Written() == deserializer.reader.data[..deserializer.reader.pos]
      modifies this`packetDefinitions, this`built, queue, deserializer, deserializer.reader
      modifies serializer, serializer.writer, serializer.writer.buffer, out, out.buffer, skins
      ensures Valid() && Agrees(packetDefinitions, version, factory)
      ensures deserializer.reader == old(deserializer.reader) && deserializer.reader.Valid()
      ensures serializer.Valid() && out.Valid() && Traced(ctx.registry, tasks, version, packets', traces')
      ensures r.Ok? ==> queue.items == [] && old(deserializer.reader.pos) < deserializer.reader.pos
      ensures r.Ok? && verbatim && Untouched(traces') ==>
                CanonicalFrom(deserializer.reader.data, deserializer.reader.pos) &&
                out.Written() == deserializer.reader.data[..deserializer.reader.pos]
    {
      ghost var packet, trace;
      packets', traces' := packets, traces;
      r, packet, trace := EditNext(ctx, version, deserializer, serializer, queue, out, factory, verbatim && Untouched(traces));
      assert Valid() && Agrees(packetDefinitions, version, factory) && serializer.Valid() && out.Valid();
      if r.Ok? {
        UntouchedSnoc(traces, trace);
        TracedSnoc(ctx.registry, tasks, version, packets, traces, packet, trace);
        packets', traces' := packets + [packet], traces + [trace];
      }
    }

    /** The record loop: `while (reader.hasNext())`, one EditNext per record. When the
        output so far is a verbatim copy of the input and the records left have canonical
        ids, a run in which no task takes a record leaves a verbatim copy of the whole
        input. */
    method EditRecords(ctx: Context, version: Protocol, reader: DataReader,
                       deserializer: Deserialization.PacketDeserializer, serializer: Serialization.PacketSerializer,
                       queue: PacketQueue, out: DataWriter, factory: Factory, ghost verbatim: bool)
      returns (r: Result<()>, ghost packets: seq<Packets.Packet?>, ghost traces: seq<Trace>)
      requires Valid() && Agrees(packetDefinitions, version, factory)
      requires reader.Valid() && deserializer.reader == reader
      requires serializer.Valid() && out.Valid() && out != serializer.writer && out.buffer != serializer.writer.buffer
      requires queue.items == []
      requires verbatim ==> CanonicalFrom(reader.data, reader.pos) && out.Written() == reader.data[..reader.pos]
      modifies this`packetDefinitions, this`built, queue, deserializer, reader
      modifies serializer, serializer.writer, serializer.writer.buffer, out, out.buffer, skins
      ensures Valid() && Agrees(packetDefinitions, version, factory)
      ensures out.Valid() && Traced(ctx.registry, tasks, version, packets, traces)
      ensures r.Ok? && verbatim && Untouched(traces) ==> out.Written() == reader.data
    {
      packets, traces := [], [];
      while reader.pos < |reader.data|
        invariant Valid() && Agrees(packetDefinitions, version, factory)
        invariant reader.Valid() && deserializer.reader == reader
        invariant serializer.Valid() && out.Valid()
        invariant queue.items == [] && Traced(ctx.registry, tasks, version, packets, traces)
        invariant verbatim && Untouched(traces) ==>
                    CanonicalFrom(reader.data, reader.pos) && out.Written() == reader.data[..reader.pos]
        decreases |reader.data| - reader.pos
      {
        var edited;
        edited, packets, traces := EditTurn(ctx, version, deserializer, serializer, queue, out, factory,
                                            packets, traces, verbatim);
        if edited.Err? {
          return Err(edited.error), packets, traces;
        }
      }
      r := Ok(());
    }

    /** The reader on the recording, the writer to the output stream, and the first
        record copied from one to the other byte for byte. */
    static method Open(input: seq<Byte>) returns (r: Result<()>, reader: DataReader, writer: DataWriter)
      ensures fresh(reader) && fresh(writer) && fresh(writer.buffer)
      ensures reader.Valid() && reader.data == input && writer.Valid() && !writer.listMode
      ensures r.Ok? <==> ParseOpening(input, 0).Ok?
      ensures r.Ok? ==> reader.pos == ParseOpening(input, 0).value.next && writer.Written() == input[..reader.pos]
    {
      reader := new DataReader(input);
      writer := new DataWriter.Streaming();
      r := CopyOpening(reader, writer);
      if r.Ok? {
        OpeningVerbatim(input, 0);
      }
    }

    /** A new serializer, a new deserializer reading from `reader`, and an empty packet
        queue. */
    static method Pipeline(reader: DataReader)
      returns (serializer: Serialization.PacketSerializer, deserializer: Deserialization.PacketDeserializer,
               queue: PacketQueue)
      ensures fresh(serializer) && fresh(serializer.writer) && fresh(serializer.writer.buffer)
      ensures fresh(deserializer) && fresh(queue)
      ensures serializer.Valid() && deserializer.reader == reader && queue.items == []
    {
      serializer := new Serialization.PacketSerializer();
      deserializer := new Deserialization.PacketDeserializer();
      deserializer.SetDataReader(reader);
      queue := new PacketQueue();
    }

    /** applyTaskEdits on the bytes of a recording: clear the definition cache, copy the
        first record, create the serializer, the deserializer on the reader and the packet
        queue, run the record loop and flush. The result is what reaches the output stream;
        every record comes with the packet it was read into and what the tasks did with
        it. A recording no task touches comes out as it went in, provided its ids are in
        the shortest varint form. */
    method ApplyTaskEdits(ctx: Context, version: Protocol, input: seq<Byte>, factory: Factory)
      returns (r: Result<seq<Byte>>, ghost packets: seq<Packets.Packet?>, ghost traces: seq<Trace>)
      requires Valid()
      modifies this`packetDefinitions, this`built, skins
      ensures Valid() && Agrees(packetDefinitions, version, factory)
      ensures Traced(ctx.registry, tasks, version, packets, traces)
      ensures r.Ok? ==> ParseOpening(input, 0).Ok?
      ensures r.Ok? && Untouched(traces) && CanonicalFrom(input, ParseOpening(input, 0).value.next) ==>
                r.value == input
    {
      packets, traces := [], [];
      packetDefinitions := map[];
      built := [];
      assert Valid() && Agrees(packetDefinitions, version, factory);
      var copied, reader, writer := Open(input);
      if copied.Err? {
        return Err(copied.error), packets, traces;
      }
      var serializer, deserializer, queue := Pipeline(reader);
      ghost var verbatim := CanonicalFrom(input, reader.pos);
      var edited;
      edited, packets, traces := EditRecords(ctx, version, reader, deserializer, serializer, queue, writer, factory, verbatim);
      if edited.Err? {
        return Err(edited.error), packets, traces;
      }
      writer.Flush();
      r := Ok(writer.out);
    }
  }
}
