/** DataReader: a cursor over the bytes of an input stream. Every read method consumes
    bytes one readByte at a time and is proved to return what the matching reading
    function of Wire says is found at the cursor, leaving the cursor after it. */
module Reader {
  import opened Base
  import opened Wire
  import opened Protocols
  import opened Positions

  /** `r` and the new cursor `p` agree with the reading function's outcome `spec`: the
      value and the position after it, or the same exception, which for a premature end
      of input leaves the cursor at the end. */
  ghost predicate Follows<T>(r: Result<T>, spec: Result<Parsed<T>>, p: nat, len: nat) {
    if spec.Ok? then r == Ok(spec.value.value) && p == spec.value.next
    else r == Err(spec.error) && (spec.error == EndOfFile ==> p == len)
  }

  class DataReader {
    /** What the input stream holds. */
    const data: seq<Byte>
    /** How much of it has been consumed; `available()` is `|data| - pos`. */
    var pos: nat

    ghost predicate Valid()
      reads this
    {
      pos <= |data|
    }

    constructor (data: seq<Byte>)
      ensures this.data == data && pos == 0 && Valid()
    {
      this.data := data;
      pos := 0;
    }

    /** readByte: EOFException when nothing is available, the next byte otherwise. */
    method ReadByte() returns (r: Result<Byte>)
      requires Valid()
      modifies this
      ensures Valid() && Follows(r, ParseByte(data, old(pos)), pos, |data|)
      ensures r.Err? ==> pos == old(pos)
    {
      if pos < |data| {
        r := Ok(data[pos]);
        pos := pos + 1;
      } else {
        r := Err(EndOfFile);
      }
    }

    /** readBoolean: 0 and 1 are false and true; a larger byte is consumed and refused. */
    method ReadBoolean() returns (r: Result<bool>)
      requires Valid()
      modifies this
      ensures Valid() && Follows(r, ParseBoolean(data, old(pos)), pos, |data|)
      ensures r.Err? && r.error.BooleanAboveOne? ==> pos == old(pos) + 1
    {
      var b := ReadByte();
      if b.Err? {
        return Err(b.error);
      }
      if b.value <= 1 {
        r := Ok(b.value == 1);
      } else {
        r := Err(BooleanAboveOne(b.value));
      }
    }

    /** readShort: two bytes, big-endian, unsigned. */
    method ReadShort() returns (r: Result<int>)
      requires Valid()
      modifies this
      ensures Valid() && Follows(r, ParseShort(data, old(pos)), pos, |data|)
    {
      var hi := ReadByte();
      if hi.Err? {
        return Err(hi.error);
      }
      var lo := ReadByte();
      if lo.Err? {
        return Err(lo.error);
      }
      r := Ok(hi.value * TWO_8 + lo.value);
    }

    /** readInt: two shorts, the first one the high half, wrapped to a signed int. */
    method ReadInt() returns (r: Result<Int32>)
      requires Valid()
      modifies this
      ensures Valid() && Follows(r, ParseInt(data, old(pos)), pos, |data|)
    {
      var hi := ReadShort();
      if hi.Err? {
        return Err(hi.error);
      }
      var lo := ReadShort();
      if lo.Err? {
        return Err(lo.error);
      }
      r := Ok(S32(hi.value * TWO_16 + lo.value));
    }

    /** readLong: the first int shifted into the high half, the second one or-ed in as
        an unsigned value. */
    method ReadLong() returns (r: Result<Int64>)
      requires Valid()
      modifies this
      ensures Valid() && Follows(r, ParseLong(data, old(pos)), pos, |data|)
    {
      var hi := ReadInt();
      if hi.Err? {
        return Err(hi.error);
      }
      var lo := ReadInt();
      if lo.Err? {
        return Err(lo.error);
      }
      r := Ok(hi.value * TWO_32 + U32(lo.value));
    }

    /** readFollowingBytes(n): `new byte[n]` filled by n reads. */
    method ReadFollowingBytes(n: Int32) returns (r: Result<seq<Byte>>)
      requires Valid()
      modifies this
      ensures Valid() && Follows(r, ParseBytes(data, old(pos), n), pos, |data|)
    {
      if n < 0 {
        return Err(NegativeArraySize);
      }
      var out := new Byte[n];
      ghost var p0 := pos;
      for i := 0 to n
        invariant Valid() && pos == p0 + i
        invariant out[..i] == data[p0..pos]
      {
        var b := ReadByte();
        if b.Err? {
          return Err(b.error);
        }
        out[i] := b.value;
      }
      assert out[..] == out[..n];
      r := Ok(out[..]);
    }

    /** The do-while loop shared by readVarInt (limit 5) and readVarLong (limit 10): read
        a byte, add its low 7 bits at bit 7 * i, count it, fail once more than `limit`
        bytes have been read, and go on while the byte has 0x80 set. */
    method ReadVar(limit: nat) returns (r: Result<nat>)
      requires Valid()
      modifies this
      ensures Valid() && Follows(r, ParseVar(data, old(pos), 0, limit, 0), pos, |data|)
      ensures r.Err? && r.error == VarNumTooBig ==> pos == old(pos) + limit + 1
    {
      ghost var p0 := pos;
      var i: nat := 0;
      var acc: nat := 0;
      var more := true;
      while more
        invariant Valid() && pos == p0 + i && i <= limit
        invariant ParseVar(data, p0, 0, limit, 0) ==
                  (if more then ParseVar(data, pos, i, limit, acc) else Ok(Parsed(acc, pos)))
        decreases |data| - pos, more
      {
        var b := ReadByte();
        if b.Err? {
          return Err(b.error);
        }
        acc := acc + (b.value % TWO_7) * Pow2(7 * i);
        i := i + 1;
        if i > limit {
          return Err(VarNumTooBig);
        }
        more := b.value >= TWO_7;
      }
      r := Ok(acc);
    }

    /** readVarInt: the groups or-ed into an int. */
    method ReadVarInt() returns (r: Result<Int32>)
      requires Valid()
      modifies this
      ensures Valid() && Follows(r, ParseVarInt(data, old(pos)), pos, |data|)
    {
      var g := ReadVar(5);
      if g.Err? {
        return Err(g.error);
      }
      r := Ok(S32(g.value));
    }

    /** readVarLong: the groups or-ed into a long. */
    method ReadVarLong() returns (r: Result<Int64>)
      requires Valid()
      modifies this
      ensures Valid() && Follows(r, ParseVarLong(data, old(pos)), pos, |data|)
    {
      var g := ReadVar(10);
      if g.Err? {
        return Err(g.error);
      }
      r := Ok(S64(g.value));
    }

    /** readString(n): `while (n-- > 0)` appends `(char) readByte()`. */
    method ReadString(n: Int32) returns (r: Result<string>)
      requires Valid()
      modifies this
      ensures Valid() && Follows(r, ParseString(data, old(pos), n), pos, |data|)
    {
      ghost var p0 := pos;
      var out := "";
      var left := n;
      while left > 0
        invariant Valid() && left <= n && (n > 0 ==> left >= 0)
        invariant pos == p0 + (if n > 0 then n - left else 0)
        invariant out == Latin1(data[p0..pos])
      {
        var b := ReadByte();
        if b.Err? {
          return Err(b.error);
        }
        out := out + [b.value as char];
        left := left - 1;
        assert data[p0..pos] == data[p0..pos - 1] + [data[pos - 1]];
      }
      r := Ok(out);
    }

    /** readIntArray(n): `new int[n]` filled by n readInt calls. */
    method ReadIntArray(n: Int32) returns (r: Result<seq<Int32>>)
      requires Valid()
      modifies this
      ensures n < 0 ==> r == Err(NegativeArraySize) && pos == old(pos)
      ensures Valid() && (n >= 0 ==> Follows(r, ParseInts(data, old(pos), n), pos, |data|))
    {
      if n < 0 {
        return Err(NegativeArraySize);
      }
      var out := new Int32[n];
      ghost var p0 := pos;
      GlueNil(out[..0], ParseInts(data, p0, n));
      for i := 0 to n
        invariant Valid() && pos == p0 + 4 * i
        invariant ParseInts(data, p0, n) == Glue(out[..i], ParseInts(data, pos, n - i))
      {
        ghost var q, pre := pos, out[..i];
        var e := ReadIntInto(out, i);
        if e.Some? {
          IntsAhead(data, q, pre, n - i);
          assert ParseInts(data, p0, n) == Err(e.value);
          return Err(e.value);
        }
        IntsGlueStep(data, p0, n, i, q, pos, pre, out[..i + 1], out[i]);
      }
      GlueEnd(out[..], ParseInts(data, pos, 0), pos);
      r := Ok(out[..]);
    }

    /** readLongArray(n): `new long[n]` filled by n readLong calls. */
    method ReadLongArray(n: Int32) returns (r: Result<seq<Int64>>)
      requires Valid()
      modifies this
      ensures n < 0 ==> r == Err(NegativeArraySize) && pos == old(pos)
      ensures Valid() && (n >= 0 ==> Follows(r, ParseLongs(data, old(pos), n), pos, |data|))
    {
      if n < 0 {
        return Err(NegativeArraySize);
      }
      var out := new Int64[n];
      ghost var p0 := pos;
      GlueNil(out[..0], ParseLongs(data, p0, n));
      for i := 0 to n
        invariant Valid() && pos == p0 + 8 * i
        invariant ParseLongs(data, p0, n) == Glue(out[..i], ParseLongs(data, pos, n - i))
      {
        ghost var q, pre := pos, out[..i];
        var e := ReadLongInto(out, i);
        if e.Some? {
          LongsAhead(data, q, pre, n - i);
          assert ParseLongs(data, p0, n) == Err(e.value);
          return Err(e.value);
        }
        LongsGlueStep(data, p0, n, i, q, pos, pre, out[..i + 1], out[i]);
      }
      GlueEnd(out[..], ParseLongs(data, pos, 0), pos);
      r := Ok(out[..]);
    }

    /** `out[i] = readInt()` in readIntArray's loop. */
    method ReadIntInto(out: array<Int32>, i: nat) returns (e: Option<Error>)
      requires Valid() && i < out.Length
      modifies this, out
      ensures Valid() && out[..i] == old(out[..i])
      ensures e.None? ==> ParseInt(data, old(pos)) == Ok(Parsed(out[i], pos)) &&
                          out[..i + 1] == old(out[..i]) + [out[i]]
      ensures e.Some? ==> ParseInt(data, old(pos)) == Err(e.value) &&
                          (e.value == EndOfFile ==> pos == |data|)
    {
      var v := ReadInt();
      if v.Err? {
        return Some(v.error);
      }
      out[i] := v.value;
      e := None;
    }

    /** `out[i] = readLong()` in readLongArray's loop. */
    method ReadLongInto(out: array<Int64>, i: nat) returns (e: Option<Error>)
      requires Valid() && i < out.Length
      modifies this, out
      ensures Valid() && out[..i] == old(out[..i])
      ensures e.None? ==> ParseLong(data, old(pos)) == Ok(Parsed(out[i], pos)) &&
                          out[..i + 1] == old(out[..i]) + [out[i]]
      ensures e.Some? ==> ParseLong(data, old(pos)) == Err(e.value) &&
                          (e.value == EndOfFile ==> pos == |data|)
    {
      var v := ReadLong();
      if v.Err? {
        return Some(v.error);
      }
      out[i] := v.value;
      e := None;
    }

    /** readPosition: a long unpacked with the layout of the protocol, as written: from
        1.14 z is taken from the low 26 bits (Positions.NewLayoutLosesZ). */
    method ReadPosition(protocol: Protocol) returns (r: Result<Position>)
      requires Valid()
      modifies this
      ensures Valid()
      ensures ParseLong(data, old(pos)).Err? ==>
                r == Err(ParseLong(data, old(pos)).error) && pos == |data|
      ensures ParseLong(data, old(pos)).Ok? ==>
                var v := ParseLong(data, old(pos)).value;
                pos == v.next && r.Ok? && fresh(r.value) && r.value.protocol == protocol &&
                (r.value.x, r.value.y, r.value.z) == UnpackAsWritten(protocol, v.value)
    {
      var v := ReadLong();
      if v.Err? {
        return Err(v.error);
      }
      var c := UnpackAsWritten(protocol, v.value);
      UnpackRange(protocol, v.value);
      var position := new Position(protocol, c.0, c.1, c.2);
      r := Ok(position);
    }
  }

  /** The values read before the rest of an array, put in front of the rest's outcome. */
  ghost function Glue<T>(pre: seq<T>, rest: Result<Parsed<seq<T>>>): Result<Parsed<seq<T>>> {
    if rest.Ok? then Ok(Parsed(pre + rest.value.value, rest.value.next)) else rest
  }

  lemma GlueTwice<T>(pre: seq<T>, mid: seq<T>, post: seq<T>, rest: Result<Parsed<seq<T>>>)
    requires post == pre + mid
    ensures Glue(pre, Glue(mid, rest)) == Glue(post, rest)
  {
    if rest.Ok? {
      assert pre + (mid + rest.value.value) == post + rest.value.value;
    }
  }

  lemma GlueNil<T>(pre: seq<T>, rest: Result<Parsed<seq<T>>>)
    requires pre == []
    ensures Glue(pre, rest) == rest
  {
    if rest.Ok? {
      assert pre + rest.value.value == rest.value.value;
    }
  }

  lemma GlueEnd<T>(vs: seq<T>, rest: Result<Parsed<seq<T>>>, p: nat)
    requires rest == Ok(Parsed([], p))
    ensures Glue(vs, rest) == Ok(Parsed(vs, p))
  {
    assert vs + [] == vs;
  }

  /** One readInt of readIntArray's loop moves an element from the rest to the front. */
  lemma IntsAhead(s: seq<Byte>, q: nat, pre: seq<Int32>, k: nat)
    requires k > 0
    ensures ParseInt(s, q).Err? ==> Glue(pre, ParseInts(s, q, k)) == Err(ParseInt(s, q).error)
    ensures ParseInt(s, q).Ok? ==>
              Glue(pre, ParseInts(s, q, k)) ==
              Glue(pre + [ParseInt(s, q).value.value], ParseInts(s, q + 4, k - 1))
  {
    var x := ParseInt(s, q);
    if x.Ok? {
      var rest := ParseInts(s, q + 4, k - 1);
      if rest.Ok? {
        assert pre + ([x.value.value] + rest.value.value) ==
               (pre + [x.value.value]) + rest.value.value;
      }
    }
  }

  lemma IntsGlueStep(s: seq<Byte>, p0: nat, n: nat, i: nat, q: nat, q2: nat,
                      pre: seq<Int32>, post: seq<Int32>, v: Int32)
    requires i < n && ParseInt(s, q) == Ok(Parsed(v, q2)) && post == pre + [v]
    requires ParseInts(s, p0, n) == Glue(pre, ParseInts(s, q, n - i))
    ensures ParseInts(s, p0, n) == Glue(post, ParseInts(s, q2, n - (i + 1)))
  {
    IntsCons(s, q, q2, n - i, n - (i + 1), v);
    GlueTwice(pre, [v], post, ParseInts(s, q2, n - (i + 1)));
  }

  /** ParseInts is one ParseInt followed by the rest. */
  lemma IntsCons(s: seq<Byte>, q: nat, q2: nat, k: nat, k2: nat, v: Int32)
    requires k == k2 + 1 && ParseInt(s, q) == Ok(Parsed(v, q2))
    ensures ParseInts(s, q, k) == Glue([v], ParseInts(s, q2, k2))
  {
  }

  lemma LongsGlueStep(s: seq<Byte>, p0: nat, n: nat, i: nat, q: nat, q2: nat,
                      pre: seq<Int64>, post: seq<Int64>, v: Int64)
    requires i < n && ParseLong(s, q) == Ok(Parsed(v, q2)) && post == pre + [v]
    requires ParseLongs(s, p0, n) == Glue(pre, ParseLongs(s, q, n - i))
    ensures ParseLongs(s, p0, n) == Glue(post, ParseLongs(s, q2, n - (i + 1)))
  {
    LongsCons(s, q, q2, n - i, n - (i + 1), v);
    GlueTwice(pre, [v], post, ParseLongs(s, q2, n - (i + 1)));
  }

  /** ParseLongs is one ParseLong followed by the rest. */
  lemma LongsCons(s: seq<Byte>, q: nat, q2: nat, k: nat, k2: nat, v: Int64)
    requires k == k2 + 1 && ParseLong(s, q) == Ok(Parsed(v, q2))
    ensures ParseLongs(s, q, k) == Glue([v], ParseLongs(s, q2, k2))
  {
  }

  /** One readLong of readLongArray's loop moves an element from the rest to the front. */
  lemma LongsAhead(s: seq<Byte>, q: nat, pre: seq<Int64>, k: nat)
    requires k > 0
    ensures ParseLong(s, q).Err? ==> Glue(pre, ParseLongs(s, q, k)) == Err(ParseLong(s, q).error)
    ensures ParseLong(s, q).Ok? ==>
              Glue(pre, ParseLongs(s, q, k)) ==
              Glue(pre + [ParseLong(s, q).value.value], ParseLongs(s, q + 8, k - 1))
  {
    var x := ParseLong(s, q);
    if x.Ok? {
      var rest := ParseLongs(s, q + 8, k - 1);
      if rest.Ok? {
        assert pre + ([x.value.value] + rest.value.value) ==
               (pre + [x.value.value]) + rest.value.value;
      }
    }
  }

  /** The coordinates readPosition produces fit in an int. */
  lemma UnpackRange(p: Protocol, v: Int64)
    ensures var c := UnpackAsWritten(p, v);
            -0x8000_0000 <= c.0 < 0x8000_0000 && -0x8000_0000 <= c.1 < 0x8000_0000 &&
            -0x8000_0000 <= c.2 < 0x8000_0000
  {
  }
}
