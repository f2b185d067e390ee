/** The byte-level formats DataReader and DataWriter agree on: big-endian fixed-width
    integers, unsigned LEB128 varints (section 7.6 of the DWARF 4 standard), raw byte runs,
    one-char-per-byte strings on input and UTF-8 strings on output.

    Each reader format is a function from an input and a position to the value read and
    the position after it; each writer format is the byte sequence emitted. */
module Wire {
  import opened Base

  datatype Parsed<+T> = Parsed(value: T, next: nat)

  /** `bs` occurs in `s` at position `p`. */
  predicate At(s: seq<Byte>, p: nat, bs: seq<Byte>) {
    p + |bs| <= |s| && forall i :: 0 <= i < |bs| ==> s[p + i] == bs[i]
  }

  lemma AtSlice(s: seq<Byte>, p: nat, bs: seq<Byte>)
    requires p + |bs| <= |s|
    ensures At(s, p, bs) <==> s[p..p + |bs|] == bs
  {
    if At(s, p, bs) {
      assert forall i :: 0 <= i < |bs| ==> s[p..p + |bs|][i] == bs[i];
    }
    if s[p..p + |bs|] == bs {
      forall i | 0 <= i < |bs| ensures s[p + i] == bs[i] {
        assert s[p..p + |bs|][i] == s[p + i];
      }
    }
  }

  lemma AtSplit(s: seq<Byte>, p: nat, a: seq<Byte>, b: seq<Byte>)
    requires At(s, p, a + b)
    ensures At(s, p, a) && At(s, p + |a|, b)
  {
    forall i | 0 <= i < |a| ensures s[p + i] == a[i] {
      assert (a + b)[i] == a[i];
    }
    forall i | 0 <= i < |b| ensures s[p + |a| + i] == b[i] {
      assert (a + b)[|a| + i] == b[i];
    }
  }

  /** The first two of four consecutive pieces, at their places. */
  lemma AtFront(s: seq<Byte>, p: nat, a: seq<Byte>, b: seq<Byte>, c: seq<Byte>, d: seq<Byte>, pb: nat)
    requires At(s, p, a + b + c + d) && pb == p + |a|
    ensures At(s, p, a) && At(s, pb, b)
  {
    AtSplit(s, p, a + b + c, d);
    AtSplit3(s, p, a, b, c);
  }

  lemma AtSplit3(s: seq<Byte>, p: nat, a: seq<Byte>, b: seq<Byte>, c: seq<Byte>)
    requires At(s, p, a + b + c)
    ensures At(s, p, a) && At(s, p + |a|, b) && At(s, p + |a| + |b|, c)
  {
    AtSplit(s, p, a + b, c);
    AtSplit(s, p, a, b);
  }

  lemma SliceSplit(s: seq<Byte>, i: nat, j: nat, k: nat)
    requires i <= j <= k <= |s|
    ensures s[i..k] == s[i..j] + s[j..k]
  {
  }

  /** Bytes made of three parts: the places of the second and third parts in the input. */
  lemma AtParts(s: seq<Byte>, p: nat, bs: seq<Byte>, a: seq<Byte>, b: seq<Byte>, c: seq<Byte>, pb: nat, pc: nat)
    requires At(s, p, bs) && bs == a + b + c && pb == p + |a| && pc == pb + |b|
    ensures At(s, pb, b) && At(s, pc, c) && |bs| == |a| + |b| + |c|
  {
    AtSplit3(s, p, a, b, c);
  }

  // ---------------------------------------------------------------- reading

  /** readByte: the next byte, or EOFException when none is left. */
  function ParseByte(s: seq<Byte>, p: nat): (r: Result<Parsed<Byte>>)
    ensures r.Ok? <==> p < |s|
    ensures r.Err? ==> r.error == EndOfFile
    ensures r.Ok? ==> r.value.next == p + 1 && r.value.value == s[p]
  {
    if p < |s| then Ok(Parsed(s[p], p + 1)) else Err(EndOfFile)
  }

  /** readBoolean: byte 0 is false, byte 1 is true, anything above throws. */
  function ParseBoolean(s: seq<Byte>, p: nat): (r: Result<Parsed<bool>>)
    ensures r.Ok? <==> p < |s| && s[p] <= 1
    ensures r.Ok? ==> r.value == Parsed(s[p] == 1, p + 1)
    ensures p < |s| && s[p] > 1 ==> r == Err(BooleanAboveOne(s[p]))
  {
    var b :- ParseByte(s, p);
    if b.value <= 1 then Ok(Parsed(b.value == 1, b.next)) else Err(BooleanAboveOne(b.value))
  }

  /** readShort: two bytes, big-endian, as an unsigned value. */
  function ParseShort(s: seq<Byte>, p: nat): (r: Result<Parsed<int>>)
    ensures r.Ok? <==> p + 2 <= |s|
    ensures r.Ok? ==> r.value.next == p + 2 && 0 <= r.value.value < TWO_16
  {
    var hi :- ParseByte(s, p);
    var lo :- ParseByte(s, hi.next);
    Ok(Parsed(hi.value * TWO_8 + lo.value, lo.next))
  }

  /** readInt: `readShort() << 16 | readShort()`, wrapping to a signed int. */
  function ParseInt(s: seq<Byte>, p: nat): (r: Result<Parsed<Int32>>)
    ensures r.Ok? <==> p + 4 <= |s|
    ensures r.Ok? ==> r.value.next == p + 4
  {
    var hi :- ParseShort(s, p);
    var lo :- ParseShort(s, hi.next);
    Ok(Parsed(S32(hi.value * TWO_16 + lo.value), lo.next))
  }

  /** readLong: `(long) readInt() << 32 | readInt() & 0xffffffffL`. */
  function ParseLong(s: seq<Byte>, p: nat): (r: Result<Parsed<Int64>>)
    ensures r.Ok? <==> p + 8 <= |s|
    ensures r.Ok? ==> r.value.next == p + 8
  {
    var hi :- ParseInt(s, p);
    var lo :- ParseInt(s, hi.next);
    Ok(Parsed(hi.value * TWO_32 + U32(lo.value), lo.next))
  }

  /** readFollowingBytes(n): n bytes in order; a negative n fails on the array
      allocation before anything is read. */
  function ParseBytes(s: seq<Byte>, p: nat, n: int): (r: Result<Parsed<seq<Byte>>>)
    ensures n < 0 ==> r == Err(NegativeArraySize)
    ensures n >= 0 ==> (r.Ok? <==> p + n <= |s|)
    ensures r.Ok? ==> r.value.next == p + n && r.value.value == s[p..p + n]
  {
    if n < 0 then Err(NegativeArraySize)
    else if p + n <= |s| then Ok(Parsed(s[p..p + n], p + n))
    else Err(EndOfFile)
  }

  /** The chars `(char) readByte()` yields: one char per byte, code = byte value. */
  function Latin1(bs: seq<Byte>): (r: string)
    ensures |r| == |bs|
    ensures forall i :: 0 <= i < |bs| ==> r[i] as int == bs[i]
  {
    seq(|bs|, i requires 0 <= i < |bs| => bs[i] as char)
  }

  /** readString(n): `while (n-- > 0)` reads n chars, so n <= 0 gives "". */
  function ParseString(s: seq<Byte>, p: nat, n: int): (r: Result<Parsed<string>>)
    ensures n <= 0 ==> r == Ok(Parsed("", p))
    ensures n > 0 ==> (r.Ok? <==> p + n <= |s|)
    ensures r.Ok? && n > 0 ==> r.value.next == p + n && r.value.value == Latin1(s[p..p + n])
  {
    if n <= 0 then Ok(Parsed("", p))
    else if p + n <= |s| then Ok(Parsed(Latin1(s[p..p + n]), p + n))
    else Err(EndOfFile)
  }

  /** readIntArray(n) for n >= 0: n ints in order. */
  function ParseInts(s: seq<Byte>, p: nat, n: nat): (r: Result<Parsed<seq<Int32>>>)
    ensures n == 0 ==> r == Ok(Parsed([], p))
    ensures n > 0 ==> (r.Ok? <==> p + 4 * n <= |s|)
    ensures r.Ok? ==> |r.value.value| == n && r.value.next == p + 4 * n
    decreases n
  {
    if n == 0 then Ok(Parsed([], p))
    else
      var x :- ParseInt(s, p);
      var xs :- ParseInts(s, x.next, n - 1);
      Ok(Parsed([x.value] + xs.value, xs.next))
  }

  /** readLongArray(n) for n >= 0: n longs in order. */
  function ParseLongs(s: seq<Byte>, p: nat, n: nat): (r: Result<Parsed<seq<Int64>>>)
    ensures n == 0 ==> r == Ok(Parsed([], p))
    ensures n > 0 ==> (r.Ok? <==> p + 8 * n <= |s|)
    ensures r.Ok? ==> |r.value.value| == n && r.value.next == p + 8 * n
    decreases n
  {
    if n == 0 then Ok(Parsed([], p))
    else
      var x :- ParseLong(s, p);
      var xs :- ParseLongs(s, x.next, n - 1);
      Ok(Parsed([x.value] + xs.value, xs.next))
  }

  /** The do-while loop of readVarInt / readVarLong after `i` bytes, with `acc` the
      groups accumulated so far. A byte's low 7 bits are added at bit 7 * i; reading a
      byte beyond `limit` throws even when that byte ends the number. */
  function ParseVar(s: seq<Byte>, p: nat, i: nat, limit: nat, acc: nat): (r: Result<Parsed<nat>>)
    decreases |s| - p
    ensures r.Ok? ==> p < r.value.next <= |s| && r.value.next - p <= limit - i
  {
    if p >= |s| then Err(EndOfFile)
    else
      var acc' := acc + (s[p] % TWO_7) * Pow2(7 * i);
      if i + 1 > limit then Err(VarNumTooBig)
      else if s[p] >= TWO_7 then ParseVar(s, p + 1, i + 1, limit, acc')
      else Ok(Parsed(acc', p + 1))
  }

  /** readVarInt: at most 5 bytes; the groups are or-ed into a 32-bit int, so bits of
      the fifth byte beyond bit 31 are dropped. */
  function ParseVarInt(s: seq<Byte>, p: nat): (r: Result<Parsed<Int32>>)
    ensures r.Ok? ==> p + 1 <= r.value.next <= p + 5
  {
    var g :- ParseVar(s, p, 0, 5, 0);
    Ok(Parsed(S32(g.value), g.next))
  }

  /** readVarLong: at most 10 bytes, or-ed into a 64-bit long. */
  function ParseVarLong(s: seq<Byte>, p: nat): (r: Result<Parsed<Int64>>)
    ensures r.Ok? ==> p + 1 <= r.value.next <= p + 10
  {
    var g :- ParseVar(s, p, 0, 10, 0);
    Ok(Parsed(S64(g.value), g.next))
  }

  // ---------------------------------------------------------------- writing

  /** writeShort(v): `writeByte(v >>> 8)` then `writeByte(v & 0xff)`; writeByte keeps
      the low 8 bits. */
  function ShortBytes(v: int): (r: seq<Byte>)
    ensures |r| == 2
  {
    [(U32(v) / TWO_8) % TWO_8, U32(v) % TWO_8]
  }

  /** writeInt(v): `writeShort(v >>> 16)` then `writeShort(v & 0xffff)`. */
  function IntBytes(v: int): (r: seq<Byte>)
    ensures |r| == 4
  {
    ShortBytes(U32(v) / TWO_16) + ShortBytes(U32(v) % TWO_16)
  }

  /** writeLong(v): `writeInt((int) (v >>> 32))` then `writeInt((int) v)`; the narrowing
      casts keep the low 32 bits, which is all IntBytes looks at. */
  function LongBytes(v: int): (r: seq<Byte>)
    ensures |r| == 8
  {
    IntBytes(U64(v) / TWO_32) + IntBytes(U64(v) % TWO_32)
  }

  function IntsBytes(vs: seq<int>): (r: seq<Byte>)
    ensures |r| == 4 * |vs|
  {
    if vs == [] then [] else IntBytes(vs[0]) + IntsBytes(vs[1..])
  }

  function LongsBytes(vs: seq<int>): (r: seq<Byte>)
    ensures |r| == 8 * |vs|
  {
    if vs == [] then [] else LongBytes(vs[0]) + LongsBytes(vs[1..])
  }

  /** The do-while loop of writeVarInt / writeVarLong on the unsigned value `u`: the low
      7 bits first, with 0x80 set while bits remain. */
  function Leb(u: nat): (r: seq<Byte>)
    decreases u
    ensures 1 <= |r|
  {
    if u < TWO_7 then [u] else [u % TWO_7 + TWO_7] + Leb(u / TWO_7)
  }

  /** writeVarInt: `>>>` makes the loop run on the unsigned 32-bit pattern. */
  function VarIntBytes(v: int): seq<Byte> { Leb(U32(v)) }

  /** writeVarLong: the same on the unsigned 64-bit pattern. */
  function VarLongBytes(v: int): seq<Byte> { Leb(U64(v)) }

  /** `String.getBytes(UTF_8)` of one char: 1 to 4 bytes. */
  function Utf8Char(c: char): (r: seq<Byte>)
    ensures 1 <= |r| <= 4
  {
    var n := c as int;
    if n < 0x80 then [n]
    else if n < 0x800 then [0xC0 + n / 64, 0x80 + n % 64]
    else if n < 0x1_0000 then [0xE0 + n / 4096, 0x80 + (n / 64) % 64, 0x80 + n % 64]
    else [0xF0 + (n / 0x4_0000) % 8, 0x80 + (n / 4096) % 64, 0x80 + (n / 64) % 64, 0x80 + n % 64]
  }

  /** writeString: the UTF-8 bytes of the whole string. */
  function Utf8(s: string): (r: seq<Byte>)
    ensures |r| >= |s|
  {
    if s == [] then [] else Utf8Char(s[0]) + Utf8(s[1..])
  }

  /** Java's `String.length()`: UTF-16 code units, two for a char outside the BMP. */
  function JavaLength(s: string): (n: nat)
    ensures |s| <= n <= 2 * |s|
  {
    if s == [] then 0 else (if s[0] as int < 0x1_0000 then 1 else 2) + JavaLength(s[1..])
  }

  predicate IsAscii(s: string) {
    forall i :: 0 <= i < |s| ==> s[i] as int < 0x80
  }

  // ---------------------------------------------------------------- lemmas

  lemma {:induction false} Pow2Add(a: nat, b: nat)
    ensures Pow2(a + b) == Pow2(a) * Pow2(b)
    decreases a
  {
    if a > 0 {
      Pow2Add(a - 1, b);
    }
  }

  lemma Pow2Values()
    ensures Pow2(7) == TWO_7 && Pow2(28) == 0x1000_0000 && Pow2(35) == 0x8_0000_0000
    ensures Pow2(63) == TWO_63 && Pow2(70) == 0x40_0000_0000_0000_0000
  {
    assert Pow2(7) == TWO_7;
    Pow2Add(7, 7);
    Pow2Add(14, 14);
    Pow2Add(28, 7);
    Pow2Add(35, 28);
    Pow2Add(35, 35);
  }

  lemma LowShort(x: nat)
    ensures ((x / TWO_8) % TWO_8) * TWO_8 + x % TWO_8 == x % TWO_16
  {
    var q, r := x / TWO_16, x % TWO_16;
    assert x == q * TWO_16 + r;
    assert x / TWO_8 == q * TWO_8 + r / TWO_8;
    assert (x / TWO_8) % TWO_8 == r / TWO_8;
    assert x % TWO_8 == r % TWO_8;
  }

  lemma DivMod(x: nat, d: nat)
    requires d > 0
    ensures (x / d) * d + x % d == x
  {
  }

  lemma GroupStep(u: nat, pw: nat)
    ensures (u % TWO_7) * pw + (u / TWO_7) * (TWO_7 * pw) == u * pw
  {
    var q, r := u / TWO_7, u % TWO_7;
    assert u == q * TWO_7 + r;
    calc {
      r * pw + q * (TWO_7 * pw);
      r * pw + (q * TWO_7) * pw;
      (r + q * TWO_7) * pw;
    }
  }

  /** readShort recovers writeShort(v) as `v & 0xffff`. */
  lemma ByteRoundTrip(s: seq<Byte>, p: nat, b: Byte)
    requires At(s, p, [b])
    ensures ParseByte(s, p) == Ok(Parsed(b, p + 1))
  {
    assert s[p] == [b][0];
  }

  lemma ShortRoundTrip(s: seq<Byte>, p: nat, v: int)
    requires At(s, p, ShortBytes(v))
    ensures ParseShort(s, p) == Ok(Parsed(U32(v) % TWO_16, p + 2))
  {
    assert s[p] == ShortBytes(v)[0] && s[p + 1] == ShortBytes(v)[1];
    LowShort(U32(v));
  }

  /** A value that fits in 16 bits reads back as itself. */
  lemma ShortRoundTripFits(s: seq<Byte>, p: nat, v: int)
    requires 0 <= v < TWO_16 && At(s, p, ShortBytes(v))
    ensures ParseShort(s, p) == Ok(Parsed(v, p + 2))
  {
    ShortRoundTrip(s, p, v);
    assert U32(v) % TWO_16 == v;
  }

  lemma IntHalves(v: Int32)
    ensures U32(U32(v) / TWO_16) % TWO_16 == U32(v) / TWO_16
    ensures U32(U32(v) % TWO_16) % TWO_16 == U32(v) % TWO_16
    ensures S32((U32(v) / TWO_16) * TWO_16 + U32(v) % TWO_16) == v
  {
    DivMod(U32(v), TWO_16);
    SignedOfUnsigned32(v);
  }

  /** readInt recovers writeInt(v). */
  lemma IntRoundTrip(s: seq<Byte>, p: nat, v: Int32)
    requires At(s, p, IntBytes(v))
    ensures ParseInt(s, p) == Ok(Parsed(v, p + 4))
  {
    var u := U32(v);
    var hi, lo := u / TWO_16, u % TWO_16;
    AtSplit(s, p, ShortBytes(hi), ShortBytes(lo));
    ShortRoundTrip(s, p, hi);
    ShortRoundTrip(s, p + 2, lo);
    IntHalves(v);
  }

  /** writeShort re-emits two bytes read as an unsigned short. */
  lemma ShortVerbatim(b0: Byte, b1: Byte)
    ensures ShortBytes(b0 * TWO_8 + b1) == [b0, b1]
  {
    var x := b0 * TWO_8 + b1;
    assert U32(x) == x;
    assert x / TWO_8 == b0 && x % TWO_8 == b1;
  }

  /** writeInt(readInt()) re-emits the four bytes read. */
  lemma IntVerbatim(s: seq<Byte>, p: nat)
    requires p + 4 <= |s|
    ensures IntBytes(ParseInt(s, p).value.value) == s[p..p + 4]
  {
    var hi := s[p] * TWO_8 + s[p + 1];
    var lo := s[p + 2] * TWO_8 + s[p + 3];
    var u := hi * TWO_16 + lo;
    assert ParseInt(s, p).value.value == S32(u);
    assert U32(S32(u)) == u;
    assert u / TWO_16 == hi && u % TWO_16 == lo;
    ShortVerbatim(s[p], s[p + 1]);
    ShortVerbatim(s[p + 2], s[p + 3]);
    assert IntBytes(S32(u)) == [s[p], s[p + 1]] + [s[p + 2], s[p + 3]];
  }

  lemma IntBytesLow(x: int)
    ensures IntBytes(x) == IntBytes(S32(x))
  {
    var m := x % TWO_32;
    assert U32(x) == m;
    if m >= TWO_31 {
      assert S32(x) == m - TWO_32;
      assert U32(m - TWO_32) == m;
    }
    assert U32(x) == U32(S32(x));
  }

  lemma LongHalves(v: Int64)
    ensures S32(U64(v) / TWO_32) * TWO_32 + U32(S32(U64(v) % TWO_32)) == v
  {
    var u := U64(v);
    var hi, lo := u / TWO_32, u % TWO_32;
    assert u == hi * TWO_32 + lo;
    assert U32(S32(lo)) == lo;
    SignedOfUnsigned64(v);
    if hi < TWO_31 {
      assert S32(hi) == hi;
      assert u < TWO_63;
    } else {
      assert S32(hi) == hi - TWO_32;
      assert u >= TWO_63;
    }
  }

  /** readLong recovers writeLong(v). */
  lemma LongRoundTrip(s: seq<Byte>, p: nat, v: Int64)
    requires At(s, p, LongBytes(v))
    ensures ParseLong(s, p) == Ok(Parsed(v, p + 8))
  {
    var u := U64(v);
    var hi, lo := u / TWO_32, u % TWO_32;
    AtSplit(s, p, IntBytes(hi), IntBytes(lo));
    IntBytesLow(hi);
    IntBytesLow(lo);
    IntRoundTrip(s, p, S32(hi));
    IntRoundTrip(s, p + 4, S32(lo));
    LongHalves(v);
  }

  /** Every byte of a varint but the last has the continuation bit 0x80. */
  lemma {:induction false} LebShape(u: nat)
    ensures forall j :: 0 <= j < |Leb(u)| ==> (Leb(u)[j] >= TWO_7 <==> j < |Leb(u)| - 1)
    decreases u
  {
    if u >= TWO_7 {
      LebShape(u / TWO_7);
    }
  }

  /** A value below 2^(7k) takes at most k bytes, one at or above takes more. */
  lemma {:induction false} LebLength(u: nat, k: nat)
    requires k >= 1
    ensures u < Pow2(7 * k) ==> |Leb(u)| <= k
    ensures u >= Pow2(7 * k) ==> |Leb(u)| > k
    decreases u
  {
    var rest := Pow2(7 * (k - 1));
    assert Pow2(7 * k) == TWO_7 * rest by {
      Pow2Add(7, 7 * (k - 1));
      Pow2Seven();
    }
    if u >= TWO_7 {
      DivBound(u, TWO_7, rest);
      if k > 1 {
        LebLength(u / TWO_7, k - 1);
      }
    }
  }

  lemma Pow2Seven()
    ensures Pow2(7) == TWO_7
  {
  }

  lemma DivBound(u: nat, d: nat, b: nat)
    requires d > 0
    ensures u < d * b <==> u / d < b
  {
    var q := u / d;
    DivMod(u, d);
    if q < b {
      MulLe(q + 1, b, d);
      assert (q + 1) * d == q * d + d;
    } else {
      MulLe(b, q, d);
    }
  }

  lemma MulLe(a: nat, b: nat, d: nat)
    requires a <= b
    ensures a * d <= b * d
  {
    var c := b - a;
    assert b * d == a * d + c * d;
  }

  /** The reading loop recovers what the writing loop emitted, from any position and
      any number of groups already read, as long as the limit is not crossed. */
  lemma {:induction false} VarRoundTrip(s: seq<Byte>, p: nat, i: nat, limit: nat, acc: nat, u: nat)
    requires At(s, p, Leb(u)) && i + |Leb(u)| <= limit
    ensures ParseVar(s, p, i, limit, acc) == Ok(Parsed(acc + u * Pow2(7 * i), p + |Leb(u)|))
    decreases u
  {
    assert s[p] == Leb(u)[0];
    if u >= TWO_7 {
      var g, pw := u % TWO_7, Pow2(7 * i);
      var rest := Leb(u / TWO_7);
      assert s[p] == g + TWO_7 && At(s, p + 1, rest) by {
        AtSplit(s, p, [g + TWO_7], rest);
      }
      assert s[p] % TWO_7 == g;
      assert ParseVar(s, p, i, limit, acc) == ParseVar(s, p + 1, i + 1, limit, acc + g * pw);
      VarRoundTrip(s, p + 1, i + 1, limit, acc + g * pw, u / TWO_7);
      GroupShift(u, i);
    }
  }

  /** One group taken off `u` at group position i, the rest one position higher. */
  lemma GroupShift(u: nat, i: nat)
    ensures (u % TWO_7) * Pow2(7 * i) + (u / TWO_7) * Pow2(7 * (i + 1)) == u * Pow2(7 * i)
  {
    var pw := Pow2(7 * i);
    assert Pow2(7 * (i + 1)) == TWO_7 * pw by {
      Pow2Add(7, 7 * i);
      Pow2Seven();
    }
    GroupStep(u, pw);
  }

  /** readVarInt(writeVarInt(v)) == v, and the writer's 1..5 bytes are all consumed. */
  lemma VarIntRoundTrip(s: seq<Byte>, p: nat, v: Int32)
    requires At(s, p, VarIntBytes(v))
    ensures 1 <= |VarIntBytes(v)| <= 5
    ensures ParseVarInt(s, p) == Ok(Parsed(v, p + |VarIntBytes(v)|))
  {
    var u := U32(v);
    assert |Leb(u)| <= 5 by {
      Pow2Values();
      LebLength(u, 5);
    }
    assert ParseVar(s, p, 0, 5, 0) == Ok(Parsed(u, p + |Leb(u)|)) by {
      VarRoundTrip(s, p, 0, 5, 0, u);
      assert 0 + u * Pow2(7 * 0) == u;
    }
    SignedOfUnsigned32(v);
  }

  /** readVarLong(writeVarLong(v)) == v, with at most 10 bytes. */
  lemma VarLongRoundTrip(s: seq<Byte>, p: nat, v: Int64)
    requires At(s, p, VarLongBytes(v))
    ensures 1 <= |VarLongBytes(v)| <= 10
    ensures ParseVarLong(s, p) == Ok(Parsed(v, p + |VarLongBytes(v)|))
  {
    var u := U64(v);
    assert |Leb(u)| <= 10 by {
      Pow2Values();
      LebLength(u, 10);
    }
    assert ParseVar(s, p, 0, 10, 0) == Ok(Parsed(u, p + |Leb(u)|)) by {
      VarRoundTrip(s, p, 0, 10, 0, u);
      assert 0 + u * Pow2(7 * 0) == u;
    }
    SignedOfUnsigned64(v);
  }

  /** VarInt sizes: one byte exactly below 128 (unsigned), five for every negative int. */
  lemma VarIntSizes(v: Int32)
    ensures |VarIntBytes(v)| == 1 <==> 0 <= v < 128
    ensures v < 0 ==> |VarIntBytes(v)| == 5
  {
    var u := U32(v);
    assert u == if v < 0 then v + TWO_32 else v;
    Pow2Values();
    assert Pow2(7 * 4) == 0x1000_0000 && Pow2(7 * 5) == 0x8_0000_0000;
    LebLength(u, 1);
    LebLength(u, 4);
    LebLength(u, 5);
  }

  /** VarLong sizes: one byte for 0..127, never more than ten. */
  lemma VarLongSizes(v: Int64)
    ensures |VarLongBytes(v)| == 1 <==> 0 <= v < 128
    ensures |VarLongBytes(v)| <= 10
    ensures v < 0 ==> |VarLongBytes(v)| == 10
  {
    var u := U64(v);
    assert u == if v < 0 then v + TWO_64 else v;
    Pow2Values();
    assert Pow2(7 * 9) == TWO_63 && Pow2(7 * 10) == 0x40_0000_0000_0000_0000;
    LebLength(u, 1);
    LebLength(u, 9);
    LebLength(u, 10);
  }

  /** The char count Java writes as a length prefix equals the UTF-8 byte count exactly
      for ASCII strings. */
  lemma {:induction false} Utf8LengthIsJavaLength(s: string)
    ensures |Utf8(s)| == JavaLength(s) <==> IsAscii(s)
  {
    if s != [] {
      Utf8LengthIsJavaLength(s[1..]);
      assert |Utf8(s)| == |Utf8Char(s[0])| + |Utf8(s[1..])|;
      assert |Utf8(s[1..])| >= JavaLength(s[1..]) by { Utf8Covers(s[1..]); }
      if IsAscii(s) {
        assert IsAscii(s[1..]) by {
          forall i | 0 <= i < |s[1..]| ensures s[1..][i] as int < 0x80 {
            assert s[1..][i] == s[i + 1];
          }
        }
      } else if IsAscii(s[1..]) {
        assert s[0] as int >= 0x80 by {
          if s[0] as int < 0x80 {
            forall i | 0 <= i < |s| ensures s[i] as int < 0x80 {
              if i > 0 { assert s[i] == s[1..][i - 1]; }
            }
          }
        }
      }
    }
  }

  lemma {:induction false} Utf8Covers(s: string)
    ensures |Utf8(s)| >= JavaLength(s)
  {
    if s != [] {
      Utf8Covers(s[1..]);
    }
  }

  /** An ASCII string is written one byte per char, which readString reads back. */
  lemma {:induction false} Utf8Ascii(s: string)
    requires IsAscii(s)
    ensures |Utf8(s)| == |s| && Latin1(Utf8(s)) == s
  {
    if s != [] {
      assert IsAscii(s[1..]) by {
        forall i | 0 <= i < |s[1..]| ensures s[1..][i] as int < 0x80 {
          assert s[1..][i] == s[i + 1];
        }
      }
      Utf8Ascii(s[1..]);
      assert Utf8(s) == [s[0] as int] + Utf8(s[1..]);
      assert Latin1(Utf8(s)) == [s[0]] + Latin1(Utf8(s[1..]));
    }
  }

  /** readString(n) after the UTF-8 bytes of an ASCII string of n chars returns it. */
  lemma AsciiRoundTrip(s: seq<Byte>, p: nat, text: string)
    requires IsAscii(text) && At(s, p, Utf8(text))
    ensures ParseString(s, p, |text|) == Ok(Parsed(text, p + |text|))
  {
    Utf8Ascii(text);
    LatinAt(s, p, Utf8(text), text);
  }

  /** readString(n) over bytes whose Latin-1 reading is a string of n chars. */
  lemma LatinAt(s: seq<Byte>, p: nat, bs: seq<Byte>, text: string)
    requires At(s, p, bs) && |bs| == |text| && Latin1(bs) == text
    ensures ParseString(s, p, |text|) == Ok(Parsed(text, p + |text|))
  {
    AtSlice(s, p, bs);
    if text != [] {
      StringReads(s, p, |text|, bs);
    }
  }

  lemma StringReads(s: seq<Byte>, p: nat, n: nat, bs: seq<Byte>)
    requires 0 < n == |bs| && p + n <= |s| && s[p..p + n] == bs
    ensures ParseString(s, p, n) == Ok(Parsed(Latin1(bs), p + n))
  {
  }

  /** readFollowingBytes(n) after writeByteArray(bs) returns bs. */
  lemma BytesRoundTrip(s: seq<Byte>, p: nat, bs: seq<Byte>)
    requires At(s, p, bs)
    ensures ParseBytes(s, p, |bs|) == Ok(Parsed(bs, p + |bs|))
  {
    assert s[p..p + |bs|] == bs;
  }

  /** readIntArray reads back writeIntArray. */
  lemma {:induction false} IntsRoundTrip(s: seq<Byte>, p: nat, vs: seq<Int32>, e: nat)
    requires At(s, p, IntsBytes(vs)) && e == p + 4 * |vs|
    ensures ParseInts(s, p, |vs|) == Ok(Parsed(vs, e))
    decreases |vs|
  {
    if vs != [] {
      IntsHead(s, p, vs, p + 4);
      IntsRoundTrip(s, p + 4, vs[1..], e);
      IntsStep(s, p, vs, p + 4, e);
    }
  }

  lemma IntsHead(s: seq<Byte>, p: nat, vs: seq<Int32>, q: nat)
    requires vs != [] && At(s, p, IntsBytes(vs)) && q == p + 4
    ensures ParseInt(s, p) == Ok(Parsed(vs[0], q)) && At(s, q, IntsBytes(vs[1..]))
  {
    AtSplit(s, p, IntBytes(vs[0]), IntsBytes(vs[1..]));
    IntRoundTrip(s, p, vs[0]);
  }

  lemma IntsStep(s: seq<Byte>, p: nat, vs: seq<Int32>, q: nat, e: nat)
    requires vs != [] && ParseInt(s, p) == Ok(Parsed(vs[0], q))
    requires ParseInts(s, q, |vs| - 1) == Ok(Parsed(vs[1..], e))
    ensures ParseInts(s, p, |vs|) == Ok(Parsed(vs, e))
  {
    assert [vs[0]] + vs[1..] == vs;
  }

  /** readLongArray reads back writeLongArray. */
  lemma {:induction false} LongsRoundTrip(s: seq<Byte>, p: nat, vs: seq<Int64>, e: nat)
    requires At(s, p, LongsBytes(vs)) && e == p + 8 * |vs|
    ensures ParseLongs(s, p, |vs|) == Ok(Parsed(vs, e))
    decreases |vs|
  {
    if vs != [] {
      LongsHead(s, p, vs, p + 8);
      LongsRoundTrip(s, p + 8, vs[1..], e);
      LongsStep(s, p, vs, p + 8, e);
    }
  }

  lemma LongsHead(s: seq<Byte>, p: nat, vs: seq<Int64>, q: nat)
    requires vs != [] && At(s, p, LongsBytes(vs)) && q == p + 8
    ensures ParseLong(s, p) == Ok(Parsed(vs[0], q)) && At(s, q, LongsBytes(vs[1..]))
  {
    AtSplit(s, p, LongBytes(vs[0]), LongsBytes(vs[1..]));
    LongRoundTrip(s, p, vs[0]);
  }

  lemma LongsStep(s: seq<Byte>, p: nat, vs: seq<Int64>, q: nat, e: nat)
    requires vs != [] && ParseLong(s, p) == Ok(Parsed(vs[0], q))
    requires ParseLongs(s, q, |vs| - 1) == Ok(Parsed(vs[1..], e))
    ensures ParseLongs(s, p, |vs|) == Ok(Parsed(vs, e))
  {
    assert [vs[0]] + vs[1..] == vs;
  }
}
