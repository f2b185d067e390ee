/** The packed block position of the protocol (Position.java) and the 64-bit layouts
    DataWriter.writePosition and DataReader.readPosition use for it. */
module Positions {
  import opened Base
  import opened Protocols

  /** A block position tied to the protocol it was read for; the protocol is final, the
      coordinates have setters. */
  class Position {
    const protocol: Protocol
    var x: Int32
    var y: Int32
    var z: Int32

    constructor (protocol: Protocol, x: Int32, y: Int32, z: Int32)
      ensures this.protocol == protocol && this.x == x && this.y == y && this.z == z
    {
      this.protocol := protocol;
      this.x := x;
      this.y := y;
      this.z := z;
    }

    method SetX(v: Int32)
      modifies this
      ensures x == v && y == old(y) && z == old(z)
    {
      x := v;
    }

    method SetY(v: Int32)
      modifies this
      ensures y == v && x == old(x) && z == old(z)
    {
      y := v;
    }

    method SetZ(v: Int32)
      modifies this
      ensures z == v && x == old(x) && y == old(y)
    {
      z := v;
    }
  }

  /** The low 12 bits of `v` read as a two's-complement number: `(v << 52) >> 52`. */
  function Signed12(v: int): (r: int)
    ensures -0x800 <= r < 0x800 && r % TWO_12 == v % TWO_12
  {
    var m := v % TWO_12;
    if m < 0x800 then m else m - TWO_12
  }

  /** The low 26 bits of `v` read as a two's-complement number: `(v << 38) >> 38`. */
  function Signed26(v: int): (r: int)
    ensures -0x200_0000 <= r < TWO_25 && r % TWO_26 == v % TWO_26
  {
    var m := v % TWO_26;
    if m < TWO_25 then m else m - TWO_26
  }

  /** Whether a protocol uses the layout of 1.14 and later. */
  predicate NewLayout(p: Protocol) {
    !IsBeforeExclusive(p, MC_1_14)
  }

  /** The long writePosition packs: x, y and z masked to 26, 12 and 26 bits and placed at
      bit offsets 38/26/0 before 1.14, x, z and y at 38/12/0 from 1.14 on. The or of the
      disjoint fields is their sum; shifting x into the top bits makes the sum a signed
      long. */
  function Pack(p: Protocol, x: int, y: int, z: int): Int64 {
    if NewLayout(p) then
      S64((x % TWO_26) * TWO_38 + (z % TWO_26) * TWO_12 + y % TWO_12)
    else
      S64((x % TWO_26) * TWO_38 + (y % TWO_12) * TWO_26 + z % TWO_26)
  }

  /** The coordinates readPosition takes out of the long, as written: x is `v >> 38`;
      before 1.14 y is `(v >> 26) & 0xfff` and z the signed low 26 bits; from 1.14 y is
      the signed low 12 bits and z is again the signed low 26 bits. */
  function UnpackAsWritten(p: Protocol, v: Int64): (int, int, int) {
    if NewLayout(p) then (v / TWO_38, Signed12(v), Signed26(v))
    else (v / TWO_38, (v / TWO_26) % TWO_12, Signed26(v))
  }

  /** The reading the layout of 1.14 calls for: z is the signed 26 bits at offset 12,
      `(v << 26) >> 38`. Before 1.14 it is the reading as written. */
  function Unpack(p: Protocol, v: Int64): (int, int, int) {
    if NewLayout(p) then (v / TWO_38, Signed12(v), Signed26(v / TWO_12))
    else UnpackAsWritten(p, v)
  }

  /** Coordinates that fit the packed fields: 26-bit signed x and z, and a y that is
      unsigned 12-bit before 1.14 and signed 12-bit from 1.14. */
  predicate Fits(p: Protocol, x: int, y: int, z: int) {
    -0x200_0000 <= x < TWO_25 && -0x200_0000 <= z < TWO_25 &&
    (if NewLayout(p) then -0x800 <= y < 0x800 else 0 <= y < TWO_12)
  }

  /** The packed long is x times 2^38 plus the low 38 bits of the other two fields. */
  lemma PackedValue(x: int, low: int)
    requires -0x200_0000 <= x < TWO_25 && 0 <= low < TWO_38
    ensures S64((x % TWO_26) * TWO_38 + low) == x * TWO_38 + low
  {
    var w := (x % TWO_26) * TWO_38 + low;
    if x >= 0 {
      assert x % TWO_26 == x;
      assert w < TWO_63;
    } else {
      assert x % TWO_26 == x + TWO_26;
      assert w == x * TWO_38 + low + TWO_64;
      assert TWO_63 <= w < TWO_64;
    }
  }

  /** Euclidean division by a positive constant is determined by quotient and remainder. */
  lemma DivModOf(v: int, q: int, r: int, d: int)
    requires 0 < d && 0 <= r < d && v == q * d + r
    ensures v / d == q && v % d == r
  {
    var q', r' := v / d, v % d;
    assert (q - q') * d == r' - r;
    if q - q' >= 1 {
      MulAtLeast(q - q', d);
    } else if q' - q >= 1 {
      MulAtLeast(q' - q, d);
    }
  }

  lemma MulAtLeast(a: int, d: int)
    requires a >= 1 && d > 0
    ensures a * d >= d
  {
  }

  /** Before 1.14 readPosition recovers every coordinate that fits its field. */
  lemma OldLayoutRoundTrip(p: Protocol, x: int, y: int, z: int)
    requires !NewLayout(p) && Fits(p, x, y, z)
    ensures UnpackAsWritten(p, Pack(p, x, y, z)) == (x, y, z)
  {
    var zz := z % TWO_26;
    var v := Pack(p, x, y, z);
    assert y % TWO_12 == y;
    PackedValue(x, y * TWO_26 + zz);
    assert v == (x * TWO_12 + y) * TWO_26 + zz;
    DivModOf(v, x * TWO_12 + y, zz, TWO_26);
    DivModOf(x * TWO_12 + y, x, y, TWO_12);
    assert v == x * TWO_38 + (y * TWO_26 + zz);
    DivModOf(v, x, y * TWO_26 + zz, TWO_38);
  }

  /** From 1.14 the intended reading recovers every coordinate that fits its field. */
  lemma NewLayoutRoundTrip(p: Protocol, x: int, y: int, z: int)
    requires NewLayout(p) && Fits(p, x, y, z)
    ensures Unpack(p, Pack(p, x, y, z)) == (x, y, z)
  {
    var zz, yy := z % TWO_26, y % TWO_12;
    var v := Pack(p, x, y, z);
    PackedValue(x, zz * TWO_12 + yy);
    assert v == (x * TWO_26 + zz) * TWO_12 + yy;
    DivModOf(v, x * TWO_26 + zz, yy, TWO_12);
    DivModOf(x * TWO_26 + zz, x, zz, TWO_26);
    assert v == x * TWO_38 + (zz * TWO_12 + yy);
    DivModOf(v, x, zz * TWO_12 + yy, TWO_38);
  }

  /** From 1.14 readPosition as written does not give back z: the position (0, 0, 1) is
      packed as 4096 and read back with z = 4096. */
  lemma NewLayoutLosesZ(p: Protocol)
    requires NewLayout(p)
    ensures Fits(p, 0, 0, 1) && Pack(p, 0, 0, 1) == 4096
    ensures UnpackAsWritten(p, Pack(p, 0, 0, 1)) == (0, 0, 4096)
  {
  }

  /** From 1.14 readPosition as written still gives back x and y, but its z is made of
      the low 14 bits of z followed by the 12 bits of y. */
  lemma NewLayoutAsWritten(p: Protocol, x: int, y: int, z: int)
    requires NewLayout(p) && Fits(p, x, y, z)
    ensures UnpackAsWritten(p, Pack(p, x, y, z)).0 == x
    ensures UnpackAsWritten(p, Pack(p, x, y, z)).1 == y
    ensures UnpackAsWritten(p, Pack(p, x, y, z)).2 == Signed26((z % 0x4000) * TWO_12 + y % TWO_12)
  {
    NewLayoutRoundTrip(p, x, y, z);
    LowFieldOfNewLayout(p, x, y, z);
  }

  /** From 1.14 the low 26 bits of the packed long are the low 14 bits of z followed by
      the 12 bits of y. */
  lemma LowFieldOfNewLayout(p: Protocol, x: int, y: int, z: int)
    requires NewLayout(p) && Fits(p, x, y, z)
    ensures Signed26(Pack(p, x, y, z)) == Signed26((z % 0x4000) * TWO_12 + y % TWO_12)
  {
    var zz, yy := z % TWO_26, y % TWO_12;
    var v := Pack(p, x, y, z);
    PackedValue(x, zz * TWO_12 + yy);
    var low := (zz % 0x4000) * TWO_12 + yy;
    assert v == (x * 0x1000 + zz / 0x4000) * TWO_26 + low;
    DivModOf(v, x * 0x1000 + zz / 0x4000, low, TWO_26);
    assert zz % 0x4000 == z % 0x4000 by {
      DivModOf(z, (z / TWO_26) * 0x1000 + zz / 0x4000, zz % 0x4000, 0x4000);
    }
    DivModOf(low, 0, low, TWO_26);
  }
}
