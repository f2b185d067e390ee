/** VarInt and VarLong: mutable holders of an int / long whose `size()` counts the bytes
    of the varint encoding by shifting the value until nothing is left. */
module VarNums {
  import opened Base
  import opened Wire

  class VarInt {
    var value: Int32

    constructor (value: Int32)
      ensures this.value == value
    {
      this.value := value;
    }

    method Set(value: Int32)
      modifies this
      ensures this.value == value
    {
      this.value := value;
    }

    /** size(): one byte, plus one for each `>>>= 7` that leaves something; the count
        writeVarInt emits for the same value. */
    method Size() returns (bytes: int)
      ensures bytes == |VarIntBytes(value)|
      ensures 1 <= bytes <= 5 && (bytes == 1 <==> 0 <= value < 128)
      ensures value < 0 ==> bytes == 5
    {
      VarIntSizes(value);
      Pow2Values();
      LebLength(U32(value), 5);
      bytes := CountGroups(U32(value));
    }

    /** equals: the same object, or another VarInt holding the same value; never null. */
    predicate Equals(obj: VarInt?)
      reads this, obj
      ensures Equals(obj) <==> obj != null && obj.value == value
    {
      obj == this || (obj != null && value == obj.value)
    }
  }

  class VarLong {
    var value: Int64

    constructor (value: Int64)
      ensures this.value == value
    {
      this.value := value;
    }

    method Set(value: Int64)
      modifies this
      ensures this.value == value
    {
      this.value := value;
    }

    /** size(): the byte count of writeVarLong for the same value. */
    method Size() returns (bytes: int)
      ensures bytes == |VarLongBytes(value)|
      ensures 1 <= bytes <= 10 && (bytes == 1 <==> 0 <= value < 128)
      ensures value < 0 ==> bytes == 10
    {
      VarLongSizes(value);
      bytes := CountGroups(U64(value));
    }
  }

  /** The loop both size() methods share, on the unsigned bit pattern `u`. */
  method CountGroups(u: nat) returns (bytes: int)
    ensures bytes == |Leb(u)|
  {
    bytes := 1;
    var temp: nat := u / TWO_7;
    LebLengthStep(u);
    while temp != 0
      invariant |Leb(u)| == bytes + (if temp == 0 then 0 else |Leb(temp)|)
      decreases temp
    {
      LebLengthStep(temp);
      temp := temp / TWO_7;
      bytes := bytes + 1;
    }
  }

  /** The length of the encoding: one byte, and more if the shift leaves something. */
  lemma LebLengthStep(u: nat)
    ensures |Leb(u)| == 1 + (if u / TWO_7 == 0 then 0 else |Leb(u / TWO_7)|)
  {
  }
}
