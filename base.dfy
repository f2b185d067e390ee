/** Shared vocabulary of the model: optional and failing results, the exceptions the
    Java code throws, bytes, and Java's fixed-width integers. */
module Base {

  datatype Option<+T> = None | Some(value: T)

  /** The exceptions of the source, one constructor per kind the core throws. */
  datatype Error =
    | EndOfFile                     // EOFException from DataReader.readByte
    | BooleanAboveOne(value: int)   // IllegalStateException from readBoolean
    | VarNumTooBig                  // RuntimeException from readVarInt / readVarLong
    | NegativeArraySize             // new byte[n] / int[n] / long[n] with n < 0
    | UnknownTokenType              // IllegalStateException from readFromTokenType
    | UnknownTagId(id: int)         // IllegalStateException from the NBT read loops
    | MissingName                   // IllegalArgumentException: tag without a name
    | UnexpectedName                // IllegalArgumentException: list child with a name
    | WrongChildId                  // IllegalArgumentException: list child of another id
    | IndexOutOfBounds              // IndexOutOfBoundsException
    | UndefinedVariable(name: string) // IllegalStateException from the deserializer
    | NoMatchingBranch              // a match rule without a branch for the value
    | ClassCast                     // ClassCastException
    | NullPointer                   // NullPointerException
    | NumberFormat                  // NumberFormatException from Integer.parseInt
    | UnknownPlatform               // IllegalStateException from OS
    | DefinitionUnavailable         // the schema of a packet id could not be built
    | ConcurrentModification        // ConcurrentModificationException

  datatype Result<+T> = Ok(value: T) | Err(error: Error) {
    predicate IsFailure() { Err? }
    function PropagateFailure<U>(): Result<U>
      requires Err?
    {
      Err(error)
    }
    function Extract(): T
      requires Ok?
    {
      value
    }
  }

  /** An unsigned byte, as `read() & 0xFF` returns it. */
  type Byte = x: int | 0 <= x < 256

  const TWO_7: nat := 0x80
  const TWO_8: nat := 0x100
  const TWO_12: nat := 0x1000
  const TWO_16: nat := 0x1_0000
  const TWO_25: nat := 0x200_0000
  const TWO_26: nat := 0x400_0000
  const TWO_31: nat := 0x8000_0000
  const TWO_32: nat := 0x1_0000_0000
  const TWO_38: nat := 0x40_0000_0000
  const TWO_63: nat := 0x8000_0000_0000_0000
  const TWO_64: nat := 0x1_0000_0000_0000_0000

  /** Java `int` and `long` values. */
  type Int32 = x: int | -0x8000_0000 <= x < 0x8000_0000
  type Int64 = x: int | -0x8000_0000_0000_0000 <= x < 0x8000_0000_0000_0000

  function Pow2(k: nat): (r: nat)
    ensures r >= 1
  {
    if k == 0 then 1 else 2 * Pow2(k - 1)
  }

  /** The two's-complement bit pattern of an int, as an unsigned number. */
  function U32(x: int): (u: nat)
    ensures u < TWO_32
  {
    x % TWO_32
  }

  function U64(x: int): (u: nat)
    ensures u < TWO_64
  {
    x % TWO_64
  }

  /** The signed value of a bit pattern: Java's narrowing to `int` / `long`. */
  function S32(u: int): (x: Int32)
  {
    var m := u % TWO_32;
    if m < TWO_31 then m else m - TWO_32
  }

  function S64(u: int): (x: Int64)
  {
    var m := u % TWO_64;
    if m < TWO_63 then m else m - TWO_64
  }

  /** The narrowing keeps the value modulo the width. */
  lemma S32Wraps(u: int)
    ensures (S32(u) - u) % TWO_32 == 0
  {
  }

  lemma S64Wraps(u: int)
    ensures (S64(u) - u) % TWO_64 == 0
  {
  }

  lemma SignedOfUnsigned32(x: Int32)
    ensures S32(U32(x)) == x
  {
  }

  lemma SignedOfUnsigned64(x: Int64)
    ensures S64(U64(x)) == x
  {
  }

  lemma ConcatAssoc<T>(a: seq<T>, b: seq<T>, c: seq<T>)
    ensures a + (b + c) == (a + b) + c
  {
  }

  function Min(a: int, b: int): int { if a < b then a else b }
  function Max(a: int, b: int): int { if a < b then b else a }
}
