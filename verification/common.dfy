/** Shared vocabulary of the shader-package model: bytes, the 32-bit integer
    types of the original program, and the failure-compatible result type that
    stands in for the exceptions its readers throw. */
module Common {

  /** One octet of a file or of a blob. */
  type byte = x: int | 0 <= x < 0x100

  /** A C# `int`. */
  type int32 = x: int | -0x8000_0000 <= x < 0x8000_0000

  /** A C# `uint`. */
  type uint32 = x: int | 0 <= x < 0x1_0000_0000

  const TWO_31: int := 0x8000_0000
  const TWO_32: int := 0x1_0000_0000

  /** The value of `TWO_31`, for proofs that hide every definition. */
  lemma Two31()
    ensures TWO_31 == 0x8000_0000
  {
  }

  /** The cast `(uint)value`: the same 32-bit pattern read as unsigned. */
  function ToUint32(v: int32): (u: uint32)
    ensures v >= 0 ==> u == v
    ensures v < 0 ==> u >= TWO_31
  {
    if v < 0 then v + TWO_32 else v
  }

  /** The cast keeps the value modulo 2^32. */
  lemma SameBitPattern(v: int32)
    ensures (ToUint32(v) - v) % TWO_32 == 0
  {
  }

  /** The cast `(int)u`: the same 32-bit pattern read as signed. */
  function ToInt32(u: uint32): (v: int32)
    ensures ToUint32(v) == u
  {
    if u < TWO_31 then u else u - TWO_32
  }

  /** Casting to `uint` and back gives the int back. */
  lemma Int32RoundTrip(v: int32)
    ensures ToInt32(ToUint32(v)) == v
  {
  }

  function Min(a: int, b: int): int
  {
    if a <= b then a else b
  }

  datatype Option<+T> = None | Some(value: T)

  /** The exceptions the loaders can raise, one constructor per cause. */
  datatype Error =
    | EndOfStream                         // ReadByte / ReadInt32 past the end of the file
    | VarIntTooLong                       // FormatException: five continuation bytes in a row
    | NegativeCount                       // ReadBytes with a negative count
    | SeekBeforeBegin                     // Seek to a negative file position
    | CorruptBlock                        // the decompressor rejects its input
    | NotUcsp                             // InvalidDataException: wrong magic
    | UnsupportedVersion(version: byte)   // NotSupportedException: version byte
    | UnsupportedCompression(kind: byte)  // NotSupportedException: compression byte

  datatype Result<+T> = Ok(value: T) | Fail(error: Error) {
    predicate IsFailure() { Fail? }

    function PropagateFailure<U>(): Result<U>
      requires Fail?
    {
      Fail(error)
    }

    function Extract(): T
      requires Ok?
    {
      value
    }
  }

  /** The bytes `e` lie in `s` starting at `pos`. */
  predicate At(s: seq<byte>, pos: nat, e: seq<byte>)
  {
    pos + |e| <= |s| && s[pos..pos + |e|] == e
  }

  /** A value read from a file together with the position just after it. */
  datatype Parsed<+T> = Parsed(value: T, next: nat)
}
