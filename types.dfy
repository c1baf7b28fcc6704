/** Machine-level value types shared by every part of the emulator, and the
    fault channel that stands for the two exceptions the C# code can raise. */
module Types {

  /** A C# `byte` value. Arithmetic on it is written out with `ToByte`, which
      wraps modulo 256 as the C# `byte` operators and casts do. */
  type byte = x: int | 0 <= x < 256

  /** The flags register. The code only ever works on it with `&`, `|` and
      `^` against the single-bit flag masks, so it is kept as eight bits. */
  type bits8 = bv8

  /** A C# `UInt16` value: addresses and the program counter. */
  type word = x: int | 0 <= x < 0x10000

  /** Number of cells in the memory array: `UInt16.MaxValue`, one short of
      the 16-bit address space, so index 0xFFFF does not exist. */
  const MaxMem: int := 0xFFFF

  /** The cast `(byte)n`, and the result of `++`, `--` and `+` on bytes: the
      low eight bits of an integer. */
  function ToByte(n: int): byte
    requires -256 <= n < 512
  {
    if n < 0 then n + 256 else if n < 256 then n else n - 256
  }

  /** The cast `(UInt16)n`: the low sixteen bits of an integer. */
  function ToWord(n: int): word
    requires -0x10000 <= n < 0x20000
  {
    if n < 0 then n + 0x10000 else if n < 0x10000 then n else n - 0x10000
  }

  /** On the values the code produces, the casts are reduction modulo 2^8
      and 2^16. */
  lemma WrapIsModulo(n: int)
    ensures -256 <= n < 512 ==> ToByte(n) == n % 256
    ensures -0x10000 <= n < 0x20000 ==> ToWord(n) == n % 0x10000
  {
  }

  /** Bit 7 of a byte, as the code tests it with `v & 0x80`, is set exactly
      for the upper half of the byte range. */
  lemma HighBitIsUpperHalf(v: byte)
    ensures ((v as bv8) & 0x80 != 0) <==> v >= 0x80
  {
  }

  /** The little-endian word whose low byte is `lo` and high byte `hi`. */
  function WordOf(lo: byte, hi: byte): (w: word)
  {
    lo + 256 * hi
  }

  /** Assembling the word as `GetWord` does, `lo | hi << 8` on 16 bits, gives
      `WordOf(lo, hi)`. */
  lemma OrShiftIsWordOf(lo: bv8, hi: bv8)
    ensures ((lo as bv16) | ((hi as bv16) << 8)) as int == WordOf(lo as int, hi as int)
  {
  }

  /** The cast `(byte)w`: the low eight bits. */
  function LowByte(w: word): byte
  {
    w % 256
  }

  /** The cast `(byte)(w >> 8)`: the high eight bits. */
  function HighByte(w: word): byte
  {
    w / 256
  }

  /** Splitting a word into its two bytes and joining them again gives the
      word back. */
  lemma WordBytesRoundTrip(w: word)
    ensures WordOf(LowByte(w), HighByte(w)) == w
  {
  }

  /** Joining two bytes and splitting the word again gives the two bytes back. */
  lemma BytesWordRoundTrip(lo: byte, hi: byte)
    ensures LowByte(WordOf(lo, hi)) == lo && HighByte(WordOf(lo, hi)) == hi
  {
  }

  /** The exceptions of the C# code: `KeyNotFoundException` for an opcode that
      is not in the table, `IndexOutOfRangeException` for a memory index past
      the end of the array. */
  datatype Fault = UnknownOpcode(opcode: byte) | IndexOutOfRange

  /** Outcome of an operation that returns nothing but may throw. */
  datatype Status = Pass | Fail(fault: Fault)
  {
    predicate IsFailure() { Fail? }

    function PropagateFailure(): Status
      requires Fail?
    {
      this
    }
  }

  /** Outcome of a computation that returns a value or throws. */
  datatype Result<T> = Ok(value: T) | Err(fault: Fault)
  {
    predicate IsFailure() { Err? }

    function PropagateFailure<U>(): Result<U>
      requires Err?
    {
      Err(fault)
    }

    function Extract(): T
      requires Ok?
    {
      value
    }

    /** The same outcome with the value dropped. */
    function Outcome(): Status
    {
      if Ok? then Pass else Fail(fault)
    }
  }

  datatype Option<T> = None | Some(value: T)
}
