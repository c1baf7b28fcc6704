/** The memory bus and the per-instruction record: `Memory` owns the byte
    array, and every read or write through `GetByte`, `SetByte` or `GetWord`
    charges one cycle to the `Cycle` record of the instruction being run. */
module Bus {
  import opened Types
  import opened Instructions

  // ---------------------------------------------------------------------
  // Memory contents as a value

  /** `ram[index]`, or the fault C# raises for an index past the end. */
  function ReadAt(mem: seq<byte>, index: int): (r: Result<byte>)
    requires |mem| == MaxMem && 0 <= index
  {
    if index < MaxMem then Ok(mem[index]) else Err(IndexOutOfRange)
  }

  /** `ram[index] = v`, or the fault C# raises for an index past the end. */
  function WriteAt(mem: seq<byte>, index: int, v: byte): (r: Result<seq<byte>>)
    requires |mem| == MaxMem && 0 <= index
  {
    if index < MaxMem then Ok(mem[index := v]) else Err(IndexOutOfRange)
  }

  /** The little-endian word that `GetWord(c, address, offset)` reads: the low
      byte at `address + offset`, the high byte at `address + offset'`, where
      `offset'` is the byte `offset + 1` and so wraps to 0 after 255. Neither
      index is reduced modulo 0x10000. */
  function WordAt(mem: seq<byte>, address: word, offset: byte): (r: Result<word>)
    requires |mem| == MaxMem
    ensures r.Ok? <==> address + offset < MaxMem && address + ToByte(offset + 1) < MaxMem
    ensures r.Ok? ==> r.value == mem[address + offset] as int + 256 * mem[address + ToByte(offset + 1)] as int
  {
    var lo :- ReadAt(mem, address + offset);
    var hi :- ReadAt(mem, address + ToByte(offset + 1));
    Ok(WordOf(lo, hi))
  }

  /** Address of the i-th operand byte of the instruction at `startPC`; the
      16-bit counter of `ReadOperand` wraps. */
  function OperandAddress(startPC: word, i: nat): word
  {
    (startPC + 1 + i) % 0x10000
  }

  /** None of the first `count` operand addresses is past the end of memory. */
  predicate OperandInRange(startPC: word, count: nat)
  {
    forall i :: 0 <= i < count ==> OperandAddress(startPC, i) < MaxMem
  }

  /** The first `count` operand bytes of the instruction at `startPC`. */
  function Captured(mem: seq<byte>, startPC: word, count: nat): (s: seq<byte>)
    requires |mem| == MaxMem && OperandInRange(startPC, count)
  {
    seq(count, i requires 0 <= i < count => mem[OperandAddress(startPC, i)])
  }

  /** Capturing one more operand byte appends the byte at the next address. */
  lemma CapturedNext(mem: seq<byte>, startPC: word, k: nat)
    requires |mem| == MaxMem && OperandInRange(startPC, k) && OperandAddress(startPC, k) < MaxMem
    ensures OperandInRange(startPC, k + 1)
    ensures Captured(mem, startPC, k + 1) == Captured(mem, startPC, k) + [mem[OperandAddress(startPC, k)]]
  {
  }

  /** `mem` with `bs` copied in from `address` on. */
  function Loaded(mem: seq<byte>, address: word, bs: seq<byte>): (m: seq<byte>)
    requires address + |bs| <= |mem|
  {
    seq(|mem|, i requires 0 <= i < |mem| => if address <= i < address + |bs| then bs[i - address] else mem[i])
  }

  /** A copied byte reads back as itself and every other cell keeps its value. */
  lemma LoadedReadBack(mem: seq<byte>, address: word, bs: seq<byte>)
    requires |mem| == MaxMem && address + |bs| <= MaxMem
    ensures |Loaded(mem, address, bs)| == MaxMem
    ensures forall i :: 0 <= i < |bs| ==> ReadAt(Loaded(mem, address, bs), address + i) == Ok(bs[i])
    ensures forall i :: 0 <= i < MaxMem && !(address <= i < address + |bs|) ==> Loaded(mem, address, bs)[i] == mem[i]
  {
  }

  // ---------------------------------------------------------------------
  // The per-instruction record

  /** The record created for every fetched instruction. */
  class Cycle {
    /** The descriptor of the instruction, set once it has been looked up. */
    var Operand: Option<Instruction>
    /** Cycles charged so far; a byte, so it wraps after 255. */
    var ActualCycles: byte
    /** The program counter at fetch time. */
    const StartPC: word
    /** The operand bytes, captured for display. */
    var Bytes: seq<byte>

    constructor (PC: word)
      ensures StartPC == PC && ActualCycles == 1 && Bytes == [] && Operand == None
    {
      StartPC := PC;
      ActualCycles := 1;
      Bytes := [];
      Operand := None;
    }

    /** Appends the operand bytes that follow the opcode, read without
        charging cycles. */
    method ReadOperand(RAM: Memory) returns (r: Status)
      requires RAM.Valid() && Operand.Some?
      modifies this`Bytes
      ensures r.Pass? <==> OperandInRange(StartPC, OperandCount(Operand.value))
      ensures r.Pass? ==> Bytes == old(Bytes) + Captured(RAM.ram[..], StartPC, OperandCount(Operand.value))
      ensures r.Fail? ==> r.fault == IndexOutOfRange
    {
      var n := OperandCount(Operand.value);
      ghost var mem := RAM.ram[..];
      var add: word := (StartPC + 1) % 0x10000;
      var i := 0;
      while i < n
        invariant 0 <= i <= n
        invariant add == OperandAddress(StartPC, i)
        invariant OperandInRange(StartPC, i)
        invariant Bytes == old(Bytes) + Captured(mem, StartPC, i)
      {
        var b := RAM.ReadByteDebug(add);
        if b.Err? {
          return Fail(IndexOutOfRange);
        }
        CapturedNext(mem, StartPC, i);
        Bytes := Bytes + [b.value];
        add := (add + 1) % 0x10000;
        i := i + 1;
      }
      r := Pass;
    }
  }

  // ---------------------------------------------------------------------
  // The memory bus

  class Memory {
    /** The RAM: `UInt16.MaxValue` cells. */
    const ram: array<byte>

    ghost predicate Valid()
    {
      ram.Length == MaxMem
    }

    /** A fresh memory: every cell holds 0. */
    constructor ()
      ensures Valid() && fresh(ram)
      ensures forall i :: 0 <= i < MaxMem ==> ram[i] == 0
    {
      ram := new byte[MaxMem](_ => 0);
    }

    /** Reads a byte without touching any cycle counter. Only address 0xFFFF
        is past the end of the array. */
    function ReadByteDebug(Address: word): (r: Result<byte>)
      requires Valid()
      reads ram
      ensures r.Ok? <==> Address != 0xFFFF
      ensures r.Ok? ==> r.value == ram[Address]
    {
      if Address < ram.Length then Ok(ram[Address]) else Err(IndexOutOfRange)
    }

    /** Reads `ram[Address + offset]`, charging one cycle even when the index
        is past the end. */
    method GetByte(c: Cycle, Address: word, offset: byte) returns (r: Status, value: byte)
      requires Valid()
      modifies c`ActualCycles
      ensures c.ActualCycles == ToByte(old(c.ActualCycles) + 1)
      ensures r == ReadAt(ram[..], Address + offset).Outcome()
      ensures r.Pass? ==> value == ram[Address + offset]
    {
      c.ActualCycles := ToByte(c.ActualCycles + 1);
      var index := Address + offset;
      if index >= ram.Length {
        return Fail(IndexOutOfRange), 0;
      }
      return Pass, ram[index];
    }

    /** Writes `ram[Address + offset] := value`, charging one cycle even when
        the index is past the end; no other cell changes. */
    method SetByte(c: Cycle, Address: word, offset: byte, value: byte) returns (r: Status)
      requires Valid()
      modifies c`ActualCycles, ram
      ensures c.ActualCycles == ToByte(old(c.ActualCycles) + 1)
      ensures r == WriteAt(old(ram[..]), Address + offset, value).Outcome()
      ensures r.Pass? ==> ram[..] == old(ram[..])[Address + offset := value]
      ensures r.Fail? ==> ram[..] == old(ram[..])
    {
      c.ActualCycles := ToByte(c.ActualCycles + 1);
      var index := Address + offset;
      if index >= ram.Length {
        return Fail(IndexOutOfRange);
      }
      ram[index] := value;
      return Pass;
    }

    /** Reads the little-endian word at `Address + offset` with two byte reads,
        charging one cycle for each read made, so two when it succeeds. */
    method GetWord(c: Cycle, Address: word, offset: byte) returns (r: Status, address: word)
      requires Valid()
      modifies c`ActualCycles
      ensures r == WordAt(ram[..], Address, offset).Outcome()
      ensures r.Pass? ==> address == WordAt(ram[..], Address, offset).value
      ensures r.Pass? ==> c.ActualCycles == ToByte(old(c.ActualCycles) + 2)
    {
      ghost var mem := ram[..];
      address := 0;
      var lo, hi;
      r, lo := GetByte(c, Address, offset);
      if r.Fail? {
        return;
      }
      var offset' := ToByte(offset + 1);
      r, hi := GetByte(c, Address, offset');
      if r.Fail? {
        return;
      }
      assert lo == mem[Address + offset] && hi == mem[Address + offset'];
      // `lo | hi << 8`; see `Types.OrShiftIsWordOf`
      address := WordOf(lo, hi);
      r := Pass;
    }

    /** Copies `Bytes` into memory from `Address` on without charging cycles.
        The copy stops with a fault at the first index past the end, after the
        bytes before it have been written. */
    method LoadMemnory(Address: word, Bytes: seq<byte>) returns (r: Status)
      requires Valid()
      modifies ram
      ensures r.Pass? <==> Address + |Bytes| <= MaxMem
      ensures r.Fail? ==> r.fault == IndexOutOfRange
      ensures ram[..] == Loaded(old(ram[..]), Address, Bytes[..if r.Pass? then |Bytes| else MaxMem - Address])
      ensures r.Pass? ==> forall i :: 0 <= i < |Bytes| ==> ReadByteDebug(Address + i) == Ok(Bytes[i])
    {
      var i := 0;
      while i < |Bytes|
        invariant 0 <= i <= |Bytes| && Address + i <= MaxMem
        invariant ram[..] == Loaded(old(ram[..]), Address, Bytes[..i])
      {
        if Address + i >= ram.Length {
          return Fail(IndexOutOfRange);
        }
        ram[Address + i] := Bytes[i];
        i := i + 1;
      }
      LoadedReadBack(old(ram[..]), Address, Bytes);
      return Pass;
    }
  }
}
