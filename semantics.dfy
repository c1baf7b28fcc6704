/** What one instruction does, written as functions on register and memory
    values. `Processor.CPU.ExecuteInstruction` is proved to update the machine
    exactly as `Execute` says; the properties of the instruction set are
    lemmas about `Execute`. */
module Semantics {
  import opened Types
  import opened Instructions
  import opened Bus

  const FlagCarry: bits8 := 1
  const FlagZero: bits8 := 2
  const FlagInterruptDisable: bits8 := 4
  const FlagDecimal: bits8 := 8
  const FlagBFlag: bits8 := 16
  const FlagStack5Flag: bits8 := 32
  const FlagOverflow: bits8 := 64
  const FlagNegative: bits8 := 128

  /** The register file of the CPU. */
  datatype Regs = Regs(PC: word, SP: byte, A: byte, X: byte, Y: byte, Flags: bits8, Opcode: byte)

  /** The machine after an instruction: registers, memory and the cycle count
      of the instruction's record. */
  datatype Post = Post(regs: Regs, mem: seq<byte>, cycles: byte)

  /** The three data registers an instruction can name. */
  datatype Reg = RA | RX | RY

  function Get(r: Regs, reg: Reg): byte
  {
    match reg
    case RA => r.A
    case RX => r.X
    case RY => r.Y
  }

  function Put(r: Regs, reg: Reg, v: byte): (r': Regs)
    ensures Get(r', reg) == v
    ensures forall other :: other != reg ==> Get(r', other) == Get(r, other)
    ensures r'.PC == r.PC && r'.SP == r.SP && r'.Flags == r.Flags && r'.Opcode == r.Opcode
  {
    match reg
    case RA => r.(A := v)
    case RX => r.(X := v)
    case RY => r.(Y := v)
  }

  /** `SetZeroAndNegativeFlag`: Z is raised or cleared on `v == 0`, then N on
      bit 7 of `v` (`v & FlagNegative`, which is `v >= 0x80` by
      `Types.HighBitIsUpperHalf`). */
  function ZeroNegative(flags: bits8, v: byte): bits8
  {
    var f1 := if v == 0 then flags | FlagZero else flags & (0xFF ^ FlagZero);
    if v >= 0x80 then f1 | FlagNegative else f1 & (0xFF ^ FlagNegative)
  }

  /** After `SetZeroAndNegativeFlag(v)`, Z is set exactly when `v` is 0, N
      exactly when bit 7 of `v` is set, and the other six flags are kept. */
  lemma ZeroNegativeFlags(flags: bits8, v: byte)
    ensures (ZeroNegative(flags, v) & FlagZero != 0) <==> v == 0
    ensures (ZeroNegative(flags, v) & FlagNegative != 0) <==> ((v as bv8) & 0x80 != 0)
    ensures ZeroNegative(flags, v) & 0x7D == flags & 0x7D
  {
  }

  /** C#'s `~` on a 32-bit `int`. */
  function Complement(n: int): int
  {
    -n - 1
  }

  /** `ConvertTwosComplementByteToSByte`: a byte with bit 7 clear is returned
      as is; otherwise `(sbyte)(byte)((~(raw - 1)) * -1)` is computed on
      `int`s. The result is the signed byte whose bit pattern is `raw`. */
  function TwosComplement(raw: byte): int
  {
    if raw < 0x80 then raw
    else
      var asByte := ToByte(Complement(raw - 1) * -1);
      if asByte < 128 then asByte else asByte - 256
  }

  /** The signed reading of a byte: a byte below 0x80 stands for itself and
      any other for itself minus 256. */
  lemma TwosComplementValue(raw: byte)
    ensures TwosComplement(raw) == if raw < 0x80 then raw else raw - 256
    ensures -128 <= TwosComplement(raw) < 128
  {
  }

  /** The stack cell for a stack register: `SP | 0x100`, always in page 1. */
  function StackAddress(sp: byte): (a: word)
    ensures 0x100 <= a < 0x200
  {
    0x100 + sp
  }

  /** The register file right before the first instruction of `Reset`:
      `JMP` is forced as the opcode one byte below the reset vector, the stack
      register is reset and nothing else is cleared. */
  function ResetRegs(r: Regs): (r': Regs)
  {
    r.(PC := 0xFFFB, SP := 0xFF, Opcode := 0x4C)
  }

  /** No instruction changes the size of memory or the opcode register. */
  predicate Preserves(r: Regs, mem: seq<byte>, p: Result<Post>)
  {
    p.Ok? ==> |p.value.mem| == |mem| && p.value.regs.Opcode == r.Opcode
  }

  // ---------------------------------------------------------------------
  // The instruction families. `cycles` is the count already charged to the
  // instruction's record and `len` the `Bytes` field of its descriptor.

  /** `LDA`/`LDX`/`LDY` immediate, and `LDA (zp,X)` and `LDA (zp),Y`, which the
      code treats the same way: the byte after the opcode is loaded. */
  function LoadImmediate(r: Regs, mem: seq<byte>, cycles: byte, len: byte, reg: Reg): (p: Result<Post>)
    requires |mem| == MaxMem
    ensures Preserves(r, mem, p)
    ensures p.Ok? ==> p.value.mem == mem
  {
    var v :- ReadAt(mem, r.PC + 1);
    Ok(Post(Put(r, reg, v).(Flags := ZeroNegative(r.Flags, v), PC := ToWord(r.PC + len)), mem, ToByte(cycles + 1)))
  }

  /** `LDA abs` and `LDA abs,X`: the byte at the operand word is loaded into
      A; X is not added. */
  function LoadAbsolute(r: Regs, mem: seq<byte>, cycles: byte, len: byte): (p: Result<Post>)
    requires |mem| == MaxMem
    ensures Preserves(r, mem, p)
    ensures p.Ok? ==> p.value.mem == mem
  {
    var address :- WordAt(mem, r.PC, 1);
    var v :- ReadAt(mem, address);
    Ok(Post(r.(A := v, Flags := ZeroNegative(r.Flags, v), PC := ToWord(r.PC + len)), mem, ToByte(cycles + 3)))
  }

  /** `INX`, `DEX`, `INY`, `DEY`: `++` or `--` (`delta` 1 or -1) on a byte
      register, with wrap-around. */
  function Bump(r: Regs, mem: seq<byte>, cycles: byte, len: byte, reg: Reg, delta: int): (p: Result<Post>)
    requires delta == 1 || delta == -1
    ensures Preserves(r, mem, p)
    ensures p.Ok? ==> p.value.mem == mem
  {
    var v := ToByte(Get(r, reg) + delta);
    Ok(Post(Put(r, reg, v).(Flags := ZeroNegative(r.Flags, v), PC := ToWord(r.PC + len)), mem, ToByte(cycles + 1)))
  }

  /** `TAX`, `TXA`, `TAY`, `TYA`. */
  function Transfer(r: Regs, mem: seq<byte>, cycles: byte, len: byte, from: Reg, to: Reg): (p: Result<Post>)
    ensures Preserves(r, mem, p)
    ensures p.Ok? ==> p.value.mem == mem
  {
    var v := Get(r, from);
    Ok(Post(Put(r, to, v).(Flags := ZeroNegative(r.Flags, v), PC := ToWord(r.PC + len)), mem, ToByte(cycles + 1)))
  }

  /** `SEC`, `SEI`, `SED`: one flag bit is raised. */
  function SetFlag(r: Regs, mem: seq<byte>, cycles: byte, len: byte, mask: bits8): (p: Result<Post>)
    ensures Preserves(r, mem, p)
    ensures p.Ok? ==> p.value.mem == mem
  {
    Ok(Post(r.(Flags := r.Flags | mask, PC := ToWord(r.PC + len)), mem, ToByte(cycles + 1)))
  }

  /** `CLC`, `CLI`, `CLV`, `CLD`: one flag bit is cleared with
      `Flags &= 0xFF ^ mask`. */
  function ClearFlag(r: Regs, mem: seq<byte>, cycles: byte, len: byte, mask: bits8): (p: Result<Post>)
    ensures Preserves(r, mem, p)
    ensures p.Ok? ==> p.value.mem == mem
  {
    Ok(Post(r.(Flags := r.Flags & (0xFF ^ mask), PC := ToWord(r.PC + len)), mem, ToByte(cycles + 1)))
  }

  /** `NOP`. */
  function NoOperation(r: Regs, mem: seq<byte>, cycles: byte, len: byte): (p: Result<Post>)
    ensures Preserves(r, mem, p)
    ensures p.Ok? ==> p.value.mem == mem
  {
    Ok(Post(r.(PC := ToWord(r.PC + len)), mem, ToByte(cycles + 1)))
  }

  /** `BNE`: the test `(Flags &= FlagZero) == 0` keeps only the Z bit of the
      flags. With Z clear the signed operand is added to PC, with one more
      cycle for a backward branch; with Z set one cycle is charged. Both
      paths then skip the instruction. */
  function BranchNotEqual(r: Regs, mem: seq<byte>, cycles: byte, len: byte): (p: Result<Post>)
    requires |mem| == MaxMem
    ensures Preserves(r, mem, p)
    ensures p.Ok? ==> p.value.mem == mem
  {
    var flags := r.Flags & FlagZero;
    if flags == 0 then
      var off :- ReadAt(mem, r.PC + 1);
      var cycles' := if off >= 0x80 then ToByte(cycles + 2) else ToByte(cycles + 1);
      var pc := ToWord(r.PC + TwosComplement(off));
      Ok(Post(r.(Flags := flags, PC := ToWord(pc + len)), mem, cycles'))
    else
      Ok(Post(r.(Flags := flags, PC := ToWord(r.PC + len)), mem, ToByte(cycles + 1)))
  }

  /** `JMP abs`. */
  function Jump(r: Regs, mem: seq<byte>, cycles: byte): (p: Result<Post>)
    requires |mem| == MaxMem
    ensures Preserves(r, mem, p)
    ensures p.Ok? ==> p.value.mem == mem
  {
    var address :- WordAt(mem, r.PC, 1);
    Ok(Post(r.(PC := address), mem, ToByte(cycles + 2)))
  }

  /** `JMP (abs)`: the target is the word stored at the operand word. */
  function JumpIndirect(r: Regs, mem: seq<byte>, cycles: byte): (p: Result<Post>)
    requires |mem| == MaxMem
    ensures Preserves(r, mem, p)
    ensures p.Ok? ==> p.value.mem == mem
  {
    var indirect :- WordAt(mem, r.PC, 1);
    var address :- WordAt(mem, indirect, 0);
    Ok(Post(r.(PC := address), mem, ToByte(cycles + 4)))
  }

  /** `JSR abs`: the address of the instruction's last byte is pushed, low
      byte first, and PC moves to the operand word. */
  function JumpSubroutine(r: Regs, mem: seq<byte>, cycles: byte, len: byte): (p: Result<Post>)
    requires |mem| == MaxMem
    ensures Preserves(r, mem, p)
  {
    var address :- WordAt(mem, r.PC, 1);
    var ret := ToWord(ToWord(r.PC + len) - 1);
    var mem1 := mem[StackAddress(r.SP) := LowByte(ret)];
    var mem2 := mem1[StackAddress(ToByte(r.SP - 1)) := HighByte(ret)];
    Ok(Post(r.(PC := address, SP := ToByte(r.SP - 2)), mem2, ToByte(cycles + 5)))
  }

  /** `RTS`: two bytes are popped, the high byte first, and PC moves one past
      the word they form. */
  function ReturnFromSubroutine(r: Regs, mem: seq<byte>, cycles: byte): (p: Result<Post>)
    requires |mem| == MaxMem
    ensures Preserves(r, mem, p)
    ensures p.Ok? ==> p.value.mem == mem
  {
    var hi := mem[StackAddress(ToByte(r.SP + 1))];
    var lo := mem[StackAddress(ToByte(r.SP + 2))];
    Ok(Post(r.(PC := ToWord(WordOf(lo, hi) + 1), SP := ToByte(r.SP + 2)), mem, ToByte(cycles + 5)))
  }

  /** `STA abs` and `STX abs`. */
  function Store(r: Regs, mem: seq<byte>, cycles: byte, len: byte, reg: Reg): (p: Result<Post>)
    requires |mem| == MaxMem
    ensures Preserves(r, mem, p)
  {
    var address :- WordAt(mem, r.PC, 1);
    var mem' :- WriteAt(mem, address, Get(r, reg));
    Ok(Post(r.(PC := ToWord(r.PC + len)), mem', ToByte(cycles + 3)))
  }

  /** `ADC abs`: the byte at the operand word and the carry are added to A
      modulo 256; the carry flag is not updated. */
  function AddWithCarry(r: Regs, mem: seq<byte>, cycles: byte, len: byte): (p: Result<Post>)
    requires |mem| == MaxMem
    ensures Preserves(r, mem, p)
    ensures p.Ok? ==> p.value.mem == mem
  {
    var address :- WordAt(mem, r.PC, 1);
    var v :- ReadAt(mem, address);
    var sum := ToByte(r.A + v);
    var a := if r.Flags & FlagCarry != 0 then ToByte(sum + 1) else sum;
    Ok(Post(r.(A := a, Flags := ZeroNegative(r.Flags, a), PC := ToWord(r.PC + len)), mem, ToByte(cycles + 3)))
  }

  // ---------------------------------------------------------------------
  // The successful outcome of each family that reads memory, stated outright
  // for the CPU methods that implement them.

  lemma LoadImmediateOk(r: Regs, mem: seq<byte>, cycles: byte, len: byte, reg: Reg, v: byte)
    requires |mem| == MaxMem && ReadAt(mem, r.PC + 1) == Ok(v)
    ensures LoadImmediate(r, mem, cycles, len, reg)
      == Ok(Post(Put(r, reg, v).(Flags := ZeroNegative(r.Flags, v), PC := ToWord(r.PC + len)), mem, ToByte(cycles + 1)))
  {
  }

  lemma LoadAbsoluteOk(r: Regs, mem: seq<byte>, cycles: byte, len: byte, address: word, v: byte)
    requires |mem| == MaxMem && WordAt(mem, r.PC, 1) == Ok(address) && ReadAt(mem, address) == Ok(v)
    ensures LoadAbsolute(r, mem, cycles, len)
      == Ok(Post(r.(A := v, Flags := ZeroNegative(r.Flags, v), PC := ToWord(r.PC + len)), mem, ToByte(cycles + 3)))
  {
  }

  lemma BranchTakenOk(r: Regs, mem: seq<byte>, cycles: byte, len: byte, off: byte)
    requires |mem| == MaxMem && r.Flags & FlagZero == 0 && ReadAt(mem, r.PC + 1) == Ok(off)
    ensures BranchNotEqual(r, mem, cycles, len)
      == Ok(Post(r.(Flags := 0, PC := ToWord(ToWord(r.PC + TwosComplement(off)) + len)), mem,
                 if off >= 0x80 then ToByte(cycles + 2) else ToByte(cycles + 1)))
  {
  }

  lemma BranchNotTakenOk(r: Regs, mem: seq<byte>, cycles: byte, len: byte)
    requires |mem| == MaxMem && r.Flags & FlagZero != 0
    ensures BranchNotEqual(r, mem, cycles, len)
      == Ok(Post(r.(Flags := r.Flags & FlagZero, PC := ToWord(r.PC + len)), mem, ToByte(cycles + 1)))
  {
  }

  lemma JumpOk(r: Regs, mem: seq<byte>, cycles: byte, address: word)
    requires |mem| == MaxMem && WordAt(mem, r.PC, 1) == Ok(address)
    ensures Jump(r, mem, cycles) == Ok(Post(r.(PC := address), mem, ToByte(cycles + 2)))
  {
  }

  lemma JumpIndirectOk(r: Regs, mem: seq<byte>, cycles: byte, indirect: word, address: word)
    requires |mem| == MaxMem && WordAt(mem, r.PC, 1) == Ok(indirect) && WordAt(mem, indirect, 0) == Ok(address)
    ensures JumpIndirect(r, mem, cycles) == Ok(Post(r.(PC := address), mem, ToByte(cycles + 4)))
  {
  }

  lemma JumpSubroutineOk(r: Regs, mem: seq<byte>, cycles: byte, len: byte, address: word)
    requires |mem| == MaxMem && WordAt(mem, r.PC, 1) == Ok(address)
    ensures var ret := ToWord(ToWord(r.PC + len) - 1);
      JumpSubroutine(r, mem, cycles, len)
      == Ok(Post(r.(PC := address, SP := ToByte(r.SP - 2)),
                 mem[StackAddress(r.SP) := LowByte(ret)][StackAddress(ToByte(r.SP - 1)) := HighByte(ret)], ToByte(cycles + 5)))
  {
  }

  lemma StoreOk(r: Regs, mem: seq<byte>, cycles: byte, len: byte, reg: Reg, address: word)
    requires |mem| == MaxMem && WordAt(mem, r.PC, 1) == Ok(address) && address < MaxMem
    ensures Store(r, mem, cycles, len, reg) == Ok(Post(r.(PC := ToWord(r.PC + len)), mem[address := Get(r, reg)], ToByte(cycles + 3)))
  {
  }

  lemma AddWithCarryOk(r: Regs, mem: seq<byte>, cycles: byte, len: byte, address: word, v: byte)
    requires |mem| == MaxMem && WordAt(mem, r.PC, 1) == Ok(address) && ReadAt(mem, address) == Ok(v)
    ensures var sum := ToByte(r.A + v);
      var a := if r.Flags & FlagCarry != 0 then ToByte(sum + 1) else sum;
      AddWithCarry(r, mem, cycles, len)
      == Ok(Post(r.(A := a, Flags := ZeroNegative(r.Flags, a), PC := ToWord(r.PC + len)), mem, ToByte(cycles + 3)))
  {
  }

  /** The switch of `ExecuteInstruction` for an opcode of the table. */
  function Perform(r: Regs, mem: seq<byte>, cycles: byte, op: byte, len: byte): (p: Result<Post>)
    requires |mem| == MaxMem
    ensures p.Ok? ==> |p.value.mem| == MaxMem && p.value.regs.Opcode == r.Opcode
  {
    match op
    case 0xa1 => LoadImmediate(r, mem, cycles, len, RA)
    case 0xa0 => LoadImmediate(r, mem, cycles, len, RY)
    case 0xa9 => LoadImmediate(r, mem, cycles, len, RA)
    case 0xbd => LoadAbsolute(r, mem, cycles, len)
    case 0xb1 => LoadImmediate(r, mem, cycles, len, RA)
    case 0xa2 => LoadImmediate(r, mem, cycles, len, RX)
    case 0xe8 => Bump(r, mem, cycles, len, RX, 1)
    case 0xca => Bump(r, mem, cycles, len, RX, -1)
    case 0xc8 => Bump(r, mem, cycles, len, RY, 1)
    case 0x88 => Bump(r, mem, cycles, len, RY, -1)
    case 0x18 => ClearFlag(r, mem, cycles, len, FlagCarry)
    case 0x38 => SetFlag(r, mem, cycles, len, FlagCarry)
    case 0x58 => ClearFlag(r, mem, cycles, len, FlagInterruptDisable)
    case 0x78 => SetFlag(r, mem, cycles, len, FlagInterruptDisable)
    case 0xb8 => ClearFlag(r, mem, cycles, len, FlagOverflow)
    case 0xd8 => ClearFlag(r, mem, cycles, len, FlagDecimal)
    case 0xf8 => SetFlag(r, mem, cycles, len, FlagDecimal)
    case 0xd0 => BranchNotEqual(r, mem, cycles, len)
    case 0x4c => Jump(r, mem, cycles)
    case 0x6c => JumpIndirect(r, mem, cycles)
    case 0x20 => JumpSubroutine(r, mem, cycles, len)
    case 0x60 => ReturnFromSubroutine(r, mem, cycles)
    case 0xea => NoOperation(r, mem, cycles, len)
    case 0xaa => Transfer(r, mem, cycles, len, RA, RX)
    case 0x8a => Transfer(r, mem, cycles, len, RX, RA)
    case 0xa8 => Transfer(r, mem, cycles, len, RA, RY)
    case 0x98 => Transfer(r, mem, cycles, len, RY, RA)
    case 0x8d => Store(r, mem, cycles, len, RA)
    case 0xad => LoadAbsolute(r, mem, cycles, len)
    case 0x8e => Store(r, mem, cycles, len, RX)
    case 0x6d => AddWithCarry(r, mem, cycles, len)
    case _ => Ok(Post(r, mem, cycles))
  }

  /** `ExecuteInstruction(c, op)` on a record that started at `startPC` and
      has been charged `cycles`: the descriptor is looked up, the operand
      bytes are captured and the instruction is performed. */
  function Execute(r: Regs, mem: seq<byte>, startPC: word, cycles: byte, op: byte): (p: Result<Post>)
    requires |mem| == MaxMem
    ensures op !in Opcodes ==> p == Err(UnknownOpcode(op))
    ensures p.Ok? ==> |p.value.mem| == MaxMem && p.value.regs.Opcode == r.Opcode
  {
    match Lookup(op)
    case None => Err(UnknownOpcode(op))
    case Some(ins) =>
      if !OperandInRange(startPC, OperandCount(ins)) then Err(IndexOutOfRange)
      else Perform(r, mem, cycles, op, ins.Bytes)
  }

  /** One turn of the `Reset` loop: a new record at PC, the current opcode
      executed, then the next opcode fetched from the new PC and charged to
      the same record. */
  function StepOnce(r: Regs, mem: seq<byte>): (p: Result<Post>)
    requires |mem| == MaxMem
    ensures p.Ok? ==> |p.value.mem| == MaxMem
  {
    var post :- Execute(r, mem, r.PC, 1, r.Opcode);
    var next :- ReadAt(post.mem, post.regs.PC);
    Ok(Post(post.regs.(Opcode := next), post.mem, ToByte(post.cycles + 1)))
  }

  /** At most `fuel` turns of the `Reset` loop, which stops before a turn
      once the current opcode is 0. */
  function Run(r: Regs, mem: seq<byte>, fuel: nat): (p: Result<(Regs, seq<byte>)>)
    requires |mem| == MaxMem
    ensures p.Ok? ==> |p.value.1| == MaxMem
    decreases fuel, 0
  {
    if fuel == 0 || r.Opcode == 0 then Ok((r, mem))
    else Turn(r, mem, fuel - 1)
  }

  /** One turn of the loop, then at most `rest` more. */
  function Turn(r: Regs, mem: seq<byte>, rest: nat): (p: Result<(Regs, seq<byte>)>)
    requires |mem| == MaxMem
    ensures p.Ok? ==> |p.value.1| == MaxMem
    decreases rest, 1
  {
    var post :- StepOnce(r, mem);
    Run(post.regs, post.mem, rest)
  }

  /** A run with a nonzero opcode and fuel left is one turn, then the rest. */
  lemma RunIsTurnThenRest(r: Regs, mem: seq<byte>, rest: nat)
    requires |mem| == MaxMem && r.Opcode != 0
    ensures var p := StepOnce(r, mem);
      Run(r, mem, rest + 1) == if p.Err? then Err(p.fault) else Run(p.value.regs, p.value.mem, rest)
  {
    assert Run(r, mem, rest + 1) == Turn(r, mem, rest);
  }

  /** The same turn spelled out in its parts: the instruction executed from
      a fresh record at `startPC` with one cycle charged, then the fetch of
      the next opcode at the new PC. */
  lemma RunIsExecuteFetchRest(r: Regs, mem: seq<byte>, startPC: word, cycles: byte, op: byte, rest: nat)
    requires |mem| == MaxMem && op == r.Opcode && op != 0 && startPC == r.PC && cycles == 1
    ensures var e := Execute(r, mem, startPC, cycles, op);
      Run(r, mem, rest + 1) ==
        if e.Err? then Err(e.fault)
        else if ReadAt(e.value.mem, e.value.regs.PC).Err? then Err(IndexOutOfRange)
        else Run(e.value.regs.(Opcode := ReadAt(e.value.mem, e.value.regs.PC).value), e.value.mem, rest)
  {
    RunIsTurnThenRest(r, mem, rest);
  }
}
