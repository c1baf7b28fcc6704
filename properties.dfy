/** Properties of the instruction set and of the run loop, stated as lemmas
    about `Semantics.Execute` and `Semantics.Run`. `Processor.CPU` is proved
    to update the machine exactly as those functions say, so each lemma here
    is also a statement about the C# methods. */
module Properties {
  import opened Types
  import opened Instructions
  import opened Bus
  import opened Semantics

  /** The instruction `op` executed as the run loop does it: from a fresh
      record at PC, which starts with one cycle charged. */
  function Exec(r: Regs, mem: seq<byte>, op: byte): Result<Post>
    requires |mem| == MaxMem
  {
    Execute(r, mem, r.PC, 1, op)
  }

  /** `flags` is what `SetZeroAndNegativeFlag(v)` leaves after `before`: Z
      exactly when `v` is 0, N exactly when bit 7 of `v` is set, the other
      six bits as they were. */
  predicate ZeroNegativeOf(flags: bits8, before: bits8, v: byte)
  {
    && (flags & FlagZero != 0 <==> v == 0)
    && (flags & FlagNegative != 0 <==> v >= 0x80)
    && flags & 0x7D == before & 0x7D
  }

  lemma ZeroNegativeMeaning(flags: bits8, v: byte)
    ensures ZeroNegativeOf(ZeroNegative(flags, v), flags, v)
  {
    ZeroNegativeFlags(flags, v);
    HighBitIsUpperHalf(v);
  }

  // ---------------------------------------------------------------------
  // Loads, increments, transfers and flag instructions

  /** The register an immediate-style load writes. */
  function LoadTarget(op: byte): Reg
  {
    if op == 0xa0 then RY else if op == 0xa2 then RX else RA
  }

  /** `LDA #`, `LDX #`, `LDY #`, and `LDA (zp,X)` and `LDA (zp),Y` as coded:
      the byte after the opcode goes to the register, Z and N follow it, PC
      moves past the two bytes, and two cycles are charged. */
  lemma ImmediateLoad(r: Regs, mem: seq<byte>, op: byte)
    requires |mem| == MaxMem && op in {0xa9, 0xa0, 0xa2, 0xa1, 0xb1} && r.PC + 1 < MaxMem
    ensures var p := Exec(r, mem, op);
      var v := mem[r.PC + 1];
      && p.Ok?
      && Get(p.value.regs, LoadTarget(op)) == v
      && (forall other :: other != LoadTarget(op) ==> Get(p.value.regs, other) == Get(r, other))
      && ZeroNegativeOf(p.value.regs.Flags, r.Flags, v)
      && p.value.regs.PC == r.PC + 2 && p.value.regs.SP == r.SP
      && p.value.mem == mem && p.value.cycles == 2
  {
    var v := mem[r.PC + 1];
    assert OperandInRange(r.PC, 1) by {
      assert OperandAddress(r.PC, 0) == r.PC + 1;
    }
    LoadImmediateOk(r, mem, 1, 2, LoadTarget(op), v);
    ZeroNegativeMeaning(r.Flags, v);
  }

  /** `LDA abs` and `LDA abs,X`: A gets the byte at the operand word, with X
      not added. */
  lemma AbsoluteLoad(r: Regs, mem: seq<byte>, op: byte)
    requires |mem| == MaxMem && op in {0xad, 0xbd} && r.PC + 2 < MaxMem
    ensures var p := Exec(r, mem, op);
      var address := WordOf(mem[r.PC + 1], mem[r.PC + 2]);
      && (p.Ok? <==> address < MaxMem)
      && (p.Err? ==> p.fault == IndexOutOfRange)
      && (p.Ok? ==>
        && p.value.regs == r.(A := mem[address], Flags := p.value.regs.Flags, PC := r.PC + 3)
        && ZeroNegativeOf(p.value.regs.Flags, r.Flags, mem[address])
        && p.value.mem == mem && p.value.cycles == 4)
  {
    assert OperandInRange(r.PC, 2) by {
      assert OperandAddress(r.PC, 0) == r.PC + 1 && OperandAddress(r.PC, 1) == r.PC + 2;
    }
    var address := WordOf(mem[r.PC + 1], mem[r.PC + 2]);
    if address < MaxMem {
      LoadAbsoluteOk(r, mem, 1, 3, address, mem[address]);
      ZeroNegativeMeaning(r.Flags, mem[address]);
    }
  }

  /** `LDA abs,X`, `LDA (zp,X)` and `LDA (zp),Y` give the same result
      whatever X and Y hold: the index registers are never read. */
  lemma IndexRegistersIgnored(r: Regs, mem: seq<byte>, op: byte, x: byte, y: byte)
    requires |mem| == MaxMem && op in {0xbd, 0xa1, 0xb1}
    ensures var p := Exec(r, mem, op);
      var q := Exec(r.(X := x, Y := y), mem, op);
      && (p.Err? <==> q.Err?)
      && (p.Err? ==> q == p)
      && (p.Ok? ==> q == Ok(p.value.(regs := p.value.regs.(X := x, Y := y))))
  {
  }

  /** The register `INX`, `DEX`, `INY` or `DEY` changes, and by how much. */
  function BumpTarget(op: byte): Reg
  {
    if op in {0xe8, 0xca} then RX else RY
  }

  function BumpDelta(op: byte): int
  {
    if op in {0xe8, 0xc8} then 1 else -1
  }

  /** `INX`, `DEX`, `INY`, `DEY`: the register moves by one modulo 256, Z and
      N follow the new value, and nothing else but PC changes. */
  lemma IncrementDecrement(r: Regs, mem: seq<byte>, op: byte)
    requires |mem| == MaxMem && op in {0xe8, 0xca, 0xc8, 0x88}
    ensures var p := Exec(r, mem, op);
      var v := (Get(r, BumpTarget(op)) + BumpDelta(op)) % 256;
      && p.Ok?
      && Get(p.value.regs, BumpTarget(op)) == v
      && (forall other :: other != BumpTarget(op) ==> Get(p.value.regs, other) == Get(r, other))
      && ZeroNegativeOf(p.value.regs.Flags, r.Flags, v)
      && p.value.regs.PC == (r.PC + 1) % 0x10000 && p.value.regs.SP == r.SP
      && p.value.mem == mem && p.value.cycles == 2
  {
    var reg := BumpTarget(op);
    var v := ToByte(Get(r, reg) + BumpDelta(op));
    WrapIsModulo(Get(r, reg) + BumpDelta(op));
    WrapIsModulo(r.PC + 1);
    ZeroNegativeMeaning(r.Flags, v);
  }

  /** `INX` on X = 0xFF wraps X to 0 and raises Z; `DEX` on X = 0 wraps X to
      0xFF and raises N. */
  lemma IndexWrapsAround(r: Regs, mem: seq<byte>)
    requires |mem| == MaxMem
    ensures r.X == 0xFF ==>
      Exec(r, mem, 0xe8).Ok? && Exec(r, mem, 0xe8).value.regs.X == 0 && Exec(r, mem, 0xe8).value.regs.Flags & FlagZero != 0
    ensures r.X == 0 ==>
      Exec(r, mem, 0xca).Ok? && Exec(r, mem, 0xca).value.regs.X == 0xFF && Exec(r, mem, 0xca).value.regs.Flags & FlagNegative != 0
  {
    IncrementDecrement(r, mem, 0xe8);
    IncrementDecrement(r, mem, 0xca);
  }

  /** The registers `TAX`, `TXA`, `TAY`, `TYA` copy from and to. */
  function TransferSource(op: byte): Reg
  {
    if op in {0xaa, 0xa8} then RA else if op == 0x8a then RX else RY
  }

  function TransferTarget(op: byte): Reg
  {
    if op == 0xaa then RX else if op == 0xa8 then RY else RA
  }

  /** `TAX`, `TXA`, `TAY`, `TYA`: the target receives the source, Z and N
      follow the value copied, and PC moves one byte. */
  lemma TransferCopies(r: Regs, mem: seq<byte>, op: byte)
    requires |mem| == MaxMem && op in {0xaa, 0x8a, 0xa8, 0x98}
    ensures var p := Exec(r, mem, op);
      var v := Get(r, TransferSource(op));
      && p.Ok?
      && Get(p.value.regs, TransferTarget(op)) == v
      && (forall other :: other != TransferTarget(op) ==> Get(p.value.regs, other) == Get(r, other))
      && ZeroNegativeOf(p.value.regs.Flags, r.Flags, v)
      && p.value.regs.PC == (r.PC + 1) % 0x10000 && p.value.regs.SP == r.SP
      && p.value.mem == mem && p.value.cycles == 2
  {
    WrapIsModulo(r.PC + 1);
    ZeroNegativeMeaning(r.Flags, Get(r, TransferSource(op)));
  }

  /** The flag bit a flag instruction works on. */
  function FlagMask(op: byte): bits8
  {
    match op
    case 0x18 => FlagCarry
    case 0x38 => FlagCarry
    case 0x58 => FlagInterruptDisable
    case 0x78 => FlagInterruptDisable
    case 0xb8 => FlagOverflow
    case _ => FlagDecimal
  }

  /** `SEC`, `SEI`, `SED` raise their bit; `CLC`, `CLI`, `CLV`, `CLD` clear
      it. No other flag bit and no register but PC changes. */
  lemma FlagInstruction(r: Regs, mem: seq<byte>, op: byte)
    requires |mem| == MaxMem && op in {0x18, 0x38, 0x58, 0x78, 0xb8, 0xd8, 0xf8}
    ensures var p := Exec(r, mem, op);
      var mask := FlagMask(op);
      && p.Ok?
      && p.value.regs.Flags & mask == (if op in {0x38, 0x78, 0xf8} then mask else 0)
      && p.value.regs.Flags & (0xFF ^ mask) == r.Flags & (0xFF ^ mask)
      && p.value.regs == r.(Flags := p.value.regs.Flags, PC := (r.PC + 1) % 0x10000)
      && p.value.mem == mem && p.value.cycles == 2
  {
    WrapIsModulo(r.PC + 1);
  }

  /** `NOP` only skips itself: PC moves one byte, in two cycles, and no other
      register, flag or memory cell changes. */
  lemma NoOperationSkips(r: Regs, mem: seq<byte>)
    requires |mem| == MaxMem
    ensures Exec(r, mem, 0xea) == Ok(Post(r.(PC := (r.PC + 1) % 0x10000), mem, 2))
  {
    WrapIsModulo(r.PC + 1);
  }

  // ---------------------------------------------------------------------
  // Branches and jumps

  /** `BNE`: the flags are left as `Flags & FlagZero`. With Z clear PC moves
      by the signed operand past the two bytes, modulo 0x10000, and a
      backward branch costs one more cycle; with Z set PC just skips the
      instruction. */
  lemma BranchTarget(r: Regs, mem: seq<byte>)
    requires |mem| == MaxMem && r.PC + 1 < MaxMem
    ensures var p := Exec(r, mem, 0xd0);
      var off := mem[r.PC + 1];
      var signed := if off < 0x80 then off as int else off as int - 256;
      && p.Ok?
      && p.value.regs == r.(Flags := r.Flags & FlagZero, PC := p.value.regs.PC)
      && p.value.mem == mem
      && (r.Flags & FlagZero == 0 ==>
        p.value.regs.PC == (r.PC + 2 + signed) % 0x10000 && p.value.cycles == (if off < 0x80 then 2 else 3))
      && (r.Flags & FlagZero != 0 ==> p.value.regs.PC == r.PC + 2 && p.value.cycles == 2)
  {
    assert OperandInRange(r.PC, 1) by {
      assert OperandAddress(r.PC, 0) == r.PC + 1;
    }
    var off := mem[r.PC + 1];
    if r.Flags & FlagZero == 0 {
      BranchTakenOk(r, mem, 1, 2, off);
      TwosComplementValue(off);
      var pc := ToWord(r.PC + TwosComplement(off));
      WrapIsModulo(r.PC + TwosComplement(off));
      WrapIsModulo(pc as int + 2);
    } else {
      BranchNotTakenOk(r, mem, 1, 2);
    }
  }

  /** The loop of the Fibonacci demo: `BNE $f5` at 0x7012 with Z clear goes
      back to 0x7009. */
  lemma FibonacciLoopBranch(r: Regs, mem: seq<byte>)
    requires |mem| == MaxMem && r.PC == 0x7012 && mem[0x7013] == 0xf5 && r.Flags & FlagZero == 0
    ensures Exec(r, mem, 0xd0).Ok? && Exec(r, mem, 0xd0).value.regs.PC == 0x7009
  {
    BranchTarget(r, mem);
  }

  /** `JMP abs` moves PC to the operand word in three cycles; `JMP (abs)`
      to the word stored there, in five. */
  lemma Jumps(r: Regs, mem: seq<byte>)
    requires |mem| == MaxMem && r.PC + 2 < MaxMem
    ensures var target := WordOf(mem[r.PC + 1], mem[r.PC + 2]);
      Exec(r, mem, 0x4c) == Ok(Post(r.(PC := target), mem, 3))
    ensures var indirect := WordOf(mem[r.PC + 1], mem[r.PC + 2]);
      var p := Exec(r, mem, 0x6c);
      && (p.Ok? <==> indirect + 1 < MaxMem)
      && (p.Ok? ==> p == Ok(Post(r.(PC := WordOf(mem[indirect], mem[indirect + 1])), mem, 5)))
  {
    assert OperandInRange(r.PC, 2) by {
      assert OperandAddress(r.PC, 0) == r.PC + 1 && OperandAddress(r.PC, 1) == r.PC + 2;
    }
    var indirect := WordOf(mem[r.PC + 1], mem[r.PC + 2]);
    JumpOk(r, mem, 1, indirect);
    if indirect + 1 < MaxMem {
      JumpIndirectOk(r, mem, 1, indirect, WordOf(mem[indirect], mem[indirect + 1]));
    }
  }

  // ---------------------------------------------------------------------
  // The stack

  /** `JSR abs` at p pushes the low byte of p + 2 at `0x100 | SP`, then its
      high byte one cell lower, leaves SP two lower modulo 256, and jumps to
      the operand word in six cycles. */
  lemma SubroutineCall(r: Regs, mem: seq<byte>)
    requires |mem| == MaxMem && r.PC + 2 < MaxMem
    ensures var p := Exec(r, mem, 0x20);
      var ret := r.PC + 2;
      && p.Ok?
      && p.value.regs == r.(PC := WordOf(mem[r.PC + 1], mem[r.PC + 2]), SP := (r.SP - 2) % 256)
      && p.value.mem == mem[0x100 + r.SP := LowByte(ret)][0x100 + (r.SP - 1) % 256 := HighByte(ret)]
      && p.value.cycles == 6
  {
    assert OperandInRange(r.PC, 2) by {
      assert OperandAddress(r.PC, 0) == r.PC + 1 && OperandAddress(r.PC, 1) == r.PC + 2;
    }
    JumpSubroutineOk(r, mem, 1, 3, WordOf(mem[r.PC + 1], mem[r.PC + 2]));
    WrapIsModulo(r.SP - 1);
    WrapIsModulo(r.SP - 2);
  }

  /** A `JSR` at p followed at once by an `RTS` comes back to p + 3 with SP
      and every other register as before; memory keeps the
      two pushed bytes. Each of the two instructions takes six cycles. */
  lemma {:induction false} CallReturnRoundTrip(r: Regs, mem: seq<byte>)
    requires |mem| == MaxMem && r.PC + 2 < MaxMem
    ensures var call := Exec(r, mem, 0x20);
      call.Ok? &&
      var ret := Exec(call.value.regs, call.value.mem, 0x60);
      && ret.Ok?
      && ret.value.regs == r.(PC := r.PC + 3)
      && ret.value.mem == call.value.mem
      && call.value.cycles == 6 && ret.value.cycles == 6
  {
    SubroutineCall(r, mem);
    var call := Exec(r, mem, 0x20).value;
    var ret := r.PC + 2;
    var sp: int := call.regs.SP;
    assert ToByte(sp + 1) == (r.SP - 1) % 256 && ToByte(sp + 2) == r.SP by {
      WrapIsModulo(sp + 1);
      WrapIsModulo(sp + 2);
    }
    assert (r.SP - 1) % 256 != r.SP;
    assert call.mem[StackAddress(ToByte(sp + 1))] == HighByte(ret);
    assert call.mem[StackAddress(ToByte(sp + 2))] == LowByte(ret);
    WordBytesRoundTrip(ret);
  }

  // ---------------------------------------------------------------------
  // Stores and arithmetic

  /** `STA abs` and `STX abs` write the register to the operand word and
      change no other cell, no flag and no register but PC; an operand word
      past the end of memory faults. */
  lemma AbsoluteStore(r: Regs, mem: seq<byte>, op: byte)
    requires |mem| == MaxMem && op in {0x8d, 0x8e} && r.PC + 2 < MaxMem
    ensures var p := Exec(r, mem, op);
      var address := WordOf(mem[r.PC + 1], mem[r.PC + 2]);
      var v := if op == 0x8d then r.A else r.X;
      && (address < MaxMem ==> p == Ok(Post(r.(PC := r.PC + 3), mem[address := v], 4)))
      && (address >= MaxMem ==> p == Err(IndexOutOfRange))
  {
    assert OperandInRange(r.PC, 2) by {
      assert OperandAddress(r.PC, 0) == r.PC + 1 && OperandAddress(r.PC, 1) == r.PC + 2;
    }
    var address := WordOf(mem[r.PC + 1], mem[r.PC + 2]);
    if address < MaxMem {
      StoreOk(r, mem, 1, 3, if op == 0x8d then RA else RX, address);
    }
  }

  /** `ADC abs`: A becomes A + M + C modulo 256, Z and N follow it, and the
      carry bit is left as it was. */
  lemma AddWithCarrySum(r: Regs, mem: seq<byte>)
    requires |mem| == MaxMem && r.PC + 2 < MaxMem
    ensures var p := Exec(r, mem, 0x6d);
      var address := WordOf(mem[r.PC + 1], mem[r.PC + 2]);
      && (p.Ok? <==> address < MaxMem)
      && (p.Ok? ==>
        var carry := if r.Flags & FlagCarry != 0 then 1 else 0;
        var a := (r.A + mem[address] + carry) % 256;
        && p.value.regs == r.(A := a, Flags := p.value.regs.Flags, PC := r.PC + 3)
        && ZeroNegativeOf(p.value.regs.Flags, r.Flags, a)
        && p.value.regs.Flags & FlagCarry == r.Flags & FlagCarry
        && p.value.mem == mem && p.value.cycles == 4)
  {
    assert OperandInRange(r.PC, 2) by {
      assert OperandAddress(r.PC, 0) == r.PC + 1 && OperandAddress(r.PC, 1) == r.PC + 2;
    }
    var address := WordOf(mem[r.PC + 1], mem[r.PC + 2]);
    if address < MaxMem {
      var v := mem[address];
      AddWithCarryOk(r, mem, 1, 3, address, v);
      var sum: int := ToByte(r.A + v);
      var a: byte := if r.Flags & FlagCarry != 0 then ToByte(sum + 1) else sum;
      WrapIsModulo(r.A + v);
      WrapIsModulo(sum + 1);
      ZeroNegativeMeaning(r.Flags, a);
      CarryKept(ZeroNegative(r.Flags, a), r.Flags);
    }
  }

  /** Two flag bytes that agree on the bits of 0x7D agree on the carry. */
  lemma CarryKept(f: bits8, g: bits8)
    requires f & 0x7D == g & 0x7D
    ensures f & FlagCarry == g & FlagCarry
  {
    assert f & FlagCarry == (f & 0x7D) & FlagCarry;
    assert g & FlagCarry == (g & 0x7D) & FlagCarry;
  }

  // ---------------------------------------------------------------------
  // Cycle accounting

  /** The cycles the code charges agree with the table's base count plus at
      most its extra cycles, for every opcode except the two indirect loads,
      which are executed like immediate loads. */
  lemma CyclesWithinTable(r: Regs, mem: seq<byte>, op: byte)
    requires |mem| == MaxMem && op in Opcodes && op !in {0xa1, 0xb1} && Exec(r, mem, op).Ok?
    ensures var ins := Lookup(op).value;
      ins.Cycles <= Exec(r, mem, op).value.cycles <= ins.Cycles + ins.ExtraCycles
  {
  }

  /** `LDA (zp,X)` and `LDA (zp),Y` are charged two cycles, fewer than the
      table's six and five. */
  lemma IndirectLoadsUndercharged(r: Regs, mem: seq<byte>, op: byte)
    requires |mem| == MaxMem && op in {0xa1, 0xb1} && Exec(r, mem, op).Ok?
    ensures Exec(r, mem, op).value.cycles == 2 < Lookup(op).value.Cycles
  {
  }

  // ---------------------------------------------------------------------
  // Reset and the run loop

  /** The first turn after `Reset` runs the forced `JMP` at 0xFFFB, so PC
      becomes the word stored at 0xFFFC/0xFFFD and the opcode there is
      fetched; the fetch is the fourth cycle of the record. Only a vector
      pointing at 0xFFFF, past the end of memory, faults. */
  lemma ResetFollowsVector(r: Regs, mem: seq<byte>)
    requires |mem| == MaxMem
    ensures var target := WordOf(mem[0xFFFC], mem[0xFFFD]);
      StepOnce(ResetRegs(r), mem) ==
        if target < MaxMem then Ok(Post(ResetRegs(r).(PC := target, Opcode := mem[target]), mem, 4))
        else Err(IndexOutOfRange)
  {
    assert OperandInRange(0xFFFB, 2) by {
      assert OperandAddress(0xFFFB, 0) == 0xFFFC && OperandAddress(0xFFFB, 1) == 0xFFFD;
    }
    JumpOk(ResetRegs(r), mem, 1, WordOf(mem[0xFFFC], mem[0xFFFD]));
  }

  /** The demo program stores 0x00, 0x50 at 0xFFFC, so its first turn lands
      on the main code at 0x5000. */
  lemma DemoResetVector(r: Regs, mem: seq<byte>)
    requires |mem| == MaxMem && mem[0xFFFC] == 0x00 && mem[0xFFFD] == 0x50
    ensures StepOnce(ResetRegs(r), mem).Ok?
    ensures StepOnce(ResetRegs(r), mem).value.regs.PC == 0x5000
    ensures StepOnce(ResetRegs(r), mem).value.regs.Opcode == mem[0x5000]
  {
    ResetFollowsVector(r, mem);
  }

  /** An opcode missing from the table ends the run with the lookup fault. */
  lemma UnknownOpcodeStopsRun(r: Regs, mem: seq<byte>, rest: nat)
    requires |mem| == MaxMem && r.Opcode != 0 && r.Opcode !in Opcodes
    ensures Run(r, mem, rest + 1) == Err(UnknownOpcode(r.Opcode))
  {
    RunIsTurnThenRest(r, mem, rest);
  }

  /** One turn of fuel is exactly one `StepOnce`, unless the opcode is 0. */
  lemma RunOne(r: Regs, mem: seq<byte>)
    requires |mem| == MaxMem
    ensures var p := StepOnce(r, mem);
      Run(r, mem, 1) ==
        if r.Opcode == 0 then Ok((r, mem))
        else if p.Err? then Err(p.fault)
        else Ok((p.value.regs, p.value.mem))
  {
    if r.Opcode != 0 {
      RunIsTurnThenRest(r, mem, 0);
    }
  }

  /** Running for `a + b` turns is running for `a` turns, then for `b` more
      from where the first run stopped. */
  lemma {:induction false} RunAdditive(r: Regs, mem: seq<byte>, a: nat, b: nat)
    requires |mem| == MaxMem
    ensures var p := Run(r, mem, a);
      Run(r, mem, a + b) == if p.Err? then Err(p.fault) else Run(p.value.0, p.value.1, b)
    decreases a
  {
    if a == 0 || r.Opcode == 0 {
      assert Run(r, mem, a) == Ok((r, mem));
      if r.Opcode == 0 {
        assert Run(r, mem, b) == Ok((r, mem));
      }
    } else {
      RunIsTurnThenRest(r, mem, a - 1 + b);
      RunIsTurnThenRest(r, mem, a - 1);
      var p := StepOnce(r, mem);
      if p.Ok? {
        RunAdditive(p.value.regs, p.value.mem, a - 1, b);
      }
    }
  }

  /** Once a run has stopped at a zero opcode, more fuel changes nothing:
      the loop exits exactly when the fetched opcode is 0. */
  lemma {:induction false} HaltedStaysHalted(r: Regs, mem: seq<byte>, fuel: nat, more: nat)
    requires |mem| == MaxMem && Run(r, mem, fuel).Ok? && Run(r, mem, fuel).value.0.Opcode == 0
    ensures Run(r, mem, fuel + more) == Run(r, mem, fuel)
  {
    RunAdditive(r, mem, fuel, more);
    var p := Run(r, mem, fuel).value;
    assert Run(p.0, p.1, more) == Ok(p);
  }

  /** A run that succeeds without reaching a zero opcode has used all its
      fuel: every turn before the last one fetched a nonzero opcode. */
  lemma {:induction false} RunningMeansFuelSpent(r: Regs, mem: seq<byte>, fuel: nat)
    requires |mem| == MaxMem && Run(r, mem, fuel).Ok? && Run(r, mem, fuel).value.0.Opcode != 0
    ensures fuel == 0 || r.Opcode != 0
    ensures fuel > 0 ==> StepOnce(r, mem).Ok?
  {
    if fuel > 0 && r.Opcode != 0 {
      RunIsTurnThenRest(r, mem, fuel - 1);
    }
  }
}
