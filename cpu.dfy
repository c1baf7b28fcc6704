/** The CPU: its registers, the big instruction switch, the stack helpers and
    the run loop started by `Reset`. */
module Processor {
  import opened Types
  import opened Instructions
  import opened Bus
  import opened Semantics
  import opened Breakpoints

  class CPU {
    var PC: word
    /** The memory the CPU is wired to. */
    const RAM: Memory
    var SP: byte
    var A: byte
    var X: byte
    var Y: byte
    var Flags: bits8
    /** The opcode of the instruction about to run. */
    var Opcode: byte

    ghost predicate Valid()
    {
      RAM.Valid()
    }

    /** The register file as a value. */
    function Registers(): Regs
      reads this
    {
      Regs(PC, SP, A, X, Y, Flags, Opcode)
    }

    /** The machine is in the state `p` describes and `r` reports its outcome. */
    ghost predicate Realizes(r: Status, p: Result<Post>, c: Cycle)
      reads this, RAM.ram, c
    {
      r == p.Outcome() &&
      (p.Ok? ==> Registers() == p.value.regs && RAM.ram[..] == p.value.mem && c.ActualCycles == p.value.cycles)
    }

    /** A CPU with every register 0 and a fresh, zeroed memory. */
    constructor ()
      ensures Valid() && fresh(RAM) && fresh(RAM.ram)
      ensures Registers() == Regs(0, 0, 0, 0, 0, 0, 0)
      ensures forall i :: 0 <= i < MaxMem ==> RAM.ram[i] == 0
    {
      PC := 0;
      RAM := new Memory();
      SP := 0;
      A := 0;
      X := 0;
      Y := 0;
      Flags := 0;
      Opcode := 0;
    }

    /** Updates Z and N from `Value`. */
    method SetZeroAndNegativeFlag(Value: byte)
      modifies this`Flags
      ensures Flags == ZeroNegative(old(Flags), Value)
    {
      if Value == 0 {
        Flags := Flags | FlagZero;
      } else {
        Flags := Flags & (0xFF ^ FlagZero);
      }
      // `(Value & FlagNegative) > 0`, see `Types.HighBitIsUpperHalf`
      if Value >= 0x80 {
        Flags := Flags | FlagNegative;
      } else {
        Flags := Flags & (0xFF ^ FlagNegative);
      }
    }

    method SetRegister(reg: Reg, v: byte)
      modifies this
      ensures Registers() == Put(old(Registers()), reg, v)
    {
      match reg
      case RA => A := v;
      case RX => X := v;
      case RY => Y := v;
    }

    /** Writes `value` to the stack cell of SP, charging one cycle, and moves
        SP down with byte wrap-around. */
    method StackPush(c: Cycle, value: byte)
      requires Valid()
      modifies this`SP, RAM.ram, c`ActualCycles
      ensures RAM.ram[..] == old(RAM.ram[..])[StackAddress(old(SP)) := value]
      ensures SP == ToByte(old(SP) - 1)
      ensures c.ActualCycles == ToByte(old(c.ActualCycles) + 1)
    {
      var address := StackAddress(SP);
      var r := RAM.SetByte(c, address, 0, value);
      SP := ToByte(SP - 1);
    }

    /** Moves SP up with byte wrap-around and reads its stack cell, charging
        two cycles. */
    method StackPop(c: Cycle) returns (value: byte)
      requires Valid()
      modifies this`SP, c`ActualCycles
      ensures SP == ToByte(old(SP) + 1)
      ensures value == RAM.ram[StackAddress(SP)]
      ensures c.ActualCycles == ToByte(old(c.ActualCycles) + 2)
    {
      c.ActualCycles := ToByte(c.ActualCycles + 1);
      SP := ToByte(SP + 1);
      var address := StackAddress(SP);
      var r;
      r, value := RAM.GetByte(c, address, 0);
    }

    // -------------------------------------------------------------------
    // The cases of the instruction switch, grouped by family. Each reads the
    // length to skip from the record's descriptor.

    method LoadImmediate(c: Cycle, reg: Reg) returns (r: Status)
      requires Valid() && c.Operand.Some?
      modifies this, c`ActualCycles
      ensures RAM.ram[..] == old(RAM.ram[..])
      ensures Realizes(r, Semantics.LoadImmediate(old(Registers()), old(RAM.ram[..]), old(c.ActualCycles), c.Operand.value.Bytes, reg), c)
    {
      var v;
      r, v := RAM.GetByte(c, PC, 1);
      if r.Fail? {
        return;
      }
      LoadImmediateOk(old(Registers()), old(RAM.ram[..]), old(c.ActualCycles), c.Operand.value.Bytes, reg, v);
      SetRegister(reg, v);
      SetZeroAndNegativeFlag(v);
      PC := ToWord(PC + c.Operand.value.Bytes);
    }

    method LoadAbsolute(c: Cycle) returns (r: Status)
      requires Valid() && c.Operand.Some?
      modifies this, c`ActualCycles
      ensures RAM.ram[..] == old(RAM.ram[..])
      ensures Realizes(r, Semantics.LoadAbsolute(old(Registers()), old(RAM.ram[..]), old(c.ActualCycles), c.Operand.value.Bytes), c)
    {
      var address, v;
      r, address := RAM.GetWord(c, PC, 1);
      if r.Fail? {
        return;
      }
      r, v := RAM.GetByte(c, address, 0);
      if r.Fail? {
        return;
      }
      LoadAbsoluteOk(old(Registers()), old(RAM.ram[..]), old(c.ActualCycles), c.Operand.value.Bytes, address, v);
      A := v;
      SetZeroAndNegativeFlag(A);
      PC := ToWord(PC + c.Operand.value.Bytes);
    }

    method Bump(c: Cycle, reg: Reg, delta: int) returns (r: Status)
      requires Valid() && c.Operand.Some? && (delta == 1 || delta == -1)
      modifies this, c`ActualCycles
      ensures RAM.ram[..] == old(RAM.ram[..])
      ensures Realizes(r, Semantics.Bump(old(Registers()), old(RAM.ram[..]), old(c.ActualCycles), c.Operand.value.Bytes, reg, delta), c)
    {
      var v := ToByte(Get(Registers(), reg) + delta);
      SetRegister(reg, v);
      SetZeroAndNegativeFlag(v);
      c.ActualCycles := ToByte(c.ActualCycles + 1);
      PC := ToWord(PC + c.Operand.value.Bytes);
      r := Pass;
    }

    method Transfer(c: Cycle, from: Reg, to: Reg) returns (r: Status)
      requires Valid() && c.Operand.Some?
      modifies this, c`ActualCycles
      ensures RAM.ram[..] == old(RAM.ram[..])
      ensures Realizes(r, Semantics.Transfer(old(Registers()), old(RAM.ram[..]), old(c.ActualCycles), c.Operand.value.Bytes, from, to), c)
    {
      PC := ToWord(PC + c.Operand.value.Bytes);
      var v := Get(Registers(), from);
      SetRegister(to, v);
      c.ActualCycles := ToByte(c.ActualCycles + 1);
      SetZeroAndNegativeFlag(v);
      r := Pass;
    }

    method SetFlag(c: Cycle, mask: bits8) returns (r: Status)
      requires Valid() && c.Operand.Some?
      modifies this, c`ActualCycles
      ensures RAM.ram[..] == old(RAM.ram[..])
      ensures Realizes(r, Semantics.SetFlag(old(Registers()), old(RAM.ram[..]), old(c.ActualCycles), c.Operand.value.Bytes, mask), c)
    {
      c.ActualCycles := ToByte(c.ActualCycles + 1);
      Flags := Flags | mask;
      PC := ToWord(PC + c.Operand.value.Bytes);
      r := Pass;
    }

    method ClearFlag(c: Cycle, mask: bits8) returns (r: Status)
      requires Valid() && c.Operand.Some?
      modifies this, c`ActualCycles
      ensures RAM.ram[..] == old(RAM.ram[..])
      ensures Realizes(r, Semantics.ClearFlag(old(Registers()), old(RAM.ram[..]), old(c.ActualCycles), c.Operand.value.Bytes, mask), c)
    {
      c.ActualCycles := ToByte(c.ActualCycles + 1);
      Flags := Flags & (0xFF ^ mask);
      PC := ToWord(PC + c.Operand.value.Bytes);
      r := Pass;
    }

    method NoOperation(c: Cycle) returns (r: Status)
      requires Valid() && c.Operand.Some?
      modifies this, c`ActualCycles
      ensures RAM.ram[..] == old(RAM.ram[..])
      ensures Realizes(r, Semantics.NoOperation(old(Registers()), old(RAM.ram[..]), old(c.ActualCycles), c.Operand.value.Bytes), c)
    {
      PC := ToWord(PC + c.Operand.value.Bytes);
      c.ActualCycles := ToByte(c.ActualCycles + 1);
      r := Pass;
    }

    method BranchNotEqual(c: Cycle) returns (r: Status)
      requires Valid() && c.Operand.Some?
      modifies this, c`ActualCycles
      ensures RAM.ram[..] == old(RAM.ram[..])
      ensures Realizes(r, Semantics.BranchNotEqual(old(Registers()), old(RAM.ram[..]), old(c.ActualCycles), c.Operand.value.Bytes), c)
    {
      Flags := Flags & FlagZero;
      if Flags == 0 {
        var off;
        r, off := RAM.GetByte(c, PC, 1);
        if r.Fail? {
          return;
        }
        BranchTakenOk(old(Registers()), old(RAM.ram[..]), old(c.ActualCycles), c.Operand.value.Bytes, off);
        // `(off & FlagNegative) > 0`
        if off >= 0x80 {
          c.ActualCycles := ToByte(c.ActualCycles + 1);
        }
        var realOff := TwosComplement(off);
        PC := ToWord(PC + realOff);
      } else {
        BranchNotTakenOk(old(Registers()), old(RAM.ram[..]), old(c.ActualCycles), c.Operand.value.Bytes);
        c.ActualCycles := ToByte(c.ActualCycles + 1);
      }
      PC := ToWord(PC + c.Operand.value.Bytes);
      r := Pass;
    }

    method Jump(c: Cycle) returns (r: Status)
      requires Valid()
      modifies this, c`ActualCycles
      ensures RAM.ram[..] == old(RAM.ram[..])
      ensures Realizes(r, Semantics.Jump(old(Registers()), old(RAM.ram[..]), old(c.ActualCycles)), c)
    {
      var address;
      r, address := RAM.GetWord(c, PC, 1);
      if r.Fail? {
        return;
      }
      JumpOk(old(Registers()), old(RAM.ram[..]), old(c.ActualCycles), address);
      PC := address;
    }

    method JumpIndirect(c: Cycle) returns (r: Status)
      requires Valid()
      modifies this, c`ActualCycles
      ensures RAM.ram[..] == old(RAM.ram[..])
      ensures Realizes(r, Semantics.JumpIndirect(old(Registers()), old(RAM.ram[..]), old(c.ActualCycles)), c)
    {
      var indirect, address;
      r, indirect := RAM.GetWord(c, PC, 1);
      if r.Fail? {
        return;
      }
      r, address := RAM.GetWord(c, indirect, 0);
      if r.Fail? {
        return;
      }
      JumpIndirectOk(old(Registers()), old(RAM.ram[..]), old(c.ActualCycles), indirect, address);
      PC := address;
    }

    method JumpSubroutine(c: Cycle) returns (r: Status)
      requires Valid() && c.Operand.Some?
      modifies this, RAM.ram, c`ActualCycles
      ensures Realizes(r, Semantics.JumpSubroutine(old(Registers()), old(RAM.ram[..]), old(c.ActualCycles), c.Operand.value.Bytes), c)
    {
      var address;
      r, address := RAM.GetWord(c, PC, 1);
      if r.Fail? {
        return;
      }
      JumpSubroutineOk(old(Registers()), old(RAM.ram[..]), old(c.ActualCycles), c.Operand.value.Bytes, address);
      PC := ToWord(PC + c.Operand.value.Bytes);
      var add: word := PC;
      add := ToWord(add - 1);
      var lsb := LowByte(add);
      var msb := HighByte(add);
      c.ActualCycles := ToByte(c.ActualCycles + 1);
      StackPush(c, lsb);
      StackPush(c, msb);
      PC := address;
    }

    method ReturnFromSubroutine(c: Cycle) returns (r: Status)
      requires Valid()
      modifies this, c`ActualCycles
      ensures RAM.ram[..] == old(RAM.ram[..])
      ensures Realizes(r, Semantics.ReturnFromSubroutine(old(Registers()), old(RAM.ram[..]), old(c.ActualCycles)), c)
    {
      var msb := StackPop(c);
      var lsb := StackPop(c);
      var address: word := WordOf(lsb, msb);
      address := ToWord(address + 1);
      c.ActualCycles := ToByte(c.ActualCycles + 1);
      PC := address;
      r := Pass;
    }

    method Store(c: Cycle, reg: Reg) returns (r: Status)
      requires Valid() && c.Operand.Some?
      modifies this, RAM.ram, c`ActualCycles
      ensures Realizes(r, Semantics.Store(old(Registers()), old(RAM.ram[..]), old(c.ActualCycles), c.Operand.value.Bytes, reg), c)
    {
      var address;
      r, address := RAM.GetWord(c, PC, 1);
      if r.Fail? {
        return;
      }
      r := RAM.SetByte(c, address, 0, Get(Registers(), reg));
      if r.Fail? {
        return;
      }
      StoreOk(old(Registers()), old(RAM.ram[..]), old(c.ActualCycles), c.Operand.value.Bytes, reg, address);
      PC := ToWord(PC + c.Operand.value.Bytes);
    }

    method AddWithCarry(c: Cycle) returns (r: Status)
      requires Valid() && c.Operand.Some?
      modifies this, c`ActualCycles
      ensures RAM.ram[..] == old(RAM.ram[..])
      ensures Realizes(r, Semantics.AddWithCarry(old(Registers()), old(RAM.ram[..]), old(c.ActualCycles), c.Operand.value.Bytes), c)
    {
      var address, value;
      r, address := RAM.GetWord(c, PC, 1);
      if r.Fail? {
        return;
      }
      r, value := RAM.GetByte(c, address, 0);
      if r.Fail? {
        return;
      }
      AddWithCarryOk(old(Registers()), old(RAM.ram[..]), old(c.ActualCycles), c.Operand.value.Bytes, address, value);
      var result := ToByte(A + value);
      A := result;
      if Flags & FlagCarry != 0 {
        A := ToByte(A + 1);
      }
      SetZeroAndNegativeFlag(A);
      PC := ToWord(PC + c.Operand.value.Bytes);
    }

    /** Sets PC to one before the reset vector, empties the stack and forces
        JMP as the first opcode, then runs the loop until the fetched opcode
        is 0. `fuel` bounds the number of turns; `keys[t]` says whether Enter
        is the key read if turn `t` pauses. The outcome and the final machine
        are those of `Run` from the reset registers. */
    method Reset(bpm: BreakpointMgr, fuel: nat, keys: seq<bool>) returns (r: Status)
      requires Valid() && bpm.Valid() && |keys| >= fuel
      modifies this, RAM.ram, bpm`StepMode, bpm.breakpointSets
      ensures var p := Run(ResetRegs(old(Registers())), old(RAM.ram[..]), fuel);
        r == p.Outcome() && (p.Ok? ==> Registers() == p.value.0 && RAM.ram[..] == p.value.1)
    {
      PC := 0xFFFC;
      SP := 0xFF;
      Opcode := 0x4C;
      PC := PC - 1;
      r := Loop(bpm, fuel, keys);
    }

    /** The `while (Opcode != 0)` loop of `Reset`: one `Step` per turn, at
        most `fuel` turns. */
    method Loop(bpm: BreakpointMgr, fuel: nat, keys: seq<bool>) returns (r: Status)
      requires Valid() && bpm.Valid() && |keys| >= fuel
      modifies this, RAM.ram, bpm`StepMode, bpm.breakpointSets
      ensures var p := Run(old(Registers()), old(RAM.ram[..]), fuel);
        r == p.Outcome() && (p.Ok? ==> Registers() == p.value.0 && RAM.ram[..] == p.value.1)
    {
      ghost var start := Run(Registers(), RAM.ram[..], fuel);
      var n: nat := fuel;
      while Opcode != 0 && n > 0
        invariant Valid() && bpm.Valid() && n <= fuel
        invariant start == Run(Registers(), RAM.ram[..], n)
        decreases n
      {
        var seen, bs;
        r, seen, bs := Step(bpm, keys[fuel - n], n - 1);
        if r.Fail? {
          return;
        }
        n := n - 1;
      }
      r := Pass;
    }

    /** One turn of the `Reset` loop: a new record at PC, the current opcode
        executed, the breakpoint sets consulted with the registers it left
        (`DebugTail`, whose contract says what the scan does), then the next
        opcode fetched from the new PC and charged to the same record. The
        machine moves as one turn of `Run` does (`StepOnce`); `seen` is the
        register file the breakpoints were shown, absent when the instruction
        faulted before they were consulted. */
    method Step(bpm: BreakpointMgr, enter: bool, ghost rest: nat) returns (r: Status, seen: Option<Regs>, bs: Option<BreakPointSet>)
      requires Valid() && bpm.Valid() && Opcode != 0
      modifies this, RAM.ram, bpm`StepMode, bpm.breakpointSets
      ensures Run(old(Registers()), old(RAM.ram[..]), rest + 1) == if r.Fail? then Err(r.fault) else Run(Registers(), RAM.ram[..], rest)
      ensures seen.None? ==> r.Fail? && bs.None? && unchanged(bpm) && unchanged(bpm.breakpointSets)
      ensures seen.Some? ==>
        && bpm.StepMode == (if bs.Some? || old(bpm.StepMode) then !enter else old(bpm.StepMode))
        && seen.value.Opcode == old(Opcode)
        && (r.Pass? ==> Registers() == seen.value.(Opcode := Opcode))
    {
      var c := new Cycle(PC);
      r := ExecuteTurn(c, rest);
      if r.Fail? {
        return r, None, None;
      }
      seen := Some(Registers());
      bs := DebugTail(c, bpm, enter);
      var next;
      r, next := RAM.GetByte(c, PC, 0);
      if r.Fail? {
        return;
      }
      Opcode := next;
    }

    /** The instruction part of a turn: `ExecuteInstruction` on a fresh
        record at PC, related to the turn of `Run` it starts. A fault ends the
        run with that fault; otherwise the run goes on with the opcode fetched
        from the new PC, or ends with `IndexOutOfRange` if PC is past the end
        of memory. */
    method ExecuteTurn(c: Cycle, ghost rest: nat) returns (r: Status)
      requires Valid() && Opcode != 0 && c.StartPC == PC && c.ActualCycles == 1
      modifies this, RAM.ram, c
      ensures r.Fail? ==> Run(old(Registers()), old(RAM.ram[..]), rest + 1) == Err(r.fault)
      ensures r.Pass? ==> Opcode == old(Opcode) && |RAM.ram[..]| == MaxMem
      ensures r.Pass? ==>
        Run(old(Registers()), old(RAM.ram[..]), rest + 1) ==
          if PC >= MaxMem then Err(IndexOutOfRange) else Run(Registers().(Opcode := RAM.ram[PC]), RAM.ram[..], rest)
    {
      RunIsExecuteFetchRest(Registers(), RAM.ram[..], c.StartPC, c.ActualCycles, Opcode, rest);
      r := ExecuteInstruction(c, Opcode);
    }

    /** The breakpoint part of the report after each instruction: the sets
        are consulted with the current registers, and a pause, from a set
        firing or from step mode, sets step mode to whether the key read was
        not Enter (`enter` is that key). */
    method DebugTail(c: Cycle, bpm: BreakpointMgr, enter: bool) returns (bs: Option<BreakPointSet>)
      requires bpm.Valid()
      modifies bpm`StepMode, bpm.breakpointSets
      ensures Scanned(bpm, Registers(), c.StartPC, bs)
      ensures bpm.StepMode == if bs.Some? || old(bpm.StepMode) then !enter else old(bpm.StepMode)
    {
      bs := bpm.ShallIBreak(Registers(), c);
      if bs.Some? || bpm.StepMode {
        bpm.StepMode := !enter;
      }
    }

    /** Runs `opcode` against the record `c`: the descriptor lookup (which
        throws for an opcode not in the table, before anything changes), the
        operand capture, then the instruction itself, exactly as `Execute`
        describes. */
    method ExecuteInstruction(c: Cycle, opcode: byte) returns (r: Status)
      requires Valid()
      modifies this, RAM.ram, c
      ensures Realizes(r, Execute(old(Registers()), old(RAM.ram[..]), c.StartPC, old(c.ActualCycles), opcode), c)
      ensures opcode !in Opcodes ==> unchanged(this, RAM.ram, c)
      ensures r.Pass? ==> c.Operand == Lookup(opcode)
      ensures r.Pass? ==> c.Bytes == old(c.Bytes) + Captured(old(RAM.ram[..]), c.StartPC, OperandCount(Lookup(opcode).value))
    {
      var ins := Lookup(opcode);
      if ins.None? {
        return Fail(UnknownOpcode(opcode));
      }
      c.Operand := ins;
      r := c.ReadOperand(RAM);
      if r.Fail? {
        return;
      }
      r := Switch(c, opcode);
    }

    /** The `switch (opcode)` of `ExecuteInstruction`, once the descriptor is
        in the record: one family method per case, as `Perform` describes. */
    method Switch(c: Cycle, opcode: byte) returns (r: Status)
      requires Valid() && c.Operand.Some? && opcode in Opcodes
      modifies this, RAM.ram, c`ActualCycles
      ensures Realizes(r, Perform(old(Registers()), old(RAM.ram[..]), old(c.ActualCycles), opcode, c.Operand.value.Bytes), c)
    {
      match opcode
      case 0xa1 => r := LoadImmediate(c, RA);
      case 0xa0 => r := LoadImmediate(c, RY);
      case 0xa9 => r := LoadImmediate(c, RA);
      case 0xbd => r := LoadAbsolute(c);
      case 0xb1 => r := LoadImmediate(c, RA);
      case 0xa2 => r := LoadImmediate(c, RX);
      case 0xe8 => r := Bump(c, RX, 1);
      case 0xca => r := Bump(c, RX, -1);
      case 0xc8 => r := Bump(c, RY, 1);
      case 0x88 => r := Bump(c, RY, -1);
      case 0x18 => r := ClearFlag(c, FlagCarry);
      case 0x38 => r := SetFlag(c, FlagCarry);
      case 0x58 => r := ClearFlag(c, FlagInterruptDisable);
      case 0x78 => r := SetFlag(c, FlagInterruptDisable);
      case 0xb8 => r := ClearFlag(c, FlagOverflow);
      case 0xd8 => r := ClearFlag(c, FlagDecimal);
      case 0xf8 => r := SetFlag(c, FlagDecimal);
      case 0xd0 => r := BranchNotEqual(c);
      case 0x4c => r := Jump(c);
      case 0x6c => r := JumpIndirect(c);
      case 0x20 => r := JumpSubroutine(c);
      case 0x60 => r := ReturnFromSubroutine(c);
      case 0xea => r := NoOperation(c);
      case 0xaa => r := Transfer(c, RA, RX);
      case 0x8a => r := Transfer(c, RX, RA);
      case 0xa8 => r := Transfer(c, RA, RY);
      case 0x98 => r := Transfer(c, RY, RA);
      case 0x8d => r := Store(c, RA);
      case 0xad => r := LoadAbsolute(c);
      case 0x8e => r := Store(c, RX);
      case 0x6d => r := AddWithCarry(c);
      case _ => assert false;
    }
  }
}
