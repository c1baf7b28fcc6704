# 6502em core in Dafny

A model of the core of 6502em, a small C# emulator of the MOS 6502 processor.
The emulator is a memory bus that charges cycles and a 31-opcode instruction
table. It also has a CPU that runs one big instruction switch in a loop
started by `Reset`, and a breakpoint engine consulted after every
instruction. The model follows the C# code, including where it differs from
a real 6502:

- memory has 65535 cells, so address 0xFFFF is out of range;
- indexed and indirect loads ignore X and Y;
- `BNE` overwrites the flags with `Flags & FlagZero`;
- `ADC` never updates the carry;
- `Reset` does not clear the flags.

Files and modules:

- `types.dfy` (`Types`): the C# value types.
  - `byte` and `word` are integer subtypes.
  - The byte and `UInt16` casts are written out (`ToByte`, `ToWord`).
  - Little-endian words: `WordOf`, `LowByte`, `HighByte`.
  - The fault channel stands for the two exceptions the code can raise.
    `Status` is the outcome of a method that returns nothing; `Result<T>`
    carries a value or a fault.
- `instruction.dfy` (`Instructions`): the `Instruction` record and the constant
  opcode table. `Lookup` is the dictionary, `AddOrder` is the order of the `Add`
  calls, and `Opcodes` is the set of keys.
- `bus.dfy` (`Bus`): the `Memory` class over an `array<byte>`, and the `Cycle`
  record class. Every `GetByte`, `SetByte` and `GetWord` charges cycles to a
  `Cycle`. Memory contents as values (`ReadAt`, `WriteAt`, `WordAt`) describe
  what the methods do.
- `semantics.dfy` (`Semantics`): what each instruction does, as functions on
  register and memory values.
  - `Execute` is one pass of `ExecuteInstruction`.
  - `StepOnce` is one turn of the `Reset` loop: execute, then fetch the next
    opcode.
  - `Run` is the loop for at most `fuel` turns, stopping at opcode 0.
- `cpu.dfy` (`Processor`): the `CPU` class with the C# register fields.
  - Each family of cases of the switch is a method. Each is proved to move the
    machine exactly as the matching `Semantics` function says (`Realizes`).
  - `Switch` is the switch itself, and `ExecuteInstruction` adds the lookup
    and the operand capture.
  - `Reset` sets up the registers, and `Loop` runs the `while` loop, one `Step`
    per turn. Both are proved to end in the state `Run` describes.
- `breakpoint.dfy` (`Breakpoints`): `Breakpoint`, `BreakPointSet` and
  `BreakpointMgr`.
  - A set ANDs its conditions and counts down its full matches. It fires when
    the count reaches exactly 0.
  - The manager asks its sets in order and stops at the first that fires.
- `properties.dfy` (`Properties`): lemmas about `Execute` and `Run`. Each states
  what an instruction means, how runs compose, and how cycles are counted.

Exceptions become results. A `KeyNotFoundException` from the opcode dictionary
becomes `UnknownOpcode(op)`. An `IndexOutOfRangeException` from the memory
array becomes `IndexOutOfRange`. A method that would throw returns `Fail` at
that point, having made the changes the C# code makes before the throw.

## Model

| member | source | states |
|---|---|---|
| Types.WrapIsModulo | 6502em/CPU.cs:247 | the byte and `UInt16` casts, on the values the code produces, are reduction modulo 256 and 65536 |
| Types.HighBitIsUpperHalf | 6502em/CPU.cs:392 | the test `v & 0x80` is set exactly for bytes from 0x80 up |
| Types.OrShiftIsWordOf | 6502em/Memory.cs:95-97 | `lo \| hi << 8` on 16 bits is the little-endian word of the two bytes |
| Types.WordBytesRoundTrip | 6502em/CPU.cs:273-276 | splitting a word into `(byte)w` and `(byte)(w >> 8)` and joining them again gives the word back |
| Types.BytesWordRoundTrip | 6502em/CPU.cs:285-288 | joining two bytes into a word and splitting it again gives the two bytes back |
| Instructions.Lookup | 6502em/Instruction.cs:49-81 | a descriptor exists exactly for the 31 opcodes added; each is filed under its own opcode and is 1 to 3 bytes long; only 0xbd and 0xb1 (one extra cycle each) and 0xD0 (two) have extra cycles |
| Instructions.OrderDistinct | 6502em/Instruction.cs:51-81 | no two `Add` calls use the same opcode |
| Instructions.SameKeys | 6502em/Instruction.cs:51-81 | the keys of the table are exactly the opcodes of the `Add` calls |
| Instructions.TableHasEachOpcodeOnce | 6502em/Instruction.cs:93-101 | no `Add` call hits an existing key, so none throws, and the dictionary holds 31 entries |
| Instructions.ZeroIsNotAnOpcode | 6502em/Instruction.cs:51-81 | opcode 0, where the run loop stops, has no descriptor |
| Instructions.KnownDescriptors | 6502em/Instruction.cs:56-61 | LDX # has 2 bytes; JMP indirect has 5 cycles and JMP 3; JSR has 3 bytes and 6 cycles; RTS has 1 byte and 6 cycles |
| Bus.WordAt | 6502em/Memory.cs:92-99 | the word read succeeds exactly when both indices `Address+offset` and `Address+(byte)(offset+1)` are below 65535; it is low byte plus 256 times high byte |
| Bus.LoadedReadBack | 6502em/Memory.cs:106-112 | after a copy, the copied cells read back the copied bytes and every other cell is unchanged |
| Bus.Cycle.constructor | 6502em/Cycle.cs:16-36 | a new record has the given start PC, one cycle charged, no operand bytes and no descriptor |
| Bus.Cycle.ReadOperand | 6502em/Cycle.cs:42-50 | succeeds exactly when all `Bytes - 1` operand addresses (16-bit, wrapping) are in memory; it then appends exactly the bytes at `StartPC + 1 + i`; it charges no cycle and changes no memory |
| Bus.Memory.constructor | 6502em/Memory.cs:15-25 | a fresh memory of 65535 cells, all zero |
| Bus.Memory.ReadByteDebug | 6502em/Memory.cs:32-35 | returns `ram[Address]`, and faults exactly for 0xFFFF; it reads without changing anything |
| Bus.Memory.GetByte | 6502em/Memory.cs:43-59 | charges exactly one cycle (with byte wrap-around) and returns `ram[Address+offset]`; faults exactly when that index is 65535 or more; memory is untouched |
| Bus.Memory.SetByte | 6502em/Memory.cs:68-72 | charges exactly one cycle; on success exactly cell `Address+offset` takes the value; on a fault memory is unchanged |
| Bus.Memory.GetWord | 6502em/Memory.cs:80-99 | returns the little-endian word `WordAt` describes, charging two cycles when it succeeds |
| Bus.Memory.LoadMemnory | 6502em/Memory.cs:106-112 | succeeds exactly when the bytes fit below 65535; the cells from `Address` on hold the bytes (up to the end of memory on a fault) and no other cell changes; on success each byte reads back through `ReadByteDebug` |
| Semantics.ZeroNegativeFlags | 6502em/CPU.cs:381-400 | after `SetZeroAndNegativeFlag(v)`: Z set exactly when `v == 0`, N exactly when bit 7 of `v` is set, the other six bits kept |
| Semantics.TwosComplementValue | 6502em/CPU.cs:413-423 | `ConvertTwosComplementByteToSByte` returns the signed byte with the same bit pattern: `b` below 0x80, `b - 256` otherwise |
| Semantics.StackAddress | 6502em/CPU.cs:430-434 | the stack cell `SP \| 0x100` is always in page 1 |
| Semantics.LoadImmediate | 6502em/CPU.cs:115-135 | LDA/LDX/LDY #, and LDA (zp,X) / LDA (zp),Y as coded: keeps memory and the opcode register; its effect is stated by `Properties.ImmediateLoad` |
| Semantics.LoadAbsolute | 6502em/CPU.cs:136-143 | LDA abs,X (and LDA abs, lines 340-347): keeps memory and the opcode register; its effect is stated by `Properties.AbsoluteLoad` |
| Semantics.Bump | 6502em/CPU.cs:158-189 | INX/DEX/INY/DEY: keeps memory and the opcode register; its effect is stated by `Properties.IncrementDecrement` |
| Semantics.SetFlag | 6502em/CPU.cs:197-217 | SEC/SEI/SED: keeps memory and the opcode register; its effect is stated by `Properties.FlagInstruction` |
| Semantics.ClearFlag | 6502em/CPU.cs:190-231 | CLC/CLI/CLV/CLD: keeps memory and the opcode register; its effect is stated by `Properties.FlagInstruction` |
| Semantics.BranchNotEqual | 6502em/CPU.cs:239-255 | BNE: keeps memory and the opcode register; its effect is stated by `Properties.BranchTarget` |
| Semantics.Jump | 6502em/CPU.cs:256-261 | JMP abs: keeps memory and the opcode register; its effect is stated by `Properties.Jumps` |
| Semantics.JumpIndirect | 6502em/CPU.cs:262-268 | JMP (abs): keeps memory and the opcode register; its effect is stated by `Properties.Jumps` |
| Semantics.JumpSubroutine | 6502em/CPU.cs:269-282 | JSR: keeps the memory size and the opcode register; its effect is stated by `Properties.SubroutineCall` |
| Semantics.ReturnFromSubroutine | 6502em/CPU.cs:283-293 | RTS: keeps memory and the opcode register; with JSR it completes `Properties.CallReturnRoundTrip` |
| Semantics.NoOperation | 6502em/CPU.cs:294-300 | NOP: keeps memory and the opcode register; its effect is stated by `Properties.NoOperationSkips` |
| Semantics.Transfer | 6502em/CPU.cs:301-332 | TAX/TXA/TAY/TYA: keeps memory and the opcode register; its effect is stated by `Properties.TransferCopies` |
| Semantics.Store | 6502em/CPU.cs:333-354 | STA/STX abs: keeps the memory size and the opcode register; its effect is stated by `Properties.AbsoluteStore` |
| Semantics.AddWithCarry | 6502em/CPU.cs:355-369 | ADC abs: keeps memory and the opcode register; its effect is stated by `Properties.AddWithCarrySum` |
| Semantics.Perform | 6502em/CPU.cs:113-371 | no case of the switch changes the memory size or the opcode register |
| Semantics.Execute | 6502em/CPU.cs:106-113 | an opcode missing from the table faults with `UnknownOpcode` before anything changes; a success keeps the memory size and the opcode register |
| Semantics.StepOnce | 6502em/CPU.cs:84-97 | a successful turn keeps the memory size |
| Semantics.Run | 6502em/CPU.cs:82-98 | a successful run keeps the memory size |
| Semantics.Turn | 6502em/CPU.cs:84-97 | a successful turn followed by the rest of the run keeps the memory size |
| Semantics.RunIsTurnThenRest | 6502em/CPU.cs:82-98 | with a nonzero opcode, a run of `rest + 1` turns is one turn, then a run of `rest` turns from where that turn left off; a fault in the turn ends the run |
| Semantics.RunIsExecuteFetchRest | 6502em/CPU.cs:84-97 | a turn is the instruction on a fresh record (start PC = PC, one cycle), then the fetch of the next opcode at the new PC, which faults past the end of memory |
| Processor.CPU.constructor | 6502em/CPU.cs:11-51 | all registers 0 and a fresh, zeroed memory |
| Processor.CPU.SetZeroAndNegativeFlag | 6502em/CPU.cs:381-400 | the flags become `ZeroNegative(old flags, Value)`, whose meaning is `Semantics.ZeroNegativeFlags` |
| Processor.CPU.StackPush | 6502em/CPU.cs:430-437 | writes the value to cell `0x100 \| SP` and no other, moves SP down by one modulo 256, and charges one cycle |
| Processor.CPU.StackPop | 6502em/CPU.cs:444-452 | moves SP up by one modulo 256, returns cell `0x100 \| SP`, and charges two cycles |
| Processor.CPU.LoadImmediate | 6502em/CPU.cs:115-135 | registers, memory, cycle count and outcome are exactly those of `Semantics.LoadImmediate` |
| Processor.CPU.LoadAbsolute | 6502em/CPU.cs:136-143 | registers, memory, cycle count and outcome are exactly those of `Semantics.LoadAbsolute` |
| Processor.CPU.Bump | 6502em/CPU.cs:158-189 | registers, memory, cycle count and outcome are exactly those of `Semantics.Bump` |
| Processor.CPU.Transfer | 6502em/CPU.cs:301-332 | registers, memory, cycle count and outcome are exactly those of `Semantics.Transfer` |
| Processor.CPU.SetFlag | 6502em/CPU.cs:197-217 | registers, memory, cycle count and outcome are exactly those of `Semantics.SetFlag` |
| Processor.CPU.ClearFlag | 6502em/CPU.cs:190-231 | registers, memory, cycle count and outcome are exactly those of `Semantics.ClearFlag` |
| Processor.CPU.NoOperation | 6502em/CPU.cs:294-300 | registers, memory, cycle count and outcome are exactly those of `Semantics.NoOperation` |
| Processor.CPU.BranchNotEqual | 6502em/CPU.cs:239-255 | registers, memory, cycle count and outcome are exactly those of `Semantics.BranchNotEqual` |
| Processor.CPU.Jump | 6502em/CPU.cs:256-261 | registers, memory, cycle count and outcome are exactly those of `Semantics.Jump` |
| Processor.CPU.JumpIndirect | 6502em/CPU.cs:262-268 | registers, memory, cycle count and outcome are exactly those of `Semantics.JumpIndirect` |
| Processor.CPU.JumpSubroutine | 6502em/CPU.cs:269-282 | registers, memory (the two pushes), cycle count and outcome are exactly those of `Semantics.JumpSubroutine` |
| Processor.CPU.ReturnFromSubroutine | 6502em/CPU.cs:283-293 | registers, memory, cycle count and outcome are exactly those of `Semantics.ReturnFromSubroutine` |
| Processor.CPU.Store | 6502em/CPU.cs:333-354 | registers, memory, cycle count and outcome are exactly those of `Semantics.Store` |
| Processor.CPU.AddWithCarry | 6502em/CPU.cs:355-369 | registers, memory, cycle count and outcome are exactly those of `Semantics.AddWithCarry` |
| Processor.CPU.Switch | 6502em/CPU.cs:113-371 | for an opcode of the table, the machine moves exactly as `Semantics.Perform` says |
| Processor.CPU.ExecuteInstruction | 6502em/CPU.cs:106-113 | the machine moves exactly as `Semantics.Execute` says. An unknown opcode changes nothing. On success the record holds the descriptor and the captured operand bytes |
| Processor.CPU.ExecuteTurn | 6502em/CPU.cs:88-93 | the instruction on a fresh record relates to the run: a fault ends it, and otherwise it goes on from the new state with the opcode at the new PC |
| Processor.CPU.Step | 6502em/CPU.cs:84-97 | a run of `rest + 1` turns from the old state equals a run of `rest` turns from the new state, or the fault the turn hit. The breakpoints see the registers the instruction left. Step mode follows `DebugTail` |
| Processor.CPU.DebugTail | 6502em/CPU.cs:493-506 | the sets are consulted as `BreakpointMgr.ShallIBreak` promises. When a set fired or step mode was on, step mode becomes "the key was not Enter"; otherwise it is unchanged |
| Processor.CPU.Loop | 6502em/CPU.cs:82-98 | the outcome and final machine are those of `Run` for at most `fuel` turns from the starting state |
| Processor.CPU.Reset | 6502em/CPU.cs:65-98 | PC = 0xFFFB, SP = 0xFF, opcode JMP, flags and other registers kept. The outcome and final machine are those of `Run` from there |
| Breakpoints.ElementOf | 6502em/Breakpoint.cs:108-182 | exactly the twelve names of the switch denote an element |
| Breakpoints.FlagConditionValues | 6502em/Breakpoint.cs:146-181 | a flag condition holds exactly when its value is the masked bit: 0 when the flag is clear, the mask when it is set (so `Z` with 1 never holds) |
| Breakpoints.PCConditionUsesStartPC | 6502em/Breakpoint.cs:116-121 | the `PC` condition holds exactly when the record's start PC equals the value, whatever the current PC |
| Breakpoints.UnknownNamesMatch | 6502em/Breakpoint.cs:104-108 | a set whose conditions name no element (or that has none) matches every time |
| Breakpoints.Matches | 6502em/Breakpoint.cs:108-182 | the switch case for one condition answers whether the condition holds |
| Breakpoints.BreakPointSet.constructor | 6502em/Breakpoint.cs:79-93 | a set with no conditions and the default count 1 |
| Breakpoints.BreakPointSet.WithCount | 6502em/Breakpoint.cs:59-73 | a set with no conditions and the given count |
| Breakpoints.BreakPointSet.ShallIBreak | 6502em/Breakpoint.cs:102-193 | when every condition holds, the count drops by one and the answer is whether it is now 0. Otherwise the count is unchanged and the answer is false. The conditions are untouched |
| Breakpoints.BreakPointSet.AddBreakPoint | 6502em/Breakpoint.cs:200-213 | the condition is appended at the end; the earlier ones are kept in order |
| Breakpoints.Answers | 6502em/Breakpoint.cs:185-192 | the answers of successive calls, one per call |
| Breakpoints.FiresOnCountthHit | 6502em/Breakpoint.cs:185-192 | call `i` fires exactly when it is a full match and the `count`-th full match so far |
| Breakpoints.FiresAtMostOnce | 6502em/Breakpoint.cs:185-192 | a set fires at most once over any sequence of calls. It fires exactly once iff its count is at least 1 and at most the number of full matches |
| Breakpoints.NeverFiresAgain | 6502em/Breakpoint.cs:185-190 | a set whose count is 0 or below never fires again |
| Breakpoints.BreakpointMgr.constructor | 6502em/Breakpoint.cs:16-21 | no sets, step mode off |
| Breakpoints.BreakpointMgr.AddBreakPointSet | 6502em/Breakpoint.cs:43-46 | the set is appended at the end; the earlier sets are kept in order |
| Breakpoints.BreakpointMgr.ShallIBreak | 6502em/Breakpoint.cs:29-37 | returns the first set, in registration order, that fires, or none. Sets before it were counted down and did not fire. Sets after it keep their counts. No set's conditions change |
| Properties.ZeroNegativeMeaning | 6502em/CPU.cs:381-400 | Z set exactly for 0, N exactly from 0x80 up, other flag bits kept |
| Properties.ImmediateLoad | 6502em/CPU.cs:115-157 | LDA/LDX/LDY # and LDA (zp,X), LDA (zp),Y load the byte after the opcode into their register. Z and N follow it, PC moves 2, 2 cycles, nothing else changes |
| Properties.AbsoluteLoad | 6502em/CPU.cs:340-347 | LDA abs and abs,X load the byte at the operand word into A (faulting exactly when it is 0xFFFF). Z and N follow it, PC moves 3, 4 cycles |
| Properties.IndexRegistersIgnored | 6502em/CPU.cs:136-150 | the results of 0xbd, 0xa1 and 0xb1 do not depend on X or Y |
| Properties.IncrementDecrement | 6502em/CPU.cs:158-189 | INX/DEX/INY/DEY move their register by ±1 modulo 256. Z and N follow it, PC moves 1, nothing else changes |
| Properties.IndexWrapsAround | 6502em/CPU.cs:158-173 | INX on 0xFF gives 0 with Z set; DEX on 0 gives 0xFF with N set |
| Properties.TransferCopies | 6502em/CPU.cs:301-332 | TAX/TXA/TAY/TYA copy source to target. Z and N follow the value, PC moves 1, nothing else changes |
| Properties.FlagInstruction | 6502em/CPU.cs:190-238 | SEC/SEI/SED set and CLC/CLI/CLV/CLD clear exactly their bit. Every other flag bit and register except PC is kept, PC moves 1, 2 cycles |
| Properties.NoOperationSkips | 6502em/CPU.cs:294-300 | NOP moves PC one byte (mod 65536) in 2 cycles; no other register, flag or memory cell changes |
| Properties.BranchTarget | 6502em/CPU.cs:239-255 | BNE leaves the flags as `Flags & FlagZero`. With Z clear, PC becomes (PC + 2 + signed offset) mod 65536, costing 3 cycles backward and 2 forward. With Z set, PC moves 2 at a cost of 2 cycles |
| Properties.FibonacciLoopBranch | 6502em/Program.cs:32-33 | the BNE 0xf5 at 0x7012 of the demo goes back to 0x7009 |
| Properties.Jumps | 6502em/CPU.cs:256-268 | JMP sets PC to the operand word in 3 cycles. JMP (abs) sets PC to the word stored at the operand word in 5 cycles, faulting exactly when that word runs past memory |
| Properties.SubroutineCall | 6502em/CPU.cs:269-282 | JSR at p pushes low(p+2) at `0x100\|SP`, then high(p+2) one cell lower. It leaves SP two lower (mod 256), jumps to the operand word, and takes 6 cycles |
| Properties.CallReturnRoundTrip | 6502em/CPU.cs:269-293 | JSR at p followed by RTS returns to p+3 with SP and every other register restored. Each instruction takes 6 cycles |
| Properties.AbsoluteStore | 6502em/CPU.cs:333-354 | STA/STX abs write their register at the operand word and change nothing else but PC (+3), taking 4 cycles. An operand word of 0xFFFF faults |
| Properties.AddWithCarrySum | 6502em/CPU.cs:355-369 | ADC abs: A = (A + M + C) mod 256, Z and N follow it, the carry bit is unchanged, PC moves 3, 4 cycles |
| Properties.CyclesWithinTable | 6502em/CPU.cs:488 | for every opcode except 0xa1 and 0xb1, the cycles charged lie between the table's base count and base plus extra |
| Properties.IndirectLoadsUndercharged | 6502em/CPU.cs:115-150 | 0xa1 and 0xb1 are charged 2 cycles, fewer than their table counts |
| Properties.ResetFollowsVector | 6502em/CPU.cs:65-97 | the first turn after `Reset` sets PC to the word at 0xFFFC/0xFFFD and fetches the opcode there. The fetch is the fourth cycle of that record. Only a vector of 0xFFFF faults |
| Properties.DemoResetVector | 6502em/Program.cs:17 | with the demo's vector bytes the first turn lands at 0x5000 |
| Properties.UnknownOpcodeStopsRun | 6502em/CPU.cs:106-108 | a run reaching an opcode missing from the table ends with `UnknownOpcode` for it |
| Properties.RunOne | 6502em/CPU.cs:82-97 | one turn of fuel is exactly one `StepOnce`, or nothing when the opcode is 0 |
| Properties.RunAdditive | 6502em/CPU.cs:82-98 | running `a + b` turns is running `a` turns, then `b` more from where that stopped |
| Properties.HaltedStaysHalted | 6502em/CPU.cs:82 | once a run has stopped at opcode 0, more fuel changes nothing |
| Properties.RunningMeansFuelSpent | 6502em/CPU.cs:82-97 | a successful run that ends on a nonzero opcode either had no fuel or started on a nonzero opcode whose turn succeeded |

## Left out

- Console output is not modelled: `DebugHeader`, the printing in `DebugTail`, `ToBinary`, `Cycle.DebugRow`, `BreakPointSet.ToString` and the set's `Name`. The `Format` strings are kept as data only. The colour check of the cycle count in `DebugTail` is stated instead as `Properties.CyclesWithinTable` and `Properties.IndirectLoadsUndercharged`.
- `Console.ReadKey` is blocking keyboard input. The key read is a parameter: `enter` of `DebugTail` and `Step`, and the sequence `keys` of `Reset`.
- C# exceptions are results (`Fail`/`Err`): the model does not unwind the program, it returns the fault to the caller.
- Processor.CPU.Reset: the loop `while (Opcode != 0)` need not terminate, so `Reset` and `Loop` run at most `fuel` turns; a run that never fetches opcode 0 is described up to that bound only.
- Processor.CPU.Step: its contract does not restate how the breakpoint sets were scanned; that is `DebugTail`'s contract (and `BreakpointMgr.ShallIBreak`'s). Step states the run relation, the registers the breakpoints saw and the new step mode.
- Breakpoints.BreakpointMgr.AddBreakPointSet: requires that the set is not registered yet. The C# list accepts the same set twice, and the model does not cover that case, because the scan's contract identifies sets by their position.
- Breakpoints.BreakPointSet.ShallIBreak: `Count` is an unbounded integer; the 32-bit wrap of a C# `int` after 2^31 decrements below zero is not modelled.
- Bus.Memory.GetWord: on a fault the contract does not state the cycle count (one cycle is charged when the first read faults, two when the second does).
- The `GetByte(c, Address)` and `GetWord(c, Address)` overloads are the offset-0 calls. The `AddBreakPoint(Breakpoint)` overload is modelled by the append of `AddBreakPoint(element, valueForBreak)` (see the aliasing line below), and the `(count, name)` constructor of a set is `WithCount`, since the name is display only.
- `Breakpoint` is a value (a datatype), not a C# object with public mutable fields. `AddBreakPoint(Breakpoint)` stores a reference in C#, so a caller that later changes that object's `Element` or `ValueForBreak` changes the set's condition. The model does not capture that aliasing: a condition, once added, stays as it was added.
- `ToByte` and `ToWord` are written for the ranges the code produces (one wrap step), not for arbitrary integers.
- The real 6502's X/Y indexing, ADC carry-out and overflow, decimal mode and interrupts are not modelled, because the code does not implement them.
- `Program.cs` (the demo wiring) is not part of this model; its reset vector and the Fibonacci branch appear only as the lemmas `Properties.DemoResetVector` and `Properties.FibonacciLoopBranch`.
