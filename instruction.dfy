/** The instruction descriptors and the constant opcode table of the emulator. */
module Instructions {
  import opened Types

  /** Everything the emulator knows about one opcode. */
  datatype Instruction = Instruction(
    OpCode: byte,
    Format: string,     // display template, used only by the trace renderer
    Cycles: byte,       // base number of cycles
    ExtraCycles: byte,  // largest number of additional cycles
    Bytes: byte)        // instruction length including the opcode byte

  /** One `Add(OpCode, Bytes, Cycles, ExtraCycles, Format)` call, with the
      arguments in the order the table is written in. */
  function Descriptor(OpCode: byte, Bytes: byte, Cycles: byte, ExtraCycles: byte, Format: string): (d: Instruction)
  {
    Instruction(OpCode, Format, Cycles, ExtraCycles, Bytes)
  }

  /** The opcodes of the 31 `Add` calls of the `InstructionSet` constructor,
      in the order they are made. Nothing changes the dictionary afterwards. */
  const AddOrder: seq<byte> := [
    0xa9, 0xad, 0xbd, 0xa1, 0xb1, 0xa2, 0xd0, 0x4c,
    0x6c, 0x20, 0x60, 0xea, 0xaa, 0x8a, 0xe8, 0xca,
    0xa8, 0x98, 0xc8, 0x88, 0x18, 0x38, 0x58, 0x78,
    0xb8, 0xd8, 0xf8, 0x8d, 0xa0, 0x8e, 0x6d]

  /** The keys of the dictionary. */
  const Opcodes: set<byte> := {
    0xa9, 0xad, 0xbd, 0xa1, 0xb1, 0xa2, 0xd0, 0x4c,
    0x6c, 0x20, 0x60, 0xea, 0xaa, 0x8a, 0xe8, 0xca,
    0xa8, 0x98, 0xc8, 0x88, 0x18, 0x38, 0x58, 0x78,
    0xb8, 0xd8, 0xf8, 0x8d, 0xa0, 0x8e, 0x6d}

  /** No value occurs twice: `Dictionary.Add` throws on a repeated key. */
  predicate Distinct(s: seq<byte>)
  {
    forall i, j :: 0 <= i < j < |s| ==> s[i] != s[j]
  }

  /** `Instructions[opcode]`: the descriptor, or nothing where the dictionary
      indexer would throw. Every descriptor is filed under its own opcode, is
      one to three bytes long, and only LDA abs,X, LDA (ind),Y and BNE may
      take extra cycles. */
  function Lookup(opcode: byte): (r: Option<Instruction>)
    ensures r.Some? <==> opcode in Opcodes
    ensures r.Some? ==> r.value.OpCode == opcode
    ensures r.Some? ==> 1 <= r.value.Bytes <= 3
    ensures r.Some? ==> (r.value.ExtraCycles != 0 <==> opcode in {0xbd, 0xb1, 0xd0})
    ensures r.Some? && opcode == 0xbd ==> r.value.ExtraCycles == 1
    ensures r.Some? && opcode == 0xb1 ==> r.value.ExtraCycles == 1
    ensures r.Some? && opcode == 0xd0 ==> r.value.ExtraCycles == 2
  {
    match opcode
    case 0xa9 => Some(Descriptor(0xa9, 2, 2, 0, "LDA #${0:x2}"))
    case 0xad => Some(Descriptor(0xad, 3, 4, 0, "LDA ${1:x2}{0:x2}"))
    case 0xbd => Some(Descriptor(0xbd, 3, 4, 1, "LDA ${1:x2}{0:x2}, X"))
    case 0xa1 => Some(Descriptor(0xa1, 2, 6, 0, "LDA (${0:x2}, X)"))
    case 0xb1 => Some(Descriptor(0xb1, 2, 5, 1, "LDA (${0:x2}), Y"))
    case 0xa2 => Some(Descriptor(0xa2, 2, 2, 0, "LDX #${0:x2}"))
    case 0xd0 => Some(Descriptor(0xd0, 2, 2, 2, "BNE ${0:x2}"))
    case 0x4c => Some(Descriptor(0x4c, 3, 3, 0, "JMP ${1:x2}{0:x2}"))
    case 0x6c => Some(Descriptor(0x6c, 3, 5, 0, "JMP (${1:x2}{0:x2})"))
    case 0x20 => Some(Descriptor(0x20, 3, 6, 0, "JSR ${1:x2}{0:x2}"))
    case 0x60 => Some(Descriptor(0x60, 1, 6, 0, "RTS"))
    case 0xea => Some(Descriptor(0xea, 1, 2, 0, "NOP"))
    case 0xaa => Some(Descriptor(0xaa, 1, 2, 0, "TAX"))
    case 0x8a => Some(Descriptor(0x8a, 1, 2, 0, "TXA"))
    case 0xe8 => Some(Descriptor(0xe8, 1, 2, 0, "INX"))
    case 0xca => Some(Descriptor(0xca, 1, 2, 0, "DEX"))
    case 0xa8 => Some(Descriptor(0xa8, 1, 2, 0, "TAY"))
    case 0x98 => Some(Descriptor(0x98, 1, 2, 0, "TYA"))
    case 0xc8 => Some(Descriptor(0xc8, 1, 2, 0, "INY"))
    case 0x88 => Some(Descriptor(0x88, 1, 2, 0, "DEY"))
    case 0x18 => Some(Descriptor(0x18, 1, 2, 0, "CLC"))
    case 0x38 => Some(Descriptor(0x38, 1, 2, 0, "SEC"))
    case 0x58 => Some(Descriptor(0x58, 1, 2, 0, "CLI"))
    case 0x78 => Some(Descriptor(0x78, 1, 2, 0, "SEI"))
    case 0xb8 => Some(Descriptor(0xb8, 1, 2, 0, "CLV"))
    case 0xd8 => Some(Descriptor(0xd8, 1, 2, 0, "CLD"))
    case 0xf8 => Some(Descriptor(0xf8, 1, 2, 0, "SED"))
    case 0x8d => Some(Descriptor(0x8d, 3, 4, 0, "STA ${1:x2}{0:x2}"))
    case 0xa0 => Some(Descriptor(0xa0, 2, 2, 0, "LDY #${0:x2}"))
    case 0x8e => Some(Descriptor(0x8e, 3, 4, 0, "STX ${1:x2}{0:x2}"))
    case 0x6d => Some(Descriptor(0x6d, 3, 4, 0, "ADC ${1:x2}{0:x2}"))
    case _ => None
  }

  /** Number of operand bytes that follow the opcode (`Bytes - 1`, none for a
      zero length). */
  function OperandCount(i: Instruction): nat
  {
    if i.Bytes == 0 then 0 else i.Bytes - 1
  }

  /** The values that occur in `s`. */
  function Elements(s: seq<byte>): set<byte>
  {
    set x | x in s
  }

  /** A sequence without repeats has as many distinct values as elements. */
  lemma {:induction false} DistinctCardinality(s: seq<byte>)
    requires Distinct(s)
    ensures |Elements(s)| == |s|
  {
    if s != [] {
      var rest := Elements(s[1..]);
      assert Distinct(s[1..]) by {
        forall i, j | 0 <= i < j < |s[1..]| ensures s[1..][i] != s[1..][j] {
          assert s[1..][i] == s[i + 1] && s[1..][j] == s[j + 1];
        }
      }
      DistinctCardinality(s[1..]);
      assert Elements(s) == rest + {s[0]} by {
        forall x | x in s ensures x in rest + {s[0]} {
          var k :| 0 <= k < |s| && s[k] == x;
          if k > 0 {
            assert s[1..][k - 1] == x;
          }
        }
      }
      assert s[0] !in rest by {
        forall k | 0 <= k < |s[1..]| ensures s[1..][k] != s[0] {
          assert s[1..][k] == s[k + 1];
        }
      }
    }
  }

  /** The number of the `Add` call that files `op`. */
  function CallIndex(op: byte): int
  {
    match op
    case 0xa9 => 0  case 0xad => 1  case 0xbd => 2  case 0xa1 => 3
    case 0xb1 => 4  case 0xa2 => 5  case 0xd0 => 6  case 0x4c => 7
    case 0x6c => 8  case 0x20 => 9  case 0x60 => 10 case 0xea => 11
    case 0xaa => 12 case 0x8a => 13 case 0xe8 => 14 case 0xca => 15
    case 0xa8 => 16 case 0x98 => 17 case 0xc8 => 18 case 0x88 => 19
    case 0x18 => 20 case 0x38 => 21 case 0x58 => 22 case 0x78 => 23
    case 0xb8 => 24 case 0xd8 => 25 case 0xf8 => 26 case 0x8d => 27
    case 0xa0 => 28 case 0x8e => 29 case 0x6d => 30
    case _ => -1
  }

  /** Every opcode of the constructor sits at its own call index, so no two
      calls share an opcode. */
  lemma OrderDistinct()
    ensures Distinct(AddOrder)
  {
    assert forall i :: 0 <= i < |AddOrder| ==> CallIndex(AddOrder[i]) == i;
  }

  /** The keys are exactly the opcodes of the calls. */
  lemma SameKeys()
    ensures Opcodes == Elements(AddOrder)
  {
  }

  /** None of the 31 `Add` calls repeats a key, so none of them throws, and
      the dictionary ends up with 31 entries. */
  lemma TableHasEachOpcodeOnce()
    ensures Distinct(AddOrder)
    ensures |Opcodes| == 31
  {
    OrderDistinct();
    SameKeys();
    DistinctCardinality(AddOrder);
  }

  /** Opcode 0, the halt sentinel of the run loop, has no descriptor. */
  lemma ZeroIsNotAnOpcode()
    ensures Lookup(0x00).None?
  {
  }

  /** Descriptors the instruction semantics depend on. */
  lemma KnownDescriptors()
    ensures Lookup(0xa2).Some? && Lookup(0xa2).value.Bytes == 2
    ensures Lookup(0x6c).Some? && Lookup(0x6c).value.Cycles == 5
    ensures Lookup(0x4c).Some? && Lookup(0x4c).value.Cycles == 3
    ensures Lookup(0x20).Some? && Lookup(0x20).value.Bytes == 3 && Lookup(0x20).value.Cycles == 6
    ensures Lookup(0x60).Some? && Lookup(0x60).value.Bytes == 1 && Lookup(0x60).value.Cycles == 6
  {
  }
}
