/** The breakpoint engine: a breakpoint set ANDs its conditions and counts
    down its hits, firing when the count reaches exactly zero; the manager asks
    its sets in registration order and stops at the first that fires. */
module Breakpoints {
  import opened Types
  import opened Bus
  import opened Semantics

  /** One condition: the name of a CPU element and the value to break on. */
  datatype Breakpoint = Breakpoint(Element: string, ValueForBreak: int)

  /** The elements a condition can name. */
  datatype Element =
    | OpcodeReg | StartPC | AReg | XReg | YReg | SPReg
    | Carry | Decimal | Overflow | InterruptDisable | Negative | Zero

  /** The element a name stands for, if any. */
  function ElementOf(name: string): (e: Option<Element>)
    ensures e.Some? <==> name in {"Opcode", "PC", "A", "X", "Y", "SP", "C", "D", "V", "I", "N", "Z"}
  {
    if name == "Opcode" then Some(OpcodeReg)
    else if name == "PC" then Some(StartPC)
    else if name == "A" then Some(AReg)
    else if name == "X" then Some(XReg)
    else if name == "Y" then Some(YReg)
    else if name == "SP" then Some(SPReg)
    else if name == "C" then Some(Carry)
    else if name == "D" then Some(Decimal)
    else if name == "V" then Some(Overflow)
    else if name == "I" then Some(InterruptDisable)
    else if name == "N" then Some(Negative)
    else if name == "Z" then Some(Zero)
    else None
  }

  /** The value an element watches: a register, the start PC of the
      instruction's record, or a flag masked with its own bit (0 or the mask). */
  function Watched(e: Element, cpu: Regs, startPC: word): int
  {
    match e
    case OpcodeReg => cpu.Opcode
    case StartPC => startPC
    case AReg => cpu.A
    case XReg => cpu.X
    case YReg => cpu.Y
    case SPReg => cpu.SP
    case Carry => (cpu.Flags & FlagCarry) as int
    case Decimal => (cpu.Flags & FlagDecimal) as int
    case Overflow => (cpu.Flags & FlagOverflow) as int
    case InterruptDisable => (cpu.Flags & FlagInterruptDisable) as int
    case Negative => (cpu.Flags & FlagNegative) as int
    case Zero => (cpu.Flags & FlagZero) as int
  }

  /** A condition holds when its element has its value; a name that is no
      element is not rejected and holds always. */
  predicate Holds(bp: Breakpoint, cpu: Regs, startPC: word)
  {
    match ElementOf(bp.Element)
    case None => true
    case Some(e) => Watched(e, cpu, startPC) == bp.ValueForBreak
  }

  /** Every condition of a set holds. */
  predicate AllHold(bps: seq<Breakpoint>, cpu: Regs, startPC: word)
  {
    forall i :: 0 <= i < |bps| ==> Holds(bps[i], cpu, startPC)
  }

  /** The bit a flag element masks; 0 for the other elements. */
  function FlagBit(e: Element): bits8
  {
    match e
    case Carry => FlagCarry
    case Decimal => FlagDecimal
    case Overflow => FlagOverflow
    case InterruptDisable => FlagInterruptDisable
    case Negative => FlagNegative
    case Zero => FlagZero
    case _ => 0
  }

  /** A flag condition compares the masked bit, so it can only hold with the
      value 0 (flag clear) or the flag's own mask (flag set): `Z` with 1, for
      one, never holds. */
  lemma FlagConditionValues(bp: Breakpoint, cpu: Regs, startPC: word)
    requires ElementOf(bp.Element).Some? && FlagBit(ElementOf(bp.Element).value) != 0
    ensures var mask := FlagBit(ElementOf(bp.Element).value);
      Holds(bp, cpu, startPC) <==>
        bp.ValueForBreak == (if cpu.Flags & mask != 0 then mask as int else 0)
  {
    var e := ElementOf(bp.Element).value;
    var mask := FlagBit(e);
    assert cpu.Flags & mask == 0 || cpu.Flags & mask == mask by {
      SingleBit(cpu.Flags, e);
    }
  }

  /** Masking with a flag's bit leaves 0 or the bit. */
  lemma SingleBit(f: bits8, e: Element)
    requires FlagBit(e) != 0
    ensures f & FlagBit(e) == 0 || f & FlagBit(e) == FlagBit(e)
  {
  }

  /** The `PC` condition looks at the start PC of the instruction's record,
      not at the program counter after the instruction. */
  lemma PCConditionUsesStartPC(v: int, cpu: Regs, startPC: word)
    ensures Holds(Breakpoint("PC", v), cpu, startPC) <==> startPC == v
    ensures Holds(Breakpoint("PC", v), cpu, startPC) == Holds(Breakpoint("PC", v), cpu.(PC := 0), startPC)
  {
  }

  /** Conditions naming no element never stop a set from matching, so a set
      holding only such conditions, or none at all, matches every time. */
  lemma UnknownNamesMatch(bps: seq<Breakpoint>, cpu: Regs, startPC: word)
    requires forall i :: 0 <= i < |bps| ==> ElementOf(bps[i].Element).None?
    ensures AllHold(bps, cpu, startPC)
  {
  }

  /** One call of a set's test with count `count`: a full match decrements the
      count and fires when it reaches 0; anything else changes nothing. */
  function Tick(count: int, hit: bool): (int, bool)
  {
    if hit then (count - 1, count - 1 == 0) else (count, false)
  }

  /** The test of one condition, by the name of its element; a name that is
      no element leaves the set's answer as it is. */
  method Matches(bp: Breakpoint, cpu: Regs, startPC: word) returns (holds: bool)
    ensures holds == Holds(bp, cpu, startPC)
  {
    holds := true;
    if bp.Element == "Opcode" {
      if cpu.Opcode != bp.ValueForBreak { holds := false; }
    } else if bp.Element == "PC" {
      if startPC != bp.ValueForBreak { holds := false; }
    } else if bp.Element == "A" {
      if cpu.A != bp.ValueForBreak { holds := false; }
    } else if bp.Element == "X" {
      if cpu.X != bp.ValueForBreak { holds := false; }
    } else if bp.Element == "Y" {
      if cpu.Y != bp.ValueForBreak { holds := false; }
    } else if bp.Element == "SP" {
      if cpu.SP != bp.ValueForBreak { holds := false; }
    } else if bp.Element == "C" {
      if (cpu.Flags & FlagCarry) as int != bp.ValueForBreak { holds := false; }
    } else if bp.Element == "D" {
      if (cpu.Flags & FlagDecimal) as int != bp.ValueForBreak { holds := false; }
    } else if bp.Element == "V" {
      if (cpu.Flags & FlagOverflow) as int != bp.ValueForBreak { holds := false; }
    } else if bp.Element == "I" {
      if (cpu.Flags & FlagInterruptDisable) as int != bp.ValueForBreak { holds := false; }
    } else if bp.Element == "N" {
      if (cpu.Flags & FlagNegative) as int != bp.ValueForBreak { holds := false; }
    } else if bp.Element == "Z" {
      if (cpu.Flags & FlagZero) as int != bp.ValueForBreak { holds := false; }
    }
  }

  class BreakPointSet {
    /** The conditions, in the order they were added. */
    var breakpoints: seq<Breakpoint>
    /** Full matches still to see before the set fires. */
    var Count: int

    /** A set with no conditions that fires on the first full match. */
    constructor ()
      ensures breakpoints == [] && Count == 1
    {
      breakpoints := [];
      Count := 1;
    }

    /** A set with no conditions that fires on the `count`-th full match. */
    constructor WithCount(count: int)
      ensures breakpoints == [] && Count == count
    {
      breakpoints := [];
      Count := count;
    }

    /** Tests every condition against the CPU and the record, then counts the
        call down if they all held. */
    method ShallIBreak(cpu: Regs, c: Cycle) returns (shallIBreak: bool)
      modifies this`Count
      ensures (Count, shallIBreak) == Tick(old(Count), AllHold(breakpoints, cpu, c.StartPC))
    {
      shallIBreak := true;
      var i := 0;
      while i < |breakpoints|
        invariant 0 <= i <= |breakpoints|
        invariant shallIBreak <==> AllHold(breakpoints[..i], cpu, c.StartPC)
        invariant Count == old(Count)
      {
        var bp := breakpoints[i];
        var holds := Matches(bp, cpu, c.StartPC);
        if !holds {
          shallIBreak := false;
        }
        assert breakpoints[..i + 1] == breakpoints[..i] + [bp];
        i := i + 1;
      }
      assert breakpoints[..i] == breakpoints;
      if shallIBreak {
        Count := Count - 1;
        if Count != 0 {
          shallIBreak := false;
        }
      }
    }

    /** Appends a condition. */
    method AddBreakPoint(element: string, valueForBreak: int)
      modifies this`breakpoints
      ensures breakpoints == old(breakpoints) + [Breakpoint(element, valueForBreak)]
    {
      breakpoints := breakpoints + [Breakpoint(element, valueForBreak)];
    }
  }

  // ---------------------------------------------------------------------
  // The hit counter over a run of calls

  /** The answers of successive calls of one set, where `hits[i]` says whether
      every condition held at call `i`. */
  function Answers(count: int, hits: seq<bool>): (a: seq<bool>)
    ensures |a| == |hits|
    decreases |hits|
  {
    if hits == [] then []
    else
      var (count', fired) := Tick(count, hits[0]);
      [fired] + Answers(count', hits[1..])
  }

  /** The number of `true`s in `s`. */
  function Trues(s: seq<bool>): nat
    decreases |s|
  {
    if s == [] then 0 else (if s[0] then 1 else 0) + Trues(s[1..])
  }

  /** Call `i` fires exactly when it is a full match and the `count`-th one. */
  lemma {:induction false} FiresOnCountthHit(count: int, hits: seq<bool>, i: nat)
    requires i < |hits|
    ensures Answers(count, hits)[i] <==> hits[i] && Trues(hits[..i + 1]) == count
    decreases i
  {
    var count' := Tick(count, hits[0]).0;
    if i == 0 {
      assert hits[..1] == [hits[0]];
    } else {
      FiresOnCountthHit(count', hits[1..], i - 1);
      assert hits[1..][..i] == hits[1..i + 1];
      assert hits[..i + 1] == [hits[0]] + hits[1..i + 1];
      assert Trues(hits[..i + 1]) == (if hits[0] then 1 else 0) + Trues(hits[1..i + 1]);
    }
  }

  /** A set fires at most once, and it fires at all exactly when its count is
      at least 1 and at most the number of full matches. */
  lemma {:induction false} FiresAtMostOnce(count: int, hits: seq<bool>)
    ensures Trues(Answers(count, hits)) <= 1
    ensures Trues(Answers(count, hits)) == 1 <==> 1 <= count <= Trues(hits)
    decreases |hits|
  {
    if hits != [] {
      var (count', fired) := Tick(count, hits[0]);
      FiresAtMostOnce(count', hits[1..]);
      assert Answers(count, hits)[1..] == Answers(count', hits[1..]);
      if fired {
        // the count is now 0, and it only goes down from here
        NeverFiresAgain(count', hits[1..]);
      }
    }
  }

  /** With a count that is already 0 or below, a set never fires. */
  lemma {:induction false} NeverFiresAgain(count: int, hits: seq<bool>)
    requires count <= 0
    ensures Trues(Answers(count, hits)) == 0
    decreases |hits|
  {
    if hits != [] {
      var (count', fired) := Tick(count, hits[0]);
      NeverFiresAgain(count', hits[1..]);
      assert Answers(count, hits)[1..] == Answers(count', hits[1..]);
    }
  }

  // ---------------------------------------------------------------------
  // The manager

  /** The outcome of one scan of `mgr`'s sets against the CPU and the start
      PC: the set returned fires, no set before it fires, every set up to it
      (all of them when none fires) has been asked and counted down on a full
      match, and the sets after it have not been asked. */
  twostate predicate Scanned(mgr: BreakpointMgr, cpu: Regs, startPC: word, new bs: Option<BreakPointSet>)
    reads mgr, mgr.breakpointSets
  {
    var sets := mgr.breakpointSets;
    && sets == old(mgr.breakpointSets)
    && (forall j :: 0 <= j < |sets| ==> sets[j].breakpoints == old(sets[j].breakpoints))
    && (bs.Some? ==> bs.value in mgr.Position && mgr.Position[bs.value] < |sets| &&
                     var k := mgr.Position[bs.value];
                     sets[k] == bs.value && Tick(old(sets[k].Count), AllHold(sets[k].breakpoints, cpu, startPC)).1)
    && (forall j :: 0 <= j < |sets| && (bs.None? || j < mgr.Position[bs.value]) ==>
          !Tick(old(sets[j].Count), AllHold(sets[j].breakpoints, cpu, startPC)).1)
    && (forall j :: 0 <= j < |sets| ==>
          sets[j].Count == if bs.None? || j <= mgr.Position[bs.value]
                           then Tick(old(sets[j].Count), AllHold(sets[j].breakpoints, cpu, startPC)).0
                           else old(sets[j].Count))
  }

  class BreakpointMgr {
    /** The registered sets, in registration order. */
    var breakpointSets: seq<BreakPointSet>
    /** Whether the run pauses after every instruction. */
    var StepMode: bool
    /** The position of each registered set. */
    ghost var Position: map<BreakPointSet, nat>

    /** No set is registered twice: each has one position. */
    ghost predicate Valid()
      reads this`breakpointSets, this`Position
    {
      forall j :: 0 <= j < |breakpointSets| ==> breakpointSets[j] in Position && Position[breakpointSets[j]] == j
    }

    constructor ()
      ensures Valid() && breakpointSets == [] && !StepMode
    {
      breakpointSets := [];
      StepMode := false;
      Position := map[];
    }

    /** Registers a set after the ones already there. */
    method AddBreakPointSet(bps: BreakPointSet)
      requires Valid() && bps !in breakpointSets
      modifies this`breakpointSets, this`Position
      ensures Valid() && breakpointSets == old(breakpointSets) + [bps]
    {
      Position := Position[bps := |breakpointSets|];
      breakpointSets := breakpointSets + [bps];
    }

    /** Asks the sets in registration order and returns the first that fires. */
    method ShallIBreak(cpu: Regs, c: Cycle) returns (bs: Option<BreakPointSet>)
      requires Valid()
      modifies breakpointSets
      ensures Scanned(this, cpu, c.StartPC, bs)
    {
      var i := 0;
      while i < |breakpointSets|
        invariant 0 <= i <= |breakpointSets|
        invariant forall j :: 0 <= j < |breakpointSets| ==> breakpointSets[j].breakpoints == old(breakpointSets[j].breakpoints)
        invariant forall j :: 0 <= j < i ==> !Tick(old(breakpointSets[j].Count), AllHold(breakpointSets[j].breakpoints, cpu, c.StartPC)).1
        invariant forall j :: 0 <= j < |breakpointSets| ==>
          breakpointSets[j].Count == if j < i then Tick(old(breakpointSets[j].Count), AllHold(breakpointSets[j].breakpoints, cpu, c.StartPC)).0
                                     else old(breakpointSets[j].Count)
      {
        assert forall j :: 0 <= j < |breakpointSets| && j != i ==> breakpointSets[j] != breakpointSets[i];
        var fired := breakpointSets[i].ShallIBreak(cpu, c);
        if fired {
          return Some(breakpointSets[i]);
        }
        i := i + 1;
      }
      return None;
    }
  }
}
