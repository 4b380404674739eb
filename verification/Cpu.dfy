/** The core's sequencing: trap entry and deferral, and one instruction step (cpu_core.cpp). */
module CpuCore {
  import opened Words
  import opened CpuState
  import opened BusModel
  import opened Instructions

  /** The trap table holds one word per trap number. */
  function VectorAddress(c: Core, t: Trap): uint32 {
    Wrap32(c.ttbr + 4 * t.no)
  }

  /** What stays fixed while the core runs. */
  datatype Config = Config(dispatch: Dispatch, breakpoints: set<uint32>, strict: bool)
  {
    /** Every handler keeps the representation invariants of core and memory. */
    ghost predicate Sound() {
      forall c: Core, m: Memory, insn: uint16 | c.Valid() && m.Valid() ::
        dispatch(c, m, insn).core.Valid() && dispatch(c, m, insn).mem.Valid()
    }
  }

  /** The whole state a step works on. */
  datatype Machine = Machine(core: Core, deferred: Option<Trap>, mem: Memory)
  {
    predicate Valid() {
      core.Valid() && mem.Valid()
    }

    /** do_trap's gate: IE and IL mask the traps from 16 on. */
    predicate Accepts(t: Trap) {
      t.Maskable() ==> core.psr.ie && core.psr.il < t.level
    }

    function WithMem(m: Memory): Machine { this.(mem := m) }

    function PushWord(v: uint32): (m: Machine)
      requires Valid()
      ensures m.Valid()
    {
      var (c, m) := Push(core, mem, v);
      Machine(c, deferred, m)
    }

    /** Control passes to the handler: interrupts masked, halt left. */
    function Vector(t: Trap, vector: uint32): Machine {
      var masked := core.psr.(ie := false);
      var psr := if t.Maskable() then masked.SetIl(t.level) else masked;
      this.(core := core.(pc := vector, psr := psr, inHalt := false, haltMode := Running))
    }

    /** Trap entry: fetch the vector, push PC then PSR, go to the handler. */
    function Enter(t: Trap): (m: Machine)
      requires Valid()
      ensures m.Valid()
    {
      var (vector, mem0) := mem.Read32(VectorAddress(core, t));
      WithMem(mem0).PushWord(core.pc).PushWord(core.psr.ToRaw()).Vector(t, vector)
    }

    function DoTrap(t: Trap): (m: Machine)
      requires Valid()
      ensures m.Valid()
    {
      if !Accepts(t) then this
      else if core.Open() then Enter(t)
      else this.(deferred := Some(t))
    }

    /** Refusals before dispatch: EXT in a slot, an instruction unfit for the slot, EXT misuse. */
    predicate Refuses(insn: uint16, strict: bool) {
      || (core.inDelaySlot && core.pendingExt != [])
      || (core.inDelaySlot && DelaySlotClass(insn) == SlotHard)
      || (core.inDelaySlot && DelaySlotClass(insn) == SlotSoft && strict)
      || (core.pendingExt != [] && !ExtCapable(insn) && strict)
    }

    /** After fetch: PC moved on, the fetch charged. */
    function Fetched(): (m: Machine)
      requires Valid()
      ensures m.Valid()
    {
      this.(core := core.(pc := Wrap32(core.pc + 2)), mem := mem.Fetch16(core.pc).1)
    }

    /** Dispatch, then whatever trap the handler asserted. */
    function Execute(insn: uint16, cfg: Config): (m: Machine)
      requires Valid() && cfg.Sound()
      ensures m.Valid()
    {
      var eff := cfg.dispatch(core, mem, insn);
      var m := Machine(eff.core, deferred, eff.mem);
      if eff.trap.Some? then m.DoTrap(eff.trap.value) else m
    }

    /** A pending bus fault stops the core. */
    function TakeFault(): (m: Machine)
      requires Valid()
      ensures m.Valid()
    {
      if !mem.faultPending then this
      else Machine(if core.fault then core else Faulted(core), deferred, mem.(faultPending := false))
    }

    /** The slot instruction is done: take the branch. */
    function CloseSlot(inSlot: bool, target: uint32): (m: Machine)
      requires Valid()
      ensures m.Valid()
    {
      if inSlot && !core.inHalt then this.(core := core.(inDelaySlot := false, delayCaller := 0, pc := target))
      else this
    }

    /** Re-evaluates a deferred trap once neither EXT nor a slot is open. */
    function FireDeferred(): (m: Machine)
      requires Valid()
      ensures m.Valid()
    {
      if core.Open() && deferred.Some? && !core.fault then this.(deferred := None).DoTrap(deferred.value)
      else this
    }

    /** One step, up to but not including the deferred-trap check. */
    function Advance(cfg: Config): (m: Machine)
      requires Valid() && cfg.Sound() && !core.inHalt && core.pc !in cfg.breakpoints
      ensures m.Valid()
    {
      Fetched().Execute(mem.Fetch16(core.pc).0, cfg).TakeFault().CloseSlot(core.inDelaySlot, core.delayTarget)
    }

    function Step(cfg: Config): (m: Machine)
      requires Valid() && cfg.Sound()
      ensures m.Valid()
    {
      if core.inHalt then this
      else if core.pc in cfg.breakpoints then this.(core := core.(inHalt := true))
      else if Refuses(mem.Fetch16(core.pc).0, cfg.strict) then Fetched().(core := Faulted(Fetched().core))
      else Advance(cfg).FireDeferred()
    }
  }

  /** The object form of Machine: the core's state and the bus it drives. */
  class Cpu {
    var core: Core
    var deferred: Option<Trap>
    const bus: Bus
    const config: Config

    constructor (bus: Bus, config: Config, core: Core)
      ensures this.bus == bus && this.config == config
      ensures this.core == core && deferred == None
    {
      this.bus, this.config := bus, config;
      this.core, this.deferred := core, None;
    }

    ghost function State(): Machine
      reads this, bus
    {
      Machine(core, deferred, bus.mem)
    }

    method AssertTrap(t: Trap)
      requires State().Valid()
      modifies this, bus
      ensures State() == old(State()).DoTrap(t)
    {
      if t.Maskable() {
        if !core.psr.ie {
          return;
        }
        if t.level <= core.psr.il {
          return;
        }
      }
      if core.pendingExt != [] || core.inDelaySlot {
        deferred := Some(t);
        return;
      }
      EnterTrap(t);
    }

    /** The part of do_trap past its guards. */
    method EnterTrap(t: Trap)
      requires State().Valid()
      modifies this, bus
      ensures State() == old(State()).Enter(t)
    {
      var vector := bus.Read32(VectorAddress(core, t));
      PushWord(core.pc);
      PushWord(core.psr.ToRaw());
      GoToHandler(t, vector);
    }

    method GoToHandler(t: Trap, vector: uint32)
      modifies this
      ensures State() == old(State()).Vector(t, vector)
    {
      core := core.(pc := vector, psr := core.psr.(ie := false));
      if t.Maskable() {
        core := core.(psr := core.psr.SetIl(t.level));
      }
      core := core.(inHalt := false, haltMode := Running);
    }

    method PushWord(v: uint32)
      requires State().Valid()
      modifies this`core, bus
      ensures State() == old(State()).PushWord(v)
      ensures core.psr == old(core.psr)
    {
      core := core.(sp := Wrap32(core.sp - 4));
      bus.Write32(core.sp, v);
    }

    /** One instruction; returns the cycles it charged to the bus, never fewer than one. */
    method Step() returns (cost: nat)
      requires State().Valid() && config.Sound()
      modifies this, bus
      ensures State() == old(State()).Step(config)
      ensures cost == Cost(old(bus.mem.cycles), bus.mem.cycles)
    {
      hide Machine.Advance;
      var before := bus.mem.cycles;
      if core.inHalt {
        return 1;
      }
      if core.pc in config.breakpoints {
        core := core.(inHalt := true);
        return 1;
      }
      RunInstruction();
      cost := Cost(before, bus.mem.cycles);
    }

    method RunInstruction()
      requires State().Valid() && config.Sound() && !core.inHalt && core.pc !in config.breakpoints
      modifies this, bus
      ensures State() == old(State()).Step(config)
    {
      ghost var start := State();
      var insn := bus.Fetch16(core.pc);
      var inSlot, target := core.inDelaySlot, core.delayTarget;
      core := core.(pc := Wrap32(core.pc + 2));
      assert State() == start.Fetched();

      if inSlot {
        if core.pendingExt != [] {
          core := Faulted(core);
          return;
        }
        var class_ := DelaySlotClass(insn);
        if class_ == SlotHard || (class_ == SlotSoft && config.strict) {
          core := Faulted(core);
          return;
        }
      }
      if core.pendingExt != [] && !ExtCapable(insn) && config.strict {
        core := Faulted(core);
        return;
      }

      Dispatch(insn);
      PollFault();
      if inSlot && !core.inHalt {
        core := core.(inDelaySlot := false, delayCaller := 0, pc := target);
      }
      assert State() == start.Advance(config);
      if core.pendingExt == [] && !core.inDelaySlot && deferred.Some? && !core.fault {
        var t := deferred.value;
        deferred := None;
        AssertTrap(t);
      }
    }

    method Dispatch(insn: uint16)
      requires State().Valid() && config.Sound()
      modifies this, bus
      ensures State() == old(State()).Execute(insn, config)
    {
      var eff := config.dispatch(core, bus.mem, insn);
      core, bus.mem := eff.core, eff.mem;
      if eff.trap.Some? {
        AssertTrap(eff.trap.value);
      }
    }

    method PollFault()
      requires State().Valid()
      modifies this, bus
      ensures State() == old(State()).TakeFault()
    {
      var fault := bus.mem.faultPending;
      bus.mem := bus.mem.(faultPending := false);
      if fault && !core.fault {
        core := Faulted(core);
      }
    }
  }

  /** The bus cycles between two readings of the wrapping counter, at least one. */
  function Cost(before: uint32, after: uint32): nat {
    var d := Wrap32(after - before);
    if d > 0 then d else 1
  }

  /** The counter's wrap-around does not show: an instruction costs what it charged, and one cycle
      if it charged none. */
  lemma CostMeans(before: uint32, charged: nat)
    requires charged < TWO32
    ensures Cost(before, Wrap32(before + charged)) == if charged == 0 then 1 else charged
  {
  }
}
