/** Properties of the EXT / delay-slot / deferred-trap machine over whole runs. */
module Sequencing {
  import opened Words
  import opened CpuState
  import opened BusModel
  import opened Instructions
  import opened CpuCore

  // ---- what every run keeps ----

  /** A trap waits in the deferred slot only while EXT or a delay slot is open, or after a fault. */
  predicate Quiescent(m: Machine) {
    m.deferred.Some? ==> !m.core.Open() || m.core.fault
  }

  datatype Event = Tick | Assert(trap: Trap)

  function Run(m: Machine, events: seq<Event>, cfg: Config): (m': Machine)
    requires m.Valid() && cfg.Sound()
    ensures m'.Valid()
    decreases |events|
  {
    if events == [] then m
    else
      var last := |events| - 1;
      var before := Run(m, events[..last], cfg);
      match events[last]
      case Tick => before.Step(cfg)
      case Assert(t) => before.DoTrap(t)
  }

  /** At most two EXT prefixes are ever pending, and no deferred trap outlives the first
      boundary at which it could be taken, whatever the order of steps and assertions. */
  lemma {:induction false} RunKeepsQuiescence(m: Machine, events: seq<Event>, cfg: Config)
    requires m.Valid() && cfg.Sound() && Quiescent(m)
    ensures Quiescent(Run(m, events, cfg)) && |Run(m, events, cfg).core.pendingExt| <= 2
    decreases |events|
  {
    if events != [] {
      var n := |events| - 1;
      RunKeepsQuiescence(m, events[..n], cfg);
      StepQuiesces(Run(m, events[..n], cfg), cfg);
      hide Machine.Step, Machine.Enter, Machine.Accepts;
    }
  }

  /** Whatever a step starts from, it ends with no trap waiting that could have been taken. */
  lemma StepQuiesces(m: Machine, cfg: Config)
    requires m.Valid() && cfg.Sound() && Quiescent(m)
    ensures Quiescent(m.Step(cfg))
  {
    hide Machine.Advance, Machine.Accepts, Memory.Fetch16, Memory.Read32, Memory.Write32, Psr.ToRaw;
  }

  /** The concrete table keeps the invariants whenever classes 1 to 5 do. */
  lemma TableIsSound(data: Dispatch, strict: bool, breakpoints: set<uint32>)
    requires Config(data, breakpoints, strict).Sound()
    ensures Config(TableOver(data, strict), breakpoints, strict).Sound()
  {
    forall c: Core, m: Memory, insn: uint16 | c.Valid() && m.Valid()
      ensures Table(c, m, insn, data, strict).core.Valid() && Table(c, m, insn, data, strict).mem.Valid()
    {
      var eff := Config(data, breakpoints, strict).dispatch(c, m, insn);
      assert eff == data(c, m, insn);
    }
  }

  // ---- halting inside a delay slot ----

  /** A halted core leaves halt exactly when the trap is accepted at an open boundary. */
  lemma TrapWakesIff(m: Machine, t: Trap)
    requires m.Valid() && m.core.inHalt
    ensures !m.DoTrap(t).core.inHalt <==> m.Accepts(t) && m.core.Open()
  {
  }

  /** slp or halt in a slot, without strict mode, halts with the slot still open ... */
  lemma HaltInSlotStaysOpen(m: Machine, data: Dispatch, breakpoints: set<uint32>)
    requires m.Valid() && Config(data, breakpoints, false).Sound()
    requires !m.core.inHalt && m.core.inDelaySlot && m.core.pendingExt == [] && m.core.pc !in breakpoints
    requires !m.mem.faultPending
    requires var insn := m.mem.Fetch16(m.core.pc).0; Cls(insn) == 0 && C0Op1(insn) == 0 && 1 <= C0Op2(insn) <= 2
    ensures Config(TableOver(data, false), breakpoints, false).Sound()
    ensures
      var m' := m.Step(Config(TableOver(data, false), breakpoints, false));
      m'.core.inHalt && m'.core.inDelaySlot && m'.core.fault == m.core.fault
  {
    TableIsSound(data, false, breakpoints);
  }

  /** ... and from a halt with EXT pending or a slot open, however it came about (a breakpoint
      after an EXT does it too), no run of steps and traps changes the core again: it never wakes. */
  lemma {:induction false} HaltInsideNeverWakes(m: Machine, events: seq<Event>, cfg: Config)
    requires m.Valid() && cfg.Sound() && m.core.inHalt && !m.core.Open()
    ensures Run(m, events, cfg).core == m.core && Run(m, events, cfg).mem == m.mem
    decreases |events|
  {
    if events != [] {
      HaltInsideNeverWakes(m, events[..|events| - 1], cfg);
    }
  }
}
