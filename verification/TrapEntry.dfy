/** What trap entry does to PSR and PC, which traps it lets through, and where the software
    interrupts go (cpu_core.cpp, cpu_class0.cpp). */
module TrapEntry {
  import opened Words
  import opened CpuState
  import opened BusModel
  import opened Instructions
  import opened CpuCore
  import opened Transparency
  import Branches
  import Arithmetic

  /** The handler starts with interrupts disabled and, after a maskable trap, at the trap's level;
      every other field of PSR is that of the interrupted program. */
  lemma HandlerPsr(m: Machine, t: Trap)
    requires m.Valid()
    ensures m.Enter(t).core.psr == m.core.psr.(ie := false, il := if 16 <= t.no then t.level % 16 else m.core.psr.il)
  {
    hide Memory.Read32, Memory.Write32, Psr.ToRaw, Wrap32;
  }

  /** So no maskable trap nests before the handler allows it. */
  lemma HandlerIsMasked(m: Machine, t: Trap, u: Trap)
    requires m.Valid() && 16 <= u.no
    ensures m.Enter(t).DoTrap(u) == m.Enter(t)
  {
    HandlerPsr(m, t);
    hide Machine.Enter;
  }

  /** The handler starts at the word in the trap's slot of the trap table. */
  lemma HandlerAddress(m: Machine, t: Trap)
    requires m.Valid()
    ensures m.Enter(t).core.pc == m.mem.Read32(Wrap32(m.core.ttbr + 4 * t.no)).0
  {
    hide Memory.Read32, Memory.Write32, Psr.ToRaw, Wrap32;
  }

  /** In installed memory that word is the four bytes there, the first weighing least. */
  lemma HandlerAddressBytes(m: Machine, t: Trap)
    requires m.Valid() && Wrap32(m.core.ttbr + 4 * t.no) % 4 == 0
    ensures
      var a := Wrap32(m.core.ttbr + 4 * t.no) % 0x1000_0000;
      ByteAt(m.mem, a).Some? ==>
        && a + 3 < 0x1000_0000
        && ByteAt(m.mem, a + 1).Some? && ByteAt(m.mem, a + 2).Some? && ByteAt(m.mem, a + 3).Some?
        && m.Enter(t).core.pc
           == Joined(ByteAt(m.mem, a).value, ByteAt(m.mem, a + 1).value, ByteAt(m.mem, a + 2).value, ByteAt(m.mem, a + 3).value)
  {
    HandlerAddress(m, t);
    hide Machine.Enter, Memory.Read32, ByteAt, Wrap32;
    WordReads(m.mem, Wrap32(m.core.ttbr + 4 * t.no));
  }

  /** A maskable trap is ignored while IE is clear or IL is not below its level; any other is
      entered at once, or put into the deferred slot while EXT or a delay slot is open. */
  lemma TrapGate(m: Machine, t: Trap)
    requires m.Valid()
    ensures m.DoTrap(t) ==
              if 16 <= t.no && (!m.core.psr.ie || t.level <= m.core.psr.il) then m
              else if m.core.pendingExt == [] && !m.core.inDelaySlot then m.Enter(t)
              else m.(deferred := Some(t))
  {
    hide Machine.Enter;
  }

  // ---- software interrupts and the halting instructions ----

  /** The core stands before an instruction, with no EXT, slot, halt or fault in the way. */
  predicate Poised(m: Machine, cfg: Config, insn: uint16)
    requires m.Valid()
  {
    && m.core.Open() && !m.core.inHalt && !m.core.fault && m.deferred == None && !m.mem.faultPending
    && m.core.pc !in cfg.breakpoints && m.mem.Fetch16(m.core.pc).0 == insn
  }

  function IntWord(n: nat): uint16
    requires n < 4
  {
    0x480 + n
  }

  const BRK_WORD: uint16 := 0x400
  const SLP_WORD: uint16 := 0x040
  const HALT_WORD: uint16 := 0x080

  /** int n enters trap 12 + n and brk trap 0, whatever the masks, with the next instruction as the
      return address. */
  lemma SoftwareTraps(m: Machine, n: nat, data: Dispatch, breakpoints: set<uint32>, strict: bool)
    requires m.Valid() && n < 4 && Config(TableOver(data, strict), breakpoints, strict).Sound()
    ensures
      var cfg := Config(TableOver(data, strict), breakpoints, strict);
      && (Poised(m, cfg, IntWord(n)) ==> TrapTaken(m, m.Step(cfg), 12 + n))
      && (Poised(m, cfg, BRK_WORD) ==> TrapTaken(m, m.Step(cfg), 0))
  {
    var cfg := Config(TableOver(data, strict), breakpoints, strict);
    if Poised(m, cfg, IntWord(n)) {
      IntDecodes(n);
      SoftwareTrap(m, IntWord(n), 12 + n, data, breakpoints, strict);
    }
    if Poised(m, cfg, BRK_WORD) {
      SoftwareTrap(m, BRK_WORD, 0, data, breakpoints, strict);
    }
  }

  /** Trap `no` was entered after the fetch, or a bus fault on the way stopped the core. */
  predicate TrapTaken(m: Machine, r: Machine, no: nat)
    requires m.Valid()
  {
    var e := m.Fetched().Enter(Trap(no, 0));
    r.core == (if e.mem.faultPending then Faulted(e.core) else e.core) && r.deferred == None
    && r.mem.sram == e.mem.sram && !r.mem.faultPending
  }

  lemma IntDecodes(n: nat)
    requires n < 4
    ensures Cls(IntWord(n)) == 0 && C0Op1(IntWord(n)) == 2 && C0Op2(IntWord(n)) == 2 && IntWord(n) % 4 == n
  {
  }

  lemma SoftwareTrap(m: Machine, insn: uint16, no: nat, data: Dispatch, breakpoints: set<uint32>, strict: bool)
    requires m.Valid() && Config(TableOver(data, strict), breakpoints, strict).Sound()
    requires Poised(m, Config(TableOver(data, strict), breakpoints, strict), insn)
    requires Cls(insn) == 0 && C0Op1(insn) == 2
    requires (C0Op2(insn) == 0 && no == 0) || (C0Op2(insn) == 2 && no == 12 + insn % 4)
    ensures TrapTaken(m, m.Step(Config(TableOver(data, strict), breakpoints, strict)), no)
  {
    hide Memory.Fetch16, Machine.Enter, Cls, C0Op1, C0Op2;
    var f := m.Fetched();
    FetchOnlyCharges(m);
    FlushNothing(f.core);
    hide Machine.Fetched;
    EnterStaysOpen(f, Trap(no, 0));
  }

  lemma FlushNothing(c: Core)
    requires c.pendingExt == []
    ensures FlushExt(c) == c
  {
  }

  lemma EnterStaysOpen(m: Machine, t: Trap)
    requires m.Valid() && m.core.Open() && !m.core.fault
    ensures m.Enter(t).core.Open() && !m.Enter(t).core.fault && !m.Enter(t).core.inHalt
    ensures m.Enter(t).deferred == m.deferred
  {
    hide Memory.Read32, Memory.Write32, Psr.ToRaw, Wrap32;
  }

  /** slp and halt stop the core behind themselves, each in its own mode, and do nothing else. */
  lemma HaltingSteps(m: Machine, data: Dispatch, breakpoints: set<uint32>, strict: bool)
    requires m.Valid() && Config(TableOver(data, strict), breakpoints, strict).Sound()
    ensures
      var cfg := Config(TableOver(data, strict), breakpoints, strict);
      var next := m.core.(pc := Wrap32(m.core.pc + 2), inHalt := true);
      && (Poised(m, cfg, SLP_WORD) ==> m.Step(cfg) == Machine(next.(haltMode := Slp), None, m.mem.Fetch16(m.core.pc).1))
      && (Poised(m, cfg, HALT_WORD) ==> m.Step(cfg) == Machine(next.(haltMode := Hlt), None, m.mem.Fetch16(m.core.pc).1))
  {
    hide Memory.Fetch16, Wrap32, Class0, Cls;
    FetchOnlyCharges(m);
    var cfg, f := Config(TableOver(data, strict), breakpoints, strict), m.Fetched();
    HaltingEffects(f.core, f.mem);
    if Poised(m, cfg, SLP_WORD) {
      Branches.StepOutsideSlot(m, SLP_WORD, cfg);
    }
    if Poised(m, cfg, HALT_WORD) {
      Branches.StepOutsideSlot(m, HALT_WORD, cfg);
    }
  }

  lemma HaltingEffects(c: Core, m: Memory)
    requires c.Valid() && m.Valid()
    ensures Cls(SLP_WORD) == 0 && Cls(HALT_WORD) == 0
    ensures Class0(c, m, SLP_WORD) == Done(FlushExt(c).(inHalt := true, haltMode := Slp), m)
    ensures Class0(c, m, HALT_WORD) == Done(FlushExt(c).(inHalt := true, haltMode := Hlt), m)
  {
    assert C0Op1(SLP_WORD) == 0 && C0Op2(SLP_WORD) == 1 && C0Op1(HALT_WORD) == 0 && C0Op2(HALT_WORD) == 2;
    hide C0Op1, C0Op2;
  }

  // ---- what stops the core ----

  /** A delay slot holds neither an EXT nor, of class 0, anything but nop, slp and halt: the core
      refuses it before it takes effect and stops for good, strict mode or not. */
  lemma SlotRefusesControl(m: Machine, cfg: Config)
    requires m.Valid() && cfg.Sound() && m.core.inDelaySlot && !m.core.inHalt && m.core.pc !in cfg.breakpoints
    requires
      var insn := m.mem.Fetch16(m.core.pc).0;
      Cls(insn) == 6 || Cls(insn) == 7 || (Cls(insn) == 0 && C0Op1(insn) >= 1)
    ensures
      var r := m.Step(cfg);
      && r.core == m.core.(pc := Wrap32(m.core.pc + 2), fault := true, inHalt := true)
      && r.deferred == m.deferred && r.mem == m.mem.Fetch16(m.core.pc).1
  {
    hide Memory.Fetch16, Cls, C0Op1, Wrap32;
  }

  /** A handler that leaves a bus fault pending stops the core: the fault is consumed, a slot stays
      open, and no waiting trap is taken. */
  lemma BusFaultStops(m: Machine, cfg: Config)
    requires m.Valid() && cfg.Sound() && !m.core.inHalt && m.core.pc !in cfg.breakpoints
    requires !m.Refuses(m.mem.Fetch16(m.core.pc).0, cfg.strict)
    requires m.Fetched().Execute(m.mem.Fetch16(m.core.pc).0, cfg).mem.faultPending
    requires !m.Fetched().Execute(m.mem.Fetch16(m.core.pc).0, cfg).core.fault
    ensures
      var e, r := m.Fetched().Execute(m.mem.Fetch16(m.core.pc).0, cfg), m.Step(cfg);
      && r.core == e.core.(fault := true, inHalt := true) && r.deferred == e.deferred
      && r.mem == e.mem.(faultPending := false)
  {
    hide Memory.Fetch16, Machine.Fetched, Machine.Execute;
  }

  /** Which instructions a slot refuses outright: EXT, undefined words, all of class 0 but nop, slp
      and halt, and everything that accesses memory or takes several cycles. */
  lemma HardInSlotIff(insn: uint16)
    ensures DelaySlotClass(insn) == SlotHard <==>
              || Cls(insn) == 6 || Cls(insn) == 7
              || (Cls(insn) == 0 && !(C0Op1(insn) == 0 && C0Op2(insn) != 3))
              || (Cls(insn) == 1 && Op2(insn) != 2)
              || Cls(insn) == 2
              || (Cls(insn) == 5 && (Op2(insn) == 3 || (Op2(insn) == 0 && 2 <= Op1(insn) <= 5) || (Op2(insn) == 2 && Op1(insn) >= 2)))
  {
    FieldRanges(insn);
    hide Cls, Op1, Op2, C0Op1, C0Op2;
  }

  lemma FieldRanges(insn: uint16)
    ensures Cls(insn) < 8 && Op1(insn) < 8 && Op2(insn) < 4 && C0Op1(insn) < 16 && C0Op2(insn) < 4
  {
  }

  /** An undefined word of class 7, or of class 0 where no instruction is, stops the core. */
  lemma UndefinedStops(m: Machine, data: Dispatch, breakpoints: set<uint32>, strict: bool)
    requires m.Valid() && Config(TableOver(data, strict), breakpoints, strict).Sound()
    requires !m.core.inHalt && m.core.Open() && m.deferred == None && !m.mem.faultPending && m.core.pc !in breakpoints
    requires
      var w := m.mem.Fetch16(m.core.pc).0;
      Cls(w) == 7 || (Cls(w) == 0 && ((C0Op1(w) == 0 && C0Op2(w) == 3) || (C0Op1(w) == 1 && C0Op2(w) >= 2)
                                      || (C0Op1(w) == 3 && C0Op2(w) == 3)))
    ensures m.Step(Config(TableOver(data, strict), breakpoints, strict))
         == Machine(m.core.(pc := Wrap32(m.core.pc + 2), fault := true, inHalt := true), None, m.mem.Fetch16(m.core.pc).1)
  {
    hide Memory.Fetch16, Wrap32, Cls, C0Op1, C0Op2, Class0;
    FetchOnlyCharges(m);
    var cfg, f, w := Config(TableOver(data, strict), breakpoints, strict), m.Fetched(), m.mem.Fetch16(m.core.pc).0;
    if Cls(w) == 0 {
      UndefinedEffect(f.core, f.mem, w);
    }
    Branches.StepOutsideSlot(m, w, cfg);
  }

  lemma UndefinedEffect(c: Core, m: Memory, w: uint16)
    requires c.Valid() && m.Valid()
    requires (C0Op1(w) == 0 && C0Op2(w) == 3) || (C0Op1(w) == 1 && C0Op2(w) >= 2) || (C0Op1(w) == 3 && C0Op2(w) == 3)
    ensures Class0(c, m, w) == Done(Faulted(c), m)
  {
    hide C0Op1, C0Op2;
  }

  /** A division by zero outside a slot enters trap 4, with the next instruction as the return
      address. */
  lemma ZeroDivideTraps(m: Machine, rs: RegNo, signed: bool, rest: Dispatch, breakpoints: set<uint32>, strict: bool)
    requires m.Valid() && Arithmetic.CoreTable(rest, breakpoints, strict).Sound() && m.core.r[rs] == 0
    requires Poised(m, Arithmetic.CoreTable(rest, breakpoints, strict), Arithmetic.ProgramWord(rs, signed, 0))
    ensures TrapTaken(m, m.Step(Arithmetic.CoreTable(rest, breakpoints, strict)), 4)
  {
    hide Memory.Fetch16, Machine.Enter, Cls, C0Op1, C0Op2, Op1, Op2, Rs, Arithmetic.Encoded;
    var f := m.Fetched();
    FetchOnlyCharges(m);
    FlushNothing(f.core);
    Arithmetic.WordsDecode(rs);
    Arithmetic.TableEntry(f.core, f.mem, rs, signed, 0, rest, breakpoints, strict);
    EnterStaysOpen(f, Trap(4, 0));
    hide Machine.Fetched, TableOver;
  }
}
