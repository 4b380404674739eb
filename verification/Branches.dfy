/** Where branches, calls and returns take the core, instruction by instruction: compare and
    branch, delay slots, jumps, calls and returns (cpu_class0.cpp, cpu_core.cpp). */
module Branches {
  import opened Words
  import opened CpuState
  import opened BusModel
  import opened Instructions
  import opened CpuCore
  import opened Sequencing
  import opened Transparency
  import opened DivMod
  import Arithmetic
  import MultiWord
  import Stack

  // ---- one step, in and out of a slot ----

  /** Outside a slot an instruction that asserts no trap leaves what its handler left. */
  lemma StepOutsideSlot(m: Machine, insn: uint16, cfg: Config)
    requires m.Valid() && cfg.Sound() && !m.core.inHalt && !m.core.inDelaySlot && m.deferred == None
    requires m.core.pc !in cfg.breakpoints && m.mem.Fetch16(m.core.pc).0 == insn
    requires m.core.pendingExt != [] ==> ExtCapable(insn)
    requires cfg.dispatch(m.Fetched().core, m.Fetched().mem, insn).trap == None
    requires !cfg.dispatch(m.Fetched().core, m.Fetched().mem, insn).mem.faultPending
    ensures
      var eff := cfg.dispatch(m.Fetched().core, m.Fetched().mem, insn);
      m.Step(cfg) == Machine(eff.core, None, eff.mem)
  {
    FetchOnlyCharges(m);
    hide Memory.Fetch16, Machine.Fetched, ExtCapable;
  }

  /** In a slot the branch is taken right after the instruction. */
  lemma StepInSlot(m: Machine, insn: uint16, cfg: Config)
    requires m.Valid() && cfg.Sound() && !m.core.inHalt && m.core.inDelaySlot && m.core.pendingExt == [] && m.deferred == None
    requires m.core.pc !in cfg.breakpoints && m.mem.Fetch16(m.core.pc).0 == insn && DelaySlotClass(insn) == SlotOk
    requires
      var eff := cfg.dispatch(m.Fetched().core, m.Fetched().mem, insn);
      eff.trap == None && !eff.mem.faultPending && !eff.core.inHalt
    ensures
      var eff := cfg.dispatch(m.Fetched().core, m.Fetched().mem, insn);
      m.Step(cfg) == Machine(eff.core.(inDelaySlot := false, delayCaller := 0, pc := m.core.delayTarget), None, eff.mem)
  {
    FetchOnlyCharges(m);
    hide Memory.Fetch16, Machine.Fetched, DelaySlotClass;
  }

  // ---- the instruction words ----

  datatype Relation = Gt | Ge | Lt | Le | Ugt | Uge | Ult | Ule | Eq | Ne

  function Code(rel: Relation): (op: nat)
    ensures 4 <= op < 16
  {
    match rel
    case Gt => 4
    case Ge => 5
    case Lt => 6
    case Le => 7
    case Ugt => 8
    case Uge => 9
    case Ult => 10
    case Ule => 11
    case Eq => 12
    case Ne => 13
  }

  /** A class 0 word with opcode `op` in bits 9 to 12, the delay bit and an 8-bit field. */
  function Class0Word(op: nat, delayed: bool, field: uint8): uint16
    requires op < 16
  {
    0x200 * op + (if delayed then 0x100 else 0) + field as int
  }

  /** A register-register word of class 1 with opcode `op` in bits 10 to 12. */
  function AluWord(op: nat, rd: RegNo, rs: RegNo): uint16
    requires op < 8
  {
    0x2200 + 0x400 * op + 16 * rs + rd
  }

  lemma Class0Decodes(op: nat, delayed: bool, field: uint8)
    requires op < 16
    ensures
      var w := Class0Word(op, delayed, field);
      && Cls(w) == 0 && C0Op1(w) == op && Delayed(w) == delayed && w % 0x100 == field
      && C0Op2(w) == field / 0x40 && Rd(w) == field % 16
  {
    var w, d := Class0Word(op, delayed, field), if delayed then 1 else 0;
    DivisionUnique(w, 0x2000, 0, w);
    DivisionUnique(w, 0x200, op, 0x100 * d + field);
    DivisionUnique(w, 0x100, 2 * op + d, field);
    DivisionUnique(w, 0x40, 4 * (2 * op + d) + field / 0x40, field % 0x40);
    DivisionUnique(w, 16, 16 * (2 * op + d) + field / 16, field % 16);
    DivisionUnique(4 * (2 * op + d) + field / 0x40, 4, 2 * op + d, field / 0x40);
    DivisionUnique(2 * op + d, 2, op, d);
  }

  lemma RegisterDecodes(delayed: bool, op2: nat, rb: RegNo)
    requires op2 < 4
    ensures
      var w := Class0Word(3, delayed, 0x40 * op2 + rb);
      Cls(w) == 0 && C0Op1(w) == 3 && C0Op2(w) == op2 && Delayed(w) == delayed && Rd(w) == rb
  {
    Class0Decodes(3, delayed, 0x40 * op2 + rb);
    DivisionUnique(0x40 * op2 + rb, 0x40, op2, rb);
    DivisionUnique(0x40 * op2 + rb, 16, 4 * op2, rb);
    hide Cls, C0Op1, C0Op2, Delayed, Rd, Class0Word;
  }

  lemma AluDecodes(op: nat, rd: RegNo, rs: RegNo)
    requires op < 8
    ensures
      var w := AluWord(op, rd, rs);
      Cls(w) == 1 && Op1(w) == op && Op2(w) == 2 && Rd(w) == rd && Rs(w) == rs
  {
    var w, low := AluWord(op, rd, rs), 16 * rs + rd;
    DivisionUnique(w, 0x2000, 1, 0x200 + 0x400 * op + low);
    DivisionUnique(w, 0x400, 8 + op, 0x200 + low);
    DivisionUnique(w, 0x100, 0x22 + 4 * op, low);
    DivisionUnique(w, 16, 0x220 + 0x40 * op + rs, rd);
    DivisionUnique(0x220 + 0x40 * op + rs, 16, 0x22 + 4 * op, rs);
    DivisionUnique(8 + op, 8, 1, op);
    DivisionUnique(0x22 + 4 * op, 4, 8 + op, 2);
  }

  // ---- displacements ----

  /** The prefixes and the 8-bit field encode the displacement d, in halfwords. */
  predicate Encodes(ext: seq<Imm13>, field: uint8, d: int) {
    || (ext == [] && -0x80 <= d < 0x80 && field == d % 0x100)
    || (-0x10_0000 <= d < 0x10_0000 && ext == [d % 0x20_0000 / 0x100] && field == d % 0x20_0000 % 0x100)
    || (-0x4000_0000 <= d < 0x4000_0000 && |ext| == 2 && ext[0] / 8 == d % 0x8000_0000 / 0x20_0000
        && ext[1] == d % 0x8000_0000 / 0x100 % 0x2000 && field == d % 0x8000_0000 % 0x100)
  }

  lemma EncodedDisplacement(c: Core, field: uint8, d: int)
    requires c.Valid() && Encodes(c.pendingExt, field, d)
    ensures ExtPcrel(c, field) == d
  {
    hide ExtPcrel;
    if |c.pendingExt| == 2 {
      var first := c.pendingExt[0];
      assert c.pendingExt == [first / 8 * 8 + first % 8, c.pendingExt[1]];
      DisplacementRoundTrip(c, d, first % 8);
    } else {
      DisplacementRoundTrip(c, d, 0);
    }
    assert c == c.(pendingExt := c.pendingExt);
  }

  // ---- conditional branches ----

  /** The relation, in terms of signed order, unsigned order and equality. */
  predicate HoldsOf(rel: Relation, less: bool, below: bool, equal: bool) {
    match rel
    case Gt => !less && !equal
    case Ge => !less
    case Lt => less
    case Le => less || equal
    case Ugt => !below && !equal
    case Uge => !below
    case Ult => below
    case Ule => below || equal
    case Eq => equal
    case Ne => !equal
  }

  /** The relation between two words. */
  predicate Holds(rel: Relation, a: uint32, b: uint32) {
    match rel
    case Gt => Signed32(a) > Signed32(b)
    case Ge => Signed32(a) >= Signed32(b)
    case Lt => Signed32(a) < Signed32(b)
    case Le => Signed32(a) <= Signed32(b)
    case Ugt => a > b
    case Uge => a >= b
    case Ult => a < b
    case Ule => a <= b
    case Eq => a == b
    case Ne => a != b
  }

  /** The core stands before `insn`, running, outside a slot, with no trap waiting. */
  predicate Before(m: Machine, cfg: Config, insn: uint16)
    requires m.Valid()
  {
    && !m.core.inHalt && !m.core.inDelaySlot && m.deferred == None && !m.mem.faultPending
    && m.core.pc !in cfg.breakpoints && m.mem.Fetch16(m.core.pc).0 == insn
  }

  /** Control passes to `target`, at once or after the slot. */
  function Transferred(c: Core, target: uint32, delayed: bool): Core {
    if delayed then c.(pc := Wrap32(c.pc + 2), inDelaySlot := true, delayTarget := target) else c.(pc := target)
  }

  /** The address `d` halfwords from the instruction at `pc`. */
  function Displaced(pc: uint32, d: int): uint32 { Wrap32(pc + 2 * d) }

  lemma TargetMeans(c: Core, op: nat, delayed: bool, field: uint8, d: int, pc: uint32)
    requires c.Valid() && op < 16 && Encodes(c.pendingExt, field, d) && c.pc == Wrap32(pc + 2)
    ensures RelativeTarget(c, Class0Word(op, delayed, field)) == Displaced(pc, d)
  {
    Class0Decodes(op, delayed, field);
    EncodedDisplacement(c, field, d);
    hide ExtPcrel, Class0Word, Encodes;
    SameResidue(pc, 2 * d);
  }

  lemma SameResidue(pc: uint32, x: int)
    ensures Wrap32(Wrap32(pc + 2) - 2 + x) == Wrap32(pc + x)
  {
  }

  /** A conditional branch: control passes to the branch's own address plus twice the displacement
      exactly if the flags say so, and to the next instruction otherwise; the prefixes are used up
      and nothing else changes. */
  lemma BranchSteps(m: Machine, rel: Relation, delayed: bool, field: uint8, d: int, data: Dispatch,
                    breakpoints: set<uint32>, strict: bool)
    requires m.Valid() && Config(TableOver(data, strict), breakpoints, strict).Sound()
    requires Before(m, Config(TableOver(data, strict), breakpoints, strict), Class0Word(Code(rel), delayed, field))
    requires Encodes(m.core.pendingExt, field, d)
    ensures
      var p, c := m.core.psr, m.core.(pendingExt := []);
      m.Step(Config(TableOver(data, strict), breakpoints, strict))
      == Machine(if HoldsOf(rel, p.n != p.v, p.c, p.z) then Transferred(c, Displaced(m.core.pc, d), delayed)
                 else c.(pc := Wrap32(m.core.pc + 2)),
                 None, m.mem.Fetch16(m.core.pc).1)
  {
    var insn, cfg := Class0Word(Code(rel), delayed, field), Config(TableOver(data, strict), breakpoints, strict);
    var f := m.Fetched();
    FetchOnlyCharges(m);
    Class0Decodes(Code(rel), delayed, field);
    TargetMeans(f.core, Code(rel), delayed, field, d, m.core.pc);
    BranchEffect(f.core, f.mem, insn, rel);
    hide Memory.Fetch16, Class0Word, Encodes, RelativeTarget, Class0, Cls, C0Op1, Delayed, HoldsOf, Displaced;
    StepOutsideSlot(m, insn, cfg);
  }

  lemma BranchEffect(c: Core, m: Memory, insn: uint16, rel: Relation)
    requires c.Valid() && m.Valid() && C0Op1(insn) == Code(rel)
    ensures
      var p, f := c.psr, FlushExt(c);
      Class0(c, m, insn)
      == Done(if HoldsOf(rel, p.n != p.v, p.c, p.z) then Jump(f, RelativeTarget(c, insn), Delayed(insn)) else f, m)
  {
    hide RelativeTarget, C0Op1, Delayed;
  }

  /** jp: control always passes. */
  lemma JumpSteps(m: Machine, delayed: bool, field: uint8, d: int, data: Dispatch, breakpoints: set<uint32>, strict: bool)
    requires m.Valid() && Config(TableOver(data, strict), breakpoints, strict).Sound()
    requires Before(m, Config(TableOver(data, strict), breakpoints, strict), Class0Word(15, delayed, field))
    requires Encodes(m.core.pendingExt, field, d)
    ensures m.Step(Config(TableOver(data, strict), breakpoints, strict))
         == Machine(Transferred(m.core.(pendingExt := []), Displaced(m.core.pc, d), delayed), None, m.mem.Fetch16(m.core.pc).1)
  {
    var insn, cfg := Class0Word(15, delayed, field), Config(TableOver(data, strict), breakpoints, strict);
    var f := m.Fetched();
    FetchOnlyCharges(m);
    Class0Decodes(15, delayed, field);
    TargetMeans(f.core, 15, delayed, field, d, m.core.pc);
    hide Memory.Fetch16, Class0Word, Encodes, RelativeTarget, Cls, C0Op1, Delayed, Displaced;
    StepOutsideSlot(m, insn, cfg);
  }

  /** jp %rb goes to the register's value; its delayed form is refused. */
  lemma JumpRegisterSteps(m: Machine, delayed: bool, rb: RegNo, data: Dispatch, breakpoints: set<uint32>, strict: bool)
    requires m.Valid() && Config(TableOver(data, strict), breakpoints, strict).Sound() && m.core.pendingExt == []
    requires Before(m, Config(TableOver(data, strict), breakpoints, strict), Class0Word(3, delayed, 0x80 + rb))
    ensures m.Step(Config(TableOver(data, strict), breakpoints, strict))
         == Machine(if delayed then m.core.(pc := Wrap32(m.core.pc + 2), fault := true, inHalt := true)
                    else m.core.(pc := m.core.r[rb]),
                    None, m.mem.Fetch16(m.core.pc).1)
  {
    hide Memory.Fetch16, Class0Word, Cls, C0Op1, C0Op2, Rd, Delayed, Wrap32;
    var insn, cfg := Class0Word(3, delayed, 0x80 + rb), Config(TableOver(data, strict), breakpoints, strict);
    FetchOnlyCharges(m);
    RegisterDecodes(delayed, 2, rb);
    StepOutsideSlot(m, insn, cfg);
  }

  // ---- the slot ----

  /** The step after a delayed transfer executes the slot instruction once, from behind the branch,
      and then stands at the target, whatever that instruction does to the core. */
  lemma SlotSteps(m: Machine, insn: uint16, cfg: Config)
    requires m.Valid() && cfg.Sound() && !m.core.inHalt && m.core.inDelaySlot && m.core.pendingExt == [] && m.deferred == None
    requires m.core.pc !in cfg.breakpoints && m.mem.Fetch16(m.core.pc).0 == insn && DelaySlotClass(insn) == SlotOk
    requires
      var eff := cfg.dispatch(m.Fetched().core, m.Fetched().mem, insn);
      eff.trap == None && !eff.mem.faultPending && !eff.core.inHalt
    ensures
      var eff, r := cfg.dispatch(m.Fetched().core, m.Fetched().mem, insn), m.Step(cfg);
      && r.core.pc == m.core.delayTarget && !r.core.inDelaySlot && r.core.delayCaller == 0
      && r.core == eff.core.(pc := r.core.pc, inDelaySlot := false, delayCaller := 0) && r.mem == eff.mem
  {
    hide Machine.Step, Machine.Fetched, Memory.Fetch16, DelaySlotClass;
    StepInSlot(m, insn, cfg);
  }

  // ---- compare and branch ----

  /** The flags cmp leaves. */
  predicate Compared(p: Psr, a: uint32, b: uint32) {
    (p.n != p.v) == (Signed32(a) < Signed32(b)) && p.c == (a < b) && p.z == (a == b)
  }

  lemma CmpCompares(p: Psr, a: uint32, b: uint32)
    ensures Compared(MultiWord.Sub(p, a, b).1, a, b)
    ensures
      var f := MultiWord.Sub(p, a, b).1;
      f == p.(n := f.n, z := f.z, v := f.v, c := f.c)
  {
    MultiWord.SbcExact(p.(c := false), a, b);
    hide MultiWord.Sbc;
  }

  lemma ComparedDecides(p: Psr, a: uint32, b: uint32, rel: Relation)
    requires Compared(p, a, b)
    ensures HoldsOf(rel, p.n != p.v, p.c, p.z) == Holds(rel, a, b)
  {
    SignedEqual(a, b);
    hide Signed32;
  }

  lemma SignedEqual(a: uint32, b: uint32)
    ensures Signed32(a) == Signed32(b) <==> a == b
  {
  }

  /** add, sub or cmp of two registers, without prefixes. */
  lemma AluSteps(m: Machine, op: nat, rd: RegNo, rs: RegNo, rest: Dispatch, breakpoints: set<uint32>, strict: bool)
    requires m.Valid() && Arithmetic.CoreTable(rest, breakpoints, strict).Sound() && op < 3 && m.core.pendingExt == []
    requires Before(m, Arithmetic.CoreTable(rest, breakpoints, strict), AluWord(op, rd, rs))
    ensures
      var (a, b) := (m.core.r[rd], m.core.r[rs]);
      var (r, p) := if op == 0 then MultiWord.Add(m.core.psr, a, b) else MultiWord.Sub(m.core.psr, a, b);
      m.Step(Arithmetic.CoreTable(rest, breakpoints, strict))
      == Machine(m.core.(pc := Wrap32(m.core.pc + 2), psr := p, r := if op < 2 then m.core.r[rd := r] else m.core.r),
                 None, m.mem.Fetch16(m.core.pc).1)
  {
    var cfg := Arithmetic.CoreTable(rest, breakpoints, strict);
    FetchOnlyCharges(m);
    AluDecodes(op, rd, rs);
    hide Memory.Fetch16, AluWord, Cls, Op1, Op2, Rd, Rs, MultiWord.Adc, MultiWord.Sbc, Wrap32;
    StepOutsideSlot(m, AluWord(op, rd, rs), cfg);
  }

  /** A program in memory: word k lies 2k behind PC, with no breakpoint on it. */
  predicate Holding(m: Machine, words: seq<uint16>, breakpoints: set<uint32>)
    requires m.Valid()
  {
    && m.core.Open() && !m.core.inHalt && m.deferred == None && !m.mem.faultPending
    && forall k | 0 <= k < |words| ::
         Wrap32(m.core.pc + 2 * k) !in breakpoints && m.mem.Fetch16(Wrap32(m.core.pc + 2 * k)).0 == words[k]
  }

  /** For any code that fits internal RAM and any registers there is such a machine. */
  lemma CodeFits(words: seq<uint16>, r: seq<uint32>) returns (m: Machine)
    requires |words| <= 0x1000 && |r| == 16
    ensures m.Valid() && m.core.r == r && Holding(m, words, {})
  {
    m := Example([]).(core := Example([]).core.(pc := 0, r := r), mem := ExampleMemory().(iram := Arithmetic.CodeImage(words)));
    assert m.core.Open() && !m.core.inHalt && m.deferred == None && !m.mem.faultPending && m.core.pc == 0;
    assert m.Valid() && m.mem.iram == Arithmetic.CodeImage(words);
    hide Memory.Fetch16, LoadEven, Core.Open, Machine.Valid, Memory.Valid, Arithmetic.CodeImage, ExampleMemory;
    forall k | 0 <= k < |words|
      ensures m.mem.Fetch16(Wrap32(m.core.pc + 2 * k)).0 == words[k]
    {
      Arithmetic.ImageHolds(words, k);
      WrapWord(2 * k);
      assert Wrap32(m.core.pc + 2 * k) == 2 * k;
      Arithmetic.FetchesInternal(m.mem, 2 * k);
    }
  }

  /** cmp %rd,%rs; jr** d: two steps later the core stands at the branch's own address plus twice the
      displacement if the relation the branch is named for holds between the registers, and
      behind the branch otherwise; only the arithmetic flags differ besides. */
  lemma CompareAndBranch(m: Machine, rel: Relation, rd: RegNo, rs: RegNo, d: int, rest: Dispatch,
                         breakpoints: set<uint32>, strict: bool)
    requires m.Valid() && Arithmetic.CoreTable(rest, breakpoints, strict).Sound() && -0x80 <= d < 0x80
    requires Holding(m, [AluWord(2, rd, rs), Class0Word(Code(rel), false, d % 0x100)], breakpoints)
    ensures
      var r := Run(m, [Tick, Tick], Arithmetic.CoreTable(rest, breakpoints, strict));
      && r.core.pc == (if Holds(rel, m.core.r[rd], m.core.r[rs]) then Wrap32(m.core.pc + 2 + 2 * d) else Wrap32(m.core.pc + 4))
      && r.core == m.core.(pc := r.core.pc, psr := r.core.psr) && r.deferred == None
      && Compared(r.core.psr, m.core.r[rd], m.core.r[rs])
      && m.mem.SameBut(r.mem, m.mem.sram)
  {
    hide Arithmetic.CoreTable, Config.Sound, Machine.Step, Class0Word, AluWord, Wrap32, Compared, Holds, Code;
    TwoTicks(m, Arithmetic.CoreTable(rest, breakpoints, strict));
    BranchAfterCompare(m, rel, false, rd, rs, d, rest, breakpoints, strict);
  }

  /** The first two steps of cmp; jr** with or without delay. */
  lemma BranchAfterCompare(m: Machine, rel: Relation, delayed: bool, rd: RegNo, rs: RegNo, d: int, rest: Dispatch,
                           breakpoints: set<uint32>, strict: bool)
    requires m.Valid() && Arithmetic.CoreTable(rest, breakpoints, strict).Sound() && -0x80 <= d < 0x80
    requires Holding(m, [AluWord(2, rd, rs), Class0Word(Code(rel), delayed, d % 0x100)], breakpoints)
    ensures
      var cfg := Arithmetic.CoreTable(rest, breakpoints, strict);
      var r, target, next := m.Step(cfg).Step(cfg), Wrap32(m.core.pc + 2 + 2 * d), m.core.(pc := Wrap32(m.core.pc + 2));
      && r.core == (if Holds(rel, m.core.r[rd], m.core.r[rs]) then Transferred(next, target, delayed)
                    else m.core.(pc := Wrap32(m.core.pc + 4))).(psr := r.core.psr)
      && Compared(r.core.psr, m.core.r[rd], m.core.r[rs])
      && r.deferred == None && m.mem.SameBut(r.mem, m.mem.sram)
  {
    hide Arithmetic.CoreTable, Config.Sound, Machine.Step, Class0Word, AluWord, Wrap32, Compared, Holds, HoldsOf, Code;
    hide Memory.Fetch16;
    var cfg := Arithmetic.CoreTable(rest, breakpoints, strict);
    CompareSteps(m, rd, rs, Class0Word(Code(rel), delayed, d % 0x100), rest, breakpoints, strict);
    var r1 := m.Step(cfg);
    WrapTwice(m.core.pc);
    WrapSum(m.core.pc + 2, 2 * d);
    ComparedDecides(r1.core.psr, m.core.r[rd], m.core.r[rs], rel);
    CoreBranchSteps(r1, rel, delayed, d, rest, breakpoints, strict);
    FetchCharges(r1.mem, r1.core.pc);
  }

  /** The first step of such a program, with the second word in place for the next. */
  lemma CompareSteps(m: Machine, rd: RegNo, rs: RegNo, next: uint16, rest: Dispatch, breakpoints: set<uint32>, strict: bool)
    requires m.Valid() && Arithmetic.CoreTable(rest, breakpoints, strict).Sound()
    requires Holding(m, [AluWord(2, rd, rs), next], breakpoints)
    ensures
      var cfg := Arithmetic.CoreTable(rest, breakpoints, strict);
      var r1 := m.Step(cfg);
      && r1.core == m.core.(pc := Wrap32(m.core.pc + 2), psr := r1.core.psr)
      && Compared(r1.core.psr, m.core.r[rd], m.core.r[rs])
      && m.mem.SameBut(r1.mem, m.mem.sram) && Before(r1, cfg, next) && r1.core.pendingExt == []
  {
    var words := [AluWord(2, rd, rs), next];
    assert words[0] == AluWord(2, rd, rs) && words[1] == next;
    WrapTwice(m.core.pc);
    assert Wrap32(m.core.pc + 2 * 0) == m.core.pc && Wrap32(m.core.pc + 2 * 1) == Wrap32(m.core.pc + 2);
    CmpCompares(m.core.psr, m.core.r[rd], m.core.r[rs]);
    FetchCharges(m.mem, m.core.pc);
    hide Memory.Fetch16, Machine.Step, AluWord, Wrap32, Compared, MultiWord.Sub, MultiWord.Add;
    AluSteps(m, 2, rd, rs, rest, breakpoints, strict);
    Arithmetic.SameFetch(m.mem, m.Step(Arithmetic.CoreTable(rest, breakpoints, strict)).mem, Wrap32(m.core.pc + 2));
  }

  /** A branch without prefixes, under the core's table. */
  lemma CoreBranchSteps(m: Machine, rel: Relation, delayed: bool, d: int, rest: Dispatch, breakpoints: set<uint32>, strict: bool)
    requires m.Valid() && Arithmetic.CoreTable(rest, breakpoints, strict).Sound() && -0x80 <= d < 0x80
    requires Before(m, Arithmetic.CoreTable(rest, breakpoints, strict), Class0Word(Code(rel), delayed, d % 0x100))
    requires m.core.pendingExt == []
    ensures
      var p := m.core.psr;
      m.Step(Arithmetic.CoreTable(rest, breakpoints, strict))
      == Machine(if HoldsOf(rel, p.n != p.v, p.c, p.z) then Transferred(m.core, Displaced(m.core.pc, d), delayed)
                 else m.core.(pc := Wrap32(m.core.pc + 2)),
                 None, m.mem.Fetch16(m.core.pc).1)
  {
    hide Machine.Step, HoldsOf, Class0Word, Wrap32, TableOver, Memory.Fetch16, Code;
    BranchSteps(m, rel, delayed, d % 0x100, d, Arithmetic.DataOver(rest), breakpoints, strict);
    assert m.core.(pendingExt := []) == m.core;
  }

  /** The delayed form with an addition in the slot: three steps later the addition is done, once,
      whichever way the branch went, and the core stands at the target or behind the slot. */
  lemma CompareAndBranchDelayed(m: Machine, rel: Relation, rd: RegNo, rs: RegNo, d: int, sd: RegNo, ss: RegNo,
                                rest: Dispatch, breakpoints: set<uint32>, strict: bool)
    requires m.Valid() && Arithmetic.CoreTable(rest, breakpoints, strict).Sound() && -0x80 <= d < 0x80
    requires Holding(m, [AluWord(2, rd, rs), Class0Word(Code(rel), true, d % 0x100), AluWord(0, sd, ss)], breakpoints)
    ensures
      var r := Run(m, [Tick, Tick, Tick], Arithmetic.CoreTable(rest, breakpoints, strict));
      && r.core.pc == (if Holds(rel, m.core.r[rd], m.core.r[rs]) then Wrap32(m.core.pc + 2 + 2 * d) else Wrap32(m.core.pc + 6))
      && r.core == m.core.(pc := r.core.pc, psr := r.core.psr, delayCaller := r.core.delayCaller,
                           delayTarget := r.core.delayTarget, r := m.core.r[sd := Wrap32(m.core.r[sd] as int + m.core.r[ss])])
      && r.deferred == None && m.mem.SameBut(r.mem, m.mem.sram)
  {
    hide Arithmetic.CoreTable, Config.Sound, Machine.Step, Class0Word, AluWord, Wrap32, Compared, Holds, Code;
    hide Memory.Fetch16, MultiWord.Add;
    var cfg := Arithmetic.CoreTable(rest, breakpoints, strict);
    ThreeTicks(m, cfg);
    FirstTwo(m, AluWord(2, rd, rs), Class0Word(Code(rel), true, d % 0x100), AluWord(0, sd, ss), breakpoints);
    BranchAfterCompare(m, rel, true, rd, rs, d, rest, breakpoints, strict);
    var r2 := m.Step(cfg).Step(cfg);
    WrapTwice(m.core.pc);
    Arithmetic.SameFetch(m.mem, r2.mem, Wrap32(m.core.pc + 4));
    AddIsSum(r2.core.psr, m.core.r[sd], m.core.r[ss]);
    if Holds(rel, m.core.r[rd], m.core.r[rs]) {
      AddInSlot(r2, sd, ss, rest, breakpoints, strict);
    } else {
      CoreTableKeeps(rest, breakpoints, strict);
      AluSteps(r2, 0, sd, ss, rest, breakpoints, strict);
    }
    FetchCharges(r2.mem, r2.core.pc);
    WrapSum(m.core.pc + 4, 2);
  }

  lemma CoreTableKeeps(rest: Dispatch, breakpoints: set<uint32>, strict: bool)
    ensures Arithmetic.CoreTable(rest, breakpoints, strict).breakpoints == breakpoints
  {
  }

  lemma FirstTwo(m: Machine, w0: uint16, w1: uint16, w2: uint16, breakpoints: set<uint32>)
    requires m.Valid() && Holding(m, [w0, w1, w2], breakpoints)
    ensures Holding(m, [w0, w1], breakpoints)
    ensures Wrap32(m.core.pc + 4) !in breakpoints && m.mem.Fetch16(Wrap32(m.core.pc + 4)).0 == w2
  {
    var words := [w0, w1, w2];
    assert words[0] == w0 && words[1] == w1 && words[2] == w2;
    assert Wrap32(m.core.pc + 2 * 2) == Wrap32(m.core.pc + 4);
    hide Memory.Fetch16, Wrap32;
    forall k | 0 <= k < 2
      ensures Wrap32(m.core.pc + 2 * k) !in breakpoints && m.mem.Fetch16(Wrap32(m.core.pc + 2 * k)).0 == [w0, w1][k]
    {
      assert words[k] == [w0, w1][k];
    }
  }

  lemma AddIsSum(p: Psr, a: uint32, b: uint32)
    ensures MultiWord.Add(p, a, b).0 == Wrap32(a as int + b)
  {
    WrapBoth(a as int + b);
    hide Wrap32, Wrap64, MultiWord.AddFlags;
  }

  lemma WrapBoth(x: nat)
    requires x < TWO64
    ensures Wrap64(x) == x && Wrap64(x + 0) == x
  {
  }

  lemma AddInSlot(m: Machine, rd: RegNo, rs: RegNo, rest: Dispatch, breakpoints: set<uint32>, strict: bool)
    requires m.Valid() && Arithmetic.CoreTable(rest, breakpoints, strict).Sound()
    requires !m.core.inHalt && m.core.inDelaySlot && m.core.pendingExt == [] && m.deferred == None && !m.mem.faultPending
    requires m.core.pc !in breakpoints && m.mem.Fetch16(m.core.pc).0 == AluWord(0, rd, rs)
    ensures
      var (r, p) := MultiWord.Add(m.core.psr, m.core.r[rd], m.core.r[rs]);
      m.Step(Arithmetic.CoreTable(rest, breakpoints, strict))
      == Machine(m.core.(pc := m.core.delayTarget, psr := p, r := m.core.r[rd := r], inDelaySlot := false, delayCaller := 0),
                 None, m.mem.Fetch16(m.core.pc).1)
  {
    FetchOnlyCharges(m);
    AluDecodes(0, rd, rs);
    hide Memory.Fetch16, AluWord, Cls, Op1, Op2, Rd, Rs, MultiWord.Adc, Wrap32;
    StepInSlot(m, AluWord(0, rd, rs), Arithmetic.CoreTable(rest, breakpoints, strict));
  }

  // ---- after a subtract chain ----

  /** The orders a chain decides. */
  predicate ChainHolds(rel: Relation, a: seq<uint32>, b: seq<uint32>)
    requires a != [] && b != []
  {
    match rel
    case Ult => MultiWord.Value(a) < MultiWord.Value(b)
    case Uge => MultiWord.Value(a) >= MultiWord.Value(b)
    case Lt => MultiWord.SignedValue(a) < MultiWord.SignedValue(b)
    case Ge => MultiWord.SignedValue(a) >= MultiWord.SignedValue(b)
    case _ => false
  }

  /** After sub, sbc, sbc, ... on numbers of any length, jrult and jruge go by their unsigned order
      and jrlt and jrge by their two's-complement order. */
  lemma BranchAfterChain(m: Machine, rel: Relation, delayed: bool, field: uint8, d: int, p: Psr, a: seq<uint32>, b: seq<uint32>,
                         data: Dispatch, breakpoints: set<uint32>, strict: bool)
    requires m.Valid() && Config(TableOver(data, strict), breakpoints, strict).Sound()
    requires Before(m, Config(TableOver(data, strict), breakpoints, strict), Class0Word(Code(rel), delayed, field))
    requires Encodes(m.core.pendingExt, field, d) && rel in {Ult, Uge, Lt, Ge}
    requires |a| == |b| && a != [] && m.core.psr == MultiWord.SubChain(p, a, b).1
    ensures
      var c := m.core.(pendingExt := []);
      m.Step(Config(TableOver(data, strict), breakpoints, strict)).core
      == if ChainHolds(rel, a, b) then Transferred(c, Displaced(m.core.pc, d), delayed) else c.(pc := Wrap32(m.core.pc + 2))
  {
    hide Machine.Step, Class0Word, Code, Encodes, Wrap32, TableOver, Memory.Fetch16, MultiWord.SubChain;
    MultiWord.UnsignedOrder(p, a, b);
    MultiWord.SignedOrder(p, a, b);
    BranchSteps(m, rel, delayed, field, d, data, breakpoints, strict);
  }

  // ---- calls and returns ----

  /** call: the return address goes onto the stack - behind the call, or behind its slot - and
      control passes to the call's own address plus twice the displacement. */
  lemma CallSteps(m: Machine, delayed: bool, field: uint8, d: int, data: Dispatch, breakpoints: set<uint32>, strict: bool)
    requires m.Valid() && Config(TableOver(data, strict), breakpoints, strict).Sound()
    requires Before(m, Config(TableOver(data, strict), breakpoints, strict), Class0Word(14, delayed, field))
    requires Encodes(m.core.pendingExt, field, d) && Stack.Room(m.core, m.mem, 1)
    ensures
      var r := m.Step(Config(TableOver(data, strict), breakpoints, strict));
      CallDone(m, r, Displaced(m.core.pc, d), delayed)
  {
    var insn, cfg := Class0Word(14, delayed, field), Config(TableOver(data, strict), breakpoints, strict);
    var f := m.Fetched();
    FetchOnlyCharges(m);
    Class0Decodes(14, delayed, field);
    TargetMeans(f.core, 14, delayed, field, d, m.core.pc);
    WrapTwice(m.core.pc);
    hide Memory.Fetch16, Class0Word, Encodes, RelativeTarget, Cls, C0Op1, Delayed, Displaced, Stack.Room, Wrap32;
    CallLeaves(FlushExt(f.core), f.mem, Displaced(m.core.pc, d), delayed, m);
    hide Call, CallDone;
    StepOutsideSlot(m, insn, cfg);
  }

  /** call %rb: the same to the register's value. */
  lemma CallRegisterSteps(m: Machine, delayed: bool, rb: RegNo, data: Dispatch, breakpoints: set<uint32>, strict: bool)
    requires m.Valid() && Config(TableOver(data, strict), breakpoints, strict).Sound() && m.core.pendingExt == []
    requires Before(m, Config(TableOver(data, strict), breakpoints, strict), Class0Word(3, delayed, rb))
    requires Stack.Room(m.core, m.mem, 1)
    ensures CallDone(m, m.Step(Config(TableOver(data, strict), breakpoints, strict)), m.core.r[rb], delayed)
  {
    hide Memory.Fetch16, Class0Word, Class0, Cls, C0Op1, C0Op2, Rd, Delayed, Stack.Room, Wrap32;
    var insn, cfg := Class0Word(3, delayed, rb), Config(TableOver(data, strict), breakpoints, strict);
    var f := m.Fetched();
    FetchOnlyCharges(m);
    RegisterDecodes(delayed, 0, rb);
    WrapTwice(m.core.pc);
    CallRegisterEffect(f.core, f.mem, insn);
    CallLeaves(FlushExt(f.core), f.mem, m.core.r[rb], delayed, m);
    hide Call, CallDone;
    StepOutsideSlot(m, insn, cfg);
  }

  lemma CallRegisterEffect(c: Core, m: Memory, insn: uint16)
    requires c.Valid() && m.Valid() && C0Op1(insn) == 3 && C0Op2(insn) == 0
    ensures Class0(c, m, insn) == Call(FlushExt(c), m, c.r[Rd(insn)], Delayed(insn))
  {
    hide C0Op1, C0Op2, Rd, Delayed, Call;
  }

  /** What a call leaves behind. */
  ghost predicate CallDone(m: Machine, r: Machine, target: uint32, delayed: bool) {
    && m.core.sp >= 4
    && r.core == Transferred(m.core.(pendingExt := [], sp := m.core.sp - 4,
                                     delayCaller := if delayed then 2 else m.core.delayCaller), target, delayed)
    && Stack.Holds(r.mem.sram, Stack.Top(m.core) - 4, Wrap32(m.core.pc + (if delayed then 4 else 2)))
    && Stack.OnlyTouches(m.mem, r.mem, Stack.Top(m.core) - 4, Stack.Top(m.core)) && r.deferred == None
  }

  lemma CallLeaves(c: Core, mem: Memory, target: uint32, delayed: bool, m: Machine)
    requires m.Valid() && m.mem.SameBut(mem, m.mem.sram) && Stack.Room(m.core, m.mem, 1) && !m.mem.faultPending
    requires c == m.core.(pendingExt := [], pc := Wrap32(m.core.pc + 2))
    ensures
      var e := Call(c, mem, target, delayed);
      CallDone(m, Machine(e.core, None, e.mem), target, delayed) && e.trap == None && !e.mem.faultPending
  {
    var v := Wrap32(c.pc + (if delayed then 2 else 0));
    WrapTwice(m.core.pc);
    WrapWord(c.pc);
    Stack.PushEffect(c, mem, v);
    SpRoom(m.core, m.mem);
    hide Push, WordAligned, Stack.Holds, Wrap32;
  }

  lemma SpRoom(c: Core, m: Memory)
    requires m.Valid() && Stack.Room(c, m, 1)
    ensures c.sp >= 4
  {
  }

  /** ret: control passes to the word on top of the stack, which comes off it. */
  lemma RetSteps(m: Machine, delayed: bool, v: uint32, data: Dispatch, breakpoints: set<uint32>, strict: bool)
    requires m.Valid() && Config(TableOver(data, strict), breakpoints, strict).Sound() && m.core.pendingExt == []
    requires Before(m, Config(TableOver(data, strict), breakpoints, strict), Class0Word(3, delayed, 0x40))
    requires m.core.sp % 4 == 0 && Stack.Holds(m.mem.sram, Stack.Top(m.core), v)
    ensures
      var r := m.Step(Config(TableOver(data, strict), breakpoints, strict));
      && r.core == Transferred(m.core.(sp := Wrap32(m.core.sp + 4),
                                       delayCaller := if delayed then 1 else m.core.delayCaller), v, delayed)
      && m.mem.SameBut(r.mem, m.mem.sram) && r.deferred == None
  {
    var insn, cfg := Class0Word(3, delayed, 0x40), Config(TableOver(data, strict), breakpoints, strict);
    var f := m.Fetched();
    FetchOnlyCharges(m);
    Class0Decodes(3, delayed, 0x40);
    hide Memory.Fetch16, Class0Word, Cls, C0Op1, C0Op2, Delayed, Wrap32, Stack.Holds, WordAligned;
    Stack.PopEffect(FlushExt(f.core), f.mem, v);
    hide Pop, Machine.Fetched;
    StepOutsideSlot(m, insn, cfg);
  }

  /** A call to a bare ret: two steps later the core stands behind the call as if nothing had been
      called, and memory differs in the four bytes below SP only. */
  lemma CallAndReturn(m: Machine, field: uint8, d: int, data: Dispatch, breakpoints: set<uint32>, strict: bool)
    requires m.Valid() && Config(TableOver(data, strict), breakpoints, strict).Sound()
    requires Before(m, Config(TableOver(data, strict), breakpoints, strict), Class0Word(14, false, field))
    requires Encodes(m.core.pendingExt, field, d) && Stack.Room(m.core, m.mem, 1)
    requires
      var r := m.Step(Config(TableOver(data, strict), breakpoints, strict));
      r.core.pc !in breakpoints && r.mem.Fetch16(r.core.pc).0 == Class0Word(3, false, 0x40)
    ensures
      var r := Run(m, [Tick, Tick], Config(TableOver(data, strict), breakpoints, strict));
      && r.core == m.core.(pendingExt := [], pc := Wrap32(m.core.pc + 2))
      && Stack.OnlyTouches(m.mem, r.mem, Stack.Top(m.core) - 4, Stack.Top(m.core)) && r.deferred == None
  {
    var cfg := Config(TableOver(data, strict), breakpoints, strict);
    hide TableOver, Class0Word, Encodes, Memory.Fetch16, Machine.Step;
    CallSteps(m, false, field, d, data, breakpoints, strict);
    TwoTicks(m, cfg);
    var r1 := m.Step(cfg);
    TopBelow(m.core, m.mem);
    WrapWord(m.core.sp);
    hide Wrap32, Stack.Room, WordAligned, Stack.Holds, Displaced;
    RetSteps(r1, false, Wrap32(m.core.pc + 2), data, breakpoints, strict);
    TouchesThenSame(m.mem, r1.mem, r1.Step(cfg).mem, Stack.Top(m.core) - 4, Stack.Top(m.core));
  }

  lemma TopBelow(c: Core, m: Memory)
    requires m.Valid() && Stack.Room(c, m, 1)
    ensures c.sp >= 4 && Stack.Top(c.(sp := c.sp - 4)) == Stack.Top(c) - 4 && (c.sp - 4) % 4 == 0
  {
    WordBelow(c.sp);
  }

  lemma TouchesThenSame(m: Memory, m1: Memory, m2: Memory, from: int, to: int)
    requires Stack.OnlyTouches(m, m1, from, to) && m1.SameBut(m2, m1.sram)
    ensures Stack.OnlyTouches(m, m2, from, to)
  {
  }

  lemma FetchCharges(m: Memory, a: uint32)
    requires m.Valid()
    ensures m.SameBut(m.Fetch16(a).1, m.sram)
  {
    hide Memory.Charge, Memory.ReadCycles;
  }

  lemma WrapTwice(x: uint32)
    ensures Wrap32(x + 0) == x && Wrap32(Wrap32(x + 2) + 2) == Wrap32(x + 4)
  {
  }

  lemma WrapSum(x: int, y: int)
    ensures Wrap32(Wrap32(x) + y) == Wrap32(x + y)
  {
  }

  lemma TwoTicks(m: Machine, cfg: Config)
    requires m.Valid() && cfg.Sound()
    ensures Run(m, [Tick, Tick], cfg) == m.Step(cfg).Step(cfg)
  {
    hide Machine.Step;
    OneTick(m, cfg);
    assert [Tick, Tick][..1] == [Tick];
  }

  lemma ThreeTicks(m: Machine, cfg: Config)
    requires m.Valid() && cfg.Sound()
    ensures Run(m, [Tick, Tick, Tick], cfg) == m.Step(cfg).Step(cfg).Step(cfg)
  {
    hide Machine.Step;
    TwoTicks(m, cfg);
    assert [Tick, Tick, Tick][..2] == [Tick, Tick];
  }
}
