/** The dispatch table's entries for step division, adc, sbc and mac, and whole division programs
    run from memory (cpu_dispatch.cpp, cpu_class4.cpp). */
module Arithmetic {
  import opened Words
  import opened DivMod
  import opened CpuState
  import opened BusModel
  import opened Instructions
  import opened CpuCore
  import opened Sequencing
  import opened Transparency
  import opened Division
  import MultiWord
  import Mac

  // ---- the table ----

  /** div0s and div0u: the zero-division trap, or the start of a division. */
  function StartDivision(c: Core, m: Memory, rs: RegNo, signed: bool): (e: Effect)
    requires c.Valid() && m.Valid()
    ensures e.core.Valid() && e.mem.Valid()
  {
    if c.r[rs] == 0 then Effect(FlushExt(c), m, Some(ZERO_DIVIDE))
    else Done(if signed then Div0s(c, rs) else Div0u(c, rs), m)
  }

  /** The operands of a register-register instruction: rd and rs, or rs and the prefixes. */
  function AluOperands(c: Core, insn: uint16): (uint32, uint32)
    requires c.Valid()
  {
    if c.pendingExt == [] then (c.r[Rd(insn)], c.r[Rs(insn)]) else (c.r[Rs(insn)], ExtValue(c))
  }

  /** ext_rb: the prefixes as an unsigned number, the first weighing more. */
  function ExtValue(c: Core): uint32
    requires c.Valid()
  {
    if |c.pendingExt| == 0 then 0
    else if |c.pendingExt| == 1 then c.pendingExt[0]
    else 0x2000 * c.pendingExt[0] as int + c.pendingExt[1]
  }

  /** mac.  Where its SRAM path leaves the vector, whatever `rest` does. */
  function Accumulation(c: Core, m: Memory, insn: uint16, rest: Dispatch): Effect
    requires c.Valid() && m.Valid()
  {
    var rs := Rs(insn);
    match Mac.Run(Mac.Load(c, m, rs))
    case OutOfBounds => rest(c, m, insn)
    case Done(t) => Done(if c.r[rs] == 0 then FlushExt(c) else Mac.Store(FlushExt(c), rs, t), t.mem)
  }

  /** The entries modelled here, over `rest` for all others of classes 1 to 5. */
  function Data(c: Core, m: Memory, insn: uint16, rest: Dispatch): Effect
    requires c.Valid() && m.Valid()
  {
    var rd, rs, f := Rd(insn), Rs(insn), FlushExt(c);
    match (Cls(insn), Op1(insn), Op2(insn))
    case (1, 0, 2) =>
      var (a, b) := AluOperands(c, insn);
      var (r, p) := MultiWord.Add(c.psr, a, b);
      Done(f.(r := c.r[rd := r], psr := p), m)
    case (1, 1, 2) =>
      var (a, b) := AluOperands(c, insn);
      var (r, p) := MultiWord.Sub(c.psr, a, b);
      Done(f.(r := c.r[rd := r], psr := p), m)
    case (1, 2, 2) =>
      var (a, b) := AluOperands(c, insn);
      Done(f.(psr := MultiWord.Sub(c.psr, a, b).1), m)
    case (4, 2, 3) => StartDivision(c, m, rs, true)
    case (4, 3, 3) => StartDivision(c, m, rs, false)
    case (4, 4, 3) => Done(Div1(c, rs), m)
    case (4, 5, 3) => Done(Div2s(c, rs), m)
    case (4, 6, 3) => Done(Div3s(c), m)
    case (5, 6, 0) => var (r, p) := MultiWord.Adc(c.psr, c.r[rd], c.r[rs]); Done(f.(r := c.r[rd := r], psr := p), m)
    case (5, 7, 0) => var (r, p) := MultiWord.Sbc(c.psr, c.r[rd], c.r[rs]); Done(f.(r := c.r[rd := r], psr := p), m)
    case (5, 4, 2) => Accumulation(c, m, insn, rest)
    case _ => rest(c, m, insn)
  }

  function DataOver(rest: Dispatch): Dispatch {
    (c: Core, m: Memory, insn: uint16) => if c.Valid() && m.Valid() then Data(c, m, insn, rest) else Done(c, m)
  }

  /** The table of the whole core over an implementation of the remaining data instructions. */
  function CoreTable(rest: Dispatch, breakpoints: set<uint32>, strict: bool): Config {
    Config(TableOver(DataOver(rest), strict), breakpoints, strict)
  }

  lemma DataKeepsValid(c: Core, m: Memory, insn: uint16, rest: Dispatch)
    requires c.Valid() && m.Valid()
    requires rest(c, m, insn).core.Valid() && rest(c, m, insn).mem.Valid()
    ensures Data(c, m, insn, rest).core.Valid() && Data(c, m, insn, rest).mem.Valid()
  {
    hide Cls, Op1, Op2, Rd, Rs, MultiWord.Adc, MultiWord.Sbc, Div1, Mac.FastA, Mac.SlowRun, Mac.GuardA, Mac.GuardB;
    MacKeepsValid(Mac.Load(c, m, Rs(insn)));
    hide Mac.Run;
  }

  lemma MacKeepsValid(s: Mac.Mac)
    requires s.Valid()
    ensures Mac.Run(s).Done? ==> Mac.Run(s).mac.Valid()
  {
    hide Mac.SramLoop, Mac.GuardA, Mac.GuardB, Memory.Charge, Memory.ReadCycles, Mac.Offset;
  }

  /** These entries keep the state invariants whenever the rest of the table does. */
  lemma CoreTableIsSound(rest: Dispatch, breakpoints: set<uint32>, strict: bool)
    requires Config(rest, breakpoints, strict).Sound()
    ensures CoreTable(rest, breakpoints, strict).Sound()
  {
    forall c: Core, m: Memory, insn: uint16 | c.Valid() && m.Valid()
      ensures DataOver(rest)(c, m, insn).core.Valid() && DataOver(rest)(c, m, insn).mem.Valid()
    {
      assert Config(rest, breakpoints, strict).dispatch(c, m, insn) == rest(c, m, insn);
      DataKeepsValid(c, m, insn, rest);
    }
    hide Data;
    TableIsSound(DataOver(rest), strict, breakpoints);
  }

  // ---- division programs ----

  /** The instruction words. */
  function Encoded(high: uint8, rs: RegNo): uint16 { 0x100 * (high as int) + 16 * rs }
  function Div0sWord(rs: RegNo): uint16 { Encoded(0x8B, rs) }
  function Div0uWord(rs: RegNo): uint16 { Encoded(0x8F, rs) }
  function Div1Word(rs: RegNo): uint16 { Encoded(0x93, rs) }
  function Div2sWord(rs: RegNo): uint16 { Encoded(0x97, rs) }
  const DIV3S_WORD: uint16 := Encoded(0x9B, 0)

  /** Word k of the program: div0, 32 times div1 and, for a signed division, div2s and div3s. */
  function ProgramWord(rs: RegNo, signed: bool, k: nat): uint16 {
    if k == 0 then (if signed then Div0sWord(rs) else Div0uWord(rs))
    else if k <= 32 then Div1Word(rs)
    else if k == 33 then Div2sWord(rs)
    else DIV3S_WORD
  }

  function ProgramLength(signed: bool): nat { if signed then 35 else 33 }

  /** The core after k instructions of it, program counter aside. */
  function CoreAfter(c: Core, rs: RegNo, signed: bool, k: nat): (c': Core)
    requires c.Valid() && k <= ProgramLength(signed)
    ensures c'.Valid()
  {
    if k == 0 then c
    else
      var started := if signed then Div0s(c, rs) else Div0u(c, rs);
      if k <= 33 then Div1Times(started, rs, k - 1)
      else if k == 34 then Div2s(Div1Times(started, rs, 32), rs)
      else Div3s(Div2s(Div1Times(started, rs, 32), rs))
  }

  /** The program lies at PC, the core is running between instructions, and no breakpoint is in
      the way. */
  predicate ReadyToDivide(m: Machine, rs: RegNo, signed: bool, breakpoints: set<uint32>)
    requires m.Valid()
  {
    && m.core.Open() && !m.core.inHalt && m.deferred == None && !m.mem.faultPending && m.core.r[rs] != 0
    && forall k | 0 <= k < ProgramLength(signed) ::
         Address(m, k) !in breakpoints && m.mem.Fetch16(Address(m, k)).0 == ProgramWord(rs, signed, k)
  }

  function Address(m: Machine, k: nat): uint32 { Wrap32(m.core.pc + 2 * k) }

  function Ticks(k: nat): seq<Event> { seq(k, _ => Tick) }

  predicate Fields(w: uint16, op1: nat, rs: RegNo) {
    Cls(w) == 4 && Op1(w) == op1 && Op2(w) == 3 && Rs(w) == rs
  }

  lemma WordsDecode(rs: RegNo)
    ensures Fields(Div0sWord(rs), 2, rs) && Fields(Div0uWord(rs), 3, rs)
    ensures Fields(Div1Word(rs), 4, rs) && Fields(Div2sWord(rs), 5, rs)
    ensures Fields(DIV3S_WORD, 6, 0)
  {
    FieldsOf(0x8B, 2, rs);
    FieldsOf(0x8F, 3, rs);
    FieldsOf(0x93, 4, rs);
    FieldsOf(0x97, 5, rs);
    FieldsOf(0x9B, 6, 0);
    hide Fields, Encoded;
  }

  lemma FieldsOf(high: uint8, op1: nat, rs: RegNo)
    requires op1 < 8 && high == 0x80 + 4 * op1 + 3
    ensures Fields(Encoded(high, rs), op1, rs)
  {
    var w := Encoded(high, rs);
    DivisionUnique(w, 0x2000, 4, 0x100 * (4 * op1 + 3) + 16 * rs);
    DivisionUnique(w, 0x400, 32 + op1, 0x300 + 16 * rs);
    DivisionUnique(w, 0x100, 0x83 + 4 * op1, 16 * rs);
    DivisionUnique(w, 16, 16 * (0x83 + 4 * op1) + rs, 0);
    assert (32 + op1) % 8 == op1 && (0x83 + 4 * op1) % 4 == 3;
    assert (16 * (0x83 + 4 * op1) + rs) % 16 == rs;
  }

  /** Word k takes the core from k to k + 1 instructions done, whatever the program counter. */
  lemma WordStep(c: Core, m: Memory, rs: RegNo, signed: bool, k: nat, pc: uint32, rest: Dispatch)
    requires c.Valid() && m.Valid() && c.r[rs] != 0 && k < ProgramLength(signed)
    ensures Data(CoreAfter(c, rs, signed, k).(pc := pc), m, ProgramWord(rs, signed, k), rest)
         == Done(CoreAfter(c, rs, signed, k + 1).(pc := pc), m)
  {
    hide CoreAfter, Data;
    WordAdvances(c, rs, signed, k);
    WordMeans(CoreAfter(c, rs, signed, k).(pc := pc), m, rs, signed, k, rest);
    PcIsCarried(CoreAfter(c, rs, signed, k), rs, signed, k, pc);
    hide WordEffect;
  }

  /** What word k does to any core. */
  function WordEffect(c: Core, rs: RegNo, signed: bool, k: nat): Core
    requires c.Valid()
  {
    if k == 0 then (if signed then Div0s(c, rs) else Div0u(c, rs))
    else if k <= 32 then Div1(c, rs)
    else if k == 33 then Div2s(c, rs)
    else Div3s(c)
  }

  lemma WordMeans(c: Core, m: Memory, rs: RegNo, signed: bool, k: nat, rest: Dispatch)
    requires c.Valid() && m.Valid() && (k == 0 ==> c.r[rs] != 0)
    ensures Data(c, m, ProgramWord(rs, signed, k), rest) == Done(WordEffect(c, rs, signed, k), m)
  {
    WordsDecode(rs);
    hide Cls, Op1, Op2, Rs, Encoded, Div0s, Div0u, Div1, Div2s, Div3s;
  }

  lemma WordAdvances(c: Core, rs: RegNo, signed: bool, k: nat)
    requires c.Valid() && c.r[rs] != 0 && k < ProgramLength(signed)
    ensures CoreAfter(c, rs, signed, k).r[rs] != 0
    ensures WordEffect(CoreAfter(c, rs, signed, k), rs, signed, k) == CoreAfter(c, rs, signed, k + 1)
  {
    hide Div1, Wrap32, Negative;
    if 1 <= k {
      Div1KeepsRegisters(if signed then Div0s(c, rs) else Div0u(c, rs), rs, if k <= 32 then k - 1 else 32);
    }
  }

  lemma PcIsCarried(c: Core, rs: RegNo, signed: bool, k: nat, pc: uint32)
    requires c.Valid()
    ensures WordEffect(c.(pc := pc), rs, signed, k) == WordEffect(c, rs, signed, k).(pc := pc)
  {
    StartCarries(c, rs, pc);
    Div1Carries(c, rs, pc);
    EndCarries(c, rs, pc);
    hide Div0s, Div0u, Div1, Div2s, Div3s;
  }

  lemma StartCarries(c: Core, rs: RegNo, pc: uint32)
    requires c.Valid()
    ensures Div0s(c.(pc := pc), rs) == Div0s(c, rs).(pc := pc) && Div0u(c.(pc := pc), rs) == Div0u(c, rs).(pc := pc)
  {
    hide Negative;
  }

  lemma Div1Carries(c: Core, rs: RegNo, pc: uint32)
    requires c.Valid()
    ensures Div1(c.(pc := pc), rs) == Div1(c, rs).(pc := pc)
  {
    hide ShiftAndTry;
  }

  lemma EndCarries(c: Core, rs: RegNo, pc: uint32)
    requires c.Valid()
    ensures Div2s(c.(pc := pc), rs) == Div2s(c, rs).(pc := pc) && Div3s(c.(pc := pc)) == Div3s(c).(pc := pc)
  {
    hide Wrap32;
  }

  lemma {:induction false} Div1KeepsRegisters(c: Core, rs: RegNo, k: nat)
    requires c.Valid()
    ensures
      var s := Div1Times(c, rs, k);
      s == c.(ahr := s.ahr, alr := s.alr, pendingExt := s.pendingExt)
  {
    hide ShiftAndTry;
    if k > 0 {
      Div1KeepsRegisters(c, rs, k - 1);
    }
  }

  lemma CoreAfterKeeps(c: Core, rs: RegNo, signed: bool, k: nat)
    requires c.Valid() && c.Open() && c.r[rs] != 0 && k <= ProgramLength(signed)
    ensures
      var s := CoreAfter(c, rs, signed, k);
      s == c.(ahr := s.ahr, alr := s.alr, psr := s.psr)
  {
    hide Div1, Wrap32, Negative;
    if 1 <= k {
      var started, n := if signed then Div0s(c, rs) else Div0u(c, rs), if k <= 33 then k - 1 else 32;
      Div1KeepsRegisters(started, rs, n);
      FlushedThroughout(started, rs, n);
    }
    hide Div1Times;
  }

  /** A step whose instruction only changes the core. */
  lemma PlainStep(m: Machine, insn: uint16, c': Core, cfg: Config)
    requires m.Valid() && cfg.Sound() && m.core.Open() && !m.core.inHalt && m.deferred == None && !m.mem.faultPending
    requires m.core.pc !in cfg.breakpoints && m.mem.Fetch16(m.core.pc).0 == insn
    requires cfg.dispatch(m.Fetched().core, m.Fetched().mem, insn) == Done(c', m.Fetched().mem) && c'.Open() && !c'.inHalt
    ensures m.Step(cfg) == Machine(c', None, m.Fetched().mem)
  {
    FetchOnlyCharges(m);
    hide Memory.Fetch16, Machine.Fetched;
  }

  lemma SameFetch(m: Memory, m': Memory, a: uint32)
    requires m.Valid() && m.SameBut(m', m.sram)
    ensures m'.Valid() && m'.Fetch16(a).0 == m.Fetch16(a).0
  {
    hide Memory.Charge, Memory.ReadCycles;
  }

  lemma TableEntry(c: Core, m: Memory, rs: RegNo, signed: bool, k: nat, rest: Dispatch, breakpoints: set<uint32>, strict: bool)
    requires c.Valid() && m.Valid()
    ensures CoreTable(rest, breakpoints, strict).dispatch(c, m, ProgramWord(rs, signed, k))
         == Data(c, m, ProgramWord(rs, signed, k), rest)
  {
    WordsDecode(rs);
    hide Data, Cls, Op1, Op2, Rs, Div0sWord, Div0uWord, Div1Word, Div2sWord;
  }

  /** k steps execute k instructions of the program. */
  lemma {:induction false} ProgramSteps(m: Machine, rs: RegNo, signed: bool, k: nat, rest: Dispatch,
                                        breakpoints: set<uint32>, strict: bool)
    requires m.Valid() && ReadyToDivide(m, rs, signed, breakpoints) && k <= ProgramLength(signed)
    requires CoreTable(rest, breakpoints, strict).Sound()
    ensures
      var r := Run(m, Ticks(k), CoreTable(rest, breakpoints, strict));
      && r.core == CoreAfter(m.core, rs, signed, k).(pc := Address(m, k)) && r.deferred == None
      && m.mem.SameBut(r.mem, m.mem.sram)
  {
    hide CoreAfter, ProgramWord, Wrap32, Machine.Step, CoreTable, Machine.Fetched, Data, Memory.Fetch16;
    if k == 0 {
      StartsAtPc(m, rs, signed);
    } else {
      var cfg := CoreTable(rest, breakpoints, strict);
      ProgramSteps(m, rs, signed, k - 1, rest, breakpoints, strict);
      assert Ticks(k)[..k - 1] == Ticks(k - 1);
      var b := Run(m, Ticks(k - 1), cfg);
      SameFetch(m.mem, b.mem, Address(m, k - 1));
      InstructionRuns(m, b, rs, signed, k - 1, rest, breakpoints, strict);
    }
  }

  lemma StartsAtPc(m: Machine, rs: RegNo, signed: bool)
    requires m.Valid()
    ensures CoreAfter(m.core, rs, signed, 0).(pc := Address(m, 0)) == m.core
  {
    WrapWord(m.core.pc);
  }

  lemma NextAddress(m: Machine, k: nat)
    ensures Wrap32(Address(m, k) + 2) == Address(m, k + 1)
  {
  }

  lemma InstructionRuns(m: Machine, b: Machine, rs: RegNo, signed: bool, k: nat, rest: Dispatch,
                        breakpoints: set<uint32>, strict: bool)
    requires m.Valid() && ReadyToDivide(m, rs, signed, breakpoints) && k < ProgramLength(signed)
    requires CoreTable(rest, breakpoints, strict).Sound()
    requires b.Valid() && b.core == CoreAfter(m.core, rs, signed, k).(pc := Address(m, k)) && b.deferred == None
    requires m.mem.SameBut(b.mem, m.mem.sram) && b.mem.Fetch16(Address(m, k)).0 == ProgramWord(rs, signed, k)
    ensures
      var r := b.Step(CoreTable(rest, breakpoints, strict));
      && r.core == CoreAfter(m.core, rs, signed, k + 1).(pc := Address(m, k + 1)) && r.deferred == None
      && m.mem.SameBut(r.mem, m.mem.sram)
  {
    var f := b.Fetched();
    FetchOnlyCharges(b);
    NextAddress(m, k);
    CoreAfterKeeps(m.core, rs, signed, k);
    CoreAfterKeeps(m.core, rs, signed, k + 1);
    assert f.core == CoreAfter(m.core, rs, signed, k).(pc := Address(m, k + 1));
    hide Machine.Fetched, Machine.Step, CoreAfter, ProgramWord, Data, Memory.Fetch16, Address;
    WordStep(m.core, f.mem, rs, signed, k, Address(m, k + 1), rest);
    TableEntry(f.core, f.mem, rs, signed, k, rest, breakpoints, strict);
    PlainStep(b, ProgramWord(rs, signed, k), CoreAfter(m.core, rs, signed, k + 1).(pc := Address(m, k + 1)),
              CoreTable(rest, breakpoints, strict));
  }

  /** 35 instructions fetched from memory and executed divide signed words: ALR holds the quotient
      truncated toward zero, AHR the remainder, memory is as it was and PC is past the program. */
  lemma SignedProgramDivides(m: Machine, rs: RegNo, rest: Dispatch, breakpoints: set<uint32>, strict: bool)
    requires m.Valid() && ReadyToDivide(m, rs, true, breakpoints)
    requires CoreTable(rest, breakpoints, strict).Sound()
    ensures
      var r := Run(m, Ticks(35), CoreTable(rest, breakpoints, strict));
      var a, b := Signed32(m.core.alr), Signed32(m.core.r[rs]);
      && r.core == m.core.(alr := Wrap32(TruncDiv(a, b)), ahr := Wrap32(TruncRem(a, b)),
                           psr := m.core.psr.(ds := a < 0, n := b < 0), pc := Address(m, 35))
      && r.deferred == None && m.mem.SameBut(r.mem, m.mem.sram)
  {
    ProgramSteps(m, rs, true, 35, rest, breakpoints, strict);
    SignedDivision(m.core, rs);
    hide Run, CoreTable, TruncDiv, TruncRem, Wrap32, Signed32, Div0s, Div1Times, Div2s, Div3s;
  }

  /** 33 instructions divide unsigned words, for every divisor but zero. */
  lemma UnsignedProgramDivides(m: Machine, rs: RegNo, rest: Dispatch, breakpoints: set<uint32>, strict: bool)
    requires m.Valid() && ReadyToDivide(m, rs, false, breakpoints)
    requires CoreTable(rest, breakpoints, strict).Sound()
    ensures
      var r := Run(m, Ticks(33), CoreTable(rest, breakpoints, strict));
      && r.core == m.core.(alr := r.core.alr, ahr := r.core.ahr, psr := m.core.psr.(ds := false, n := false),
                           pc := Address(m, 33))
      && r.core.alr == m.core.alr / m.core.r[rs] && r.core.ahr == m.core.alr % m.core.r[rs]
      && r.deferred == None && m.mem.SameBut(r.mem, m.mem.sram)
  {
    ProgramSteps(m, rs, false, 33, rest, breakpoints, strict);
    UnsignedDivision(m.core, rs);
    hide Run, CoreTable, Wrap32, Div0u, Div1Times;
  }

  /** The program at the start of internal RAM, with any operands. */
  function ProgramMachine(rs: RegNo, signed: bool, dividend: uint32, divisor: uint32): (m: Machine)
    ensures m.Valid()
  {
    Example([]).(core := Example([]).core.(pc := 0, alr := dividend, r := seq(16, _ => divisor)),
                 mem := ExampleMemory().(iram := ProgramImage(rs, signed)))
  }

  function ProgramImage(rs: RegNo, signed: bool): (iram: seq<uint8>)
    ensures |iram| == IRAM_SIZE
  {
    CodeImage(seq(ProgramLength(signed), k requires 0 <= k => ProgramWord(rs, signed, k)))
  }

  /** Internal RAM with code at its start. */
  function CodeImage(words: seq<uint16>): (iram: seq<uint8>)
    ensures |iram| == IRAM_SIZE
  {
    seq(IRAM_SIZE, i requires 0 <= i =>
          var w: uint16 := if i / 2 < |words| then words[i / 2] else 0; if i % 2 == 0 then w % 0x100 else w / 0x100)
  }

  lemma ImageHolds(words: seq<uint16>, k: nat)
    requires k < |words| && 2 * k + 1 < IRAM_SIZE
    ensures LoadEven(CodeImage(words), 2 * k) == words[k]
  {
    var iram := CodeImage(words);
    assert 2 * k / 2 == k && (2 * k + 1) / 2 == k;
    WordAt(iram, k, words[k]);
  }

  lemma ProgramMachineIsReady(rs: RegNo, signed: bool, dividend: uint32, divisor: uint32)
    requires divisor != 0
    ensures ReadyToDivide(ProgramMachine(rs, signed, dividend, divisor), rs, signed, {})
  {
    var m := ProgramMachine(rs, signed, dividend, divisor);
    assert m.mem.iram == ProgramImage(rs, signed) && m.core.pc == 0;
    assert m.core.Open() && !m.core.inHalt && m.deferred == None && !m.mem.faultPending && m.core.r[rs] == divisor;
    var words := seq(ProgramLength(signed), k requires 0 <= k => ProgramWord(rs, signed, k));
    hide ProgramWord, ProgramMachine, Memory.Fetch16, Memory.Valid, LoadEven, Core.Open, CodeImage;
    forall k | 0 <= k < ProgramLength(signed)
      ensures m.mem.Fetch16(Address(m, k)).0 == ProgramWord(rs, signed, k)
    {
      ImageHolds(words, k);
      WrapWord(2 * k);
      assert Address(m, k) == 2 * k;
      FetchesInternal(m.mem, 2 * k);
    }
  }

  lemma WordAt(bytes: seq<uint8>, k: nat, w: uint16)
    requires |bytes| % 4 == 0 && 2 * k + 1 < |bytes| && bytes[2 * k] == w % 0x100 && bytes[2 * k + 1] == w / 0x100
    ensures LoadEven(bytes, 2 * k) == w
  {
  }

  lemma FetchesInternal(m: Memory, a: uint32)
    requires m.Valid() && a < IRAM_SIZE && a % 2 == 0
    ensures m.Fetch16(a).0 == LoadEven(m.iram, a)
  {
    hide Memory.Charge, Memory.ReadCycles, Load16;
    assert Even(a) == a;
  }

  // ---- a trap that takes the deferred slot ----

  /** A division by zero in a delay slot, outside strict mode, asserts a trap that has to wait. */
  lemma ZeroDivideInSlotDisplaces(m: Machine, rs: RegNo, rest: Dispatch, breakpoints: set<uint32>)
    requires m.Valid() && CoreTable(rest, breakpoints, false).Sound()
    requires !m.core.inHalt && m.core.inDelaySlot && m.core.pendingExt == [] && m.core.pc !in breakpoints
    requires m.mem.Fetch16(m.core.pc).0 == Div0sWord(rs) && m.core.r[rs] == 0
    ensures Displaces(m, Tick, CoreTable(rest, breakpoints, false))
  {
    WordsDecode(rs);
    FetchOnlyCharges(m);
    var f := m.Fetched();
    hide Memory.Fetch16, Machine.Fetched, Div0sWord, Cls, Op1, Op2, Rs;
    TableEntry(f.core, f.mem, rs, true, 0, rest, breakpoints, false);
    hide TableOver, DataOver;
    assert DelaySlotClass(Div0sWord(rs)) == SlotSoft;
  }

  /** An input where a waiting trap is lost: internal RAM holds div0s %r0 at address 2, r0 is zero,
      and the core stands there in a delay slot. */
  lemma LostTrap(rest: Dispatch)
    requires CoreTable(rest, {}, false).Sound()
    ensures
      var cfg := CoreTable(rest, {}, false);
      var m := Example([]).(core := Example([]).core.(inDelaySlot := true),
                            mem := ExampleMemory().(iram := ExampleMemory().iram[3 := 0x8B]));
      && m.Valid() && m.Accepts(EXAMPLE_TRAP) && Displaced(m, [Tick], cfg)
      && Run(Waiting(m, EXAMPLE_TRAP), [Tick], cfg) == Run(m, [Tick], cfg)
  {
    var cfg := CoreTable(rest, {}, false);
    var m := Example([]).(core := Example([]).core.(inDelaySlot := true),
                          mem := ExampleMemory().(iram := ExampleMemory().iram[3 := 0x8B]));
    DivideFetched(m.mem);
    hide CoreTable, Machine.Step, Memory.Fetch16, Overwrites;
    ZeroDivideInSlotDisplaces(m, 0, rest, {});
    StepWithDeferred(m, EXAMPLE_TRAP, cfg);
    assert [Tick][..0] == [];
    assert Run(m, [], cfg) == m && Run(Waiting(m, EXAMPLE_TRAP), [], cfg) == Waiting(m, EXAMPLE_TRAP);
  }

  lemma DivideFetched(m: Memory)
    requires m == ExampleMemory().(iram := ExampleMemory().iram[3 := 0x8B])
    ensures m.Valid() && m.Fetch16(2).0 == Div0sWord(0)
  {
    hide Memory.Charge;
    assert LoadEven(m.iram, 2) == 0x8B00;
  }
}
