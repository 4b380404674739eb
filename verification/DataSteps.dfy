/** adc, sbc, mac, pushn, popn and ret.d as the core executes them: decoded, dispatched and stepped
    (cpu_dispatch.cpp, cpu_class0.cpp, cpu_class5.cpp). */
module DataSteps {
  import opened Words
  import opened CpuState
  import opened BusModel
  import opened Instructions
  import opened CpuCore
  import opened Sequencing
  import opened Transparency
  import opened Branches
  import opened DivMod
  import Arithmetic
  import MultiWord
  import Mac
  import Stack

  // ---- adc and sbc ----

  /** A class 5 word with opcodes op1 in bits 10 to 12 and op2 in bits 8 and 9. */
  function Class5Word(op1: nat, op2: nat, rs: RegNo, rd: RegNo): uint16
    requires op1 < 8 && op2 < 4
  {
    0xA000 + 0x400 * op1 + 0x100 * op2 + 16 * rs + rd
  }

  lemma Class5Decodes(op1: nat, op2: nat, rs: RegNo, rd: RegNo)
    requires op1 < 8 && op2 < 4
    ensures
      var w := Class5Word(op1, op2, rs, rd);
      Cls(w) == 5 && Op1(w) == op1 && Op2(w) == op2 && Rs(w) == rs && Rd(w) == rd
  {
    var w, low := Class5Word(op1, op2, rs, rd), 16 * rs + rd;
    DivisionUnique(w, 0x2000, 5, 0x400 * op1 + 0x100 * op2 + low);
    DivisionUnique(w, 0x400, 40 + op1, 0x100 * op2 + low);
    DivisionUnique(w, 0x100, 160 + 4 * op1 + op2, low);
    DivisionUnique(w, 16, 16 * (160 + 4 * op1 + op2) + rs, rd);
    DivisionUnique(40 + op1, 8, 5, op1);
    DivisionUnique(160 + 4 * op1 + op2, 4, 40 + op1, op2);
    DivisionUnique(16 * (160 + 4 * op1 + op2) + rs, 16, 160 + 4 * op1 + op2, rs);
  }

  /** adc adds with the carry, sbc subtracts with the borrow: the new word and the new C are exact,
      the carry or borrow of weight 2^32. */
  lemma CarrySteps(m: Machine, subtract: bool, rd: RegNo, rs: RegNo, rest: Dispatch, breakpoints: set<uint32>, strict: bool)
    requires m.Valid() && Arithmetic.CoreTable(rest, breakpoints, strict).Sound() && m.core.pendingExt == []
    requires Before(m, Arithmetic.CoreTable(rest, breakpoints, strict), Class5Word(if subtract then 7 else 6, 0, rs, rd))
    ensures
      var c, n := m.core, m.Step(Arithmetic.CoreTable(rest, breakpoints, strict)).core;
      var carry, carry' := if c.psr.c then 1 else 0, if n.psr.c then 1 else 0;
      && n == c.(pc := Wrap32(c.pc + 2), r := c.r[rd := n.r[rd]], psr := n.psr)
      && |n.r| == 16
      && (if subtract then n.r[rd] - TWO32 * carry' == c.r[rd] as int - c.r[rs] - carry
          else n.r[rd] + TWO32 * carry' == c.r[rd] as int + c.r[rs] + carry)
  {
    hide Memory.Fetch16, Class5Word, Cls, Op1, Op2, Rd, Rs, MultiWord.Adc, MultiWord.Sbc, Wrap32;
    var cfg, word := Arithmetic.CoreTable(rest, breakpoints, strict), Class5Word(if subtract then 7 else 6, 0, rs, rd);
    FetchOnlyCharges(m);
    Class5Decodes(if subtract then 7 else 6, 0, rs, rd);
    MultiWord.AdcExact(m.core.psr, m.core.r[rd], m.core.r[rs]);
    MultiWord.SbcExact(m.core.psr, m.core.r[rd], m.core.r[rs]);
    StepOutsideSlot(m, word, cfg);
  }

  /** The three-operand form: behind prefixes add, sub and cmp work on rs and the number the
      prefixes spell, 13 or 26 bits, without sign. */
  lemma AluExtSteps(m: Machine, op: nat, rd: RegNo, rs: RegNo, rest: Dispatch, breakpoints: set<uint32>, strict: bool)
    requires m.Valid() && Arithmetic.CoreTable(rest, breakpoints, strict).Sound() && op < 3 && m.core.pendingExt != []
    requires Before(m, Arithmetic.CoreTable(rest, breakpoints, strict), AluWord(op, rd, rs))
    ensures
      var ext := m.core.pendingExt;
      var a, b: uint32 := m.core.r[rs], if |ext| == 1 then ext[0] else (ext[0] as int) * 0x2000 + ext[1];
      var (r, p) := if op == 0 then MultiWord.Add(m.core.psr, a, b) else MultiWord.Sub(m.core.psr, a, b);
      m.Step(Arithmetic.CoreTable(rest, breakpoints, strict))
      == Machine(m.core.(pc := Wrap32(m.core.pc + 2), psr := p, pendingExt := [], r := if op < 2 then m.core.r[rd := r] else m.core.r),
                 None, m.mem.Fetch16(m.core.pc).1)
  {
    hide Memory.Fetch16, AluWord, Cls, Op1, Op2, Rd, Rs, MultiWord.Adc, MultiWord.Sbc, Wrap32;
    FetchOnlyCharges(m);
    AluDecodes(op, rd, rs);
    StepOutsideSlot(m, AluWord(op, rd, rs), Arithmetic.CoreTable(rest, breakpoints, strict));
  }

  /** ext adds its 13 bits to the pending prefixes; behind two it replaces the second, and in strict
      mode stops the core. */
  lemma ExtSteps(m: Machine, imm: Imm13, data: Dispatch, breakpoints: set<uint32>, strict: bool)
    requires m.Valid() && Config(TableOver(data, strict), breakpoints, strict).Sound()
    requires Before(m, Config(TableOver(data, strict), breakpoints, strict), 0xC000 + imm)
    ensures
      var c, triple := m.core, |m.core.pendingExt| == 2;
      m.Step(Config(TableOver(data, strict), breakpoints, strict))
      == Machine(c.(pc := Wrap32(c.pc + 2), pendingExt := if triple then [c.pendingExt[0], imm] else c.pendingExt + [imm],
                    fault := c.fault || (triple && strict), inHalt := triple && strict),
                 None, m.mem.Fetch16(m.core.pc).1)
  {
    hide Memory.Fetch16, Wrap32, Cls;
    ExtDecodes(imm);
    FetchOnlyCharges(m);
    StepOutsideSlot(m, 0xC000 + imm, Config(TableOver(data, strict), breakpoints, strict));
  }

  lemma ExtDecodes(imm: Imm13)
    ensures Cls(0xC000 + imm) == 6 && (0xC000 + imm) % 0x2000 == imm
  {
    DivisionUnique(0xC000 + imm, 0x2000, 6, imm);
  }

  // ---- mac ----

  /** {AHR, ALR}. */
  function Accumulator(c: Core): uint64 { c.ahr * TWO32 + c.alr }

  /** `n` is `c` after the dot product of the r[rs] halfword pairs at r[rs+1] and r[rs+2] was added
      to {AHR, ALR}: MO records overflow, the pointers end behind their arrays, the count at zero. */
  ghost predicate Accumulated(c: Core, m: Memory, n: Core, rs: RegNo)
    requires c.Valid() && m.Valid()
  {
    hide Mac.Operands, Mac.Dot, Mac.LeavesRange, Wrap32, Wrap64;
    var (p1, p2, count) := (c.r[(rs + 1) % 16], c.r[(rs + 2) % 16], c.r[rs]);
    var ops, acc := Mac.Operands(m, p1, p2, count), Accumulator(c);
    && Accumulator(n) == Wrap64(acc + Mac.Dot(ops))
    && (n.psr.mo <==> c.psr.mo || exists j | 0 <= j < count :: Mac.LeavesRange(acc, ops, j))
    && n == c.(ahr := n.ahr, alr := n.alr, psr := c.psr.(mo := n.psr.mo),
               r := c.r[(rs + 1) % 16 := Wrap32(p1 as int + 2 * (count as int))]
                  [(rs + 2) % 16 := Wrap32(p2 as int + 2 * (count as int))][rs := 0])
  }

  /** No element of the arrays raises a bus fault. */
  predicate Faultless(c: Core, m: Memory, rs: RegNo)
    requires c.Valid() && m.Valid()
  {
    hide Mac.SlowRun;
    !Mac.SlowRun(Mac.Load(c, m, rs)).mem.faultPending
  }

  /** mac %rs, for registers that meet the condition of its fast paths. */
  lemma MacSteps(m: Machine, rs: RegNo, rd: RegNo, rest: Dispatch, breakpoints: set<uint32>, strict: bool)
    requires m.Valid() && Arithmetic.CoreTable(rest, breakpoints, strict).Sound() && m.core.pendingExt == []
    requires Before(m, Arithmetic.CoreTable(rest, breakpoints, strict), Class5Word(4, 2, rs, rd))
    requires m.core.r[rs] > 0 && Mac.Plain(Mac.Load(m.core, m.mem, rs)) && Faultless(m.core, m.Fetched().mem, rs)
    ensures Accumulated(m.core.(pc := Wrap32(m.core.pc + 2)), m.Fetched().mem,
                        m.Step(Arithmetic.CoreTable(rest, breakpoints, strict)).core, rs)
  {
    hide Memory.Fetch16, Class5Word, Cls, Op1, Op2, Rd, Rs, Mac.Run, Mac.Plain, Faultless, Accumulated, Wrap32, Mac.Store;
    var cfg, word := Arithmetic.CoreTable(rest, breakpoints, strict), Class5Word(4, 2, rs, rd);
    var f := m.Fetched();
    FetchOnlyCharges(m);
    PlainAfterFetch(Mac.Load(m.core, m.mem, rs), f.mem);
    MacRuns(m.core, f.core, f.mem, rs);
    Class5Decodes(4, 2, rs, rd);
    MacEffect(f.core, f.mem, word, rs, rest);
    hide Arithmetic.Accumulation;
    StepOutsideSlot(m, word, cfg);
  }

  /** What the instruction leaves in the core, PC aside. */
  lemma MacRuns(c: Core, f: Core, m: Memory, rs: RegNo)
    requires c.Valid() && m.Valid() && f == c.(pc := f.pc) && c.pendingExt == [] && c.r[rs] > 0
    requires Mac.Plain(Mac.Load(c, m, rs)) && Faultless(c, m, rs)
    ensures Mac.Load(f, m, rs) == Mac.Load(c, m, rs) && Mac.Run(Mac.Load(f, m, rs)).Done?
    ensures
      var t := Mac.Run(Mac.Load(f, m, rs)).mac;
      !t.mem.faultPending && Accumulated(f, m, Mac.Store(FlushExt(f), rs, t), rs)
  {
    hide Mac.Run, Mac.Plain, Mac.SlowRun, Mac.Operands, Mac.Dot, Mac.LeavesRange, Wrap32, Wrap64;
    var s := Mac.Load(f, m, rs);
    Mac.RunIsDotProduct(s);
    Mac.RunRefinesSlowPathIff(s);
    assert Mac.Alike(s.mem, s.mem) && s.(mem := s.mem) == s;
    Mac.SlowPointers(s);
    AccumulatorSplits(Mac.Run(s).mac.acc);
  }

  lemma PlainAfterFetch(s: Mac.Mac, m: Memory)
    requires s.Valid() && Mac.Plain(s) && s.mem.SameBut(m, s.mem.sram)
    ensures Mac.Plain(s.(mem := m))
  {
    hide Mac.Masked, Wrap32, Mac.Offset, Mac.Fits;
  }

  lemma AccumulatorSplits(acc: uint64)
    ensures acc / TWO32 < TWO32 && acc / TWO32 * TWO32 + Wrap32(acc) == acc
  {
  }

  lemma MacEffect(c: Core, m: Memory, insn: uint16, rs: RegNo, rest: Dispatch)
    requires c.Valid() && m.Valid() && Rs(insn) == rs && c.r[rs] > 0 && Mac.Run(Mac.Load(c, m, rs)).Done?
    ensures
      var t := Mac.Run(Mac.Load(c, m, rs)).mac;
      Arithmetic.Accumulation(c, m, insn, rest) == Done(Mac.Store(FlushExt(c), rs, t), t.mem)
  {
    hide Mac.Run, Rs;
  }

  // ---- pushn and popn ----

  /** pushn n, popn n in memory: two steps later the whole core is as before, PC aside, and memory
      differs in the 4(n+1) bytes below SP only. */
  lemma PushPopSteps(m: Machine, n: RegNo, data: Dispatch, breakpoints: set<uint32>, strict: bool)
    requires m.Valid() && Config(TableOver(data, strict), breakpoints, strict).Sound()
    requires Stack.Room(m.core, m.mem, n + 1)
    requires Holding(m, [Class0Word(1, false, n), Class0Word(1, false, 0x40 + n)], breakpoints)
    requires
      var r := m.Step(Config(TableOver(data, strict), breakpoints, strict));
      r.mem.Fetch16(r.core.pc).0 == Class0Word(1, false, 0x40 + n)
    ensures
      var r := Run(m, [Tick, Tick], Config(TableOver(data, strict), breakpoints, strict));
      && r.core == m.core.(pc := Wrap32(m.core.pc + 4)) && r.deferred == None
      && Stack.OnlyTouches(m.mem, r.mem, Stack.Top(m.core) - 4 * (n + 1), Stack.Top(m.core))
  {
    hide Memory.Fetch16, Machine.Step, Class0Word, Wrap32, TableOver, Stack.Room;
    var cfg := Config(TableOver(data, strict), breakpoints, strict);
    WordsInPlace(m, Class0Word(1, false, n), Class0Word(1, false, 0x40 + n), breakpoints);
    PushnSteps(m, n, data, breakpoints, strict);
    var r1 := m.Step(cfg);
    WrapTwice(m.core.pc);
    PopnSteps(m, r1, n, data, breakpoints, strict);
    TwoTicks(m, cfg);
  }

  lemma WordsInPlace(m: Machine, w0: uint16, w1: uint16, breakpoints: set<uint32>)
    requires m.Valid() && Holding(m, [w0, w1], breakpoints)
    ensures m.core.pc !in breakpoints && m.mem.Fetch16(m.core.pc).0 == w0 && Wrap32(m.core.pc + 2) !in breakpoints
  {
    var words := [w0, w1];
    WrapTwice(m.core.pc);
    assert words[0] == w0 && words[1] == w1;
    assert Wrap32(m.core.pc + 2 * 0) == m.core.pc && Wrap32(m.core.pc + 2 * 1) == Wrap32(m.core.pc + 2);
    hide Memory.Fetch16, Wrap32;
  }

  /** The core after fetching. */
  function Past(c: Core): Core { c.(pc := Wrap32(c.pc + 2)) }

  /** r1 is m after pushn n. */
  ghost predicate Pushed(m: Machine, r1: Machine, n: RegNo)
    requires m.Valid()
  {
    (r1.core, r1.mem) == PushN(Past(m.core), m.Fetched().mem, n) && r1.deferred == None
  }

  lemma PushnSteps(m: Machine, n: RegNo, data: Dispatch, breakpoints: set<uint32>, strict: bool)
    requires m.Valid() && Config(TableOver(data, strict), breakpoints, strict).Sound() && m.core.pendingExt == []
    requires Before(m, Config(TableOver(data, strict), breakpoints, strict), Class0Word(1, false, n))
    requires Stack.Room(m.core, m.mem, n + 1)
    ensures
      var r1 := m.Step(Config(TableOver(data, strict), breakpoints, strict));
      && Pushed(m, r1, n) && !r1.mem.faultPending
      && r1.core == m.core.(pc := Wrap32(m.core.pc + 2), sp := r1.core.sp)
  {
    hide Memory.Fetch16, Class0Word, Class0, Cls, C0Op1, C0Op2, Rd, Wrap32, Stack.Room, PushN;
    var insn, cfg := Class0Word(1, false, n), Config(TableOver(data, strict), breakpoints, strict);
    var f := m.Fetched();
    FetchOnlyCharges(m);
    StackDecodes(n);
    PushnEffect(f.core, f.mem, insn, n);
    SameRoom(m.core, f.core, m.mem, f.mem, n + 1);
    Stack.PushNEffect(f.core, f.mem, n);
    var (c1, m1) := PushN(f.core, f.mem, n);
    TouchesKeepFault(f.mem, m1, Stack.Top(c1), Stack.Top(f.core));
    StepOutsideSlot(m, insn, cfg);
  }

  lemma StackDecodes(n: RegNo)
    ensures
      var w, w' := Class0Word(1, false, n), Class0Word(1, false, 0x40 + n);
      && Cls(w) == 0 && C0Op1(w) == 1 && C0Op2(w) == 0 && Rd(w) == n
      && Cls(w') == 0 && C0Op1(w') == 1 && C0Op2(w') == 1 && Rd(w') == n
  {
    Class0Decodes(1, false, n);
    Class0Decodes(1, false, 0x40 + n);
    DivisionUnique(0x40 + n, 0x40, 1, n);
    DivisionUnique(0x40 + n, 16, 4, n);
    DivisionUnique(n, 0x40, 0, n);
    DivisionUnique(n, 16, 0, n);
    hide Cls, C0Op1, C0Op2, Rd, Class0Word;
  }

  lemma PushnEffect(c: Core, m: Memory, insn: uint16, n: RegNo)
    requires c.Valid() && m.Valid() && c.pendingExt == [] && C0Op1(insn) == 1 && Rd(insn) == n
    ensures C0Op2(insn) == 0 ==> Class0(c, m, insn) == Done(PushN(c, m, n).0, PushN(c, m, n).1)
    ensures C0Op2(insn) == 1 ==> Class0(c, m, insn) == Done(PopN(c, m, 0, n).0, PopN(c, m, 0, n).1)
  {
    hide C0Op1, C0Op2, Rd, PushN, PopN;
    assert FlushExt(c) == c;
  }

  lemma SameRoom(c: Core, c': Core, m: Memory, m': Memory, words: nat)
    requires Stack.Room(c, m, words) && c'.sp == c.sp && |m'.sram| == |m.sram|
    ensures Stack.Room(c', m', words) && Stack.Top(c') == Stack.Top(c)
  {
    hide WordAligned;
  }

  lemma TouchesKeepFault(m: Memory, m': Memory, from: int, to: int)
    requires Stack.OnlyTouches(m, m', from, to)
    ensures m'.faultPending == m.faultPending && |m'.sram| == |m.sram|
  {
  }

  lemma PopnSteps(m: Machine, r1: Machine, n: RegNo, data: Dispatch, breakpoints: set<uint32>, strict: bool)
    requires m.Valid() && r1.Valid() && Config(TableOver(data, strict), breakpoints, strict).Sound() && m.core.pendingExt == []
    requires Pushed(m, r1, n) && r1.core == m.core.(pc := Wrap32(m.core.pc + 2), sp := r1.core.sp) && !m.mem.faultPending
    requires Before(r1, Config(TableOver(data, strict), breakpoints, strict), Class0Word(1, false, 0x40 + n))
    requires Stack.Room(m.core, m.mem, n + 1)
    ensures
      var r := r1.Step(Config(TableOver(data, strict), breakpoints, strict));
      && r.core == m.core.(pc := Wrap32(r1.core.pc + 2)) && r.deferred == None
      && Stack.OnlyTouches(m.mem, r.mem, Stack.Top(m.core) - 4 * (n + 1), Stack.Top(m.core))
  {
    hide Memory.Fetch16, Class0Word, Class0, Cls, C0Op1, C0Op2, Rd, Wrap32, Stack.Room, PushN, PopN, Stack.OnlyTouches;
    var insn, cfg := Class0Word(1, false, 0x40 + n), Config(TableOver(data, strict), breakpoints, strict);
    var f0, f := m.Fetched(), r1.Fetched();
    FetchOnlyCharges(m);
    FetchOnlyCharges(r1);
    StackDecodes(n);
    PushnEffect(f.core, f.mem, insn, n);
    SameRoom(m.core, Past(m.core), m.mem, f0.mem, n + 1);
    Stack.PushPopIdentity(Past(m.core), f0.mem, n, m.core.r, f.core.pc, f.mem);
    var m2 := PopN(f.core, f.mem, 0, n).1;
    assert m.core.r[..n + 1] + m.core.r[n + 1..] == m.core.r;
    Touched(m.mem, f0.mem, m2, Stack.Top(m.core) - 4 * (n + 1), Stack.Top(m.core));
    StepOutsideSlot(r1, insn, cfg);
  }

  lemma Touched(m: Memory, m0: Memory, m2: Memory, from: int, to: int)
    requires m.SameBut(m0, m.sram) && Stack.OnlyTouches(m0, m2, from, to)
    ensures Stack.OnlyTouches(m, m2, from, to) && m2.faultPending == m.faultPending
  {
  }

  // ---- ret.d ----

  /** The word of class 0a that is ret.d with two pops: PC from the top of the stack, PSR from the
      word above, and the slot open.  A trap frame has them the other way round. */
  lemma RetdSteps(m: Machine, pc: uint32, raw: uint32, data: Dispatch, breakpoints: set<uint32>, strict: bool)
    requires m.Valid() && Config(TableOver(data, strict), breakpoints, strict).Sound() && m.core.pendingExt == []
    requires Before(m, Config(TableOver(data, strict), breakpoints, strict), Class0Word(2, false, 0x40))
    requires m.core.sp % 4 == 0 && m.core.sp + 4 < TWO32 && WordAligned(m.core.sp) + 4 < ADDRESS_SPACE
    requires Stack.Holds(m.mem.sram, Stack.Top(m.core), pc) && Stack.Holds(m.mem.sram, Stack.Top(m.core) + 4, raw)
    ensures
      var r := m.Step(Config(TableOver(data, strict), breakpoints, strict));
      && r.core == m.core.(pc := Wrap32(m.core.pc + 2), sp := Wrap32(m.core.sp + 8), psr := Psr.FromRaw(raw),
                           inDelaySlot := true, delayTarget := pc)
      && m.mem.SameBut(r.mem, m.mem.sram) && r.deferred == None
  {
    WordAbove(m.core.sp);
    WrapWord(m.core.sp + 4);
    Class0Decodes(2, false, 0x40);
    WrapSum(m.core.sp + 4, 4);
    hide Memory.Fetch16, Class0Word, Cls, C0Op1, C0Op2, Wrap32, Stack.Holds, WordAligned, Psr.FromRaw;
    var insn, cfg := Class0Word(2, false, 0x40), Config(TableOver(data, strict), breakpoints, strict);
    var f := m.Fetched();
    FetchOnlyCharges(m);
    Stack.PopEffect(f.core, f.mem, pc);
    var (v, c1, m1) := Pop(f.core, f.mem);
    Stack.PopEffect(c1, m1, raw);
    assert FlushExt(f.core) == f.core;
    hide Pop, Machine.Fetched;
    StepOutsideSlot(m, insn, cfg);
  }
}
