/** Instruction decoding, the delay-slot and EXT legality classes, and the handlers that drive
    sequencing: class 0 (control flow), class 6 (EXT) and undefined words
    (insn.hpp, cpu_core.cpp, cpu_class0.cpp, cpu_class6.cpp, cpu_dispatch.cpp). */
module Instructions {
  import opened Words
  import opened CpuState
  import opened BusModel

  /** What one handler does: new core, new memory, and the trap it asserts as its last action. */
  datatype Effect = Effect(core: Core, mem: Memory, trap: Option<Trap>)

  /** The dispatch table. */
  type Dispatch = (Core, Memory, uint16) -> Effect

  // ---- fields of an instruction word ----

  function Cls(insn: uint16): nat { insn / 0x2000 }
  function Op1(insn: uint16): nat { insn / 0x400 % 8 }
  function Op2(insn: uint16): nat { insn / 0x100 % 4 }
  function C0Op1(insn: uint16): nat { insn / 0x200 % 16 }
  function C0Op2(insn: uint16): nat { insn / 0x40 % 4 }
  function Rd(insn: uint16): RegNo { insn % 16 }
  function Rs(insn: uint16): RegNo { insn / 16 % 16 }
  predicate Delayed(insn: uint16) { insn / 0x100 % 2 == 1 }

  predicate IsReti(insn: uint16) {
    Cls(insn) == 0 && C0Op1(insn) == 2 && C0Op2(insn) == 3
  }

  // ---- legality classes ----

  predicate ExtCapable(insn: uint16) {
    match Cls(insn)
    case 0 => 4 <= C0Op1(insn)
    case 1 => Op2(insn) == 0 || (Op2(insn) == 2 && Op1(insn) != 3 && Op1(insn) != 7)
    case 2 => true
    case 3 => true
    case 5 => Op2(insn) == 0 && 2 <= Op1(insn) <= 5
    case 6 => true
    case _ => false
  }

  datatype SlotClass = SlotOk | SlotHard | SlotSoft

  function DelaySlotClass(insn: uint16): SlotClass {
    match Cls(insn)
    case 0 =>
      if C0Op1(insn) == 0 && C0Op2(insn) == 0 then SlotOk
      else if C0Op1(insn) == 0 && C0Op2(insn) <= 2 then SlotSoft
      else SlotHard
    case 1 => if Op2(insn) == 2 then SlotOk else SlotHard
    case 3 => SlotOk
    case 4 => if Op1(insn) <= 1 || Op2(insn) <= 2 then SlotOk else SlotSoft
    case 5 =>
      (match Op2(insn)
       case 0 => if Op1(insn) <= 1 || 6 <= Op1(insn) then SlotOk else SlotHard
       case 1 => SlotSoft
       case 2 => if Op1(insn) <= 1 then SlotOk else SlotHard
       case _ => SlotHard)
    case _ => SlotHard
  }

  // ---- helpers shared by the handlers ----

  /** diag_fault: reports, then stops the core for good. */
  function Faulted(c: Core): Core {
    c.(fault := true, inHalt := true)
  }

  /** Two's-complement reading of a field whose sign bit weighs `sign`. */
  function SignExtend(v: nat, sign: nat): int {
    if v < sign then v else v - 2 * sign
  }

  /** ext_pcrel: the branch displacement in halfwords. */
  function ExtPcrel(c: Core, imm8: uint8): int
    requires c.Valid()
  {
    var raw: int := imm8;
    if |c.pendingExt| == 0 then SignExtend(raw, 0x80)
    else
      var first: int := c.pendingExt[0];
      if |c.pendingExt| == 1 then SignExtend(0x100 * first + raw, 0x10_0000)
      else
        var second: int := c.pendingExt[1];
        SignExtend(raw + 0x100 * second + 0x20_0000 * (first / 8), 0x4000_0000)
  }

  /** Every displacement of 8, 21 or 31 bits has an encoding with none, one or two prefixes that
      decodes to it; the low three bits of the first of two prefixes do not matter. */
  lemma DisplacementRoundTrip(c: Core, d: int, unused: nat)
    requires c.Valid() && unused < 8
    ensures -0x80 <= d < 0x80 ==> ExtPcrel(c.(pendingExt := []), d % 0x100) == d
    ensures -0x10_0000 <= d < 0x10_0000 ==>
              var v := d % 0x20_0000;
              ExtPcrel(c.(pendingExt := [v / 0x100]), v % 0x100) == d
    ensures -0x4000_0000 <= d < 0x4000_0000 ==>
              var v := d % 0x8000_0000;
              ExtPcrel(c.(pendingExt := [v / 0x20_0000 * 8 + unused, v / 0x100 % 0x2000]), v % 0x100) == d
  {
    Residues(d);
    FieldsRejoin(d % 0x20_0000, unused);
    FieldsRejoin(d % 0x8000_0000, unused);
    hide SignExtend;
  }

  lemma Residues(d: int)
    ensures -0x80 <= d < 0x80 ==> SignExtend(d % 0x100, 0x80) == d
    ensures -0x10_0000 <= d < 0x10_0000 ==> SignExtend(d % 0x20_0000, 0x10_0000) == d
    ensures -0x4000_0000 <= d < 0x4000_0000 ==> SignExtend(d % 0x8000_0000, 0x4000_0000) == d
  {
  }

  lemma FieldsRejoin(v: nat, unused: nat)
    requires unused < 8
    ensures v == v % 0x100 + 0x100 * (v / 0x100)
    ensures v == v % 0x100 + 0x100 * (v / 0x100 % 0x2000) + 0x20_0000 * ((v / 0x20_0000 * 8 + unused) / 8)
  {
    assert v / 0x100 == v / 0x100 % 0x2000 + 0x2000 * (v / 0x20_0000);
    assert (v / 0x20_0000 * 8 + unused) / 8 == v / 0x20_0000;
  }

  function Jump(c: Core, target: uint32, delayed: bool): Core {
    if delayed then c.(inDelaySlot := true, delayTarget := target) else c.(pc := target)
  }

  /** The branch target of a PC-relative instruction; pc is already two past it. */
  function RelativeTarget(c: Core, insn: uint16): uint32
    requires c.Valid()
  {
    Wrap32(c.pc - 2 + 2 * ExtPcrel(c, insn % 0x100))
  }

  function Push(c: Core, m: Memory, v: uint32): (r: (Core, Memory))
    requires m.Valid()
    ensures r.1.Valid() && r.0 == c.(sp := r.0.sp)
  {
    var sp := Wrap32(c.sp - 4);
    (c.(sp := sp), m.Write32(sp, v))
  }

  function Pop(c: Core, m: Memory): (r: (uint32, Core, Memory))
    requires m.Valid()
    ensures r.2.Valid() && r.1 == c.(sp := r.1.sp)
  {
    var (v, m') := m.Read32(c.sp);
    (v, c.(sp := Wrap32(c.sp + 4)), m')
  }

  function Done(c: Core, m: Memory): Effect { Effect(c, m, None) }

  // ---- class 0a ----

  /** pushn: r[i], r[i-1], ..., r[0] downwards. */
  function PushN(c: Core, m: Memory, i: RegNo): (r: (Core, Memory))
    requires c.Valid() && m.Valid()
    ensures r.0.Valid() && r.1.Valid()
    decreases i
  {
    var (c1, m1) := Push(c, m, c.r[i]);
    if i == 0 then (c1, m1) else PushN(c1, m1, i - 1)
  }

  /** popn: r[i], ..., r[n] upwards. */
  function PopN(c: Core, m: Memory, i: nat, n: RegNo): (r: (Core, Memory))
    requires c.Valid() && m.Valid() && i <= n + 1
    ensures r.0.Valid() && r.1.Valid()
    decreases n + 1 - i
  {
    if n < i then (c, m)
    else
      var (v, c1, m1) := Pop(c, m);
      PopN(c1.(r := c1.r[i := v]), m1, i + 1, n)
  }

  function RetD(c: Core, m: Memory): (e: Effect)
    requires c.Valid() && m.Valid()
    ensures e.core.Valid() && e.mem.Valid()
  {
    var (ret, c1, m1) := Pop(FlushExt(c), m);
    var (raw, c2, m2) := Pop(c1, m1);
    Done(c2.(psr := Psr.FromRaw(raw), inDelaySlot := true, delayTarget := ret), m2)
  }

  function Reti(c: Core, m: Memory): (e: Effect)
    requires c.Valid() && m.Valid()
    ensures e.core.Valid() && e.mem.Valid()
  {
    var (raw, c1, m1) := Pop(FlushExt(c), m);
    var (ret, c2, m2) := Pop(c1, m1);
    Done(c2.(psr := Psr.FromRaw(raw), pc := ret), m2)
  }

  /** call: pushes the return address, which skips the slot when delayed, then jumps. */
  function Call(c: Core, m: Memory, target: uint32, delayed: bool): (e: Effect)
    requires c.Valid() && m.Valid()
    ensures e.core.Valid() && e.mem.Valid()
  {
    var (c1, m1) := Push(c, m, Wrap32(c.pc + (if delayed then 2 else 0)));
    var c2 := if delayed then c1.(delayCaller := 2) else c1;
    Done(Jump(c2, target, delayed), m1)
  }

  function Ret(c: Core, m: Memory, delayed: bool): (e: Effect)
    requires c.Valid() && m.Valid()
    ensures e.core.Valid() && e.mem.Valid()
  {
    var (target, c1, m1) := Pop(c, m);
    var c2 := if delayed then c1.(delayCaller := 1) else c1;
    Done(Jump(c2, target, delayed), m1)
  }

  // ---- class 0b ----

  /** The condition of jr** with class-0 opcode `op` (4 = jrgt ... 13 = jrne). */
  predicate Taken(op: nat, p: Psr) {
    match op
    case 4 => p.n == p.v && !p.z
    case 5 => p.n == p.v
    case 6 => p.n != p.v
    case 7 => p.n != p.v || p.z
    case 8 => !p.c && !p.z
    case 9 => !p.c
    case 10 => p.c
    case 11 => p.c || p.z
    case 12 => p.z
    case 13 => !p.z
    case _ => false
  }

  /** The whole of class 0, as the dispatch table binds it. */
  function Class0(c: Core, m: Memory, insn: uint16): (e: Effect)
    requires c.Valid() && m.Valid()
    ensures e.core.Valid() && e.mem.Valid()
  {
    var f := FlushExt(c);
    match C0Op1(insn)
    case 0 =>
      (match C0Op2(insn)
       case 0 => Done(f, m)
       case 1 => Done(f.(inHalt := true, haltMode := Slp), m)
       case 2 => Done(f.(inHalt := true, haltMode := Hlt), m)
       case _ => Done(Faulted(c), m))
    case 1 =>
      if C0Op2(insn) == 0 then var (c1, m1) := PushN(f, m, Rd(insn)); Done(c1, m1)
      else if C0Op2(insn) == 1 then var (c1, m1) := PopN(f, m, 0, Rd(insn)); Done(c1, m1)
      else Done(Faulted(c), m)
    case 2 =>
      (match C0Op2(insn)
       case 0 => Effect(f, m, Some(Trap(0, 0)))
       case 1 => RetD(c, m)
       case 2 => Effect(f, m, Some(Trap(12 + insn % 4, 0)))
       case _ => Reti(c, m))
    case 3 =>
      (match C0Op2(insn)
       case 0 => Call(f, m, f.r[Rd(insn)], Delayed(insn))
       case 1 => Ret(f, m, Delayed(insn))
       case 2 => Done(if Delayed(insn) then Faulted(f) else Jump(f, f.r[Rd(insn)], false), m)
       case _ => Done(Faulted(c), m))
    case 14 => Call(f, m, RelativeTarget(c, insn), Delayed(insn))
    case 15 => Done(Jump(f, RelativeTarget(c, insn), Delayed(insn)), m)
    case cond => Done(if Taken(cond, c.psr) then Jump(f, RelativeTarget(c, insn), Delayed(insn)) else f, m)
  }

  // ---- class 6 ----

  /** ext: appends to the pending prefixes; from the third on, replaces the second. */
  function Ext(c: Core, imm: Imm13, strict: bool): (c': Core)
    requires c.Valid()
    ensures c'.Valid() && c'.pendingExt != []
    ensures forall k | 0 <= k < |c.pendingExt| && k != 1 :: c'.pendingExt[k] == c.pendingExt[k]
    ensures c'.pendingExt[|c'.pendingExt| - 1] == imm
    ensures c'.fault == (c.fault || (strict && |c.pendingExt| == 2))
  {
    if |c.pendingExt| < 2 then c.(pendingExt := c.pendingExt + [imm])
    else (if strict then Faulted(c) else c).(pendingExt := [c.pendingExt[0], imm])
  }

  /** A run of prefixes. */
  function ExtAll(c: Core, imms: seq<Imm13>, strict: bool): (c': Core)
    requires c.Valid()
    ensures c'.Valid()
  {
    if imms == [] then c else Ext(ExtAll(c, imms[..|imms| - 1], strict), imms[|imms| - 1], strict)
  }

  /** However many prefixes follow each other, the first and the last are kept and all between are
      dropped; up to two are all kept. */
  lemma {:induction false} ExtKeepsFirstAndLast(c: Core, imms: seq<Imm13>, strict: bool)
    requires c.Valid()
    ensures
      var all := c.pendingExt + imms;
      ExtAll(c, imms, strict).pendingExt == if |all| <= 2 then all else [all[0], all[|all| - 1]]
  {
    if imms == [] {
      assert c.pendingExt + imms == c.pendingExt;
    } else {
      var n := |imms| - 1;
      ExtKeepsFirstAndLast(c, imms[..n], strict);
      assert c.pendingExt + imms == c.pendingExt + imms[..n] + [imms[n]];
    }
  }

  /** The dispatch table over an arbitrary implementation `data` of classes 1 to 5. */
  function Table(c: Core, m: Memory, insn: uint16, data: Dispatch, strict: bool): Effect
    requires c.Valid() && m.Valid()
  {
    match Cls(insn)
    case 0 => Class0(c, m, insn)
    case 6 => Done(Ext(c, insn % 0x2000, strict), m)
    case 7 => Done(Faulted(c), m)
    case _ => data(c, m, insn)
  }

  /** The same as a value that can be bound to a core. */
  function TableOver(data: Dispatch, strict: bool): Dispatch {
    (c: Core, m: Memory, insn: uint16) => if c.Valid() && m.Valid() then Table(c, m, insn, data, strict) else Done(c, m)
  }
}
