/** The mac instruction: a multiply-accumulate loop with two fast paths (cpu_class5.cpp). */
module Mac {
  import opened Words
  import opened CpuState
  import opened CpuCore
  import opened BusModel
  import DivMod

  /** What mac works on: the two pointer registers, the count register, the 64-bit accumulator
      {AHR, ALR}, the sticky MO flag and the bus. */
  datatype Mac = Mac(p1: uint32, p2: uint32, count: uint32, acc: uint64, mo: bool, mem: Memory)
  {
    predicate Valid() { mem.Valid() }

    predicate EvenPointers() { p1 % 2 == 0 && p2 % 2 == 0 }
  }

  predicate Negative64(x: uint64) { TWO63 <= x }

  /** Signed overflow of acc + x, by the signs of the operands and the wrapped sum. */
  predicate Overflows(acc: uint64, x: uint64) {
    Negative64(acc) == Negative64(x) && Negative64(acc) != Negative64(Wrap64(acc + x))
  }

  function Product(h1: uint16, h2: uint16): uint64 {
    Wrap64(Signed16(h1) * Signed16(h2))
  }

  // ---- the slow path: one element at a time through the bus ----

  function SlowStep(s: Mac): (s': Mac)
    requires s.Valid() && s.count > 0
    ensures s'.Valid() && s'.count == s.count - 1
  {
    var (h1, m1) := s.mem.Read16(s.p1);
    var (h2, m2) := m1.Read16(s.p2);
    var x := Product(h1, h2);
    Mac(Wrap32(s.p1 + 2), Wrap32(s.p2 + 2), s.count - 1, Wrap64(s.acc + x), s.mo || Overflows(s.acc, x), m2)
  }

  function SlowRun(s: Mac): (s': Mac)
    requires s.Valid()
    ensures s'.Valid()
    decreases s.count
  {
    if s.count == 0 then s else SlowRun(SlowStep(s))
  }

  // ---- what the accumulation means ----

  /** The operand pairs in the order the bus delivers them. */
  function Operands(m: Memory, p1: uint32, p2: uint32, count: nat): (ops: seq<(uint16, uint16)>)
    requires m.Valid()
    ensures |ops| == count
    decreases count
  {
    if count == 0 then []
    else
      var (h1, m1) := m.Read16(p1);
      var (h2, m2) := m1.Read16(p2);
      [(h1, h2)] + Operands(m2, Wrap32(p1 + 2), Wrap32(p2 + 2), count - 1)
  }

  /** The integer product of two halfwords read as signed numbers. */
  function SignedProduct(h1: uint16, h2: uint16): int {
    (if h1 < 0x8000 then h1 as int else h1 - 0x1_0000) * (if h2 < 0x8000 then h2 as int else h2 - 0x1_0000)
  }

  /** The dot product, over the integers. */
  function Dot(ops: seq<(uint16, uint16)>): int {
    if ops == [] then 0 else SignedProduct(ops[0].0, ops[0].1) + Dot(ops[1..])
  }

  /** The accumulator as a signed number. */
  function Signed64(x: uint64): int {
    if x < 0x8000_0000_0000_0000 then x else x - 0x1_0000_0000_0000_0000
  }

  /** The exact sum of step j leaves the signed 64-bit range. */
  predicate LeavesRange(acc: uint64, ops: seq<(uint16, uint16)>, j: nat)
    requires j < |ops|
  {
    var sum := Signed64(Wrap64(acc + Dot(ops[..j]))) + SignedProduct(ops[j].0, ops[j].1);
    !(-0x8000_0000_0000_0000 <= sum < 0x8000_0000_0000_0000)
  }

  lemma ProductBound(h1: uint16, h2: uint16)
    ensures -0x4000_0000 <= SignedProduct(h1, h2) <= 0x4000_0000
    ensures Product(h1, h2) == Wrap64(SignedProduct(h1, h2))
  {
    var x, y := Signed16(h1), Signed16(h2);
    SquareBound(x, y);
  }

  lemma SquareBound(x: int, y: int)
    requires -0x8000 <= x <= 0x8000 && -0x8000 <= y <= 0x8000
    ensures -0x4000_0000 <= x * y <= 0x4000_0000
  {
    var a, b := if x < 0 then -x else x, if y < 0 then -y else y;
    assert x * y == a * b || x * y == -(a * b);
    DivMod.ScaleMonotone(a, 0x8000, b);
  }

  /** The overflow test sees the true sum of the accumulator and a small number. */
  lemma OverflowMeans(acc: uint64, v: int)
    requires -0x4000_0000 <= v <= 0x4000_0000
    ensures Overflows(acc, Wrap64(v)) <==> !(-0x8000_0000_0000_0000 <= Signed64(acc) + v < 0x8000_0000_0000_0000)
    ensures Wrap64(acc + Wrap64(v)) == Wrap64(acc + v)
  {
  }

  lemma WrapAgain64(x: int, y: int)
    ensures Wrap64(Wrap64(x) + y) == Wrap64(x + y)
  {
  }

  /** One element at a time adds up to the dot product of the operands, modulo 2^64, and MO is set
      if it was set before or some step's exact sum left the signed range. */
  lemma {:induction false} SlowRunIsDotProduct(s: Mac)
    requires s.Valid()
    ensures
      var ops, r := Operands(s.mem, s.p1, s.p2, s.count), SlowRun(s);
      && r.acc == Wrap64(s.acc + Dot(ops)) && r.count == 0
      && (r.mo <==> s.mo || exists j | 0 <= j < s.count :: LeavesRange(s.acc, ops, j))
    decreases s.count
  {
    hide Product, SignedProduct, Overflows, Wrap64, Memory.Read16, Wrap32, Signed64;
    var ops := Operands(s.mem, s.p1, s.p2, s.count);
    if s.count == 0 {
      WrapWord64(s.acc);
    } else {
      var t := SlowStep(s);
      SlowRunIsDotProduct(t);
      var x := SignedProduct(ops[0].0, ops[0].1);
      ProductBound(ops[0].0, ops[0].1);
      OverflowMeans(s.acc, x);
      assert t.acc == Wrap64(s.acc + x);
      assert ops[1..] == Operands(t.mem, t.p1, t.p2, t.count);
      WrapAgain64(s.acc + x, Dot(ops[1..]));
      RangesShift(s.acc, t.acc, ops);
      hide SlowRun, SlowStep, Operands, Dot, LeavesRange;
      ExistsShift(s.acc, t.acc, ops);
    }
  }

  lemma WrapWord64(x: uint64)
    ensures Wrap64(x) == x
  {
  }

  /** The steps after the first are those of the rest of the operands. */
  lemma RangesShift(acc: uint64, acc1: uint64, ops: seq<(uint16, uint16)>)
    requires ops != [] && acc1 == Wrap64(acc + SignedProduct(ops[0].0, ops[0].1))
    ensures forall j | 0 <= j < |ops| - 1 :: LeavesRange(acc, ops, j + 1) == LeavesRange(acc1, ops[1..], j)
    ensures LeavesRange(acc, ops, 0)
        <==> !(-0x8000_0000_0000_0000 <= Signed64(acc) + SignedProduct(ops[0].0, ops[0].1) < 0x8000_0000_0000_0000)
  {
    hide SignedProduct, Wrap64, Signed64;
    WrapWord64(acc);
    assert ops[..0] == [];
    forall j | 0 <= j < |ops| - 1
      ensures LeavesRange(acc, ops, j + 1) == LeavesRange(acc1, ops[1..], j)
    {
      assert ops[..j + 1][0] == ops[0] && ops[..j + 1][1..] == ops[1..][..j];
      WrapAgain64(acc + SignedProduct(ops[0].0, ops[0].1), Dot(ops[1..][..j]));
      assert ops[1..][j] == ops[j + 1];
    }
  }

  lemma ExistsShift(acc: uint64, acc1: uint64, ops: seq<(uint16, uint16)>)
    requires ops != []
    requires forall j | 0 <= j < |ops| - 1 :: LeavesRange(acc, ops, j + 1) == LeavesRange(acc1, ops[1..], j)
    ensures (exists j | 0 <= j < |ops| :: LeavesRange(acc, ops, j))
        <==> LeavesRange(acc, ops, 0) || exists j | 0 <= j < |ops| - 1 :: LeavesRange(acc1, ops[1..], j)
  {
    hide LeavesRange;
    if j :| 0 <= j < |ops| && LeavesRange(acc, ops, j) {
      if j > 0 {
        assert LeavesRange(acc1, ops[1..], j - 1);
      }
    }
    if j :| 0 <= j < |ops| - 1 && LeavesRange(acc1, ops[1..], j) {
      assert LeavesRange(acc, ops, j + 1);
    }
  }

  // ---- fast path A: both arrays above flash, where every read gives 0xFFFF ----

  function FlashEnd(m: Memory): nat { FLASH_BASE + |m.flash| }

  function Masked(p: uint32): uint32 { p % ADDRESS_SPACE }

  /** First and (wrapped) last address of an array lie above flash. */
  predicate AboveFlash(p: uint32, count: uint32, m: Memory) {
    FlashEnd(m) <= Masked(p) && FlashEnd(m) <= Wrap32(Masked(p) + 2 * (count - 1))
  }

  predicate GuardA(s: Mac) {
    AboveFlash(s.p1, s.count, s.mem) && AboveFlash(s.p2, s.count, s.mem)
  }

  function FastA(s: Mac): (s': Mac)
    ensures s'.mem == s.mem
  {
    Mac(Wrap32(s.p1 + 2 * s.count), Wrap32(s.p2 + 2 * s.count), 0,
        Wrap64(s.acc + s.count), s.mo || Overflows(s.acc, s.count), s.mem)
  }

  // ---- fast path B: both arrays inside SRAM, read without the bus ----

  function Offset(p: uint32): uint32 { Wrap32(Masked(p) - SRAM_BASE) }

  predicate GuardB(s: Mac) {
    && Wrap32(Offset(s.p1) + 2 * s.count) <= |s.mem.sram|
    && Wrap32(Offset(s.p2) + 2 * s.count) <= |s.mem.sram|
  }

  /** What a path comes to.  The guard of path B tests the ends of the arrays modulo 2^32, so it
      can let through arrays outside SRAM, where the C++ indexes outside its vector. */
  datatype Outcome = Done(mac: Mac) | OutOfBounds

  /** The loop over SRAM bytes; None as soon as an index is out of bounds. */
  function SramLoop(sram: seq<uint8>, off1: uint32, off2: uint32, k: nat, acc: uint64, mo: bool): Option<(uint64, bool)>
    decreases k
  {
    if k == 0 then Some((acc, mo))
    else if |sram| <= off1 + 1 || |sram| <= off2 + 1 then None
    else
      var x := Product(Load16(sram, off1), Load16(sram, off2));
      SramLoop(sram, Wrap32(off1 + 2), Wrap32(off2 + 2), k - 1, Wrap64(acc + x), mo || Overflows(acc, x))
  }

  /** Path B's accumulator with the pointers, count and cycles it commits. */
  function Committed(s: Mac, acc: uint64, mo: bool): Mac {
    Mac(Wrap32(SRAM_BASE + Offset(s.p1) + 2 * s.count), Wrap32(SRAM_BASE + Offset(s.p2) + 2 * s.count), 0, acc, mo,
        s.mem.Charge(s.mem.ReadCycles(s.mem.sramWait) * 2 * s.count))
  }

  function FastB(s: Mac): Outcome {
    match SramLoop(s.mem.sram, Offset(s.p1), Offset(s.p2), s.count, s.acc, s.mo)
    case None => OutOfBounds
    case Some((acc, mo)) => Done(Committed(s, acc, mo))
  }

  /** The instruction. */
  function Run(s: Mac): Outcome
    requires s.Valid()
  {
    if s.count == 0 then Done(s)
    else if GuardA(s) then Done(FastA(s))
    else if GuardB(s) then FastB(s)
    else Done(SlowRun(s))
  }

  // ---- path A refines the slow path ----

  /** From `p` on, `count` even addresses stay above flash without leaving the address space. */
  predicate OpenBus(p: uint32, count: uint32, m: Memory) {
    p % 2 == 0 && (count > 0 ==> FlashEnd(m) <= Masked(p) && Masked(p) + 2 * (count - 1) < ADDRESS_SPACE)
  }

  lemma OpenBusRead(p: uint32, m: Memory)
    requires m.Valid() && p % 2 == 0 && FlashEnd(m) <= Masked(p)
    ensures m.Read16(p) == (0xFFFF, m)
  {
    EvenMasked(p);
    hide Even, Masked;
  }

  lemma EvenMasked(p: uint32)
    requires p % 2 == 0
    ensures Even(p) == Masked(p) && Masked(p) % 2 == 0
  {
    var q, r := p / ADDRESS_SPACE, p % ADDRESS_SPACE;
    assert r % 2 == 0;
  }

  lemma WrapAgain(x: int, y: int)
    ensures Wrap32(Wrap32(x) + y) == Wrap32(x + y)
  {
  }

  lemma OpenBusStep(s: Mac)
    requires s.Valid() && s.count > 0 && OpenBus(s.p1, s.count, s.mem) && OpenBus(s.p2, s.count, s.mem)
    ensures SlowStep(s) == Mac(Wrap32(s.p1 + 2), Wrap32(s.p2 + 2), s.count - 1,
                               Wrap64(s.acc + 1), s.mo || Overflows(s.acc, 1), s.mem)
  {
    hide Memory.Read16;
    OpenBusRead(s.p1, s.mem);
    OpenBusRead(s.p2, s.mem);
  }

  /** Adding 1 `n` times overflows at some step exactly when the one-shot test says so. */
  lemma OverflowSplits(acc: uint64, n: nat)
    requires 1 <= n < TWO32
    ensures Overflows(acc, n) == (Overflows(acc, 1) || Overflows(Wrap64(acc + 1), n - 1))
    ensures Wrap64(acc + n) == Wrap64(Wrap64(acc + 1) + (n - 1))
  {
  }

  lemma NextAddress(p: uint32)
    requires p % 2 == 0
    ensures Wrap32(p + 2) % 2 == 0
    ensures Masked(p) + 2 < ADDRESS_SPACE ==> Masked(Wrap32(p + 2)) == Masked(p) + 2
  {
    var q, r := p / ADDRESS_SPACE, p % ADDRESS_SPACE;
    assert p + 2 == q * ADDRESS_SPACE + (r + 2);
    if r + 2 < ADDRESS_SPACE {
      assert (p + 2) % ADDRESS_SPACE == r + 2;
    }
  }

  lemma {:induction false} PathAAgrees(s: Mac)
    requires s.Valid() && OpenBus(s.p1, s.count, s.mem) && OpenBus(s.p2, s.count, s.mem)
    ensures SlowRun(s) == FastA(s)
    decreases s.count
  {
    if s.count > 0 {
      var t := SlowStep(s);
      FastAStep(s);
      NextAddress(s.p1);
      NextAddress(s.p2);
      hide SlowStep, FastA, Masked, Wrap32;
      PathAAgrees(t);
    }
  }

  lemma FastAStep(s: Mac)
    requires s.Valid() && s.count > 0 && OpenBus(s.p1, s.count, s.mem) && OpenBus(s.p2, s.count, s.mem)
    ensures
      var t := SlowStep(s);
      && FastA(t) == FastA(s) && t.mem == s.mem
      && t.p1 == Wrap32(s.p1 + 2) && t.p2 == Wrap32(s.p2 + 2)
  {
    hide SlowStep, Overflows, Wrap32, Wrap64;
    OpenBusStep(s);
    OverflowSplits(s.acc, s.count);
    WrapAgain(s.p1 + 2, 2 * (s.count - 1));
    WrapAgain(s.p2 + 2, 2 * (s.count - 1));
  }

  // ---- where path A departs from the slow path ----

  lemma FaultSticks(m: Memory, p: uint32)
    requires m.Valid()
    ensures m.faultPending || p % 2 == 1 ==> m.Read16(p).1.faultPending
  {
  }

  lemma {:induction false} SlowRunKeepsFault(s: Mac)
    requires s.Valid() && s.mem.faultPending
    ensures SlowRun(s).mem.faultPending
    decreases s.count
  {
    if s.count > 0 {
      FaultSticks(s.mem, s.p1);
      FaultSticks(s.mem.Read16(s.p1).1, s.p2);
      hide Memory.Read16;
      SlowRunKeepsFault(SlowStep(s));
    }
  }

  /** The slow path reports a misaligned operand; the fast paths never do. */
  lemma OddPointerFaults(s: Mac)
    requires s.Valid() && s.count > 0 && !s.EvenPointers()
    ensures SlowRun(s).mem.faultPending
  {
    FaultSticks(s.mem, s.p1);
    FaultSticks(s.mem.Read16(s.p1).1, s.p2);
    hide Memory.Read16;
    SlowRunKeepsFault(SlowStep(s));
  }

  predicate AllZero(bytes: seq<uint8>) {
    forall k | 0 <= k < |bytes| :: bytes[k] == 0
  }

  /** A memory in which everything below the open-bus area reads as zero. */
  ghost predicate ZeroMemory(m: Memory) {
    && m.Valid() && AllZero(m.iram) && AllZero(m.sram) && AllZero(m.flash)
    && forall log, a :: m.handlers(log, a) == 0
  }

  lemma ZeroRead(m: Memory, p: uint32)
    requires ZeroMemory(m)
    ensures ZeroMemory(m.Read16(p).1)
    ensures m.Read16(p).0 == 0 || m.Read16(p).0 == 0xFFFF
    ensures Masked(p) == 0 ==> m.Read16(p).0 == 0
  {
    hide Memory.Charge, Memory.ReadCycles;
  }

  /** The j-th element of one of the arrays sits at address zero. */
  predicate HitsZero(s: Mac, j: nat) {
    Masked(Wrap32(s.p1 + 2 * j)) == 0 || Masked(Wrap32(s.p2 + 2 * j)) == 0
  }

  /** On such a memory every product is 0 or 1, and 0 for an element at address zero. */
  lemma ZeroStep(s: Mac) returns (x: nat)
    requires s.Valid() && ZeroMemory(s.mem) && s.count > 0
    ensures x <= 1 && (HitsZero(s, 0) ==> x == 0)
    ensures SlowStep(s).acc == Wrap64(s.acc + x) && ZeroMemory(SlowStep(s).mem)
    ensures SlowStep(s).p1 == Wrap32(s.p1 + 2) && SlowStep(s).p2 == Wrap32(s.p2 + 2)
  {
    hide Memory.Read16, ZeroMemory, Masked, Product, Overflows, Wrap64;
    ZeroRead(s.mem, s.p1);
    ZeroRead(s.mem.Read16(s.p1).1, s.p2);
    var h1, h2 := s.mem.Read16(s.p1).0, s.mem.Read16(s.p1).1.Read16(s.p2).0;
    ProductOfOnes(h1, h2);
    WrapWord(s.p1);
    WrapWord(s.p2);
    hide Wrap32;
    x := Product(h1, h2);
  }

  lemma ProductOfOnes(h1: uint16, h2: uint16)
    requires (h1 == 0 || h1 == 0xFFFF) && (h2 == 0 || h2 == 0xFFFF)
    ensures Product(h1, h2) <= 1 && (h1 == 0 || h2 == 0 ==> Product(h1, h2) == 0)
  {
  }

  lemma HitsNext(s: Mac, t: Mac, j: nat)
    requires t.p1 == Wrap32(s.p1 + 2) && t.p2 == Wrap32(s.p2 + 2) && j > 0
    ensures HitsZero(t, j - 1) == HitsZero(s, j)
  {
    hide Masked, Wrap32;
    WrapAgain(s.p1 + 2, 2 * (j - 1));
    WrapAgain(s.p2 + 2, 2 * (j - 1));
  }

  lemma {:induction false} ZeroRun(s: Mac, j: nat) returns (total: nat)
    requires s.Valid() && ZeroMemory(s.mem) && (j < s.count ==> HitsZero(s, j))
    ensures total <= s.count && (j < s.count ==> total < s.count)
    ensures SlowRun(s).acc == Wrap64(s.acc + total)
    decreases s.count
  {
    hide ZeroMemory, SlowStep, HitsZero, Wrap32;
    if s.count == 0 {
      total := 0;
    } else {
      var x := ZeroStep(s);
      var t := SlowStep(s);
      if j > 0 {
        HitsNext(s, t, j);
      }
      var rest := ZeroRun(t, if j == 0 then s.count else j - 1);
      total := x + rest;
    }
  }

  /** An array running past the top of the address space reaches address zero. */
  lemma ReachesZero(p: uint32, count: uint32) returns (j: nat)
    requires p % 2 == 0 && count > 0 && ADDRESS_SPACE <= Masked(p) + 2 * (count - 1)
    ensures j < count && Masked(Wrap32(p + 2 * j)) == 0
  {
    EvenMasked(p);
    j := (ADDRESS_SPACE - Masked(p)) / 2;
    var q := p / ADDRESS_SPACE;
    assert p + 2 * j == (q + 1) * ADDRESS_SPACE;
  }

  function Blank(m: Memory): (z: Memory)
    requires m.Valid()
    ensures z.Valid()
  {
    m.(iram := seq(|m.iram|, _ => 0), sram := seq(|m.sram|, _ => 0), flash := seq(|m.flash|, _ => 0),
       handlers := (log, a) => 0)
  }

  /** With a wrapping array, some memory makes the fast result wrong. */
  lemma PathAWraps(s: Mac, j: nat)
    requires s.Valid() && j < s.count && HitsZero(s, j)
    ensures SlowRun(s.(mem := Blank(s.mem))) != FastA(s.(mem := Blank(s.mem)))
  {
    hide SlowRun, ZeroMemory, Blank;
    var z := s.(mem := Blank(s.mem));
    BlankIsZero(s.mem);
    var total := ZeroRun(z, j);
    assert Wrap64(s.acc + total) != Wrap64(s.acc + s.count);
  }

  lemma BlankIsZero(m: Memory)
    requires m.Valid()
    ensures ZeroMemory(Blank(m))
  {
  }

  /** Once path A is chosen, it computes what the slow path would on every memory if and only if
      both pointers are even and neither array runs past the address space. */
  lemma PathAExact(s: Mac)
    requires s.Valid() && s.count > 0 && GuardA(s)
    ensures
      (forall m: Memory | Alike(m, s.mem) :: SlowRun(s.(mem := m)) == FastA(s.(mem := m)))
      <==> OpenBus(s.p1, s.count, s.mem) && OpenBus(s.p2, s.count, s.mem)
  {
    hide SlowRun, FastA, Masked;
    if OpenBus(s.p1, s.count, s.mem) && OpenBus(s.p2, s.count, s.mem) {
      forall m: Memory | Alike(m, s.mem)
        ensures SlowRun(s.(mem := m)) == FastA(s.(mem := m))
      {
        PathAAgrees(s.(mem := m));
      }
    } else {
      var m := PathAFails(s);
      assert Alike(m, s.mem);
    }
  }

  /** Memories of the same installed sizes, whatever they hold and whether or not a fault waits. */
  predicate Alike(m: Memory, other: Memory) {
    m.Valid() && |m.flash| == |other.flash| && |m.sram| == |other.sram|
  }

  lemma PathAFails(s: Mac) returns (m: Memory)
    requires s.Valid() && s.count > 0 && GuardA(s)
    requires !(OpenBus(s.p1, s.count, s.mem) && OpenBus(s.p2, s.count, s.mem))
    ensures Alike(m, s.mem) && SlowRun(s.(mem := m)) != FastA(s.(mem := m))
  {
    hide SlowRun, Masked;
    if !s.EvenPointers() {
      m := s.mem.(faultPending := false);
      OddPointerFaults(s.(mem := m));
    } else {
      var j: nat;
      if Masked(s.p1) + 2 * (s.count - 1) >= ADDRESS_SPACE {
        j := ReachesZero(s.p1, s.count);
      } else {
        j := ReachesZero(s.p2, s.count);
      }
      PathAWraps(s, j);
      m := Blank(s.mem);
    }
  }

  /** An input at which path A is chosen and wrong: the first array ends at the top of the address
      space and goes on at address 0. */
  lemma PathAWrapsAtTop(s: Mac)
    requires s.Valid() && s.p1 == 0x0FFF_FFFE && s.p2 == 0x0FFF_FFF0 && s.count == 2 && |s.mem.flash| <= 0x20_0000
    ensures GuardA(s)
    ensures SlowRun(s.(mem := Blank(s.mem))) != FastA(s.(mem := Blank(s.mem)))
  {
    hide SlowRun, FastA, Blank;
    assert HitsZero(s, 1);
    PathAWraps(s, 1);
  }

  // ---- path B refines the slow path ----

  /** `count` halfwords from `p` on lie in installed SRAM. */
  predicate SramArray(p: uint32, count: uint32, m: Memory) {
    Offset(p) + 2 * count <= |m.sram|
  }

  lemma OffsetMeans(p: uint32, count: uint32, m: Memory)
    requires m.Valid() && SramArray(p, count, m)
    ensures Masked(p) == SRAM_BASE + Offset(p) && Masked(p) + 2 * count <= SRAM_BASE + SRAM_WINDOW
  {
  }

  lemma SramRead16(p: uint32, m: Memory)
    requires m.Valid() && p % 2 == 0 && SramArray(p, 1, m)
    ensures Offset(p) + 1 < |m.sram|
    ensures m.Read16(p) == (Load16(m.sram, Offset(p)), m.Charge(m.ReadCycles(m.sramWait)))
  {
    OffsetMeans(p, 1, m);
    EvenMasked(p);
    hide Masked, Offset, Even;
  }

  lemma NextOffset(p: uint32, count: uint32, m: Memory)
    requires m.Valid() && p % 2 == 0 && count > 0 && SramArray(p, count, m)
    ensures Offset(Wrap32(p + 2)) == Offset(p) + 2 && SramArray(Wrap32(p + 2), count - 1, m)
    ensures p < ADDRESS_SPACE ==> Wrap32(p + 2) == p + 2 < ADDRESS_SPACE
    ensures Wrap32(p + 2) % 2 == 0
  {
    OffsetMeans(p, count, m);
    NextAddress(p);
  }

  lemma ChargeTwice(m: Memory, x: nat, y: nat)
    requires m.Valid()
    ensures m.Charge(x).Charge(y) == m.Charge(x + y)
  {
  }

  /** Both arrays lie in installed SRAM. */
  predicate InSram(s: Mac) {
    SramArray(s.p1, s.count, s.mem) && SramArray(s.p2, s.count, s.mem)
  }

  /** The array starts at or above SRAM and its length does not wrap the offset: what the guard
      leaves for a caller to check on the registers. */
  predicate Fits(p: uint32, count: uint32) {
    SRAM_BASE <= Masked(p) && Masked(p) - SRAM_BASE + 2 * count < TWO32
  }

  /** An array the guard lets through lies in SRAM exactly when it fits. */
  lemma FitsIff(p: uint32, count: uint32, m: Memory)
    requires m.Valid() && count > 0 && Wrap32(Offset(p) + 2 * count) <= |m.sram|
    ensures SramArray(p, count, m) <==> Fits(p, count)
  {
    OffsetSplits(Masked(p));
    hide Masked;
    assert Offset(p) == if SRAM_BASE <= Masked(p) then Masked(p) - SRAM_BASE else Masked(p) - SRAM_BASE + TWO32;
    if Offset(p) + 2 * count < TWO32 {
      WrapWord(Offset(p) + 2 * count);
    }
  }

  lemma OffsetSplits(a: uint32)
    requires a < ADDRESS_SPACE
    ensures Wrap32(a - SRAM_BASE) == if SRAM_BASE <= a then a - SRAM_BASE else a - SRAM_BASE + TWO32
  {
  }

  /** The loop leaves its vector exactly when an array ends outside it. */
  lemma {:induction false} LoopStaysIff(sram: seq<uint8>, off1: uint32, off2: uint32, k: nat, acc: uint64, mo: bool)
    requires |sram| <= SRAM_WINDOW && k > 0
    ensures SramLoop(sram, off1, off2, k, acc, mo).Some? <==> off1 + 2 * k <= |sram| && off2 + 2 * k <= |sram|
    decreases k
  {
    hide Product, Overflows, Wrap64, Load16;
    if off1 + 1 < |sram| && off2 + 1 < |sram| && k > 1 {
      var x := Product(Load16(sram, off1), Load16(sram, off2));
      WrapWord(off1 + 2);
      WrapWord(off2 + 2);
      LoopStaysIff(sram, off1 + 2, off2 + 2, k - 1, Wrap64(acc + x), mo || Overflows(acc, x));
    }
  }

  /** Path B, once chosen, reads outside SRAM if and only if one of the arrays does not fit. */
  lemma OutOfBoundsIff(s: Mac)
    requires s.Valid() && s.count > 0 && GuardB(s)
    ensures FastB(s) == OutOfBounds <==> !(Fits(s.p1, s.count) && Fits(s.p2, s.count))
  {
    hide SramLoop, Fits, Offset;
    FitsIff(s.p1, s.count, s.mem);
    FitsIff(s.p2, s.count, s.mem);
    LoopStaysIff(s.mem.sram, Offset(s.p1), Offset(s.p2), s.count, s.acc, s.mo);
  }

  /** Two register settings that get through the guard and read outside SRAM: an array just below
      it, and one so long that its end wraps around to its start. */
  lemma JustBelowSram(s: Mac)
    requires s.Valid() && s.p1 == 0x000F_FFFE && s.p2 == 0x0010_0000 && s.count == 1 && |s.mem.sram| >= 2
    ensures !GuardA(s) && GuardB(s) && Run(s) == OutOfBounds
  {
    OutOfBoundsIff(s);
  }

  lemma LengthWraps(s: Mac)
    requires s.Valid() && s.p1 == s.p2 == 0x0010_0000 && s.count == 0x8000_0000
    ensures !GuardA(s) && GuardB(s) && Run(s) == OutOfBounds
  {
    OutOfBoundsIff(s);
  }

  lemma SramStep(s: Mac)
    requires s.Valid() && s.count > 0 && s.EvenPointers() && InSram(s)
    ensures Offset(s.p1) + 1 < |s.mem.sram| && Offset(s.p2) + 1 < |s.mem.sram|
    ensures
      var x := Product(Load16(s.mem.sram, Offset(s.p1)), Load16(s.mem.sram, Offset(s.p2)));
      SlowStep(s) == Mac(Wrap32(s.p1 + 2), Wrap32(s.p2 + 2), s.count - 1, Wrap64(s.acc + x),
                         s.mo || Overflows(s.acc, x), s.mem.Charge(2 * s.mem.ReadCycles(s.mem.sramWait)))
  {
    SramRead16(s.p1, s.mem);
    var m1 := s.mem.Read16(s.p1).1;
    SramRead16(s.p2, m1);
    hide Memory.Read16, Offset;
    var rc := s.mem.ReadCycles(s.mem.sramWait);
    ChargeTwice(s.mem, rc, rc);
  }

  /** One slow step leaves a state from which path B finishes exactly as before. */
  lemma FastBStep(s: Mac)
    requires s.Valid() && s.count > 0 && s.EvenPointers() && InSram(s)
    requires s.p1 < ADDRESS_SPACE && s.p2 < ADDRESS_SPACE
    ensures
      var t := SlowStep(s);
      InSram(t) && t.EvenPointers() && t.p1 < ADDRESS_SPACE && t.p2 < ADDRESS_SPACE && FastB(t) == FastB(s)
  {
    hide SlowStep, Offset, Memory.Charge, Memory.ReadCycles, Wrap32, Wrap64, Product, Overflows, Load16;
    SramStep(s);
    NextOffset(s.p1, s.count, s.mem);
    NextOffset(s.p2, s.count, s.mem);
    WrapWord(Offset(s.p1) + 2);
    WrapWord(Offset(s.p2) + 2);
    var rc := s.mem.ReadCycles(s.mem.sramWait);
    ChargeKeeps(s.mem, 2 * rc);
    ChargeTwice(s.mem, 2 * rc, rc * 2 * (s.count - 1));
    Distribute(rc, s.count);
  }

  lemma ChargeKeeps(m: Memory, n: nat)
    requires m.Valid()
    ensures
      var c := m.Charge(n);
      c.Valid() && c.sram == m.sram && c.sramWait == m.sramWait && c.ReadCycles(c.sramWait) == m.ReadCycles(m.sramWait)
  {
  }

  lemma Distribute(rc: nat, count: uint32)
    requires count > 0
    ensures 2 * rc + rc * 2 * (count - 1) == rc * 2 * count
  {
  }

  lemma {:induction false} PathBAgrees(s: Mac)
    requires s.Valid() && s.EvenPointers() && InSram(s) && s.p1 < ADDRESS_SPACE && s.p2 < ADDRESS_SPACE
    ensures FastB(s) == Done(SlowRun(s))
    decreases s.count
  {
    if s.count == 0 {
      NothingCommitted(s);
    } else {
      FastBStep(s);
      hide SlowStep, FastB, InSram;
      PathBAgrees(SlowStep(s));
    }
  }

  lemma NothingCommitted(s: Mac)
    requires s.Valid() && InSram(s) && s.p1 < ADDRESS_SPACE && s.p2 < ADDRESS_SPACE && s.count == 0
    ensures Committed(s, s.acc, s.mo) == s
  {
    OffsetMeans(s.p1, 0, s.mem);
    OffsetMeans(s.p2, 0, s.mem);
    WrapWord(s.p1);
    WrapWord(s.p2);
    hide Offset, Wrap32;
    NothingCharged(s.mem);
    hide Memory.Charge;
    assert s.mem.ReadCycles(s.mem.sramWait) * 2 * 0 == 0;
  }

  lemma NothingCharged(m: Memory)
    ensures m.Charge(0) == m
  {
  }

  lemma StepPointers(s: Mac)
    requires s.Valid() && s.count > 0
    ensures SlowStep(s).p1 == Wrap32(s.p1 + 2) && SlowStep(s).p2 == Wrap32(s.p2 + 2)
  {
  }

  lemma {:induction false} SlowPointers(s: Mac)
    requires s.Valid()
    ensures SlowRun(s).p1 == Wrap32(s.p1 + 2 * s.count) && SlowRun(s).p2 == Wrap32(s.p2 + 2 * s.count)
    decreases s.count
  {
    hide SlowStep, Wrap32;
    if s.count > 0 {
      StepPointers(s);
      SlowPointers(SlowStep(s));
      WrapAgain(s.p1 + 2, 2 * (s.count - 1));
      WrapAgain(s.p2 + 2, 2 * (s.count - 1));
    } else {
      WrapWord(s.p1);
      WrapWord(s.p2);
    }
  }

  /** Path B writes back pointers below 2^28, the slow path keeps the top address bits. */
  lemma TopBitsLost(p: uint32, count: uint32, m: Memory)
    requires m.Valid() && SramArray(p, count, m)
    ensures Wrap32(SRAM_BASE + Offset(p) + 2 * count) == Wrap32(p + 2 * count) <==> p < ADDRESS_SPACE
  {
    OffsetMeans(p, count, m);
    var q := p / ADDRESS_SPACE;
    assert p + 2 * count == q * ADDRESS_SPACE + (Masked(p) + 2 * count);
    assert q <= 15;
  }

  /** What a caller can read off the registers for path B: even pointers with a zero top nibble
      and arrays that fit. */
  predicate PlainSram(s: Mac) {
    && s.EvenPointers() && s.p1 < ADDRESS_SPACE && s.p2 < ADDRESS_SPACE
    && Fits(s.p1, s.count) && Fits(s.p2, s.count)
  }

  /** Once the guard of path B holds, the path computes what the slow path would on every memory
      if and only if both pointers are even and have a zero top nibble and both arrays fit. */
  lemma PathBExact(s: Mac)
    requires s.Valid() && s.count > 0 && GuardB(s)
    ensures
      (forall m: Memory | Alike(m, s.mem) :: FastB(s.(mem := m)) == Done(SlowRun(s.(mem := m))))
      <==> PlainSram(s)
  {
    hide SlowRun, FastB, Masked, Offset, Fits;
    if PlainSram(s) {
      forall m: Memory | Alike(m, s.mem)
        ensures FastB(s.(mem := m)) == Done(SlowRun(s.(mem := m)))
      {
        PathBRefines(s.(mem := m));
      }
    } else {
      var m := PathBFails(s);
      assert Alike(m, s.mem);
    }
  }

  lemma PathBRefines(s: Mac)
    requires s.Valid() && s.count > 0 && GuardB(s) && PlainSram(s)
    ensures FastB(s) == Done(SlowRun(s))
  {
    FitsIff(s.p1, s.count, s.mem);
    FitsIff(s.p2, s.count, s.mem);
    hide SlowRun, FastB, Offset, Masked, Fits;
    PathBAgrees(s);
  }

  lemma PathBFails(s: Mac) returns (m: Memory)
    requires s.Valid() && s.count > 0 && GuardB(s) && !PlainSram(s)
    ensures Alike(m, s.mem) && FastB(s.(mem := m)) != Done(SlowRun(s.(mem := m)))
  {
    hide SlowRun, SramLoop, Masked, Offset, Fits;
    m := s.mem.(faultPending := false);
    var t := s.(mem := m);
    OutOfBoundsIff(t);
    if Fits(s.p1, s.count) && Fits(s.p2, s.count) {
      FitsIff(s.p1, s.count, s.mem);
      FitsIff(s.p2, s.count, s.mem);
      if !s.EvenPointers() {
        OddPointerFaults(t);
      } else {
        SlowPointers(t);
        TopBitsLost(s.p1, s.count, s.mem);
        TopBitsLost(s.p2, s.count, s.mem);
      }
    }
  }

  /** The condition on the registers and the installed sizes under which mac is what it promises. */
  predicate Plain(s: Mac) {
    s.count > 0 ==>
      if GuardA(s) then OpenBus(s.p1, s.count, s.mem) && OpenBus(s.p2, s.count, s.mem)
      else GuardB(s) ==> PlainSram(s)
  }

  /** For any registers: mac computes on every memory what one bus access per element would - the
      same accumulator, sticky MO, pointers, count, cycles and faults - if and only if Plain holds. */
  lemma RunRefinesSlowPathIff(s: Mac)
    requires s.Valid()
    ensures
      (forall m: Memory | Alike(m, s.mem) :: Run(s.(mem := m)) == Done(SlowRun(s.(mem := m)))) <==> Plain(s)
  {
    hide FastA, FastB, OpenBus, SlowStep, PlainSram, Masked, Offset;
    forall m: Memory | Alike(m, s.mem)
      ensures GuardA(s.(mem := m)) == GuardA(s) && GuardB(s.(mem := m)) == GuardB(s)
    {
    }
    if s.count > 0 {
      if GuardA(s) {
        PathAExact(s);
      } else if GuardB(s) {
        PathBExact(s);
      }
    }
    assert Alike(s.mem, s.mem);
  }

  /** What mac is for: under Plain, whichever path it takes, the accumulator grows by the dot
      product and MO records any overflow on the way. */
  lemma RunIsDotProduct(s: Mac)
    requires s.Valid() && Plain(s)
    ensures Run(s).Done?
    ensures
      var ops, r := Operands(s.mem, s.p1, s.p2, s.count), Run(s).mac;
      && r.acc == Wrap64(s.acc + Dot(ops)) && r.count == 0
      && (r.mo <==> s.mo || exists j | 0 <= j < s.count :: LeavesRange(s.acc, ops, j))
  {
    hide Run, SlowRun, Plain, Operands, Dot, LeavesRange;
    RunRefinesSlowPathIff(s);
    assert Alike(s.mem, s.mem) && s.(mem := s.mem) == s;
    SlowRunIsDotProduct(s);
  }

  /** The halfword stored at an SRAM address, 0 outside SRAM. */
  function HalfAt(sram: seq<uint8>, p: int): uint16 {
    if SRAM_BASE <= p && p - SRAM_BASE + 1 < |sram| then Load16(sram, p - SRAM_BASE) else 0
  }

  /** `count` halfwords from the even address p on lie in installed SRAM. */
  predicate StoredArray(sram: seq<uint8>, p: int, count: nat) {
    p % 2 == 0 && SRAM_BASE <= p && p - SRAM_BASE + 2 * count <= |sram|
  }

  /** Arrays in SRAM: the operands are the halfwords stored there. */
  lemma {:induction false} OperandsInSram(m: Memory, p1: uint32, p2: uint32, count: nat, k: nat)
    requires m.Valid() && k < count && StoredArray(m.sram, p1, count) && StoredArray(m.sram, p2, count)
    ensures Operands(m, p1, p2, count)[k] == (HalfAt(m.sram, p1 + 2 * k), HalfAt(m.sram, p2 + 2 * k))
    decreases count
  {
    hide HalfAt, StoredArray, Wrap32, Operands, Memory.Read16, Memory.Valid;
    NextHalfword(p1, count, m);
    NextHalfword(p2, count, m);
    OperandsUnroll(m, p1, p2, count, k);
    FirstHalfword(m, p1);
    var m1 := m.Read16(p1).1;
    FirstHalfword(m1, p2);
    if k > 0 {
      assert p1 + 2 + 2 * (k - 1) == p1 + 2 * k && p2 + 2 + 2 * (k - 1) == p2 + 2 * k;
      OperandsInSram(m1.Read16(p2).1, Wrap32(p1 + 2), Wrap32(p2 + 2), count - 1, k - 1);
    }
  }

  lemma OperandsUnroll(m: Memory, p1: uint32, p2: uint32, count: nat, k: nat)
    requires m.Valid() && k < count
    ensures
      var (h1, m1) := m.Read16(p1);
      var (h2, m2) := m1.Read16(p2);
      Operands(m, p1, p2, count)[k]
      == if k == 0 then (h1, h2) else Operands(m2, Wrap32(p1 + 2), Wrap32(p2 + 2), count - 1)[k - 1]
  {
    hide Memory.Read16, Wrap32;
  }

  lemma NextHalfword(p: uint32, count: nat, m: Memory)
    requires m.Valid() && count > 0 && StoredArray(m.sram, p, count)
    ensures StoredArray(m.sram, p, 1) && Wrap32(p + 2) == p + 2 && StoredArray(m.sram, p + 2, count - 1)
  {
    WrapWord(p + 2);
  }

  lemma FirstHalfword(m: Memory, p: uint32)
    requires m.Valid() && StoredArray(m.sram, p, 1)
    ensures m.Read16(p).0 == HalfAt(m.sram, p) && m.Read16(p).1.sram == m.sram
  {
    PlainOffset(p);
    hide Memory.Read16, Load16, Masked, Memory.Charge;
    SramRead16(p, m);
  }

  lemma PlainOffset(p: uint32)
    requires SRAM_BASE <= p < ADDRESS_SPACE
    ensures Offset(p) == p - SRAM_BASE
  {
  }

  // ---- the handler, in place ----

  function Load(c: Core, m: Memory, rs: RegNo): Mac
    requires c.Valid()
  {
    Mac(c.r[(rs + 1) % 16], c.r[(rs + 2) % 16], c.r[rs], c.ahr * TWO32 + c.alr, c.psr.mo, m)
  }

  function Store(c: Core, rs: RegNo, s: Mac): Core
    requires c.Valid()
  {
    c.(r := c.r[(rs + 1) % 16 := s.p1][(rs + 2) % 16 := s.p2][rs := s.count],
       alr := Wrap32(s.acc), ahr := s.acc / TWO32, psr := c.psr.(mo := s.mo))
  }

  method SramPath(s: Mac) returns (o: Outcome)
    requires s.Valid()
    ensures o == FastB(s)
  {
    hide Product, Overflows, Wrap32, Wrap64, Load16;
    WrapWord(Offset(s.p1));
    WrapWord(Offset(s.p2));
    var off1, off2, k: nat := Offset(s.p1), Offset(s.p2), s.count;
    var acc, mo := s.acc, s.mo;
    while k > 0
      invariant 0 <= k <= s.count
      invariant off1 == Wrap32(Offset(s.p1) + 2 * (s.count - k)) && off2 == Wrap32(Offset(s.p2) + 2 * (s.count - k))
      invariant SramLoop(s.mem.sram, off1, off2, k, acc, mo)
             == SramLoop(s.mem.sram, Offset(s.p1), Offset(s.p2), s.count, s.acc, s.mo)
    {
      if |s.mem.sram| - 1 <= off1 || |s.mem.sram| - 1 <= off2 {
        return OutOfBounds;
      }
      var x := Product(Load16(s.mem.sram, off1), Load16(s.mem.sram, off2));
      if !mo && Overflows(acc, x) {
        mo := true;
      }
      acc := Wrap64(acc as int + x);
      WrapAgain(Offset(s.p1) + 2 * (s.count - k), 2);
      WrapAgain(Offset(s.p2) + 2 * (s.count - k), 2);
      off1, off2, k := Wrap32(off1 as int + 2), Wrap32(off2 as int + 2), k - 1;
    }
    WrapAgain(Offset(s.p1) + 2 * s.count, SRAM_BASE);
    WrapAgain(Offset(s.p2) + 2 * s.count, SRAM_BASE);
    var mem := s.mem.Charge(s.mem.ReadCycles(s.mem.sramWait) * 2 * s.count);
    return Done(Mac(Wrap32(off1 as int + SRAM_BASE), Wrap32(off2 as int + SRAM_BASE), 0, acc, mo, mem));
  }

  method BusPath(s: Mac) returns (t: Mac)
    requires s.Valid()
    ensures t == SlowRun(s)
  {
    hide Product, Overflows, Wrap32, Wrap64, Memory.Read16;
    t := s;
    while t.count > 0
      invariant t.Valid() && SlowRun(t) == SlowRun(s)
      decreases t.count
    {
      var (h1, m1) := t.mem.Read16(t.p1);
      var (h2, m2) := m1.Read16(t.p2);
      var x := Product(h1, h2);
      var mo := t.mo;
      if !mo && Overflows(t.acc, x) {
        mo := true;
      }
      t := Mac(Wrap32(t.p1 + 2), Wrap32(t.p2 + 2), t.count - 1, Wrap64(t.acc + x), mo, m2);
    }
  }

  method Accumulate(s: Mac) returns (o: Outcome)
    requires s.Valid()
    ensures o == Run(s)
  {
    if s.count == 0 {
      o := Done(s);
    } else if GuardA(s) {
      var sum, mo := Wrap64(s.acc + s.count), s.mo;
      if !mo && Overflows(s.acc, s.count) {
        mo := true;
      }
      o := Done(Mac(Wrap32(s.p1 + 2 * s.count), Wrap32(s.p2 + 2 * s.count), 0, sum, mo, s.mem));
    } else if GuardB(s) {
      o := SramPath(s);
    } else {
      var t := BusPath(s);
      o := Done(t);
    }
  }

  /** h_mac.  `defined` is false when the handler leaves its vector; what follows then is up to the
      C++ compiler, and the model stops there. */
  method HandleMac(cpu: Cpu, rs: RegNo) returns (defined: bool)
    requires cpu.State().Valid()
    modifies cpu`core, cpu.bus
    ensures defined == Run(Load(old(cpu.core), old(cpu.bus.mem), rs)).Done?
    ensures defined ==>
              var t := Run(Load(old(cpu.core), old(cpu.bus.mem), rs)).mac;
              && cpu.bus.mem == t.mem
              && cpu.core == if old(cpu.core).r[rs] == 0 then FlushExt(old(cpu.core))
                             else Store(FlushExt(old(cpu.core)), rs, t)
  {
    cpu.core := FlushExt(cpu.core);
    if cpu.core.r[rs] == 0 {
      return true;
    }
    var o := Accumulate(Load(cpu.core, cpu.bus.mem, rs));
    if o.OutOfBounds? {
      return false;
    }
    cpu.core := Store(cpu.core, rs, o.mac);
    cpu.bus.mem := o.mac.mem;
    return true;
  }
}
