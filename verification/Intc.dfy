/** The interrupt controller: priority scan with a skip flag, acknowledge semantics and
    per-source level overrides (peripheral_intc.hpp, peripheral_intc.cpp). */
module InterruptControl {
  import opened Words
  import opened DivMod
  import CpuCore
  import CpuState

  const NUM_SOURCES := 39
  const REG_COUNT := 64

  type Source = i: nat | i < NUM_SOURCES

  /** A register byte, as the set of its bits that are 1. */
  type Byte = b: set<nat> | forall k | k in b :: k < 8

  datatype Src = Src(trapNo: nat, priByte: nat, priShift: nat, ienByte: nat, ienBit: nat, isrByte: nat, isrBit: nat)

  /** src_table_: trap number and register positions of every source. */
  function Table(i: Source): (s: Src)
    ensures s.priByte < 14 && (s.priShift == 0 || s.priShift == 4) && 16 <= s.ienByte < 24 && 32 <= s.isrByte < 40 && s.isrBit < 8
  {
    match i
    case 0 => Src(16, 0, 0, 16, 0, 32, 0)  // PORT0
    case 1 => Src(17, 0, 4, 16, 1, 32, 1)  // PORT1
    case 2 => Src(18, 1, 0, 16, 2, 32, 2)  // PORT2
    case 3 => Src(19, 1, 4, 16, 3, 32, 3)  // PORT3
    case 4 => Src(20, 2, 0, 16, 4, 32, 4)  // KEY0
    case 5 => Src(21, 2, 4, 16, 5, 32, 5)  // KEY1
    case 6 => Src(22, 3, 0, 17, 0, 33, 0)  // HSDMA0
    case 7 => Src(23, 3, 4, 17, 1, 33, 1)  // HSDMA1
    case 8 => Src(24, 4, 0, 17, 2, 33, 2)  // HSDMA2
    case 9 => Src(25, 4, 4, 17, 3, 33, 3)  // HSDMA3
    case 10 => Src(26, 5, 0, 17, 4, 33, 4)  // IDMA
    case 11 => Src(30, 6, 0, 18, 2, 34, 2)  // T16_CRB0
    case 12 => Src(31, 6, 0, 18, 3, 34, 3)  // T16_CRA0
    case 13 => Src(34, 6, 4, 18, 6, 34, 6)  // T16_CRB1
    case 14 => Src(35, 6, 4, 18, 7, 34, 7)  // T16_CRA1
    case 15 => Src(38, 7, 0, 19, 2, 35, 2)  // T16_CRB2
    case 16 => Src(39, 7, 0, 19, 3, 35, 3)  // T16_CRA2
    case 17 => Src(42, 7, 4, 19, 6, 35, 6)  // T16_CRB3
    case 18 => Src(43, 7, 4, 19, 7, 35, 7)  // T16_CRA3
    case 19 => Src(46, 8, 0, 20, 2, 36, 2)  // T16_CRB4
    case 20 => Src(47, 8, 0, 20, 3, 36, 3)  // T16_CRA4
    case 21 => Src(50, 8, 4, 20, 6, 36, 6)  // T16_CRB5
    case 22 => Src(51, 8, 4, 20, 7, 36, 7)  // T16_CRA5
    case 23 => Src(52, 9, 0, 21, 0, 37, 0)  // T8_UF0
    case 24 => Src(53, 9, 0, 21, 1, 37, 1)  // T8_UF1
    case 25 => Src(54, 9, 0, 21, 2, 37, 2)  // T8_UF2
    case 26 => Src(55, 9, 0, 21, 3, 37, 3)  // T8_UF3
    case 27 => Src(56, 9, 4, 22, 0, 38, 0)  // SIF0_ERR
    case 28 => Src(57, 9, 4, 22, 1, 38, 1)  // SIF0_RX
    case 29 => Src(58, 9, 4, 22, 2, 38, 2)  // SIF0_TX
    case 30 => Src(60, 10, 0, 22, 3, 38, 3)  // SIF1_ERR
    case 31 => Src(61, 10, 0, 22, 4, 38, 4)  // SIF1_RX
    case 32 => Src(62, 10, 0, 22, 5, 38, 5)  // SIF1_TX
    case 33 => Src(64, 10, 4, 23, 0, 39, 0)  // AD
    case 34 => Src(65, 11, 0, 23, 1, 39, 1)  // CLK_TIMER
    case 35 => Src(68, 12, 0, 23, 2, 39, 2)  // PORT4
    case 36 => Src(69, 12, 4, 23, 3, 39, 3)  // PORT5
    case 37 => Src(70, 13, 0, 23, 4, 39, 4)  // PORT6
    case _ => Src(71, 13, 4, 23, 5, 39, 5)  // PORT7
  }

  /** A trap handed to the CPU. */
  datatype Delivery = Delivery(trapNo: nat, level: nat)

  /** `overrides[i]` is level_override_[i], None for -1. */
  datatype Intc = Intc(regs: seq<Byte>, overrides: seq<Option<nat>>, il: nat, dirty: bool)
  {
    predicate Valid() {
      |regs| == REG_COUNT && |overrides| == NUM_SOURCES
    }

    predicate Flagged(i: Source)
      requires Valid()
    {
      Table(i).isrBit in regs[Table(i).isrByte]
    }

    predicate Enabled(i: Source)
      requires Valid()
    {
      Table(i).ienBit in regs[Table(i).ienByte]
    }

    /** The three priority bits at priShift. */
    function Priority(i: Source): nat
      requires Valid()
    {
      var (b, k) := (regs[Table(i).priByte], Table(i).priShift);
      (if k in b then 1 else 0) + (if k + 1 in b then 2 else 0) + (if k + 2 in b then 4 else 0)
    }

    function LevelOf(i: Source): nat
      requires Valid()
    {
      if overrides[i].Some? then overrides[i].value else Priority(i)
    }

    /** poll() would accept this source now. */
    predicate Deliverable(i: Source)
      requires Valid()
    {
      Flagged(i) && Enabled(i) && LevelOf(i) != 0 && il < LevelOf(i)
    }

    /** The scan of the first n sources: a later one wins only with a strictly higher level. */
    function Scan(n: nat): (best: Option<Source>)
      requires Valid() && n <= NUM_SOURCES
      ensures best.Some? ==> best.value < n && Deliverable(best.value)
    {
      if n == 0 then None
      else
        var best := Scan(n - 1);
        if Deliverable(n - 1) && (best.None? || LevelOf(best.value) < LevelOf(n - 1)) then Some(n - 1) else best
    }

    function Poll(): (Intc, Option<Delivery>)
      requires Valid()
    {
      if !dirty then (this, None)
      else
        var best := Scan(NUM_SOURCES);
        (this.(dirty := false),
         if best.Some? then Some(Delivery(Table(best.value).trapNo, LevelOf(best.value))) else None)
    }

    /** raise(): sets the flag and delivers at once if enabled; the CPU checks IE and IL itself. */
    function Raise(i: Source, override: Option<nat>): (Intc, Option<Delivery>)
      requires Valid()
    {
      var t := Table(i);
      var level := if override.Some? then override.value % 8 else Priority(i);
      var s := this.(overrides := if override.Some? then overrides[i := Some(level)] else overrides,
                     regs := regs[t.isrByte := regs[t.isrByte] + {t.isrBit}], dirty := true);
      (s, if Enabled(i) && level != 0 then Some(Delivery(t.trapNo, level)) else None)
    }

    function SetIl(level: nat): Intc {
      this.(il := level, dirty := dirty || level < il)
    }

    /** RSTONLY = 1: writing 1 clears; RSTONLY = 0: writing replaces. */
    function IsrAfter(byte: nat, val: Byte): Byte
      requires Valid() && byte < REG_COUNT
    {
      if 0 in regs[63] then regs[byte] - val else val
    }

    /** One register byte written; clearing a flag also drops its source's override. */
    function StoreByte(byte: nat, val: Byte): (s: Intc)
      requires Valid() && byte < REG_COUNT
      ensures s.Valid()
    {
      if 32 <= byte <= 39 then
        var after := IsrAfter(byte, val);
        var cleared := regs[byte] - after;
        this.(regs := regs[byte := after],
              overrides := seq(NUM_SOURCES, i requires 0 <= i < NUM_SOURCES =>
                             if Table(i).isrByte == byte && Table(i).isrBit in cleared then None else overrides[i]))
      else this.(regs := regs[byte := val])
    }

    function WriteByte(byte: nat, val: Byte): (s: Intc)
      requires Valid() && byte < REG_COUNT
      ensures s.Valid()
    {
      var relevant := byte < 14 || 16 <= byte < 24 || 32 <= byte < 40;
      StoreByte(byte, val).(dirty := dirty || relevant)
    }

    /** Halfword handler at the even offset `off`; an odd address updates the high byte only. */
    function WriteHalf(off: nat, odd: bool, lo: Byte, hi: Byte): (s: Intc)
      requires Valid() && off % 2 == 0 && off + 1 < REG_COUNT
      ensures s.Valid()
    {
      var s := if odd then StoreByte(off + 1, lo) else StoreByte(off, lo).StoreByte(off + 1, hi);
      var relevant := off < 14 || 16 <= off < 24 || (off + 2 > 32 && off < 40);
      s.(dirty := dirty || relevant)
    }
  }

  function Reset(): (s: Intc)
    ensures s.Valid()
  {
    Intc(seq(REG_COUNT, i => if i == 63 then {0, 1, 2} else {}), seq(NUM_SOURCES, _ => None), 0, true)
  }

  // ---- what a scan delivers ----

  /** The highest level among deliverable sources, and the lowest index at that level. */
  predicate IsBest(s: Intc, n: nat, b: Source)
    requires s.Valid() && n <= NUM_SOURCES
  {
    && b < n && s.Deliverable(b)
    && forall i: Source | i < n && s.Deliverable(i) ::
         s.LevelOf(i) <= s.LevelOf(b) && (s.LevelOf(i) == s.LevelOf(b) ==> b <= i)
  }

  lemma {:induction false} ScanFindsBest(s: Intc, n: nat)
    requires s.Valid() && n <= NUM_SOURCES
    ensures s.Scan(n).Some? ==> IsBest(s, n, s.Scan(n).value)
    ensures s.Scan(n).None? ==> forall i: Source | i < n :: !s.Deliverable(i)
  {
    hide Intc.Deliverable, Intc.LevelOf;
    if n > 0 {
      ScanFindsBest(s, n - 1);
    }
  }

  // ---- levels as the registers hold them ----

  /** The number a register byte stands for. */
  function ByteValue(b: Byte): (v: nat)
    ensures v < 0x100
  {
    Weight(b, 0) + Weight(b, 1) + Weight(b, 2) + Weight(b, 3) + Weight(b, 4) + Weight(b, 5) + Weight(b, 6) + Weight(b, 7)
  }

  function Weight(b: Byte, k: nat): nat
    requires k < 8
  {
    if k in b then Power(k) else 0
  }

  function Power(k: nat): nat {
    if k == 0 then 1 else 2 * Power(k - 1)
  }

  lemma Powers()
    ensures Power(0) == 1 && Power(1) == 2 && Power(2) == 4 && Power(3) == 8
    ensures Power(4) == 16 && Power(5) == 32 && Power(6) == 64 && Power(7) == 128
  {
  }

  /** The three bits from `shift` on of the number a byte stands for. */
  function Field(b: Byte, shift: nat): nat
    requires shift == 0 || shift == 4
  {
    ByteValue(b) / Power(shift) % 8
  }

  lemma FieldMeans(b: Byte, shift: nat)
    requires shift == 0 || shift == 4
    ensures Field(b, shift)
         == (if shift in b then 1 else 0) + (if shift + 1 in b then 2 else 0) + (if shift + 2 in b then 4 else 0)
  {
    Powers();
    var low := Weight(b, 0) + Weight(b, 1) + Weight(b, 2);
    var mid := (if 4 in b then 1 else 0) + (if 5 in b then 2 else 0) + (if 6 in b then 4 else 0);
    var three, seven := if 3 in b then 1 else 0, if 7 in b then 1 else 0;
    assert ByteValue(b) == low + 8 * (three + 2 * (mid + 8 * seven));
    DigitsApart(low, three, mid, seven);
  }

  lemma DigitsApart(low: nat, three: nat, mid: nat, seven: nat)
    requires low < 8 && mid < 8 && three < 2
    ensures
      var v := low + 8 * (three + 2 * (mid + 8 * seven));
      v % 8 == low && v / 16 % 8 == mid
  {
    var v := low + 8 * (three + 2 * (mid + 8 * seven));
    DivisionUnique(v, 8, three + 2 * (mid + 8 * seven), low);
    DivisionUnique(v, 16, mid + 8 * seven, low + 8 * three);
    DivisionUnique(mid + 8 * seven, 8, seven, mid);
  }

  /** A source's level in the priority registers: the field of the byte's value. */
  lemma PriorityIsField(s: Intc, i: Source)
    requires s.Valid()
    ensures s.Priority(i) == Field(s.regs[Table(i).priByte], Table(i).priShift)
  {
    FieldMeans(s.regs[Table(i).priByte], Table(i).priShift);
    hide Table, Field;
  }

  /** A source poll() may deliver at `level`, on the register contents alone. */
  predicate Eligible(s: Intc, i: Source, level: nat)
    requires s.Valid()
  {
    && Table(i).isrBit in s.regs[Table(i).isrByte] && Table(i).ienBit in s.regs[Table(i).ienByte]
    && level == (if s.overrides[i].Some? then s.overrides[i].value
                 else Field(s.regs[Table(i).priByte], Table(i).priShift))
    && s.il < level
  }

  lemma EligibleIff(s: Intc, i: Source, level: nat)
    requires s.Valid()
    ensures Eligible(s, i, level) <==> s.Deliverable(i) && level == s.LevelOf(i)
  {
    PriorityIsField(s, i);
    hide Table, Field, Intc.Priority;
  }

  /** What a scan hands to the CPU: the trap of the eligible source with the highest level, of
      these the one with the lowest index; nothing only if no source is eligible. */
  lemma PollDelivers(s: Intc)
    requires s.Valid() && s.dirty
    ensures s.Poll().0 == s.(dirty := false)
    ensures
      match s.Poll().1
      case None => forall i: Source, level: nat :: !Eligible(s, i, level)
      case Some(d) => exists b: Source ::
        && d.trapNo == Table(b).trapNo && Eligible(s, b, d.level)
        && forall i: Source, level: nat | Eligible(s, i, level) ::
             level < d.level || (level == d.level && b <= i)
  {
    hide Intc.Scan, Eligible, Intc.Deliverable, Intc.LevelOf, Table;
    ScanFindsBest(s, NUM_SOURCES);
    var best := s.Scan(NUM_SOURCES);
    forall i: Source, level: nat
      ensures Eligible(s, i, level) <==> s.Deliverable(i) && level == s.LevelOf(i)
    {
      EligibleIff(s, i, level);
    }
    if best.Some? {
      var b := best.value;
      assert Eligible(s, b, s.LevelOf(b));
    }
  }

  /** What raise() does: it sets the source's flag and no other bit, and hands the trap to the CPU
      if and only if the source is enabled with a nonzero level, that of the override or of the
      priority register. */
  lemma RaiseDelivers(s: Intc, i: Source, override: Option<nat>)
    requires s.Valid()
    ensures
      var t, (s', d) := Table(i), s.Raise(i, override);
      var level := if override.Some? then override.value % 8 else Field(s.regs[t.priByte], t.priShift);
      && d == (if t.ienBit in s.regs[t.ienByte] && level != 0 then Some(Delivery(t.trapNo, level)) else None)
      && s'.Valid() && s'.Flagged(i) && s'.il == s.il && s'.dirty
      && (forall j: Source | j != i :: s'.Flagged(j) == s.Flagged(j))
      && (forall k | 0 <= k < REG_COUNT && k != t.isrByte :: s'.regs[k] == s.regs[k])
      && s'.overrides == if override.Some? then s.overrides[i := Some(level)] else s.overrides
  {
    PriorityIsField(s, i);
    forall j: Source | j != i
      ensures Table(j).isrByte != Table(i).isrByte || Table(j).isrBit != Table(i).isrBit
    {
      if Table(j).isrByte == Table(i).isrByte && Table(j).isrBit == Table(i).isrBit {
        FlagsDistinct(i, j);
      }
    }
    hide Table, Field, Intc.Priority;
  }

  /** A level written to its priority register is the level the source is delivered at from then
      on, by raise() and, without an override, by poll(). */
  lemma WrittenLevelIsDelivered(s: Intc, i: Source, val: Byte)
    requires s.Valid() && Table(i).ienBit in s.regs[Table(i).ienByte] && Field(val, Table(i).priShift) != 0
    ensures
      var w, level := s.WriteByte(Table(i).priByte, val), Field(val, Table(i).priShift);
      && w.Raise(i, None).1 == Some(Delivery(Table(i).trapNo, level))
      && (s.overrides[i].None? && s.Flagged(i) && s.il < level ==> w.dirty && Eligible(w, i, level))
  {
    var t := Table(i);
    var w := s.WriteByte(t.priByte, val);
    assert w.regs == s.regs[t.priByte := val] && w.overrides == s.overrides && w.il == s.il && w.dirty;
    hide Table, Field, Intc.Priority, Intc.WriteByte, Intc.StoreByte;
    RaiseDelivers(w, i, None);
  }

  /** The core takes what a scan delivers whenever it accepts interrupts and its level is the one
      the controller was told. */
  lemma DeliveriesAreAccepted(s: Intc, m: CpuCore.Machine)
    requires s.Valid() && s.dirty && m.core.psr.ie && m.core.psr.il == s.il && s.Poll().1.Some?
    ensures m.Accepts(CpuState.Trap(s.Poll().1.value.trapNo, s.Poll().1.value.level))
  {
    PollDelivers(s);
    hide Intc.Poll;
  }

  /** The table is regular: flags and enables lie at the same places of their register groups, and
      trap numbers rise with the index, all of them maskable. */
  lemma TableIsRegular(i: Source, j: Source)
    ensures Table(i).isrByte == Table(i).ienByte + 16 && Table(i).isrBit == Table(i).ienBit && 16 <= Table(i).trapNo
    ensures i < j ==> Table(i).trapNo < Table(j).trapNo
  {
    TrapBounds(i);
    TrapBounds(j);
  }

  /** Trap numbers leave gaps between the groups: 3, 2 at two places and so on, at most 33 in all. */
  lemma TrapBounds(i: Source)
    ensures Table(i).trapNo == 16 + i + Gap(i)
    ensures Table(i).isrByte == Table(i).ienByte + 16 && Table(i).isrBit == Table(i).ienBit
  {
  }

  /** The unused trap numbers below that of source i. */
  function Gap(i: nat): nat {
    if i < 11 then 0
    else if i < 23 then 3 + (i - 11) / 2 * 2
    else if i < 30 then 13
    else if i < 33 then 14
    else if i < 35 then 15
    else 17
  }

  // ---- the skip flag ----

  datatype Op =
    | PollOp
    | RaiseOp(src: Source, override: Option<nat>)
    | SetIlOp(il: nat)
    | WriteByteOp(byte: nat, val: Byte)
    | WriteHalfOp(off: nat, odd: bool, lo: Byte, hi: Byte)

  predicate Legal(op: Op) {
    match op
    case WriteByteOp(byte, _) => byte < REG_COUNT
    case WriteHalfOp(off, _, _, _) => off % 2 == 0 && off + 1 < REG_COUNT
    case _ => true
  }

  function Apply(s: Intc, op: Op): (s': Intc)
    requires s.Valid() && Legal(op)
    ensures s'.Valid()
  {
    match op
    case PollOp => s.Poll().0
    case RaiseOp(src, override) => s.Raise(src, override).0
    case SetIlOp(il) => s.SetIl(il)
    case WriteByteOp(byte, val) => s.WriteByte(byte, val)
    case WriteHalfOp(off, odd, lo, hi) => s.WriteHalf(off, odd, lo, hi)
  }

  /** The controller after a run of operations, and its state at the last scan. */
  function RunOps(s: Intc, scanned: Intc, ops: seq<Op>): (r: (Intc, Intc))
    requires s.Valid() && scanned.Valid() && forall k | 0 <= k < |ops| :: Legal(ops[k])
    ensures r.0.Valid() && r.1.Valid()
  {
    if ops == [] then (s, scanned)
    else
      var n := |ops| - 1;
      var (before, last) := RunOps(s, scanned, ops[..n]);
      (Apply(before, ops[n]), if ops[n].PollOp? && before.dirty then before else last)
  }

  /** Every source deliverable in `s` was deliverable, at the same level, in `scanned`. */
  predicate NothingNew(s: Intc, scanned: Intc)
    requires s.Valid() && scanned.Valid()
  {
    forall i: Source | s.Deliverable(i) :: scanned.Deliverable(i) && s.LevelOf(i) == scanned.LevelOf(i)
  }

  /** An operation that leaves the flag clear makes no source newly deliverable. */
  lemma CleanOpAddsNothing(s: Intc, op: Op)
    requires s.Valid() && Legal(op) && !op.PollOp? && !Apply(s, op).dirty
    ensures !s.dirty && NothingNew(Apply(s, op), s)
  {
    hide Table;
  }

  /** Skip correctness over all runs: whenever poll() would skip its scan, every source deliverable
      now was deliverable at the same level at the last scan. */
  lemma {:induction false} SkipIsSound(s: Intc, scanned: Intc, ops: seq<Op>)
    requires s.Valid() && scanned.Valid() && forall k | 0 <= k < |ops| :: Legal(ops[k])
    requires s.dirty || NothingNew(s, scanned)
    ensures
      var (now, last) := RunOps(s, scanned, ops);
      now.dirty || NothingNew(now, last)
  {
    if ops != [] {
      var n := |ops| - 1;
      SkipIsSound(s, scanned, ops[..n]);
      var (before, last) := RunOps(s, scanned, ops[..n]);
      var now := Apply(before, ops[n]);
      hide Table, Intc.LevelOf;
      if ops[n].PollOp? {
        if before.dirty {
          PollChangesNothing(before);
        }
      } else if !now.dirty {
        CleanOpAddsNothing(before, ops[n]);
        Transitive(now, before, last);
      }
    }
  }

  lemma PollChangesNothing(s: Intc)
    requires s.Valid()
    ensures NothingNew(s.Poll().0, s)
  {
    hide Table;
  }

  lemma Transitive(a: Intc, b: Intc, c: Intc)
    requires a.Valid() && b.Valid() && c.Valid() && NothingNew(a, b) && NothingNew(b, c)
    ensures NothingNew(a, c)
  {
    hide Intc.Deliverable, Intc.LevelOf;
  }

  lemma BestUnique(s: Intc, n: nat, a: Source, b: Source)
    requires s.Valid() && n <= NUM_SOURCES && IsBest(s, n, a) && IsBest(s, n, b)
    ensures a == b
  {
    hide Intc.Deliverable, Intc.LevelOf;
  }

  /** What skipping can miss: nothing, if the last scan found nothing; and if the source it picked
      is still deliverable, a scan now would only pick that source again. */
  lemma SkippedScanRepeats(now: Intc, last: Intc)
    requires now.Valid() && last.Valid() && NothingNew(now, last)
    ensures
      var b := last.Scan(NUM_SOURCES);
      && (b.None? ==> now.Scan(NUM_SOURCES).None?)
      && (b.Some? && now.Deliverable(b.value) ==> now.Scan(NUM_SOURCES) == b && now.LevelOf(b.value) == last.LevelOf(b.value))
  {
    hide Intc.Deliverable, Intc.LevelOf, Intc.Scan;
    ScanFindsBest(last, NUM_SOURCES);
    ScanFindsBest(now, NUM_SOURCES);
    var b, c := last.Scan(NUM_SOURCES), now.Scan(NUM_SOURCES);
    if b.Some? && now.Deliverable(b.value) {
      assert IsBest(now, NUM_SOURCES, b.value);
      BestUnique(now, NUM_SOURCES, b.value, c.value);
    }
  }

  // ---- level overrides ----

  /** An override is live only while its source's flag is set. */
  predicate OverridesLive(s: Intc)
    requires s.Valid()
  {
    forall i: Source | s.overrides[i].Some? :: s.Flagged(i)
  }

  lemma ApplyKeepsOverridesLive(s: Intc, op: Op)
    requires s.Valid() && Legal(op) && OverridesLive(s)
    ensures OverridesLive(Apply(s, op))
  {
    hide Table;
    match op {
      case WriteByteOp(byte, val) => StoreKeepsOverridesLive(s, byte, val);
      case WriteHalfOp(off, odd, lo, hi) =>
        if odd {
          StoreKeepsOverridesLive(s, off + 1, lo);
        } else {
          StoreKeepsOverridesLive(s, off, lo);
          StoreKeepsOverridesLive(s.StoreByte(off, lo), off + 1, hi);
        }
        hide Intc.StoreByte;
      case _ =>
    }
  }

  lemma StoreKeepsOverridesLive(s: Intc, byte: nat, val: Byte)
    requires s.Valid() && byte < REG_COUNT && OverridesLive(s)
    ensures OverridesLive(s.StoreByte(byte, val))
  {
    hide Table, Intc.IsrAfter;
    var t := s.StoreByte(byte, val);
    forall i: Source | t.overrides[i].Some?
      ensures t.Flagged(i)
    {
      assert s.Flagged(i);
    }
  }

  /** From reset, no run of operations leaves an override behind a cleared flag. */
  lemma {:induction false} OverridesLiveAlways(s: Intc, scanned: Intc, ops: seq<Op>)
    requires s.Valid() && scanned.Valid() && forall k | 0 <= k < |ops| :: Legal(ops[k])
    requires OverridesLive(s)
    ensures OverridesLive(RunOps(s, scanned, ops).0)
  {
    if ops != [] {
      OverridesLiveAlways(s, scanned, ops[..|ops| - 1]);
      ApplyKeepsOverridesLive(RunOps(s, scanned, ops[..|ops| - 1]).0, ops[|ops| - 1]);
    }
  }

  /** Reset starts both invariants off. */
  lemma ResetEstablishes()
    ensures OverridesLive(Reset()) && Reset().dirty
  {
  }

  // ---- register writes ----

  /** A halfword write equals its two byte writes, flag for flag, at every offset. */
  lemma HalfwordIsTwoBytes(s: Intc, off: nat, lo: Byte, hi: Byte)
    requires s.Valid() && off % 2 == 0 && off + 1 < REG_COUNT
    ensures s.WriteHalf(off, false, lo, hi) == s.WriteByte(off, lo).WriteByte(off + 1, hi)
  {
  }

  /** A write to a flag register: with RSTONLY set, exactly the flags written as 1 are cleared;
      with RSTONLY clear, the register becomes the value.  No other register changes. */
  lemma AcknowledgeMeans(s: Intc, byte: nat, val: Byte, i: Source)
    requires s.Valid() && 32 <= byte < 40 && Table(i).isrByte == byte
    ensures
      var t := s.WriteByte(byte, val);
      && (t.Flagged(i) <==> if 0 in s.regs[63] then s.Flagged(i) && Table(i).isrBit !in val else Table(i).isrBit in val)
      && (forall k | 0 <= k < REG_COUNT && k != byte :: t.regs[k] == s.regs[k])
      && t.overrides[i] == (if s.Flagged(i) && !t.Flagged(i) then None else s.overrides[i])
      && (forall j: Source | Table(j).isrByte != byte :: t.overrides[j] == s.overrides[j])
      && t.il == s.il && t.dirty
  {
  }

  /** The source whose flag is at the given position. */
  function SourceAt(isrByte: nat, isrBit: nat): nat {
    match isrByte
    case 32 => isrBit
    case 33 => 6 + isrBit
    case 34 => 11 + (if isrBit < 4 then isrBit - 2 else isrBit - 4)
    case 35 => 15 + (if isrBit < 4 then isrBit - 2 else isrBit - 4)
    case 36 => 19 + (if isrBit < 4 then isrBit - 2 else isrBit - 4)
    case 37 => 23 + isrBit
    case 38 => 27 + isrBit
    case _ => 33 + isrBit
  }

  /** No two sources share a flag, so acknowledging one leaves every other source alone. */
  lemma FlagsDistinct(i: Source, j: Source)
    requires Table(i).isrByte == Table(j).isrByte && Table(i).isrBit == Table(j).isrBit
    ensures i == j
  {
    FlagLocates(i);
    FlagLocates(j);
    hide Table, SourceAt;
  }

  lemma FlagLocates(i: Source)
    ensures SourceAt(Table(i).isrByte, Table(i).isrBit) == i
  {
  }

  // ---- the controller object ----

  class InterruptController {
    const regs: array<Byte>
    const overrides: array<Option<nat>>
    var il: nat
    var dirty: bool
    var delivered: seq<Delivery>  // the calls made to assert_trap, in order

    constructor ()
      ensures Valid() && fresh(regs) && fresh(overrides)
      ensures View() == Reset() && delivered == []
    {
      regs := new Byte[REG_COUNT](i => if i == 63 then {0, 1, 2} else {});
      overrides := new Option<nat>[NUM_SOURCES](_ => None);
      il, dirty, delivered := 0, true, [];
    }

    ghost predicate Valid()
      reads this, regs, overrides
    {
      regs.Length == REG_COUNT && overrides.Length == NUM_SOURCES
    }

    ghost function View(): Intc
      reads this, regs, overrides
    {
      Intc(regs[..], overrides[..], il, dirty)
    }

    function CurrentLevel(i: Source): nat
      requires regs.Length == REG_COUNT && overrides.Length == NUM_SOURCES
      reads this, regs, overrides
      ensures CurrentLevel(i) == View().LevelOf(i)
    {
      if overrides[i].Some? then overrides[i].value else CurrentPriority(i)
    }

    method Poll()
      requires Valid()
      modifies this`dirty, this`delivered
      ensures
        var (s, d) := old(View()).Poll();
        View() == s && delivered == old(delivered) + if d.Some? then [d.value] else []
    {
      hide Table;
      if !dirty {
        return;
      }
      var best: Option<Source> := None;
      var bestLevel := 0;
      var i := 0;
      while i < NUM_SOURCES
        invariant i <= NUM_SOURCES && View() == old(View())
        invariant best == View().Scan(i)
        invariant bestLevel == if best.Some? then View().LevelOf(best.value) else 0
      {
        var t := Table(i);
        if t.isrBit in regs[t.isrByte] && t.ienBit in regs[t.ienByte] {
          var level := CurrentLevel(i);
          if level != 0 && il < level && bestLevel < level {
            best, bestLevel := Some(i), level;
          }
        }
        i := i + 1;
      }
      dirty := false;
      if best.Some? {
        delivered := delivered + [Delivery(Table(best.value).trapNo, bestLevel)];
      }
    }

    method Raise(i: Source, override: Option<nat>)
      requires Valid()
      modifies this`dirty, this`delivered, regs, overrides
      ensures Valid()
      ensures
        var (s, d) := old(View()).Raise(i, override);
        View() == s && delivered == old(delivered) + if d.Some? then [d.value] else []
    {
      var t := Table(i);
      if override.Some? {
        overrides[i] := Some(override.value % 8);
      }
      regs[t.isrByte] := regs[t.isrByte] + {t.isrBit};
      dirty := true;
      if t.ienBit !in regs[t.ienByte] {
        return;
      }
      var level := if override.Some? then override.value % 8 else CurrentPriority(i);
      if level == 0 {
        return;
      }
      delivered := delivered + [Delivery(t.trapNo, level)];
    }

    function CurrentPriority(i: Source): nat
      requires regs.Length == REG_COUNT && overrides.Length == NUM_SOURCES
      reads this, regs, overrides
      ensures CurrentPriority(i) == View().Priority(i)
    {
      var t := Table(i);
      (if t.priShift in regs[t.priByte] then 1 else 0) + (if t.priShift + 1 in regs[t.priByte] then 2 else 0)
      + (if t.priShift + 2 in regs[t.priByte] then 4 else 0)
    }

    method SetCurrentIl(level: nat)
      modifies this`il, this`dirty
      ensures View() == old(View()).SetIl(level)
    {
      if level < il {
        dirty := true;
      }
      il := level;
    }

    /** One register byte; on the flag registers also the override loop. */
    method StoreByte(byte: nat, val: Byte)
      requires Valid() && byte < REG_COUNT
      modifies regs, overrides
      ensures View() == old(View()).StoreByte(byte, val)
    {
      hide Table;
      ghost var s := View();
      if byte < 32 || 39 < byte {
        regs[byte] := val;
        return;
      }
      var before := regs[byte];
      var after: Byte := if 0 in regs[63] then before - val else val;
      regs[byte] := after;
      var cleared := before - after;
      var i := 0;
      while i < NUM_SOURCES
        invariant i <= NUM_SOURCES && regs[..] == s.regs[byte := after]
        invariant forall k: nat | k < NUM_SOURCES ::
                    overrides[k] == if k < i && Table(k).isrByte == byte && Table(k).isrBit in cleared then None
                                    else s.overrides[k]
      {
        if Table(i).isrByte == byte && Table(i).isrBit in cleared {
          overrides[i] := None;
        }
        i := i + 1;
      }
      assert overrides[..] == s.StoreByte(byte, val).overrides;
    }

    method IoWriteByte(byte: nat, val: Byte)
      requires Valid() && byte < REG_COUNT
      modifies this`dirty, regs, overrides
      ensures View() == old(View()).WriteByte(byte, val)
    {
      StoreByte(byte, val);
      if byte < 14 || 16 <= byte < 24 || 32 <= byte < 40 {
        dirty := true;
      }
    }

    method IoWrite(off: nat, odd: bool, lo: Byte, hi: Byte)
      requires Valid() && off % 2 == 0 && off + 1 < REG_COUNT
      modifies this`dirty, regs, overrides
      ensures View() == old(View()).WriteHalf(off, odd, lo, hi)
    {
      if odd {
        StoreByte(off + 1, lo);
      } else {
        StoreByte(off, lo);
        StoreByte(off + 1, hi);
      }
      if off < 14 || 16 <= off < 24 || (off + 2 > 32 && off < 40) {
        dirty := true;
      }
    }
  }
}
