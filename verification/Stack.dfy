/** pushn / popn and call / ret: what goes onto the stack comes back off it (cpu_class0.cpp). */
module Stack {
  import opened Words
  import opened CpuState
  import opened BusModel
  import opened Instructions
  import opened CpuCore

  /** The SRAM offset just above the next pushed word. */
  function Top(c: Core): int { WordAligned(c.sp) - SRAM_BASE }

  /** SP is aligned and `words` words below it are installed SRAM. */
  predicate Room(c: Core, m: Memory, words: nat) {
    c.sp % 4 == 0 && 4 * words <= Top(c) <= |m.sram|
  }

  /** Nothing but SRAM bytes [from, to) and the cycle counter differs. */
  ghost predicate OnlyTouches(m: Memory, m': Memory, from: int, to: int) {
    && m.SameBut(m', m'.sram) && |m'.sram| == |m.sram|
    && forall k | 0 <= k < |m.sram| && !(from <= k < to) :: m'.sram[k] == m.sram[k]
  }

  /** The word at SRAM offset `off`. */
  predicate Holds(sram: seq<uint8>, off: int, v: uint32) {
    0 <= off && off + 3 < |sram| && Load32(sram, off) == v
  }

  /** One push. */
  lemma PushEffect(c: Core, m: Memory, v: uint32)
    requires c.Valid() && m.Valid() && Room(c, m, 1)
    ensures
      var (c1, m1) := Push(c, m, v);
      && c1 == c.(sp := c1.sp) && c1.sp == c.sp - 4 && c1.sp % 4 == 0 && Top(c1) == Top(c) - 4
      && OnlyTouches(m, m1, Top(c) - 4, Top(c)) && Holds(m1.sram, Top(c) - 4, v)
  {
    SlotBelow(c, m);
    hide WordAligned, Memory.Write32, Wrap32, Load32, Store32, Room, Memory.SramWord, Memory.Valid;
    SramWrite(m, Wrap32(c.sp - 4), v);
    LoadOfStore32(m.sram, Top(c) - 4, v);
  }

  /** The word below SP. */
  lemma SlotBelow(c: Core, m: Memory)
    requires m.Valid() && Room(c, m, 1)
    ensures 4 <= c.sp && Wrap32(c.sp - 4) == c.sp - 4 && (c.sp - 4) % 4 == 0
    ensures m.SramWord(c.sp - 4) && m.SramOffset(c.sp - 4) == Top(c) - 4
  {
    WordBelow(c.sp);
  }

  /** One pop. */
  lemma PopEffect(c: Core, m: Memory, v: uint32)
    requires c.Valid() && m.Valid() && c.sp % 4 == 0 && Holds(m.sram, Top(c), v)
    ensures
      var (got, c1, m1) := Pop(c, m);
      && got == v && c1 == c.(sp := Wrap32(c.sp + 4)) && m1.sram == m.sram && OnlyTouches(m, m1, 0, 0)
  {
    SramRead(m, c.sp);
  }

  /** pushn n leaves r0..rn in ascending order from the new SP up. */
  lemma {:induction false} PushNEffect(c: Core, m: Memory, n: RegNo)
    requires c.Valid() && m.Valid() && Room(c, m, n + 1)
    ensures
      var (c1, m1) := PushN(c, m, n);
      && c1 == c.(sp := c1.sp) && c1.sp == c.sp - 4 * (n + 1) && c1.sp % 4 == 0 && Top(c1) == Top(c) - 4 * (n + 1)
      && OnlyTouches(m, m1, Top(c1), Top(c))
      && forall j | 0 <= j <= n :: Holds(m1.sram, Top(c1) + 4 * j, c.r[j])
    decreases n
  {
    hide Push, Top, OnlyTouches, Holds;
    var (c1, m1) := Push(c, m, c.r[n]);
    PushEffect(c, m, c.r[n]);
    if n > 0 {
      SizeKept(m, m1, Top(c) - 4, Top(c));
      PushNEffect(c1, m1, n - 1);
      var m2 := PushN(c1, m1, n - 1).1;
      TouchesTransitive(m, m1, m2, Top(c) - 4, Top(c), Top(c1) - 4 * n, Top(c1), Top(c1) - 4 * n, Top(c));
      HoldsKept(m1, m2, Top(c1) - 4 * n, Top(c1), Top(c) - 4, c.r[n]);
    }
  }

  lemma HoldsKept(m: Memory, m': Memory, from: int, to: int, off: int, v: uint32)
    requires OnlyTouches(m, m', from, to) && (to <= off || off + 4 <= from)
    requires Holds(m.sram, off, v)
    ensures Holds(m'.sram, off, v)
  {
  }

  lemma SizeKept(m: Memory, m': Memory, from: int, to: int)
    requires OnlyTouches(m, m', from, to)
    ensures |m'.sram| == |m.sram|
  {
  }

  lemma TouchesTransitive(m: Memory, m1: Memory, m2: Memory, f1: int, t1: int, f2: int, t2: int, from: int, to: int)
    requires OnlyTouches(m, m1, f1, t1) && OnlyTouches(m1, m2, f2, t2)
    requires f1 < t1 ==> from <= f1 && t1 <= to
    requires f2 < t2 ==> from <= f2 && t2 <= to
    ensures OnlyTouches(m, m2, from, to)
  {
  }

  /** popn loads r[i]..r[n] from the words at SP and above. */
  lemma {:induction false} PopNEffect(c: Core, m: Memory, i: nat, n: RegNo, saved: seq<uint32>)
    requires c.Valid() && m.Valid() && i <= n + 1 && |saved| == 16
    requires c.sp % 4 == 0 && c.sp + 4 * (n + 1 - i) < TWO32
    requires 0 <= Top(c) && Top(c) + 4 * (n + 1 - i) <= |m.sram|
    requires forall j | i <= j <= n :: Holds(m.sram, Top(c) + 4 * (j - i), saved[j])
    ensures
      var (c1, m1) := PopN(c, m, i, n);
      && c1 == c.(r := c.r[..i] + saved[i..n + 1] + c.r[n + 1..], sp := c.sp + 4 * (n + 1 - i))
      && OnlyTouches(m, m1, 0, 0)
    decreases n + 1 - i
  {
    hide Pop, OnlyTouches, Holds, WordAligned;
    if i <= n {
      assert Holds(m.sram, Top(c) + 4 * (i - i), saved[i]);
      PopEffect(c, m, saved[i]);
      var (v, c1, m1) := Pop(c, m);
      var c2 := c1.(r := c1.r[i := v]);
      WordAbove(c.sp);
      WrapWord(c.sp + 4);
      hide Wrap32;
      forall j | i + 1 <= j <= n
        ensures Holds(m1.sram, Top(c2) + 4 * (j - (i + 1)), saved[j])
      {
        assert Holds(m.sram, Top(c) + 4 * (j - i), saved[j]);
      }
      SizeKept(m, m1, 0, 0);
      PopNEffect(c2, m1, i + 1, n, saved);
      TouchesTransitive(m, m1, PopN(c, m, i, n).1, 0, 0, 0, 0, 0, 0);
      RegistersSplice(c.r, i, n, saved);
    } else {
      NothingTouched(m);
      assert c.r[..i] + saved[i..n + 1] + c.r[n + 1..] == c.r;
    }
  }

  lemma RegistersSplice(r: seq<uint32>, i: nat, n: RegNo, saved: seq<uint32>)
    requires |r| == 16 && |saved| == 16 && i <= n
    ensures
      var r' := r[i := saved[i]];
      r'[..i + 1] + saved[i + 1..n + 1] + r'[n + 1..] == r[..i] + saved[i..n + 1] + r[n + 1..]
  {
  }

  lemma NothingTouched(m: Memory)
    ensures OnlyTouches(m, m, 0, 0)
  {
  }

  /** pushn n, any change of the registers, PC and the cycle counter, then popn n: r0..rn and SP are
      back, and memory differs only in the 4(n+1) bytes below SP. */
  lemma PushPopIdentity(c: Core, m: Memory, n: RegNo, clobbered: seq<uint32>, pc: uint32, m1': Memory)
    requires c.Valid() && m.Valid() && Room(c, m, n + 1) && |clobbered| == 16
    requires PushN(c, m, n).1.SameBut(m1', PushN(c, m, n).1.sram)
    ensures m1'.Valid()
    ensures
      var c1 := PushN(c, m, n).0;
      var (c2, m2) := PopN(c1.(r := clobbered, pc := pc), m1', 0, n);
      && c2 == c.(r := c.r[..n + 1] + clobbered[n + 1..], pc := pc)
      && OnlyTouches(m, m2, Top(c) - 4 * (n + 1), Top(c))
  {
    hide PushN, PopN, OnlyTouches, Holds, WordAligned;
    PushNEffect(c, m, n);
    var (c1, m1) := PushN(c, m, n);
    SizeKept(m, m1, Top(c1), Top(c));
    var c1' := c1.(r := clobbered, pc := pc);
    forall j | 0 <= j <= n
      ensures Holds(m1'.sram, Top(c1') + 4 * (j - 0), c.r[j])
    {
      assert Holds(m1.sram, Top(c1) + 4 * j, c.r[j]);
    }
    PopNEffect(c1', m1', 0, n, c.r);
    TouchesThenCharge(m, m1, m1', Top(c1), Top(c));
    TouchesTransitive(m, m1', PopN(c1', m1', 0, n).1, Top(c1), Top(c), 0, 0, Top(c1), Top(c));
    assert clobbered[..0] + c.r[0..n + 1] + clobbered[n + 1..] == c.r[..n + 1] + clobbered[n + 1..];
  }

  lemma TouchesThenCharge(m: Memory, m1: Memory, m1': Memory, from: int, to: int)
    requires OnlyTouches(m, m1, from, to) && m1.SameBut(m1', m1.sram)
    ensures OnlyTouches(m, m1', from, to)
  {
  }

  /** A call whose callee is just ret, neither delayed: control resumes after the call with
      SP restored, and only the four bytes below SP were used. */
  lemma CallRetIdentity(c: Core, m: Memory, target: uint32)
    requires c.Valid() && m.Valid() && Room(c, m, 1)
    ensures
      var call := Call(c, m, target, false);
      var ret := Ret(call.core.(pc := Wrap32(target + 2)), call.mem, false);
      && call.core.pc == target && ret.core == c
      && OnlyTouches(m, ret.mem, Top(c) - 4, Top(c))
  {
    hide Push, Pop, OnlyTouches, WordAligned, Holds;
    PushEffect(c, m, c.pc);
    var (c1, m1) := Push(c, m, c.pc);
    var c2 := c1.(pc := Wrap32(target + 2));
    PopEffect(c2, m1, c.pc);
    TouchesTransitive(m, m1, Pop(c2, m1).2, Top(c) - 4, Top(c), 0, 0, Top(c) - 4, Top(c));
  }

  // ---- the handlers' loops ----

  method PushRegisters(cpu: Cpu, n: RegNo)
    requires cpu.State().Valid()
    modifies cpu, cpu.bus
    ensures (cpu.core, cpu.bus.mem) == PushN(FlushExt(old(cpu.core)), old(cpu.bus.mem), n)
    ensures cpu.deferred == old(cpu.deferred)
  {
    hide Memory.Write32;
    cpu.core := FlushExt(cpu.core);
    ghost var goal := PushN(cpu.core, cpu.bus.mem, n);
    var i := n as int;
    while i >= 0
      invariant -1 <= i <= n && cpu.State().Valid() && cpu.deferred == old(cpu.deferred)
      invariant goal == if i < 0 then (cpu.core, cpu.bus.mem) else PushN(cpu.core, cpu.bus.mem, i)
      decreases i
    {
      cpu.core := cpu.core.(sp := Wrap32(cpu.core.sp - 4));
      cpu.bus.Write32(cpu.core.sp, cpu.core.r[i]);
      i := i - 1;
    }
  }

  method PopRegisters(cpu: Cpu, n: RegNo)
    requires cpu.State().Valid()
    modifies cpu, cpu.bus
    ensures (cpu.core, cpu.bus.mem) == PopN(FlushExt(old(cpu.core)), old(cpu.bus.mem), 0, n)
    ensures cpu.deferred == old(cpu.deferred)
  {
    hide Memory.Read32;
    cpu.core := FlushExt(cpu.core);
    ghost var goal := PopN(cpu.core, cpu.bus.mem, 0, n);
    var i := 0;
    while i <= n
      invariant i <= n + 1 && cpu.State().Valid() && cpu.deferred == old(cpu.deferred)
      invariant goal == PopN(cpu.core, cpu.bus.mem, i, n)
    {
      var v := cpu.bus.Read32(cpu.core.sp);
      cpu.core := cpu.core.(r := cpu.core.r[i := v]);
      cpu.core := cpu.core.(sp := Wrap32(cpu.core.sp + 4));
      i := i + 1;
    }
  }
}
