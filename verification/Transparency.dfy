/** An interrupt whose handler is a bare `reti` is invisible to the interrupted program. */
module Transparency {
  import opened Words
  import opened CpuState
  import opened BusModel
  import opened Instructions
  import opened CpuCore
  import opened Sequencing

  /** The first offset of SRAM the trap frame occupies. */
  function FrameStart(m: Machine): int {
    m.mem.SramOffset(Wrap32(m.core.sp - 8))
  }

  /** The eight bytes below SP are aligned, installed SRAM. */
  predicate StackReady(m: Machine) {
    m.mem.SramWord(Wrap32(m.core.sp - 4)) && m.mem.SramWord(Wrap32(m.core.sp - 8))
  }

  /** The vector is an aligned word outside the I/O area, and no bus fault is waiting. */
  predicate VectorReady(m: Machine, t: Trap) {
    var a := VectorAddress(m.core, t);
    a % 4 == 0 && m.mem.Classify(WordAligned(a)) != IO && !m.mem.faultPending
  }

  /** Entered from `m`, the handler starts with `reti`. */
  predicate HandlerIsReti(m: Machine, t: Trap, cfg: Config)
    requires m.Valid()
  {
    var e := m.Enter(t);
    e.core.pc !in cfg.breakpoints && IsReti(e.mem.Fetch16(e.core.pc).0)
  }

  /** The dispatch table binds the reti opcodes to the reti handler. */
  ghost predicate BindsReti(cfg: Config) {
    forall c: Core, m: Memory, insn: uint16 | c.Valid() && m.Valid() && IsReti(insn) ::
      cfg.dispatch(c, m, insn) == Reti(c, m)
  }

  ghost predicate Ready(m: Machine, t: Trap, cfg: Config)
    requires m.Valid()
  {
    m.core.Open() && m.Accepts(t) && StackReady(m) && VectorReady(m, t) && HandlerIsReti(m, t, cfg)
  }

  /** Nothing but the eight SRAM bytes from `from` on and the cycle counter differs. */
  ghost predicate OnlyFrame(m: Memory, m': Memory, from: int) {
    && m.SameBut(m', m'.sram) && |m'.sram| == |m.sram|
    && forall k | 0 <= k < |m.sram| && !(from <= k < from + 8) :: m'.sram[k] == m.sram[k]
  }

  /** `r` is `m` with halt left, up to the eight bytes below SP and the cycle counter. */
  ghost predicate ResumesAs(m: Machine, r: Machine) {
    && r.core == m.core.(inHalt := false, haltMode := Running)
    && r.deferred == m.deferred
    && OnlyFrame(m.mem, r.mem, FrameStart(m))
  }

  /** The table over any implementation of the data instructions qualifies. */
  lemma TableBindsReti(data: Dispatch, strict: bool, breakpoints: set<uint32>)
    ensures BindsReti(Config(TableOver(data, strict), breakpoints, strict))
  {
  }

  // ---- the frame pushed by trap entry ----

  lemma WrapUpDown(a: uint32)
    ensures Wrap32(Wrap32(a - 4) + 4) == a && Wrap32(Wrap32(a - 4) - 4) == Wrap32(a - 8)
    ensures Wrap32(Wrap32(a - 8) + 4) == Wrap32(a - 4)
  {
  }

  lemma FrameWordsAdjacent(m: Machine)
    requires m.Valid() && StackReady(m)
    ensures m.mem.SramOffset(Wrap32(m.core.sp - 4)) == FrameStart(m) + 4
    ensures 0 <= FrameStart(m) && FrameStart(m) + 8 <= |m.mem.sram|
    ensures Wrap32(Wrap32(m.core.sp - 4) - 4) == Wrap32(m.core.sp - 8)
    ensures Wrap32(Wrap32(m.core.sp - 8) + 4) == Wrap32(m.core.sp - 4)
    ensures Wrap32(Wrap32(m.core.sp - 4) + 4) == m.core.sp
  {
    WrapUpDown(m.core.sp);
    var upper := Wrap32(m.core.sp - 4);
    WordBelow(upper);
    hide Wrap32, WordAligned;
    assert Wrap32(m.core.sp - 8) == upper - 4;
  }

  /** SRAM with the two words of a trap frame stored at offset `off`. */
  function Framed(sram: seq<uint8>, off: nat, pc: uint32, raw: uint32): (s: seq<uint8>)
    requires off + 8 <= |sram|
    ensures |s| == |sram|
  {
    Store32(Store32(sram, off + 4, pc), off, raw)
  }

  lemma FramedReadsBack(sram: seq<uint8>, off: nat, pc: uint32, raw: uint32)
    requires off + 8 <= |sram|
    ensures
      var s := Framed(sram, off, pc, raw);
      && Load32(s, off) == raw && Load32(s, off + 4) == pc
      && forall k | 0 <= k < |sram| && !(off <= k < off + 8) :: s[k] == sram[k]
  {
    var s1 := Store32(sram, off + 4, pc);
    LoadOfStore32(sram, off + 4, pc);
    LoadOfStore32(s1, off, raw);
    var s := Store32(s1, off, raw);
    assert s[off + 4] == s1[off + 4] && s[off + 5] == s1[off + 5];
    assert s[off + 6] == s1[off + 6] && s[off + 7] == s1[off + 7];
  }

  lemma VectorReadIsPure(m: Memory, addr: uint32)
    requires m.Valid() && addr % 4 == 0 && m.Classify(WordAligned(addr)) != IO
    ensures m.SameBut(m.Read32(addr).1, m.sram)
  {
  }

  lemma EnterFrame(m: Machine, t: Trap)
    requires m.Valid() && StackReady(m) && VectorReady(m, t)
    ensures 0 <= FrameStart(m) && FrameStart(m) + 8 <= |m.mem.sram|
    ensures
      var e := m.Enter(t);
      && e.core == m.core.(sp := Wrap32(m.core.sp - 8), pc := e.core.pc, psr := e.core.psr,
                           inHalt := false, haltMode := Running)
      && e.deferred == m.deferred
      && m.mem.SameBut(e.mem, Framed(m.mem.sram, FrameStart(m), m.core.pc, m.core.psr.ToRaw()))
  {
    FrameWordsAdjacent(m);
    VectorReadIsPure(m.mem, VectorAddress(m.core, t));
    hide Memory.Classify, Memory.Read32, Psr.ToRaw, Wrap32, WordAligned, Machine.PushWord, Store32;
    var (vector, mem0) := m.mem.Read32(VectorAddress(m.core, t));
    var m0 := m.WithMem(mem0);
    PushWordEffect(m0, m.core.pc);
    PushWordEffect(m0.PushWord(m.core.pc), m.core.psr.ToRaw());
  }

  lemma PushWordEffect(m: Machine, v: uint32)
    requires m.Valid() && m.mem.SramWord(Wrap32(m.core.sp - 4))
    ensures m.mem.SramOffset(Wrap32(m.core.sp - 4)) + 3 < |m.mem.sram|
    ensures
      var a, e := Wrap32(m.core.sp - 4), m.PushWord(v);
      && e == m.(core := m.core.(sp := a), mem := e.mem)
      && m.mem.SameBut(e.mem, Store32(m.mem.sram, m.mem.SramOffset(a), v))
  {
    hide Memory.Write32;
    SramWrite(m.mem, Wrap32(m.core.sp - 4), v);
  }

  /** The two words of a trap frame below `sp`. */
  predicate FrameAt(m: Memory, sp: uint32, pc: uint32, psr: Psr) {
    var lower, upper := Wrap32(sp - 8), Wrap32(sp - 4);
    && m.SramWord(lower) && m.SramWord(upper)
    && m.SramOffset(upper) == m.SramOffset(lower) + 4 && m.SramOffset(lower) + 7 < |m.sram|
    && Load32(m.sram, m.SramOffset(lower)) == psr.ToRaw() && Load32(m.sram, m.SramOffset(lower) + 4) == pc
  }

  /** What trap entry leaves behind, as far as the handler and the interrupted program see it. */
  lemma EnterLeavesFrame(m: Machine, t: Trap)
    requires m.Valid() && StackReady(m) && VectorReady(m, t)
    ensures
      var e := m.Enter(t);
      && e.core == m.core.(sp := Wrap32(m.core.sp - 8), pc := e.core.pc, psr := e.core.psr,
                           inHalt := false, haltMode := Running)
      && e.deferred == m.deferred && !e.mem.faultPending
      && FrameAt(e.mem, m.core.sp, m.core.pc, m.core.psr) && OnlyFrame(m.mem, e.mem, FrameStart(m))
  {
    EnterFrame(m, t);
    FrameWordsAdjacent(m);
    hide Machine.Enter, Framed, FrameAt, OnlyFrame, Psr.ToRaw, Memory.SramOffset, Wrap32, VectorReady;
    FramedMeans(m.mem, m.Enter(t).mem, m.core.sp, m.core.pc, m.core.psr);
  }

  lemma FramedMeans(m: Memory, e: Memory, sp: uint32, pc: uint32, psr: Psr)
    requires m.SramWord(Wrap32(sp - 8)) && m.SramWord(Wrap32(sp - 4))
    requires m.SramOffset(Wrap32(sp - 4)) == m.SramOffset(Wrap32(sp - 8)) + 4
    requires m.SramOffset(Wrap32(sp - 8)) + 8 <= |m.sram|
    requires m.SameBut(e, Framed(m.sram, m.SramOffset(Wrap32(sp - 8)), pc, psr.ToRaw()))
    ensures FrameAt(e, sp, pc, psr) && OnlyFrame(m, e, m.SramOffset(Wrap32(sp - 8)))
  {
    FramedReadsBack(m.sram, m.SramOffset(Wrap32(sp - 8)), pc, psr.ToRaw());
    hide Framed, Psr.ToRaw, Load32, WordAligned, Wrap32;
  }

  lemma FrameThenSame(m: Memory, e: Memory, r: Memory, from: int)
    requires OnlyFrame(m, e, from) && e.SameBut(r, e.sram)
    ensures OnlyFrame(m, r, from)
  {
  }

  /** reti undoes a frame that lies at its SP. */
  lemma RetiRestores(c: Core, m: Memory, sp: uint32, pc: uint32, psr: Psr)
    requires c.Valid() && m.Valid() && c.sp == Wrap32(sp - 8) && c.pendingExt == [] && FrameAt(m, sp, pc, psr)
    ensures
      var eff := Reti(c, m);
      eff.core == c.(sp := sp, psr := psr, pc := pc) && m.SameBut(eff.mem, m.sram) && eff.trap == None
  {
    WrapUpDown(sp);
    FlagsRoundTrip(psr);
    SramRead(m, c.sp);
    var m1 := m.Read32(c.sp).1;
    hide Memory.Read32, Psr.ToRaw, Psr.FromRaw, Load32, WordAligned;
    SramRead(m1, Wrap32(sp - 4));
  }

  // ---- a trap taken at once ----

  /** Stepping from the handler's first instruction when that is reti. */
  lemma StepReti(m: Machine, cfg: Config)
    requires m.Valid() && cfg.Sound() && BindsReti(cfg)
    requires m.core.Open() && !m.core.inHalt && m.core.pc !in cfg.breakpoints
    requires IsReti(m.mem.Fetch16(m.core.pc).0)
    requires Reti(m.Fetched().core, m.Fetched().mem).trap == None
    requires !Reti(m.Fetched().core, m.Fetched().mem).mem.faultPending
    requires m.deferred == None
    ensures
      var eff := Reti(m.Fetched().core, m.Fetched().mem);
      m.Step(cfg) == Machine(eff.core, None, eff.mem)
  {
    var eff := Reti(m.Fetched().core, m.Fetched().mem);
    hide Reti;
    assert m.Fetched().Execute(m.mem.Fetch16(m.core.pc).0, cfg) == Machine(eff.core, None, eff.mem);
  }

  lemma FetchOnlyCharges(m: Machine)
    requires m.Valid()
    ensures m.Fetched().core == m.core.(pc := m.Fetched().core.pc) && m.Fetched().deferred == m.deferred
    ensures m.mem.SameBut(m.Fetched().mem, m.mem.sram)
  {
    hide Memory.Charge, Memory.ReadCycles;
  }

  /** One step of a reti handler that finds a frame. */
  lemma HandlerReturns(e: Machine, cfg: Config, sp: uint32, pc: uint32, psr: Psr)
    requires e.Valid() && cfg.Sound() && BindsReti(cfg)
    requires e.core.Open() && !e.core.inHalt && e.core.pc !in cfg.breakpoints && e.deferred == None
    requires IsReti(e.mem.Fetch16(e.core.pc).0) && !e.mem.faultPending
    requires e.core.sp == Wrap32(sp - 8) && FrameAt(e.mem, sp, pc, psr)
    ensures
      var r := e.Step(cfg);
      r.core == e.core.(sp := sp, psr := psr, pc := pc) && r.deferred == None && e.mem.SameBut(r.mem, e.mem.sram)
  {
    var f := e.Fetched();
    FetchOnlyCharges(e);
    hide Machine.Step, Machine.Fetched, Reti, BindsReti, Config.Sound, Memory.Fetch16, Wrap32;
    SameFrame(e.mem, f.mem, sp, pc, psr);
    hide FrameAt;
    RetiRestores(f.core, f.mem, sp, pc, psr);
    StepReti(e, cfg);
  }

  lemma SameFrame(m: Memory, m': Memory, sp: uint32, pc: uint32, psr: Psr)
    requires m.SameBut(m', m.sram) && FrameAt(m, sp, pc, psr)
    ensures FrameAt(m', sp, pc, psr)
  {
  }

  /** Entering the handler and stepping its reti resumes the interrupted state. */
  lemma EnterThenReti(m: Machine, t: Trap, cfg: Config)
    requires m.Valid() && cfg.Sound() && BindsReti(cfg)
    requires Ready(m, t, cfg) && m.deferred == None
    ensures ResumesAs(m, m.Enter(t).Step(cfg))
  {
    EnterLeavesFrame(m, t);
    var e := m.Enter(t);
    hide Machine.Enter, Machine.Step, BindsReti, Config.Sound, FrameAt, FrameStart, StackReady, VectorReady, IsReti;
    hide Memory.Fetch16, Wrap32, Memory.Valid, OnlyFrame, Memory.SameBut, Machine.Accepts;
    HandlerReturns(e, cfg, m.core.sp, m.core.pc, m.core.psr);
    FrameThenSame(m.mem, e.mem, e.Step(cfg).mem, FrameStart(m));
  }

  /** A trap accepted at an open boundary (a running or halted core alike) whose handler is
      just reti leaves no trace but the frame below SP and the time it took. */
  lemma TransparentAtOnce(m: Machine, t: Trap, cfg: Config)
    requires m.Valid() && cfg.Sound() && BindsReti(cfg)
    requires Ready(m, t, cfg) && m.deferred == None
    ensures ResumesAs(m, m.DoTrap(t).Step(cfg))
  {
    EnterThenReti(m, t, cfg);
    hide Machine.Enter, Machine.Step, ResumesAs;
  }

  // ---- a trap deferred past an EXT target or a delay slot ----

  /** `m` with t in the deferred slot, unless a trap waits there already. */
  function Waiting(m: Machine, t: Trap): (w: Machine)
    ensures m.Valid() ==> w.Valid()
  {
    if m.deferred.None? then m.(deferred := Some(t)) else m
  }

  /** The handler dispatched in this step asserts a trap that has to wait: it takes the one
      deferred slot. */
  predicate Overwrites(m: Machine, cfg: Config)
    requires m.Valid() && cfg.Sound()
  {
    && !m.core.inHalt && m.core.pc !in cfg.breakpoints
    && !m.Refuses(m.mem.Fetch16(m.core.pc).0, cfg.strict)
    && var f := m.Fetched();
       var eff := cfg.dispatch(f.core, f.mem, m.mem.Fetch16(m.core.pc).0);
       eff.trap.Some? && Machine(eff.core, m.deferred, eff.mem).Accepts(eff.trap.value) && !eff.core.Open()
  }

  /** What takes the deferred slot from a waiting trap while EXT or a slot is open: an accepted
      trap, from a device or from the instruction itself. */
  predicate Displaces(m: Machine, e: Event, cfg: Config)
    requires m.Valid() && cfg.Sound()
  {
    match e
    case Tick => Overwrites(m, cfg)
    case Assert(u) => m.Accepts(u)
  }

  /** Some event of the run takes the slot. */
  predicate Displaced(m: Machine, events: seq<Event>, cfg: Config)
    requires m.Valid() && cfg.Sound()
    decreases |events|
  {
    events != []
    && var n := |events| - 1;
       Displaced(m, events[..n], cfg) || Displaces(Run(m, events[..n], cfg), events[n], cfg)
  }

  lemma AdvanceWithDeferred(m: Machine, t: Trap, cfg: Config)
    requires m.Valid() && cfg.Sound() && m.deferred == None
    requires !m.core.inHalt && m.core.pc !in cfg.breakpoints && !m.Refuses(m.mem.Fetch16(m.core.pc).0, cfg.strict)
    ensures m.Advance(cfg).deferred.Some? <==> Overwrites(m, cfg)
    ensures Waiting(m, t).Advance(cfg) == Waiting(m.Advance(cfg), t)
  {
    var insn := m.mem.Fetch16(m.core.pc).0;
    var f := m.Fetched();
    assert Waiting(m, t).Fetched() == f.(deferred := Some(t));
    hide Machine.Fetched, Memory.Fetch16, Machine.Enter;
    ExecuteWithDeferred(f, t, insn, cfg);
  }

  lemma ExecuteWithDeferred(f: Machine, t: Trap, insn: uint16, cfg: Config)
    requires f.Valid() && cfg.Sound() && f.deferred == None
    ensures f.(deferred := Some(t)).Execute(insn, cfg) == Waiting(f.Execute(insn, cfg), t)
  {
    var eff := cfg.dispatch(f.core, f.mem, insn);
    var b := Machine(eff.core, None, eff.mem);
    if eff.trap.Some? && b.Accepts(eff.trap.value) && eff.core.Open() {
      EnterWithDeferred(b, t, eff.trap.value);
    }
    hide Machine.Enter, Machine.Accepts;
  }

  lemma EnterWithDeferred(m: Machine, t: Trap, u: Trap)
    requires m.Valid()
    ensures m.(deferred := Some(t)).Enter(u) == m.Enter(u).(deferred := Some(t))
    ensures m.Enter(u).deferred == m.deferred
  {
    hide Memory.Read32, Memory.Write32, VectorAddress, Psr.ToRaw;
  }

  /** A waiting trap changes nothing about a step except what happens at its end. */
  lemma StepWithDeferred(m: Machine, t: Trap, cfg: Config)
    requires m.Valid() && cfg.Sound() && m.deferred == None && !m.core.Open()
    ensures
      var u := m.Step(cfg);
      && (!u.core.Open() ==> (u.deferred.Some? <==> Overwrites(m, cfg)))
      && (!Overwrites(m, cfg) ==> u.deferred == None)
      && Waiting(m, t).Step(cfg)
         == if Overwrites(m, cfg) then u else if u.core.Open() && !u.core.fault then u.DoTrap(t) else Waiting(u, t)
  {
    if !m.core.inHalt && m.core.pc !in cfg.breakpoints && !m.Refuses(m.mem.Fetch16(m.core.pc).0, cfg.strict) {
      AdvanceWithDeferred(m, t, cfg);
      FireWithDeferred(m.Advance(cfg), t);
      hide Machine.Advance, Overwrites, Memory.Fetch16, Machine.DoTrap, Machine.FireDeferred;
    } else {
      hide Machine.Advance, Machine.DoTrap, Memory.Fetch16;
    }
  }

  lemma FireWithDeferred(a: Machine, t: Trap)
    requires a.Valid()
    ensures !a.FireDeferred().core.Open() ==> a.FireDeferred().deferred.Some? == a.deferred.Some?
    ensures a.deferred.None? ==> a.FireDeferred() == a
    ensures Waiting(a, t).FireDeferred()
         == if a.deferred.Some? then a.FireDeferred()
            else if a.core.Open() && !a.core.fault then a.DoTrap(t) else Waiting(a, t)
  {
    if a.deferred.Some? {
      EntersOpen(a.(deferred := None), a.deferred.value);
    }
    hide Machine.Enter;
  }

  /** Trap entry opens neither EXT nor a slot. */
  lemma EntersOpen(m: Machine, t: Trap)
    requires m.Valid()
    ensures m.Enter(t).core.Open() == m.core.Open()
  {
    hide Memory.Read32, Memory.Write32, VectorAddress, Psr.ToRaw;
  }

  /** While EXT or a slot is open, the run with a trap waiting is the uninterrupted run, event by
      event, up to the deferred slot. */
  lemma {:induction false} Lockstep(m: Machine, t: Trap, events: seq<Event>, cfg: Config)
    requires m.Valid() && cfg.Sound() && m.deferred == None
    requires forall i | 0 <= i <= |events| :: !Run(m, events[..i], cfg).core.Open()
    ensures Run(m, events, cfg).deferred.Some? <==> Displaced(m, events, cfg)
    ensures Run(Waiting(m, t), events, cfg) == Waiting(Run(m, events, cfg), t)
    decreases |events|
  {
    assert events[..|events|] == events;
    if events != [] {
      var n := |events| - 1;
      forall i | 0 <= i <= n
        ensures !Run(m, events[..n][..i], cfg).core.Open()
      {
        assert events[..n][..i] == events[..i];
      }
      Lockstep(m, t, events[..n], cfg);
      hide Machine.Step, Overwrites;
      var b := Run(m, events[..n], cfg);
      if events[n].Tick? && b.deferred == None {
        StepWithDeferred(b, t, cfg);
      }
      if b.deferred.Some? && events[n].Tick? {
        ClosedKeepsDeferred(b, cfg);
      }
    }
  }

  /** A trap in the slot stays there, or gives way to another, while EXT or a slot is open. */
  lemma ClosedKeepsDeferred(m: Machine, cfg: Config)
    requires m.Valid() && cfg.Sound() && m.deferred.Some? && !m.Step(cfg).core.Open()
    ensures m.Step(cfg).deferred.Some?
  {
    var a := if m.core.inHalt || m.core.pc in cfg.breakpoints || m.Refuses(m.mem.Fetch16(m.core.pc).0, cfg.strict)
             then m else m.Advance(cfg);
    if a != m {
      AdvanceKeepsDeferred(m, cfg);
    }
    FireWithDeferred(a, Trap(0, 0));
    hide Machine.Advance, Machine.FireDeferred, Memory.Fetch16, Machine.DoTrap;
  }

  lemma AdvanceKeepsDeferred(m: Machine, cfg: Config)
    requires m.Valid() && cfg.Sound() && m.deferred.Some? && !m.core.inHalt && m.core.pc !in cfg.breakpoints
    ensures m.Advance(cfg).deferred.Some?
  {
    var f := m.Fetched();
    var insn := m.mem.Fetch16(m.core.pc).0;
    var eff := cfg.dispatch(f.core, f.mem, insn);
    if eff.trap.Some? {
      EnterWithDeferred(Machine(eff.core, m.deferred, eff.mem), Trap(0, 0), eff.trap.value);
    }
    hide Machine.Enter, Memory.Fetch16, Machine.Accepts;
  }

  /** ... and at the first boundary where neither is open it is entered if it is accepted there and
      otherwise lost; but if another trap took its slot on the way, nothing is left of it at all. */
  lemma FiresAtFirstBoundary(m: Machine, t: Trap, events: seq<Event>, cfg: Config)
    requires m.Valid() && cfg.Sound() && m.deferred == None && events != []
    requires forall i | 0 <= i < |events| :: !Run(m, events[..i], cfg).core.Open()
    requires Run(m, events, cfg).core.Open() && !Run(m, events, cfg).core.fault
    ensures
      var u := Run(m, events, cfg);
      && (!Displaced(m, events, cfg) ==> u.deferred == None)
      && Run(Waiting(m, t), events, cfg)
         == if Displaced(m, events, cfg) || !u.Accepts(t) then u else u.Enter(t)
  {
    var n := |events| - 1;
    var b := Run(m, events[..n], cfg);
    forall i | 0 <= i <= n
      ensures !Run(m, events[..n][..i], cfg).core.Open()
    {
      assert events[..n][..i] == events[..i];
    }
    Lockstep(m, t, events[..n], cfg);
    hide Machine.Step, Overwrites, Machine.Enter, Machine.Accepts;
    assert events[n] == Tick by {
      TrapsDoNotOpen(b, events[n]);
    }
    if b.deferred == None {
      StepWithDeferred(b, t, cfg);
    }
  }

  lemma TrapsDoNotOpen(m: Machine, e: Event)
    requires m.Valid() && !m.core.Open()
    ensures e.Assert? ==> !m.DoTrap(e.trap).core.Open()
  {
    hide Machine.Enter;
  }

  lemma PrefixesLockstep(m: Machine, t: Trap, events: seq<Event>, cfg: Config)
    requires m.Valid() && cfg.Sound() && m.deferred == None
    requires forall i | 0 <= i < |events| :: !Run(m, events[..i], cfg).core.Open()
    ensures forall i | 0 <= i < |events| ::
              Run(Waiting(m, t), events[..i], cfg) == Waiting(Run(m, events[..i], cfg), t)
  {
    hide Run, Waiting, Displaced;
    forall i | 0 <= i < |events|
      ensures Run(Waiting(m, t), events[..i], cfg) == Waiting(Run(m, events[..i], cfg), t)
    {
      forall j | 0 <= j <= i
        ensures !Run(m, events[..i][..j], cfg).core.Open()
      {
        assert events[..i][..j] == events[..j];
      }
      Lockstep(m, t, events[..i], cfg);
    }
  }

  /** Asserted while EXT or a slot is open, the trap leaves every event before the first open
      boundary as it was.  If another trap takes its slot meanwhile, the run goes on as if it had
      never been asserted; otherwise it is taken at exactly that boundary, and one step of a reti
      handler later the state is that of the uninterrupted run. */
  lemma TransparentWhenDeferred(m: Machine, t: Trap, events: seq<Event>, cfg: Config)
    requires m.Valid() && cfg.Sound() && BindsReti(cfg)
    requires m.deferred == None && m.Accepts(t) && events != []
    requires forall i | 0 <= i < |events| :: !Run(m, events[..i], cfg).core.Open()
    requires Ready(Run(m, events, cfg), t, cfg) && !Run(m, events, cfg).core.fault
    ensures forall i | 0 <= i < |events| ::
              Run(m.DoTrap(t), events[..i], cfg) == Waiting(Run(m, events[..i], cfg), t)
    ensures
      var u, r := Run(m, events, cfg), Run(m.DoTrap(t), events, cfg);
      if Displaced(m, events, cfg) then r == u
      else r == u.Enter(t) && ResumesAs(u, Run(m.DoTrap(t), events + [Tick], cfg))
  {
    var u := Run(m, events, cfg);
    assert events[..0] == [] && !m.core.Open();
    assert m.DoTrap(t) == Waiting(m, t);
    hide Machine.Enter, Machine.Step, Machine.DoTrap, ResumesAs, Memory.Valid;
    hide BindsReti, Config.Sound, FrameStart, StackReady, VectorReady, HandlerIsReti;
    FiresAtFirstBoundary(m, t, events, cfg);
    PrefixesLockstep(m, t, events, cfg);
    if !Displaced(m, events, cfg) {
      EnterThenReti(u, t, cfg);
      assert (events + [Tick])[..|events|] == events;
    }
  }

  // ---- a machine the theorems apply to ----

  const EXAMPLE_TRAP := Trap(16, 1)

  function NopData(c: Core, m: Memory, insn: uint16): Effect { Done(c, m) }

  const EXAMPLE_CONFIG := Config(TableOver(NopData, false), {}, false)

  /** The vector of the trap is 0, where a reti stands; everything else in internal RAM is nop. */
  function ExampleMemory(): (m: Memory)
    ensures m.Valid() && !m.faultPending
  {
    Memory(seq(IRAM_SIZE, k => if k == 0 then 0xC0 else if k == 1 then 0x04 else 0), seq(16, _ => 0), [],
           2, 2, 1, 0, false, (log, a) => 0, [])
  }

  function Example(ext: seq<Imm13>): (m: Machine)
    requires |ext| <= 2
    ensures m.Valid()
  {
    var psr := Psr(false, false, false, false, true, false, false, false, 0, 0);
    Machine(Core(seq(16, _ => 0), 2, SRAM_BASE + 16, 0, 0, psr, ext, false, Running, false, false, 0, 0, 0),
            None, ExampleMemory())
  }

  /** Its memory after any number of cycles and any change of SRAM. */
  lemma ExampleFetches(m: Memory)
    requires m.Valid() && m.iram == ExampleMemory().iram && m.flash == []
    ensures m.Fetch16(0).0 == 0x04C0 && m.Fetch16(2) == (0, m.Charge(1)) && m.Read32(64) == (0, m)
    ensures WordAligned(64) == 64 && m.Classify(64) == IRAM
  {
    hide Memory.Charge, Memory.ReadCycles;
    assert LoadEven(m.iram, 0) == 0x04C0 && LoadEven(m.iram, 2) == 0;
    assert Load32(m.iram, 64) == 0;
  }

  ghost predicate ExampleAt(m: Machine) {
    && m == Example([]).(core := Example([]).core.(pc := m.core.pc), mem := m.mem)
    && m.Valid() && m.mem.iram == ExampleMemory().iram && m.mem.flash == [] && |m.mem.sram| == 16
    && !m.mem.faultPending
  }

  lemma ExampleIsReady(m: Machine)
    requires ExampleAt(m)
    ensures Ready(m, EXAMPLE_TRAP, EXAMPLE_CONFIG)
  {
    ExampleStack(m);
    ExampleVector(m);
    ExampleHandler(m);
    hide StackReady, VectorReady, HandlerIsReti, ExampleMemory;
  }

  lemma ExampleVector(m: Machine)
    requires ExampleAt(m)
    ensures VectorAddress(m.core, EXAMPLE_TRAP) == 64 && VectorReady(m, EXAMPLE_TRAP)
  {
    hide ExampleMemory;
    ExampleFetches(m.mem);
  }

  lemma ExampleEntered(m: Machine)
    requires ExampleAt(m)
    ensures
      var e := m.Enter(EXAMPLE_TRAP);
      e.core.pc == 0 && e.mem.iram == ExampleMemory().iram && e.mem.flash == []
  {
    ExampleStack(m);
    ExampleVector(m);
    ExampleFetches(m.mem);
    hide Machine.Enter, Memory.Fetch16, Memory.Read32, Framed, StackReady, VectorReady, FrameStart;
    hide ExampleMemory, Memory.Classify, Psr.ToRaw, Memory.SramOffset;
    EnterFrame(m, EXAMPLE_TRAP);
    EntersAtVector(m, EXAMPLE_TRAP);
  }

  lemma ExampleHandler(m: Machine)
    requires ExampleAt(m)
    ensures HandlerIsReti(m, EXAMPLE_TRAP, EXAMPLE_CONFIG)
  {
    hide Machine.Enter, Memory.Fetch16, ExampleMemory;
    ExampleEntered(m);
    ExampleFetches(m.Enter(EXAMPLE_TRAP).mem);
  }

  lemma EntersAtVector(m: Machine, t: Trap)
    requires m.Valid()
    ensures m.Enter(t).core.pc == m.mem.Read32(VectorAddress(m.core, t)).0
  {
    hide Memory.Read32, Machine.PushWord, VectorAddress;
  }

  lemma ExampleStack(m: Machine)
    requires m.core.sp == SRAM_BASE + 16 && |m.mem.sram| == 16
    ensures StackReady(m)
  {
    var a, b := Wrap32(m.core.sp - 4), Wrap32(m.core.sp - 8);
    assert a == SRAM_BASE + 12 && b == SRAM_BASE + 8;
    assert WordAligned(a) == a && WordAligned(b) == b;
  }

  lemma ExampleConfig()
    ensures EXAMPLE_CONFIG.Sound() && BindsReti(EXAMPLE_CONFIG)
  {
    TableBindsReti(NopData, false, {});
  }

  /** The premises of TransparentAtOnce and of TransparentWhenDeferred can be met: a trap while the
      core runs, and one asserted between an EXT and its target. */
  lemma ExamplesExist()
    ensures EXAMPLE_CONFIG.Sound() && BindsReti(EXAMPLE_CONFIG)
    ensures Ready(Example([]), EXAMPLE_TRAP, EXAMPLE_CONFIG) && Example([]).deferred == None
    ensures
      var m := Example([0]);
      && m.deferred == None && m.Accepts(EXAMPLE_TRAP) && !m.core.Open() && !Displaced(m, [Tick], EXAMPLE_CONFIG)
      && Ready(Run(m, [Tick], EXAMPLE_CONFIG), EXAMPLE_TRAP, EXAMPLE_CONFIG)
      && !Run(m, [Tick], EXAMPLE_CONFIG).core.fault
  {
    ExampleConfig();
    hide Machine.Step, Ready, Memory.Fetch16, Overwrites, BindsReti, Config.Sound, TableOver;
    ExampleIsReady(Example([]));
    ExampleStep();
    var m, u := Example([0]), Example([0]).Step(EXAMPLE_CONFIG);
    assert ExampleAt(u);
    ExampleIsReady(u);
    hide ExampleMemory, ExampleAt;
    OneTick(m, EXAMPLE_CONFIG);
  }

  lemma OneTick(m: Machine, cfg: Config)
    requires m.Valid() && cfg.Sound()
    ensures Run(m, [Tick], cfg) == m.Step(cfg) && (Displaced(m, [Tick], cfg) <==> Overwrites(m, cfg))
  {
    hide Machine.Step, Overwrites;
    assert [Tick][..0] == [];
    assert Run(m, [], cfg) == m && !Displaced(m, [], cfg);
  }

  /** The nop after the EXT. */
  lemma ExampleStep()
    ensures EXAMPLE_CONFIG.Sound() && !Overwrites(Example([0]), EXAMPLE_CONFIG)
    ensures
      var m := Example([0]);
      m.Step(EXAMPLE_CONFIG) == Machine(Example([]).core.(pc := 4), None, m.mem.Charge(1))
  {
    ExampleConfig();
    var m := Example([0]);
    ExampleFetches(m.mem);
    hide Memory.Fetch16, Memory.Charge, ExampleMemory;
    var f := m.Fetched();
    NopEffect(f.core, f.mem);
  }

  lemma NopEffect(c: Core, m: Memory)
    requires c.Valid() && m.Valid()
    ensures EXAMPLE_CONFIG.dispatch(c, m, 0) == Done(FlushExt(c), m)
  {
    assert Cls(0) == 0 && C0Op1(0) == 0 && C0Op2(0) == 0;
  }
}
