/** The CPU loop of retro_run: one frame's worth of cycles, peripherals ticked coarsely, halts
    skipped to the next wake point (piece_libretro.cpp). */
module FrameLoop {
  import opened Clock

  /** What one Cpu::step does to the loop: its cost, and the halt, sleep and fault flags after it. */
  datatype StepOutcome = StepOutcome(cost: nat, halts: bool, sleeps: bool, faults: bool)

  /** One do_tick as the loop sees it: the wake points of a halted and of a sleeping core just
      before it, the next wake point after it, and whether an interrupt it delivered woke the core. */
  datatype TickOutcome = TickOutcome(haltWake: nat, sleepWake: nat, nextWake: nat, wakes: bool)

  /** The core and the peripherals: arbitrary scripts of outcomes, one entry per call. */
  datatype Env = Env(steps: nat -> StepOutcome, ticks: nat -> TickOutcome)
  {
    /** Every instruction costs at least one cycle. */
    ghost predicate Costly() {
      forall k :: steps(k).cost >= 1
    }
  }

  /** History: an instruction, a tick taken because it was due, or a tick after a halted core's
      jump, with the time it started and the time of the tick before it. */
  datatype Event = Instruction(at: nat, lastTick: nat) | DueTick(at: nat, lastTick: nat) | HaltTick(at: nat, lastTick: nat)

  datatype Loop = Loop(stepsDone: nat, ticksDone: nat, total: nat, nextWake: nat,
                       inHalt: bool, sleeping: bool, fault: bool, lastCost: nat, lastTick: nat, log: seq<Event>)

  function Clamp(x: nat, lo: nat, hi: nat): nat
    requires lo <= hi
  {
    Min(Max(x, lo), hi)
  }

  function Stepped(l: Loop, env: Env): Loop {
    var s := env.steps(l.stepsDone);
    l.(stepsDone := l.stepsDone + 1, total := l.total + s.cost, lastCost := s.cost,
       inHalt := s.halts || s.faults, sleeping := s.sleeps, fault := s.faults,
       log := l.log + [Instruction(l.total, l.lastTick)])
  }

  /** do_tick: the next tick is due no sooner than one burst and no later than four. */
  function Ticked(l: Loop, env: Env, burst: nat): Loop {
    var t := env.ticks(l.ticksDone);
    l.(ticksDone := l.ticksDone + 1, lastTick := l.total,
       inHalt := l.inHalt && !t.wakes, sleeping := l.sleeping && !t.wakes,
       nextWake := if t.nextWake == NEVER then l.total + 4 * burst
                   else Clamp(t.nextWake, l.total + burst, l.total + 4 * burst))
  }

  /** Where a halted core jumps to. */
  function AdvanceTo(total: nat, wake: nat, burst: nat, target: nat): nat {
    Min(Max(if wake == NEVER then target else wake, total + burst), target)
  }

  /** The inner loop: step until the stop point, a halt or a fault. */
  ghost function RunTo(l: Loop, env: Env, stop: nat): Loop
    requires env.Costly()
    decreases stop - l.total
  {
    if l.inHalt || l.fault || stop <= l.total then l else RunTo(Stepped(l, env), env, stop)
  }

  /** The instructions of one turn. */
  ghost function Ran(l: Loop, env: Env, target: nat): Loop
    requires env.Costly()
  {
    RunTo(l, env, Min(l.nextWake, target))
  }

  /** The tick that fell due meanwhile. */
  function Caught(l: Loop, env: Env, burst: nat): Loop {
    if l.nextWake <= l.total then Ticked(l.(log := l.log + [DueTick(l.total, l.lastTick)]), env, burst) else l
  }

  /** A halted core jumps to its wake point and ticks. */
  function Woken(l: Loop, env: Env, burst: nat, target: nat): Loop {
    var t := env.ticks(l.ticksDone);
    var at := AdvanceTo(l.total, if l.sleeping then t.sleepWake else t.haltWake, burst, target);
    Ticked(l.(total := at, log := l.log + [HaltTick(at, l.lastTick)]), env, burst)
  }

  /** One turn of the outer loop. */
  ghost function Turn(l: Loop, env: Env, burst: nat, target: nat): Loop
    requires env.Costly()
  {
    var l1 := Ran(l, env, target);
    if l1.fault then l1
    else
      var l2 := Caught(l1, env, burst);
      if l2.inHalt then Woken(l2, env, burst, target) else l2
  }

  ghost function Frame(l: Loop, env: Env, burst: nat, target: nat): Loop
    requires env.Costly() && burst >= 1
    decreases target - l.total, if l.nextWake <= l.total then 1 else 0
  {
    if target <= l.total || l.fault then l
    else
      TurnAdvances(l, env, burst, target);
      Frame(Turn(l, env, burst, target), env, burst, target)
  }

  // ---- termination and overshoot ----

  /** A turn sets emulated time back if and only if its last instruction overshot the target and
      left the core halted, past the tick that fell due. */
  lemma TurnRewindsIff(l: Loop, env: Env, burst: nat, target: nat)
    requires env.Costly() && burst >= 1
    ensures
      var l1 := Ran(l, env, target);
      Turn(l, env, burst, target).total < l1.total
      <==> !l1.fault && target < l1.total && Caught(l1, env, burst).inHalt
  {
    hide Ran;
  }

  /** A halted core stops at its wake point, that of sleep mode if it sleeps: never past the frame's
      end, never later than the wake point or one burst on, and short of either of these only at
      the frame's end.  The peripherals are ticked there. */
  lemma HaltStopsAtWake(l: Loop, env: Env, burst: nat, target: nat)
    ensures
      var t, r := env.ticks(l.ticksDone), Woken(l, env, burst, target);
      var wake := if l.sleeping then t.sleepWake else t.haltWake;
      && r.lastTick == r.total <= target && r.log == l.log + [HaltTick(r.total, l.lastTick)]
      && (wake == NEVER ==> r.total == target)
      && (wake != NEVER ==> r.total <= wake || r.total <= l.total + burst)
      && (r.total == target || (wake <= r.total && l.total + burst <= r.total))
  {
  }

  /** The next tick is due at the peripherals' wake point where that keeps the distance of one to
      four bursts, and otherwise at the nearer of these limits. */
  lemma NextTickAtWake(l: Loop, env: Env, burst: nat)
    ensures
      var t, r := env.ticks(l.ticksDone), Ticked(l, env, burst);
      var first, last := l.total + burst, l.total + 4 * burst;
      && (first <= t.nextWake <= last && t.nextWake != NEVER ==> r.nextWake == t.nextWake)
      && (t.nextWake < first && t.nextWake != NEVER ==> r.nextWake == first)
      && (last < t.nextWake || t.nextWake == NEVER ==> r.nextWake == last)
  {
  }

  /** Stepping up to a stop point overshoots it by less than the last instruction's cost. */
  lemma {:induction false} RunToStops(l: Loop, env: Env, stop: nat)
    requires env.Costly()
    ensures
      var r := RunTo(l, env, stop);
      && (r.inHalt || r.fault || stop <= r.total)
      && (r == l || (l.total < r.total < stop + r.lastCost && r.lastCost >= 1))
      && r.nextWake == l.nextWake && r.ticksDone == l.ticksDone && r.lastTick == l.lastTick
    decreases stop - l.total
  {
    if !(l.inHalt || l.fault || stop <= l.total) {
      RunToStops(Stepped(l, env), env, stop);
    }
  }

  /** A turn brings the target closer or, the target as far, leaves no tick due. */
  lemma TurnAdvances(l: Loop, env: Env, burst: nat, target: nat)
    requires env.Costly() && burst >= 1 && l.total < target && !l.fault
    ensures
      var r := Turn(l, env, burst, target);
      && (l.total < r.total || (r.total == l.total && l.nextWake <= l.total < r.nextWake))
      && (r.total <= target || (r.total < target + r.lastCost && r.lastCost >= 1))
      && (r.lastCost == l.lastCost || r.lastCost >= 1)
  {
    RunToStops(l, env, Min(l.nextWake, target));
    hide RunTo;
  }

  /** For any step costs and wake points the frame ends, on a fault or at the target with less
      than the last instruction's cost of overshoot. */
  lemma {:induction false} FrameEnds(l: Loop, env: Env, burst: nat, target: nat)
    requires env.Costly() && burst >= 1 && l.total < target + l.lastCost && l.lastCost >= 1
    ensures
      var r := Frame(l, env, burst, target);
      r.lastCost >= 1 && (r.fault || target <= r.total) && r.total < target + r.lastCost
    decreases target - l.total, if l.nextWake <= l.total then 1 else 0
  {
    hide Turn;
    if l.total < target && !l.fault {
      TurnAdvances(l, env, burst, target);
      FrameEnds(Turn(l, env, burst, target), env, burst, target);
    }
  }

  // ---- tick spacing ----

  /** No instruction starts four bursts or more after the last tick, and no due tick comes within
      one burst of the one before. */
  predicate InTime(e: Event, burst: nat) {
    match e
    case Instruction(at, lastTick) => at < lastTick + 4 * burst
    case DueTick(at, lastTick) => lastTick == 0 || lastTick + burst <= at
    case HaltTick(_, _) => true
  }

  predicate Scheduled(l: Loop, burst: nat) {
    && l.nextWake <= l.lastTick + 4 * burst && (l.lastTick == 0 || l.lastTick + burst <= l.nextWake)
    && forall e | e in l.log :: InTime(e, burst)
  }

  lemma {:induction false} RunToScheduled(l: Loop, env: Env, stop: nat, burst: nat)
    requires env.Costly() && Scheduled(l, burst) && stop <= l.nextWake
    ensures Scheduled(RunTo(l, env, stop), burst)
    decreases stop - l.total
  {
    if !(l.inHalt || l.fault || stop <= l.total) {
      RunToScheduled(Stepped(l, env), env, stop, burst);
    }
  }

  /** Coarse ticking delays an interrupt by a bounded time only: over every frame instructions
      run less than four bursts after the last tick, and due ticks keep a burst's distance. */
  lemma {:induction false} FrameKeepsSchedule(l: Loop, env: Env, burst: nat, target: nat)
    requires env.Costly() && burst >= 1 && Scheduled(l, burst)
    ensures Scheduled(Frame(l, env, burst, target), burst)
    decreases target - l.total, if l.nextWake <= l.total then 1 else 0
  {
    if l.total < target && !l.fault {
      TurnAdvances(l, env, burst, target);
      TurnKeepsSchedule(l, env, burst, target);
      hide Turn, Scheduled;
      FrameKeepsSchedule(Turn(l, env, burst, target), env, burst, target);
    }
  }

  lemma TurnKeepsSchedule(l: Loop, env: Env, burst: nat, target: nat)
    requires env.Costly() && burst >= 1 && Scheduled(l, burst)
    ensures Scheduled(Turn(l, env, burst, target), burst)
  {
    RunToScheduled(l, env, Min(l.nextWake, target), burst);
    hide RunTo;
  }

  // ---- a frame in which time runs backwards ----

  /** The cycle counts the peripherals are ticked with, in order. */
  function TickTimes(log: seq<Event>): seq<nat> {
    if log == [] then []
    else TickTimes(log[..|log| - 1]) + if log[|log| - 1].Instruction? then [] else [log[|log| - 1].at]
  }

  const INITIAL := Loop(0, 0, 0, 0, false, false, false, 1, 0, [])

  /** Every instruction takes ten cycles and halts; no peripheral ever wakes the core. */
  const HALTING := Env(_ => StepOutcome(10, true, false, false), _ => TickOutcome(NEVER, NEVER, NEVER, false))

  /** From the initial state a frame of five cycles ticks the peripherals at 0, at 10 and then at 5. */
  lemma RewindHappens()
    ensures HALTING.Costly()
    ensures
      var r := Frame(INITIAL, HALTING, 2, 5);
      r.total == 5 && TickTimes(r.log) == [0, 10, 5]
  {
    var l1 := Turn(INITIAL, HALTING, 2, 5);
    assert l1 == INITIAL.(ticksDone := 1, nextWake := 8, log := [DueTick(0, 0)]);
    var ran := Stepped(l1, HALTING);
    assert RunTo(l1, HALTING, 5) == ran;
    var l2 := Turn(l1, HALTING, 2, 5);
    assert l2.total == 5 && l2.log == [DueTick(0, 0), Instruction(0, 0), DueTick(10, 0), HaltTick(5, 10)];
    hide Turn, Frame;
    FrameUnrolls(INITIAL, HALTING, 2, 5);
    FrameUnrolls(l1, HALTING, 2, 5);
    FrameDone(l2, HALTING, 2, 5);
    TickTimesSnoc([], DueTick(0, 0));
    TickTimesSnoc([DueTick(0, 0)], Instruction(0, 0));
    TickTimesSnoc([DueTick(0, 0), Instruction(0, 0)], DueTick(10, 0));
    TickTimesSnoc([DueTick(0, 0), Instruction(0, 0), DueTick(10, 0)], HaltTick(5, 10));
  }

  lemma TickTimesSnoc(log: seq<Event>, e: Event)
    ensures TickTimes(log + [e]) == TickTimes(log) + if e.Instruction? then [] else [e.at]
  {
    assert (log + [e])[..|log|] == log;
  }

  // ---- the loop, in place ----

  class Emulator {
    const env: Env
    var stepsDone: nat
    var ticksDone: nat
    var total: nat
    var nextWake: nat
    var inHalt: bool
    var sleeping: bool
    var fault: bool
    ghost var lastCost: nat  // cost of the latest step, 1 before the first
    ghost var lastTick: nat
    ghost var log: seq<Event>

    constructor (env: Env)
      ensures this.env == env && View() == INITIAL
    {
      this.env := env;
      stepsDone, ticksDone, total, nextWake, inHalt, sleeping, fault := 0, 0, 0, 0, false, false, false;
      lastCost, lastTick, log := 1, 0, [];
    }

    ghost function View(): Loop
      reads this
    {
      Loop(stepsDone, ticksDone, total, nextWake, inHalt, sleeping, fault, lastCost, lastTick, log)
    }

    method Step()
      modifies this
      ensures View() == Stepped(old(View()), env)
    {
      log := log + [Instruction(total, lastTick)];
      var s := env.steps(stepsDone);
      stepsDone := stepsDone + 1;
      total, lastCost := total + s.cost, s.cost;
      inHalt, sleeping, fault := s.halts || s.faults, s.sleeps, s.faults;
    }

    method DoTick(burst: nat)
      modifies this
      ensures View() == Ticked(old(View()), env, burst)
    {
      lastTick := total;
      var t := env.ticks(ticksDone);
      ticksDone := ticksDone + 1;
      if t.wakes {
        inHalt, sleeping := false, false;
      }
      var earliest, latest := total + burst, total + 4 * burst;
      nextWake := if t.nextWake == NEVER then latest else Clamp(t.nextWake, earliest, latest);
    }

    method RunFrame(budget: nat, burst: nat)
      requires env.Costly() && burst >= 1 && lastCost >= 1
      modifies this
      ensures View() == Frame(old(View()), env, burst, old(total) + budget)
      ensures fault || old(total) + budget <= total < old(total) + budget + lastCost
    {
      var target := total + budget;
      FrameEnds(View(), env, burst, target);
      hide Frame, Turn;
      while total < target && !fault
        invariant Frame(View(), env, burst, target) == Frame(old(View()), env, burst, target)
        decreases target - total, if nextWake <= total then 1 else 0
      {
        TurnAdvances(View(), env, burst, target);
        FrameUnrolls(View(), env, burst, target);
        RunTurn(burst, target);
      }
      FrameDone(View(), env, burst, target);
    }

    /** The body of the outer loop. */
    method RunTurn(burst: nat, target: nat)
      requires env.Costly() && !fault
      modifies this
      ensures View() == Turn(old(View()), env, burst, target)
    {
      RunUntil(Min(nextWake, target));
      if fault {
        return;
      }
      if nextWake <= total {
        log := log + [DueTick(total, lastTick)];
        DoTick(burst);
      }
      if inHalt {
        var t := env.ticks(ticksDone);
        var wake := if sleeping then t.sleepWake else t.haltWake;
        total := AdvanceTo(total, wake, burst, target);
        log := log + [HaltTick(total, lastTick)];
        DoTick(burst);
      }
    }

    method RunUntil(stop: nat)
      requires env.Costly()
      modifies this
      ensures View() == RunTo(old(View()), env, stop)
    {
      while !inHalt && !fault && total < stop
        invariant RunTo(View(), env, stop) == RunTo(old(View()), env, stop)
        decreases stop - total
      {
        Step();
      }
    }
  }

  lemma FrameUnrolls(l: Loop, env: Env, burst: nat, target: nat)
    requires env.Costly() && burst >= 1 && l.total < target && !l.fault
    ensures Frame(l, env, burst, target) == Frame(Turn(l, env, burst, target), env, burst, target)
  {
    hide Turn;
  }

  lemma FrameDone(l: Loop, env: Env, burst: nat, target: nat)
    requires env.Costly() && burst >= 1 && (target <= l.total || l.fault)
    ensures Frame(l, env, burst, target) == l
  {
  }
}
