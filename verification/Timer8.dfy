/** The 8-bit down-counter with reload: an analytical tick and its wake point
    (peripheral_t8.hpp, peripheral_t8.cpp). */
module Timer8 {
  import opened Words
  import opened DivMod
  import opened Clock

  /** `cpc` is the cycles per count, 0 while the clock is stopped. */
  datatype Timer = Timer(rld: uint8, ptd: uint8, running: bool, nextTick: nat, cpc: nat)
  {
    predicate Due(c: nat) { running && nextTick <= c && cpc != 0 }

    function Counts(c: nat): (n: nat)
      requires Due(c)
      ensures n >= 1
    {
      WindowCounts(nextTick, cpc, c)
    }
  }

  /** The timer after a tick, and whether it raised the underflow interrupt. */
  datatype Tick = Tick(timer: Timer, raised: bool)

  function DoTick(t: Timer, c: nat): Tick {
    if !t.Due(c) then Tick(t, false)
    else
      var n := t.Counts(c);
      var t1 := t.(nextTick := t.nextTick + n * t.cpc);
      if n <= t.ptd then Tick(t1.(ptd := t.ptd - n), false)
      else Tick(t1.(ptd := t.rld - (n - t.ptd - 1) % (t.rld as int + 1)), true)
  }

  function NextWake(t: Timer): nat {
    if !t.running || t.cpc == 0 then NEVER else t.nextTick + t.ptd * t.cpc
  }

  // ---- the reference: one count at a time ----

  /** One input clock: decrement, or underflow and reload. */
  function Step(ptd: uint8, rld: uint8): uint8 {
    if ptd == 0 then rld else ptd - 1
  }

  function After(ptd: uint8, rld: uint8, n: nat): uint8 {
    if n == 0 then ptd else Step(After(ptd, rld, n - 1), rld)
  }

  /** Some count in 1..n finds the counter at zero. */
  ghost predicate Underflows(ptd: uint8, rld: uint8, n: nat) {
    exists j | 0 <= j < n :: After(ptd, rld, j) == 0
  }

  /** The reference run up to cycle c: as many single counts as the clock delivers. */
  ghost predicate IsReference(t: Timer, c: nat, r: Tick) {
    if !t.Due(c) then r == Tick(t, false)
    else
      var n := t.Counts(c);
      && r.timer == t.(ptd := After(t.ptd, t.rld, n), nextTick := t.nextTick + n * t.cpc)
      && (r.raised <==> Underflows(t.ptd, t.rld, n))
  }

  /** Closed form of the reference, without the first underflow and from it on. */
  lemma {:induction false} AfterClosedForm(ptd: uint8, rld: uint8, n: nat)
    ensures After(ptd, rld, n) == if n <= ptd then ptd - n else rld - (n - ptd - 1) % (rld as int + 1)
  {
    if n > 0 {
      var m := rld as int + 1;
      AfterClosedForm(ptd, rld, n - 1);
      if n == ptd as int + 1 {
        DivisionUnique(0, m, 0, 0);
      } else if n > ptd as int + 1 {
        ModStep(n - ptd - 2, m);
      }
    }
  }

  lemma UnderflowsIff(ptd: uint8, rld: uint8, n: nat)
    ensures Underflows(ptd, rld, n) <==> ptd < n
  {
    hide After;
    if ptd < n {
      AfterClosedForm(ptd, rld, ptd);
      assert After(ptd, rld, ptd) == 0;
    } else {
      forall j | 0 <= j < n
        ensures After(ptd, rld, j) != 0
      {
        AfterClosedForm(ptd, rld, j);
      }
    }
  }

  /** One analytical tick is the reference run. */
  lemma TickIsReference(t: Timer, c: nat)
    ensures IsReference(t, c, DoTick(t, c))
  {
    hide After, Underflows;
    if t.Due(c) {
      AfterClosedForm(t.ptd, t.rld, t.Counts(c));
      UnderflowsIff(t.ptd, t.rld, t.Counts(c));
    }
  }

  // ---- any schedule of ticks ----

  lemma {:induction false} AfterAdds(ptd: uint8, rld: uint8, n: nat, k: nat)
    ensures After(After(ptd, rld, n), rld, k) == After(ptd, rld, n + k)
  {
    if k > 0 {
      AfterAdds(ptd, rld, n, k - 1);
    }
  }

  lemma CountsAdd(t: Timer, t1: Timer, c1: nat, c2: nat)
    requires t.Due(c1) && c1 <= c2 && t1.running && t1.cpc == t.cpc
    requires t1.nextTick == t.nextTick + t.Counts(c1) * t.cpc
    ensures t.Due(c2) && t.Counts(c2) == t.Counts(c1) + if t1.Due(c2) then t1.Counts(c2) else 0
  {
    WindowsAdd(t.nextTick, t.cpc, c1, c2);
  }

  /** A tick at c1 on the way to c2 changes nothing about the outcome, raises included. */
  lemma SplitTick(t: Timer, c1: nat, c2: nat)
    requires c1 <= c2
    ensures
      var r1 := DoTick(t, c1);
      var r2 := DoTick(r1.timer, c2);
      r2.timer == DoTick(t, c2).timer && (r1.raised || r2.raised <==> DoTick(t, c2).raised)
  {
    if t.Due(c1) {
      var r1 := DoTick(t, c1);
      CountsAdd(t, r1.timer, c1, c2);
      if r1.timer.Due(c2) {
        SecondTick(t, r1.timer, c1, c2);
      }
    }
  }

  lemma SecondTick(t: Timer, t1: Timer, c1: nat, c2: nat)
    requires c1 <= c2 && t.Due(c1) && t1 == DoTick(t, c1).timer && t1.Due(c2)
    ensures
      var r2 := DoTick(t1, c2);
      r2.timer == DoTick(t, c2).timer && (DoTick(t, c1).raised || r2.raised <==> DoTick(t, c2).raised)
  {
    hide DoTick, After, Underflows, Timer.Counts;
    TickIsReference(t, c1);
    TickIsReference(t, c2);
    TickIsReference(t1, c2);
    CountsAdd(t, t1, c1, c2);
    var n, k := t.Counts(c1), t1.Counts(c2);
    AfterAdds(t.ptd, t.rld, n, k);
    AfterClosedForm(t.ptd, t.rld, n);
    UnderflowsIff(t.ptd, t.rld, n);
    UnderflowsIff(t1.ptd, t.rld, k);
    UnderflowsIff(t.ptd, t.rld, n + k);
    assert t.nextTick + n * t.cpc + k * t.cpc == t.nextTick + (n + k) * t.cpc;
  }

  /** A tick that comes with an earlier time than the one before does nothing. */
  lemma BackwardTick(t: Timer, c1: nat, c2: nat)
    requires c2 <= c1
    ensures DoTick(DoTick(t, c1).timer, c2) == Tick(DoTick(t, c1).timer, false)
  {
    if t.Due(c1) {
      NextBeyond(t.nextTick, t.cpc, c1);
    }
  }

  function TickAll(t: Timer, cs: seq<nat>): Tick {
    if cs == [] then Tick(t, false)
    else
      var r := TickAll(t, cs[..|cs| - 1]);
      var last := DoTick(r.timer, cs[|cs| - 1]);
      Tick(last.timer, r.raised || last.raised)
  }

  /** Schedule independence: however the time is cut into ticks, and in whatever order they come,
      counter, schedule and whether an underflow was raised are those of the one-count-at-a-time
      counter at the latest tick. */
  lemma {:induction false} ScheduleIndependent(t: Timer, cs: seq<nat>)
    requires cs != []
    ensures TickAll(t, cs) == DoTick(t, Latest(cs))
    ensures IsReference(t, Latest(cs), TickAll(t, cs))
  {
    hide DoTick, IsReference;
    var n := |cs| - 1;
    TickIsReference(t, Latest(cs));
    if n == 0 {
      assert TickAll(t, cs[..0]) == Tick(t, false);
    } else {
      ScheduleIndependent(t, cs[..n]);
      var c1 := Latest(cs[..n]);
      if c1 <= cs[n] {
        SplitTick(t, c1, cs[n]);
      } else {
        BackwardTick(t, c1, cs[n]);
      }
    }
  }

  /** The wake point is exact: a tick raises from that cycle on and not before. */
  lemma WakeIsExact(t: Timer, c: nat)
    requires t.running && t.cpc != 0
    ensures DoTick(t, c).raised <==> NextWake(t) <= c
  {
    ScaleMonotone(0, t.ptd, t.cpc);
    if t.Due(c) {
      hide WindowCounts;
      WindowReaches(t.nextTick, t.cpc, c, t.ptd as int + 1);
    }
  }

  /** The timer after a pause: stopped, ticked at any times meanwhile, and running again. */
  function Paused(t: Timer, cs: seq<nat>): Timer {
    TickAll(t.(running := false), cs).timer.(running := true)
  }

  /** PTRUN = 0 stops ticks but not the schedule: once running again, the first due tick counts
      the stopped time too, so a pause leaves no trace in the counter. */
  lemma PauseIsCountedAfterRestart(t: Timer, cs: seq<nat>, c: nat)
    requires t.running
    ensures DoTick(Paused(t, cs), c) == DoTick(t, c)
  {
    StoppedIgnoresTicks(t.(running := false), cs);
  }

  /** Counter and raise are those of a counter that missed k of its n counts. */
  ghost predicate LooksFrozen(t: Timer, r: Tick, n: nat, k: nat)
    requires k <= n
  {
    r.timer.ptd == After(t.ptd, t.rld, n - k) && (r.raised <==> Underflows(t.ptd, t.rld, n - k))
  }

  /** For a timer stopped at cycle `stop` and restarted at `restart`: it behaves as if frozen in
      between if and only if no count fell due meanwhile, or it underflowed anyway and the counts
      that fell due are whole periods. */
  lemma PauseFreezesIff(t: Timer, cs: seq<nat>, stop: nat, restart: nat, c: nat)
    requires t.running && t.cpc != 0 && stop <= restart <= c
    ensures
      var n := CountsBy(t.nextTick, t.cpc, c);
      var k := CountsBy(t.nextTick, t.cpc, restart) - CountsBy(t.nextTick, t.cpc, stop);
      && 0 <= k <= n
      && (LooksFrozen(t, DoTick(Paused(t, cs), c), n, k)
          <==> k == 0 || (t.ptd < n - k && k % (t.rld as int + 1) == 0))
  {
    PauseIsCountedAfterRestart(t, cs, c);
    CountsByMonotone(t.nextTick, t.cpc, stop, restart);
    CountsByMonotone(t.nextTick, t.cpc, restart, c);
    TickIsReference(t, c);
    var n := CountsBy(t.nextTick, t.cpc, c);
    var k := CountsBy(t.nextTick, t.cpc, restart) - CountsBy(t.nextTick, t.cpc, stop);
    hide DoTick, CountsBy, Underflows, Paused;
    FrozenIff(t.ptd, t.rld, n, k);
    UndueLooksIdle(t, c);
  }

  lemma UndueLooksIdle(t: Timer, c: nat)
    requires t.running && t.cpc != 0
    ensures CountsBy(t.nextTick, t.cpc, c) == if t.Due(c) then t.Counts(c) else 0
    ensures !Underflows(t.ptd, t.rld, 0)
  {
  }

  lemma FrozenIff(ptd: uint8, rld: uint8, n: nat, k: nat)
    requires k <= n
    ensures (After(ptd, rld, n) == After(ptd, rld, n - k) && (Underflows(ptd, rld, n) <==> Underflows(ptd, rld, n - k)))
        <==> k == 0 || (ptd < n - k && k % (rld as int + 1) == 0)
  {
    hide After, Underflows;
    AfterClosedForm(ptd, rld, n);
    AfterClosedForm(ptd, rld, n - k);
    UnderflowsIff(ptd, rld, n);
    UnderflowsIff(ptd, rld, n - k);
    if ptd < n - k {
      var x := n - k - ptd - 1;
      assert x + k == n - ptd - 1;
      SameResidueIff(x, k, rld as int + 1);
    }
  }

  /** Where it fails: 6 counts from underflow, one cycle a count, stopped for three of them. */
  lemma PauseShows()
    ensures
      var t := Timer(9, 5, true, 0, 1);
      !LooksFrozen(t, DoTick(Paused(t, [1, 2]), 3), 4, 3) && DoTick(Paused(t, [1, 2]), 3).timer.ptd == 1
  {
    var t := Timer(9, 5, true, 0, 1);
    PauseIsCountedAfterRestart(t, [1, 2], 3);
    FrozenIff(5, 9, 4, 3);
    AfterClosedForm(5, 9, 1);
    assert t.Counts(3) == 4;
  }

  lemma {:induction false} StoppedIgnoresTicks(t: Timer, cs: seq<nat>)
    requires !t.running
    ensures TickAll(t, cs) == Tick(t, false)
  {
    if cs != [] {
      StoppedIgnoresTicks(t, cs[..|cs| - 1]);
    }
  }

  // ---- the timer object ----

  class Timer8bit {
    var rld: uint8
    var ptd: uint8
    var running: bool
    var nextTick: nat
    var cpc: nat

    constructor (cpc: nat)
      ensures View() == Timer(0, 0, false, 0, cpc)
    {
      rld, ptd, running, nextTick := 0, 0, false, 0;
      this.cpc := cpc;
    }

    function View(): Timer
      reads this
    {
      Timer(rld, ptd, running, nextTick, cpc)
    }

    /** The control byte: bit 0 runs the counter, bit 1 presets it from the reload register. */
    method OnCtlWrite(val: uint8)
      modifies this`running, this`ptd
      ensures
        var t := old(View()).(running := val % 2 == 1);
        View() == if val / 2 % 2 == 1 then t.(ptd := rld) else t
    {
      if val / 2 % 2 == 1 {
        ptd := rld;
      }
      running := val % 2 == 1;
    }

    method TickTo(c: nat) returns (raised: bool)
      modifies this`ptd, this`nextTick
      ensures Tick(View(), raised) == DoTick(old(View()), c)
      ensures IsReference(old(View()), c, Tick(View(), raised))
    {
      TickIsReference(View(), c);
      raised := false;
      if !running || c < nextTick || cpc == 0 {
        return;
      }
      var counts: nat := (c - nextTick) / cpc + 1;
      nextTick := nextTick + counts * cpc;
      if counts <= ptd {
        ptd := ptd - counts;
      } else {
        var remaining := counts - ptd - 1;
        ptd := rld - remaining % (rld as int + 1);
        raised := true;
      }
    }
  }
}
