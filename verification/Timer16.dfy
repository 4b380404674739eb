/** The 16-bit timer: an analytical tick over many counts, and the cached wake point
    (peripheral_t16.hpp, peripheral_t16.cpp). */
module Timer16 {
  import opened Words
  import opened DivMod
  import opened Clock

  /** Registers and scheduling state; `cpc` is the cycles per count, 0 while the clock is stopped. */
  datatype Timer = Timer(cra: uint16, crb: uint16, tc: uint16, running: bool, nextTick: nat, cpc: nat)
  {
    /** A compare register the count can reach. */
    predicate CraReachable() { cra != 0 && cra <= crb }

    /** Whether tick(c) has anything to do. */
    predicate Due(c: nat) { running && nextTick <= c && cpc != 0 }

    /** The counts that fall in the window ending at cycle c. */
    function Counts(c: nat): (n: nat)
      requires Due(c)
      ensures n >= 1
    {
      WindowCounts(nextTick, cpc, c)
    }
  }

  /** A tick's outcome: the timer after it and the interrupts it raised. */
  datatype Tick = Tick(timer: Timer, cra: bool, crb: bool)

  // ---- the analytical tick ----

  /** N of the source: CRB matches counted up to the unwrapped value `end`. */
  function CrbMatches(end: nat, crb: uint16): nat {
    if end >= crb then (end - crb) / (crb as int + 1) + 1 else 0
  }

  function CountWithReset(t: Timer, n: nat): Tick
    requires t.crb != 0
  {
    var end := t.tc + n;
    var final := end % (t.crb as int + 1);
    var N := CrbMatches(end, t.crb);
    var cra :=
      t.CraReachable()
      && if N == 0 then t.tc < t.cra <= end else (t.tc < t.cra <= end) || N >= 2 || final >= t.cra;
    Tick(t.(tc := final), cra, N > 0)
  }

  /** The free-running counter, one count at a time. */
  function CountFree(t: Timer, n: nat): (r: Tick)
    ensures r.timer == t.(tc := r.timer.tc) && !r.crb
  {
    if n == 0 then Tick(t, false, false)
    else
      var r := CountFree(t, n - 1);
      var tc := (r.timer.tc as int + 1) % TWO16;
      Tick(t.(tc := tc), r.cra || (t.cra != 0 && tc == t.cra), false)
  }

  /** How many of the next n counts of the free-running counter are CRA matches. */
  function FreeMatches(tc: uint16, cra: uint16, n: nat): nat {
    if n == 0 then 0 else FreeMatches(tc, cra, n - 1) + if After(tc, 0, n) == cra then 1 else 0
  }

  function DoTick(t: Timer, c: nat): Tick {
    if !t.Due(c) then Tick(t, false, false)
    else
      var n := t.Counts(c);
      var t1 := t.(nextTick := t.nextTick + n * t.cpc);
      if t.crb != 0 then CountWithReset(t1, n)
      else if t.cra == 0 then Tick(t1.(tc := (t.tc + n) % TWO16), false, false)
      else CountFree(t1, n)
  }

  // ---- the reference: the counter the manual describes ----

  /** One input clock: 0, 1, ..., CRB, 0, ... (or up to 0xFFFF while CRB is 0). */
  function Next(tc: uint16, crb: uint16): uint16 {
    if crb != 0 && tc == crb then 0 else (tc as int + 1) % TWO16
  }

  function After(tc: uint16, crb: uint16, n: nat): uint16 {
    if n == 0 then tc else Next(After(tc, crb, n - 1), crb)
  }

  /** The counter equals `value` after some number of counts in 1..n. */
  ghost predicate Matches(tc: uint16, crb: uint16, n: nat, value: uint16) {
    exists j | 1 <= j <= n :: After(tc, crb, j) == value
  }

  /** The counter value is the unwrapped value modulo the period. */
  lemma {:induction false} AfterClosedForm(tc: uint16, crb: uint16, n: nat)
    requires crb != 0 && tc <= crb
    ensures After(tc, crb, n) == (tc + n) % (crb as int + 1)
  {
    hide Next;
    if n == 0 {
      DivisionUnique(tc, crb as int + 1, 0, tc);
    } else {
      AfterClosedForm(tc, crb, n - 1);
      NextOfResidue(tc + n - 1, crb);
    }
  }

  lemma NextOfResidue(x: nat, crb: uint16)
    requires crb != 0
    ensures var m := crb as int + 1; x % m < TWO16 && Next(x % m, crb) == (x + 1) % m
  {
    var m := crb as int + 1;
    ModStep(x, m);
    var r := x % m;
    if r < m - 1 {
      DivisionUnique(r + 1, TWO16, 0, r + 1);
    }
  }

  /** How many counts until the counter next reaches `value`, never zero. */
  function First(tc: uint16, crb: uint16, value: uint16): int {
    if tc < value then value - tc else value + (crb as int + 1) - tc
  }

  /** With a reset at CRB, `value` is met within n counts exactly when n reaches the first meeting. */
  lemma MatchesIff(tc: uint16, crb: uint16, n: nat, value: uint16)
    requires crb != 0 && tc <= crb && value <= crb
    ensures Matches(tc, crb, n, value) <==> First(tc, crb, value) <= n
  {
    hide After;
    if First(tc, crb, value) <= n {
      FirstMeets(tc, crb, value);
    }
    if Matches(tc, crb, n, value) {
      var j :| 1 <= j <= n && After(tc, crb, j) == value;
      AfterClosedForm(tc, crb, j);
      if j < First(tc, crb, value) {
        NoneBefore(tc, crb, value, j);
      }
    }
  }

  lemma FirstMeets(tc: uint16, crb: uint16, value: uint16)
    requires crb != 0 && tc <= crb && value <= crb
    ensures First(tc, crb, value) >= 1 && After(tc, crb, First(tc, crb, value)) == value
  {
    var m, j := crb as int + 1, First(tc, crb, value);
    AfterClosedForm(tc, crb, j);
    DivisionUnique(tc + j, m, if tc < value then 0 else 1, value);
  }

  lemma NoneBefore(tc: uint16, crb: uint16, value: uint16, j: nat)
    requires tc <= crb && value <= crb && 1 <= j < First(tc, crb, value)
    ensures (tc + j) % (crb as int + 1) != value
  {
    var m := crb as int + 1;
    if tc + j < m {
      DivisionUnique(tc + j, m, 0, tc + j);
    } else {
      DivisionUnique(tc + j, m, 1, tc + j - m);
    }
  }

  lemma CrbMatchesMeans(end: nat, crb: uint16)
    ensures CrbMatches(end, crb) == 0 <==> end < crb
    ensures CrbMatches(end, crb) >= 2 <==> end >= crb + (crb as int + 1)
  {
    if end >= crb {
      var m, d := crb as int + 1, end - crb;
      if d < m {
        DivisionUnique(d, m, 0, d);
      } else {
        DivShift(d, m, 1);
      }
    }
  }

  /** The analytical tick against the reference, for n counts from a count within 0..CRB: the
      count is right, no match is missed, and the only extra raises are CRB when the window opens
      on the old match, and CRA when it opens past CRA and closes exactly on CRB. */
  lemma ResetTickExact(t: Timer, n: nat)
    requires t.crb != 0 && t.tc <= t.crb && n >= 1
    ensures
      var r := CountWithReset(t, n);
      && r.timer == t.(tc := After(t.tc, t.crb, n))
      && (r.crb <==> Matches(t.tc, t.crb, n, t.crb) || t.tc == t.crb)
      && (r.cra <==> t.CraReachable()
                     && (Matches(t.tc, t.crb, n, t.cra) || (t.cra <= t.tc < t.crb && t.tc + n == t.crb)))
  {
    hide After, Matches, CrbMatches;
    AfterClosedForm(t.tc, t.crb, n);
    CrbMatchesMeans(t.tc + n, t.crb);
    MatchesIff(t.tc, t.crb, n, t.crb);
    if t.CraReachable() {
      MatchesIff(t.tc, t.crb, n, t.cra);
      CraFlag(t, n);
    }
  }

  lemma CraFlag(t: Timer, n: nat)
    requires t.crb != 0 && t.tc <= t.crb && n >= 1 && t.CraReachable()
    ensures CountWithReset(t, n).cra
       <==> First(t.tc, t.crb, t.cra) <= n || (t.cra <= t.tc < t.crb && t.tc + n == t.crb)
  {
    var end, m := t.tc + n, t.crb as int + 1;
    CrbMatchesMeans(end, t.crb);
    if end < m {
      DivisionUnique(end, m, 0, end);
    } else if end < 2 * m {
      DivisionUnique(end, m, 1, end - m);
    }
  }

  lemma {:induction false} FreeTickExact(t: Timer, n: nat)
    requires t.crb == 0
    ensures
      var r := CountFree(t, n);
      && r.timer == t.(tc := After(t.tc, 0, n))
      && (r.cra <==> t.cra != 0 && Matches(t.tc, 0, n, t.cra))
  {
    if n > 0 {
      FreeTickExact(t, n - 1);
      assert t.cra != 0 && After(t.tc, 0, n) == t.cra ==> Matches(t.tc, 0, n, t.cra);
    }
  }

  lemma {:induction false} FreeClosedForm(tc: uint16, n: nat)
    ensures After(tc, 0, n) == (tc + n) % TWO16
  {
    if n > 0 {
      FreeClosedForm(tc, n - 1);
      ModStep(tc + n - 1, TWO16);
    }
  }

  // ---- coarse ticking loses nothing ----

  /** The count is one the counter can be in. */
  predicate InRange(t: Timer) {
    t.crb != 0 ==> t.tc <= t.crb
  }

  /** One tick from an in-range count: count, schedule and raises in terms of the reference. */
  lemma TickExact(t: Timer, c: nat)
    requires InRange(t) && t.Due(c)
    ensures
      var r, n := DoTick(t, c), t.Counts(c);
      && r.timer == t.(tc := After(t.tc, t.crb, n), nextTick := t.nextTick + n * t.cpc)
      && InRange(r.timer)
      && (r.crb <==> t.crb != 0 && (Matches(t.tc, t.crb, n, t.crb) || t.tc == t.crb))
      && (r.cra <==> (t.cra != 0 && (t.crb != 0 ==> t.cra <= t.crb) && Matches(t.tc, t.crb, n, t.cra))
                     || (t.CraReachable() && t.cra <= t.tc < t.crb && t.tc + n == t.crb))
  {
    var n := t.Counts(c);
    var t1 := t.(nextTick := t.nextTick + n * t.cpc);
    hide After, Matches, CountFree, CountWithReset;
    if t.crb != 0 {
      ResetTickExact(t1, n);
      AfterClosedForm(t.tc, t.crb, n);
    } else if t.cra == 0 {
      FreeClosedForm(t.tc, n);
    } else {
      FreeTickExact(t1, n);
    }
  }

  lemma {:induction false} AfterAdds(tc: uint16, crb: uint16, n: nat, k: nat)
    ensures After(After(tc, crb, n), crb, k) == After(tc, crb, n + k)
  {
    if k > 0 {
      AfterAdds(tc, crb, n, k - 1);
    }
  }

  /** A match in a window happens in one of its two parts. */
  lemma MatchesSplit(tc: uint16, crb: uint16, n: nat, k: nat, value: uint16)
    requires Matches(tc, crb, n + k, value)
    ensures Matches(tc, crb, n, value) || Matches(After(tc, crb, n), crb, k, value)
  {
    var j :| 1 <= j <= n + k && After(tc, crb, j) == value;
    if j > n {
      AfterAdds(tc, crb, n, j - n);
      hide After;
      assert After(After(tc, crb, n), crb, j - n) == value;
    }
  }

  /** Counting to c1 and then to c2 counts what counting to c2 does. */
  lemma CountsAdd(t: Timer, t1: Timer, c1: nat, c2: nat)
    requires t.Due(c1) && c1 <= c2 && t1.running && t1.cpc == t.cpc
    requires t1.nextTick == t.nextTick + t.Counts(c1) * t.cpc
    ensures t.Due(c2) && t.Counts(c2) == t.Counts(c1) + if t1.Due(c2) then t1.Counts(c2) else 0
  {
    WindowsAdd(t.nextTick, t.cpc, c1, c2);
  }

  /** Ticking at c1 on the way to c2 changes neither the count nor the schedule, and a match in
      the whole window is a match in one of the two. */
  lemma SplitTick(t: Timer, c1: nat, c2: nat, compare: uint16)
    requires InRange(t) && c1 <= c2
    ensures
      var t1 := DoTick(t, c1).timer;
      && InRange(t1) && DoTick(t1, c2).timer == DoTick(t, c2).timer
      && t1 == t.(tc := t1.tc, nextTick := t1.nextTick)
      && (RealMatch(t, c2, compare) ==> RealMatch(t, c1, compare) || RealMatch(t1, c2, compare))
  {
    hide After, Matches, Timer.Counts;
    if t.Due(c1) {
      TickExact(t, c1);
      TickExact(t, c2);
      CountsAdd(t, DoTick(t, c1).timer, c1, c2);
      if DoTick(t, c1).timer.Due(c2) {
        SecondTick(t, c1, c2, compare);
      }
    }
  }

  lemma SecondTick(t: Timer, c1: nat, c2: nat, compare: uint16)
    requires InRange(t) && c1 <= c2 && t.Due(c1) && DoTick(t, c1).timer.Due(c2)
    ensures
      var t1 := DoTick(t, c1).timer;
      && DoTick(t1, c2).timer == DoTick(t, c2).timer
      && (RealMatch(t, c2, compare) ==> RealMatch(t, c1, compare) || RealMatch(t1, c2, compare))
  {
    hide After, Matches, DoTick, Timer.Counts;
    TickExact(t, c1);
    TickExact(t, c2);
    var t1 := DoTick(t, c1).timer;
    CountsAdd(t, t1, c1, c2);
    TickExact(t1, c2);
    var n, k := t.Counts(c1), t1.Counts(c2);
    AfterAdds(t.tc, t.crb, n, k);
    NextTickAdds(t.nextTick, n, k, t.cpc);
    if RealMatch(t, c2, compare) {
      MatchesSplit(t.tc, t.crb, n, k, compare);
    }
  }

  lemma NextTickAdds(start: nat, n: nat, k: nat, cpc: nat)
    ensures start + n * cpc + k * cpc == start + (n + k) * cpc
  {
  }

  /** The window up to cycle c contains a match of `compare`, one of the two registers. */
  ghost predicate RealMatch(t: Timer, c: nat, compare: uint16) {
    t.Due(c) && compare != 0 && (t.crb != 0 ==> compare <= t.crb) && Matches(t.tc, t.crb, t.Counts(c), compare)
  }

  /** Ticks at each of the given cycles, with the raises of all of them. */
  function TickAll(t: Timer, cs: seq<nat>): Tick {
    if cs == [] then Tick(t, false, false)
    else
      var r := TickAll(t, cs[..|cs| - 1]);
      var last := DoTick(r.timer, cs[|cs| - 1]);
      Tick(last.timer, r.cra || last.cra, r.crb || last.crb)
  }

  /** A tick that comes with an earlier time than the one before does nothing. */
  lemma BackwardTick(t: Timer, c1: nat, c2: nat)
    requires c2 <= c1
    ensures DoTick(DoTick(t, c1).timer, c2) == Tick(DoTick(t, c1).timer, false, false)
  {
    if t.Due(c1) {
      NextBeyond(t.nextTick, t.cpc, c1);
      NextTickAfter(t, c1);
      hide DoTick;
    }
    assert !DoTick(t, c1).timer.Due(c2);
  }

  lemma NextTickAfter(t: Timer, c: nat)
    requires t.Due(c)
    ensures DoTick(t, c).timer.nextTick == t.nextTick + t.Counts(c) * t.cpc
  {
    hide CountFree, CrbMatches, WindowCounts;
  }

  /** However a stretch of time is cut into ticks, and in whatever order they come, the timer ends
      up as if ticked once at the latest of them, and no match of either register goes unraised. */
  lemma {:induction false} TickSchedule(t: Timer, cs: seq<nat>)
    requires InRange(t) && cs != []
    ensures
      var r, last := TickAll(t, cs), Latest(cs);
      && r.timer == DoTick(t, last).timer
      && (RealMatch(t, last, t.cra) ==> r.cra)
      && (RealMatch(t, last, t.crb) ==> r.crb)
  {
    hide RealMatch, DoTick;
    var n := |cs| - 1;
    if n == 0 {
      assert TickAll(t, cs[..0]) == Tick(t, false, false);
      MatchesRaise(t, cs[0]);
    } else {
      TickSchedule(t, cs[..n]);
      var c1, c2 := Latest(cs[..n]), cs[n];
      if c1 <= c2 {
        SplitTick(t, c1, c2, t.cra);
        SplitTick(t, c1, c2, t.crb);
        MatchesRaise(DoTick(t, c1).timer, c2);
      } else {
        BackwardTick(t, c1, c2);
      }
    }
  }

  lemma MatchesRaise(t: Timer, c: nat)
    requires InRange(t)
    ensures RealMatch(t, c, t.cra) ==> DoTick(t, c).cra
    ensures RealMatch(t, c, t.crb) ==> DoTick(t, c).crb
  {
    hide DoTick, Matches;
    if t.Due(c) {
      TickExact(t, c);
    }
  }

  /** A counter left above CRB by a register write is back in range after one tick. */
  lemma TickRestoresRange(t: Timer, c: nat)
    requires t.Due(c)
    ensures InRange(DoTick(t, c).timer)
  {
    hide CountFree, CrbMatches;
  }

  // ---- stopping and presetting ----

  /** The timer after a pause: stopped, ticked at any times meanwhile, and running again. */
  function Paused(t: Timer, cs: seq<nat>): Timer {
    TickAll(t.(running := false), cs).timer.(running := true)
  }

  lemma {:induction false} StoppedIgnoresTicks(t: Timer, cs: seq<nat>)
    requires !t.running
    ensures TickAll(t, cs) == Tick(t, false, false)
  {
    if cs != [] {
      StoppedIgnoresTicks(t, cs[..|cs| - 1]);
    }
  }

  function Period(crb: uint16): nat { if crb != 0 then crb as int + 1 else TWO16 }

  lemma AfterIsResidue(tc: uint16, crb: uint16, n: nat)
    requires crb != 0 ==> tc <= crb
    ensures After(tc, crb, n) == (tc + n) % Period(crb)
  {
    hide After;
    if crb != 0 {
      AfterClosedForm(tc, crb, n);
    } else {
      FreeClosedForm(tc, n);
    }
  }

  lemma CountAt(t: Timer, c: nat)
    requires InRange(t) && t.running && t.cpc != 0
    ensures DoTick(t, c).timer.tc == (t.tc + CountsBy(t.nextTick, t.cpc, c)) % Period(t.crb)
  {
    AfterIsResidue(t.tc, t.crb, CountsBy(t.nextTick, t.cpc, c));
    hide DoTick, After;
    if t.Due(c) {
      TickExact(t, c);
    } else {
      UndueTick(t, c);
      AfterNothing(t.tc, t.crb);
    }
  }

  lemma UndueTick(t: Timer, c: nat)
    requires !t.Due(c)
    ensures DoTick(t, c) == Tick(t, false, false)
  {
  }

  lemma AfterNothing(tc: uint16, crb: uint16)
    ensures After(tc, crb, 0) == tc
  {
  }

  /** Stopping does not stop the schedule: the first due tick after the restart counts the pause
      too.  The count is that of a counter frozen meanwhile if and only if the counts that fell due
      in the pause are whole periods. */
  lemma PauseFreezesCountIff(t: Timer, cs: seq<nat>, stop: nat, restart: nat, c: nat)
    requires InRange(t) && t.running && t.cpc != 0 && stop <= restart <= c
    ensures DoTick(Paused(t, cs), c) == DoTick(t, c)
    ensures
      var n := CountsBy(t.nextTick, t.cpc, c);
      var k := CountsBy(t.nextTick, t.cpc, restart) - CountsBy(t.nextTick, t.cpc, stop);
      && 0 <= k <= n
      && (DoTick(Paused(t, cs), c).timer.tc == After(t.tc, t.crb, n - k) <==> k % Period(t.crb) == 0)
  {
    hide DoTick, CountsBy, After;
    StoppedIgnoresTicks(t.(running := false), cs);
    CountsByMonotone(t.nextTick, t.cpc, stop, restart);
    CountsByMonotone(t.nextTick, t.cpc, restart, c);
    var n := CountsBy(t.nextTick, t.cpc, c);
    var k := CountsBy(t.nextTick, t.cpc, restart) - CountsBy(t.nextTick, t.cpc, stop);
    CountAt(t, c);
    AfterIsResidue(t.tc, t.crb, n - k);
    SameResidueIff(t.tc + (n - k), k, Period(t.crb));
  }

  /** PRESET sets the schedule to cycle 0, so the first tick counts all time since then.  The count
      is what it would be with the schedule set to the present cycle if and only if the surplus is
      whole periods. */
  lemma PresetCountsFromZero(t: Timer, now: nat, c: nat)
    requires t.running && t.cpc != 0 && now <= c
    ensures
      var preset := t.(tc := 0, nextTick := 0);
      var m := Period(t.crb);
      var surplus := c / t.cpc - (c - now) / t.cpc;
      && DoTick(preset, c).timer.tc == (c / t.cpc + 1) % m
      && surplus >= 0
      && (DoTick(preset, c).timer.tc == DoTick(preset.(nextTick := now), c).timer.tc <==> surplus % m == 0)
  {
    var preset := t.(tc := 0, nextTick := 0);
    CountAt(preset, c);
    CountAt(preset.(nextTick := now), c);
    QuotientMonotone(c - now, c, t.cpc);
    SameResidueIff((c - now) / t.cpc + 1, c / t.cpc - (c - now) / t.cpc, Period(t.crb));
    hide DoTick;
  }

  // ---- the cached wake point ----

  function CountsToCrb(t: Timer): nat
    requires t.crb != 0
  {
    if t.tc < t.crb then t.crb - t.tc else t.crb
  }

  function CountsToCra(t: Timer): nat {
    if t.tc < t.cra then t.cra - t.tc
    else if t.crb != 0 && t.cra <= t.crb then CountsToCrb(t) + t.cra
    else TWO16 - t.tc + t.cra
  }

  /** The cycle `counts` counts after the next one due. */
  function CycleAfter(t: Timer, counts: nat): nat {
    t.nextTick + counts * t.cpc
  }

  /** refresh_wake. */
  function Wake(t: Timer): nat {
    if !t.running || t.cpc == 0 then NEVER
    else
      var w1 := if t.crb != 0 then Min(NEVER, CycleAfter(t, CountsToCrb(t))) else NEVER;
      if t.cra != 0 then Min(w1, CycleAfter(t, CountsToCra(t))) else w1
  }

  /** The counts the wake point stands for. */
  function CountsToWake(t: Timer): nat
    requires t.cra != 0 || t.crb != 0
  {
    if t.crb == 0 then CountsToCra(t)
    else if t.cra == 0 then CountsToCrb(t)
    else Min(CountsToCrb(t), CountsToCra(t))
  }

  lemma MinScales(a: nat, b: nat, m: nat, base: nat)
    ensures Min(base + a * m, base + b * m) == base + Min(a, b) * m
  {
    assert a <= b ==> a * m <= b * m;
    assert b <= a ==> b * m <= a * m;
  }

  lemma WakeMeans(t: Timer)
    requires t.running && t.cpc != 0 && (t.cra != 0 || t.crb != 0)
    requires t.nextTick + CountsToWake(t) * t.cpc <= NEVER
    ensures Wake(t) == t.nextTick + CountsToWake(t) * t.cpc
  {
    if t.crb != 0 {
      MinScales(CountsToCrb(t), CountsToCra(t), t.cpc, t.nextTick);
    }
  }

  /** The earliest cycle at which a tick raises something.  Every tick consumes at least one
      count, so this is one count before the wake point; and a window that opens on the old CRB
      match raises at once. */
  function EarliestRaise(t: Timer): nat
    requires t.cra != 0 || t.crb != 0
    requires t.crb != 0 ==> t.tc <= t.crb
  {
    if t.crb != 0 && t.tc == t.crb then t.nextTick else t.nextTick + (CountsToWake(t) - 1) * t.cpc
  }

  /** A tick raises an interrupt exactly from EarliestRaise on. */
  lemma TickRaisesIff(t: Timer, c: nat)
    requires InRange(t) && t.running && t.cpc != 0 && (t.cra != 0 || t.crb != 0)
    ensures var r := DoTick(t, c); r.cra || r.crb <==> EarliestRaise(t) <= c
  {
    hide After, Matches, CountWithReset, CountFree;
    if t.Due(c) {
      DueRaisesIff(t, c);
    } else {
      assert (CountsToWake(t) - 1) * t.cpc >= 0;
    }
  }

  lemma DueRaisesIff(t: Timer, c: nat)
    requires InRange(t) && t.Due(c) && (t.cra != 0 || t.crb != 0)
    ensures var r := DoTick(t, c); r.cra || r.crb <==> EarliestRaise(t) <= c
  {
    hide DoTick, After, Matches, WindowCounts;
    var n := t.Counts(c);
    TickExact(t, c);
    WindowReaches(t.nextTick, t.cpc, c, if t.crb != 0 && t.tc == t.crb then 1 else CountsToWake(t));
    if t.crb != 0 {
      MatchesIff(t.tc, t.crb, n, t.crb);
      if t.CraReachable() {
        MatchesIff(t.tc, t.crb, n, t.cra);
      }
    } else {
      FreeMatchesIff(t.tc, n, t.cra);
    }
  }

  lemma FreeMatchesIff(tc: uint16, n: nat, value: uint16)
    ensures Matches(tc, 0, n, value) <==> (if tc < value then value - tc else TWO16 - tc + value) <= n
  {
    var first := if tc < value then value - tc else TWO16 - tc + value;
    hide After;
    FreeClosedForm(tc, first);
    assert After(tc, 0, first) == value by {
      DivisionUnique(tc + first, TWO16, if tc < value then 0 else 1, value);
    }
    if Matches(tc, 0, n, value) {
      var j :| 1 <= j <= n && After(tc, 0, j) == value;
      FreeClosedForm(tc, j);
      if j < first {
        NoneBefore(tc, 0xFFFF, value, j);
      }
    }
  }

  /** The halt fast-forward never jumps to an empty wake: a tick at the cached wake cycle raises. */
  lemma TickAtWakeRaises(t: Timer)
    requires InRange(t) && t.running && t.cpc != 0 && (t.cra != 0 || t.crb != 0)
    requires t.nextTick + CountsToWake(t) * t.cpc <= NEVER
    ensures var r := DoTick(t, Wake(t)); r.cra || r.crb
    ensures !(t.crb != 0 && t.tc == t.crb) ==> Wake(t) == EarliestRaise(t) + t.cpc
  {
    WakeMeans(t);
    hide Wake, DoTick;
    TickRaisesIff(t, Wake(t));
    assert CountsToWake(t) >= 1;
    hide CountsToWake;
    OneCountLess(CountsToWake(t), t.cpc);
  }

  lemma OneCountLess(k: nat, cpc: nat)
    requires k >= 1
    ensures (k - 1) * cpc == k * cpc - cpc && (k - 1) * cpc >= 0
  {
  }

  // ---- the timer object ----

  class Timer16bit {
    var cra: uint16
    var crb: uint16
    var tc: uint16
    var running: bool
    var nextTick: nat
    var cpc: nat
    var cachedWake: nat

    constructor (cpc: nat)
      ensures Valid() && View() == Timer(0, 0, 0, false, 0, cpc)
    {
      cra, crb, tc, running, nextTick := 0, 0, 0, false, 0;
      this.cpc, cachedWake := cpc, NEVER;
    }

    function View(): Timer
      reads this
    {
      Timer(cra, crb, tc, running, nextTick, cpc)
    }

    /** The cached wake point is always that of the present state. */
    predicate Valid()
      reads this
    {
      cachedWake == Wake(View())
    }

    method RefreshWake()
      modifies this`cachedWake
      ensures Valid()
    {
      hide CycleAfter;
      if !running || cpc == 0 {
        cachedWake := NEVER;
        return;
      }
      var wake := NEVER;
      var toCrb := NEVER;
      if crb != 0 {
        toCrb := if tc < crb then crb - tc else crb;
        wake := Min(wake, CycleAfter(View(), toCrb));
      }
      if cra != 0 {
        var toCra: nat;
        if tc < cra {
          toCra := cra - tc;
        } else if crb != 0 && cra <= crb {
          toCra := toCrb + cra;
        } else {
          toCra := TWO16 - tc + cra;
        }
        wake := Min(wake, CycleAfter(View(), toCra));
      }
      cachedWake := wake;
    }

    method WriteCra(v: uint16)
      modifies this
      ensures Valid() && View() == old(View()).(cra := v)
    {
      cra := v;
      RefreshWake();
    }

    method WriteCrb(v: uint16)
      modifies this
      ensures Valid() && View() == old(View()).(crb := v)
    {
      crb := v;
      RefreshWake();
    }

    method WriteTc(v: uint16)
      modifies this
      ensures Valid() && View() == old(View()).(tc := v)
    {
      tc := v;
      RefreshWake();
    }

    /** The control register: PRESET clears the count and the schedule, PRUN starts and stops. */
    method WriteCtl(prun: bool, preset: bool)
      modifies this
      ensures Valid()
      ensures
        var t := old(View()).(running := prun);
        View() == if preset then t.(tc := 0, nextTick := 0) else t
    {
      if preset {
        tc, nextTick := 0, 0;
      }
      running := prun;
      RefreshWake();
    }

    method TickTo(c: nat) returns (raisedCra: bool, raisedCrb: bool)
      requires Valid()
      modifies this
      ensures Valid() && Tick(View(), raisedCra, raisedCrb) == DoTick(old(View()), c)
    {
      hide CountFree, Wake;
      raisedCra, raisedCrb := false, false;
      if !running || c < nextTick || cpc == 0 {
        return;
      }
      var counts: nat := (c - nextTick) / cpc + 1;
      nextTick := nextTick + counts * cpc;
      ghost var t1 := View();
      if crb != 0 {
        var period := crb as int + 1;
        var end := tc + counts;
        var N := if end >= crb then (end - crb) / period + 1 else 0;
        var final := end % period;
        var possible := cra != 0 && cra <= crb;
        if N == 0 {
          raisedCra := possible && tc < cra && cra - tc <= counts;
        } else {
          raisedCra := possible && ((tc < cra && tc + counts >= cra) || N >= 2 || final >= cra);
          raisedCrb := true;
        }
        tc := final;
      } else if cra == 0 {
        tc := (tc + counts) % TWO16;
      } else {
        var raises := CountLoop(counts);
        raisedCra := raises > 0;
      }
      RefreshWake();
    }

    /** The free-running case, count by count; returns the number of calls to raise_cra. */
    method CountLoop(counts: nat) returns (raises: nat)
      requires cra != 0 && crb == 0
      modifies this`tc
      ensures Tick(View(), raises > 0, false) == CountFree(old(View()), counts)
      ensures raises == FreeMatches(old(tc), cra, counts)
    {
      raises := 0;
      var k := 0;
      while k < counts
        invariant k <= counts && Tick(View(), raises > 0, false) == CountFree(old(View()), k)
        invariant tc == After(old(tc), 0, k) && raises == FreeMatches(old(tc), cra, k)
      {
        tc := (tc as int + 1) % TWO16;
        if tc == cra {
          raises := raises + 1;
        }
        k := k + 1;
      }
    }
  }
}
