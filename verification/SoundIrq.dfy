/** The completion schedule of the sound DMA channel (peripheral_sound.cpp). */
module SoundIrq {
  import opened Words
  import opened DivMod
  import opened Clock
  import opened BusModel
  import opened SoundRing
  import Division

  const SAMPLE_RATE := 32000

  /** A pending completion, and the scheduled cycle of the last one that fired (0: none yet). */
  datatype Schedule = Schedule(pending: bool, complete: nat, lastIrq: nat)

  /** The playing time of a burst of cnt samples, in CPU cycles. */
  function Delta(cnt: nat, hz: nat): nat { cnt * hz / SAMPLE_RATE }

  /** handle_ch1_start: anchored to the previous completion while the rearm follows it within one delta. */
  function Start(s: Schedule, now: nat, cnt: nat, hz: nat): Schedule {
    if cnt == 0 then s
    else
      var delta := Delta(cnt, hz);
      var base := if s.lastIrq != 0 && s.lastIrq <= now && now - s.lastIrq < delta then s.lastIrq else now;
      Schedule(true, base + delta, s.lastIrq)
  }

  /** tick: fires once the scheduled cycle is reached, however late it is called. */
  function Tick(s: Schedule, cycles: nat): (Schedule, bool) {
    if s.pending && s.complete <= cycles then (Schedule(false, s.complete, s.complete), true) else (s, false)
  }

  /** One period of the steady pattern: some early ticks, one at or after completion, then the rearm. */
  datatype Period = Period(early: seq<nat>, fire: nat, now: nat, cnt: nat, hz: nat)

  function Ticks(s: Schedule, cs: seq<nat>): Schedule {
    if cs == [] then s else Tick(Ticks(s, cs[..|cs| - 1]), cs[|cs| - 1]).0
  }

  /** The schedule after a period that starts with a completion pending. */
  function RunPeriod(s: Schedule, p: Period): Schedule {
    Start(Tick(Ticks(s, p.early), p.fire).0, p.now, p.cnt, p.hz)
  }

  /** The rearm comes after the completion and within one delta of it. */
  predicate Timely(s: Schedule, p: Period) {
    && (forall k | 0 <= k < |p.early| :: p.early[k] < s.complete)
    && s.complete <= p.fire <= p.now && p.now - s.complete < Delta(p.cnt, p.hz)
  }

  function RunPeriods(s: Schedule, ps: seq<Period>): Schedule {
    if ps == [] then s else RunPeriod(RunPeriods(s, ps[..|ps| - 1]), ps[|ps| - 1])
  }

  predicate AllTimely(s: Schedule, ps: seq<Period>) {
    forall k | 0 <= k < |ps| :: Timely(RunPeriods(s, ps[..k]), ps[k])
  }

  function SumDelta(ps: seq<Period>): nat {
    if ps == [] then 0 else SumDelta(ps[..|ps| - 1]) + Delta(ps[|ps| - 1].cnt, ps[|ps| - 1].hz)
  }

  function SumCount(ps: seq<Period>): nat {
    if ps == [] then 0 else SumCount(ps[..|ps| - 1]) + ps[|ps| - 1].cnt
  }

  lemma {:induction false} EarlyTicksDoNothing(s: Schedule, cs: seq<nat>)
    requires s.pending && forall k | 0 <= k < |cs| :: cs[k] < s.complete
    ensures Ticks(s, cs) == s
  {
    if cs != [] {
      EarlyTicksDoNothing(s, cs[..|cs| - 1]);
    }
  }

  /** A timely rearm schedules the next completion one delta after the previous one, exactly,
      whenever the tick came and however long the interrupt routine took. */
  lemma PeriodAdvances(s: Schedule, p: Period)
    requires s.pending && s.complete != 0 && Timely(s, p)
    ensures RunPeriod(s, p) == Schedule(true, s.complete + Delta(p.cnt, p.hz), s.complete)
  {
    EarlyTicksDoNothing(s, p.early);
    assert p.cnt == 0 ==> Delta(p.cnt, p.hz) == 0;
  }

  /** Completion times telescope: over any run of timely periods no latency accumulates. */
  lemma {:induction false} CadenceTelescopes(s: Schedule, ps: seq<Period>)
    requires s.pending && s.complete != 0 && AllTimely(s, ps)
    ensures
      var t := RunPeriods(s, ps);
      t.pending && t.complete == s.complete + SumDelta(ps)
  {
    if ps != [] {
      var n := |ps| - 1;
      forall k | 0 <= k < n
        ensures Timely(RunPeriods(s, ps[..n][..k]), ps[..n][k])
      {
        assert ps[..n][..k] == ps[..k];
      }
      CadenceTelescopes(s, ps[..n]);
      PeriodAdvances(RunPeriods(s, ps[..n]), ps[n]);
    }
  }

  /** At a fixed clock the completion stays within one sample period per burst of real time:
      rounding loses less than one cycle a period. */
  lemma {:induction false} CadenceKeepsRate(ps: seq<Period>, hz: nat)
    requires forall k | 0 <= k < |ps| :: ps[k].hz == hz
    ensures 32000 * SumDelta(ps) <= hz * SumCount(ps) <= 32000 * SumDelta(ps) + 31999 * |ps|
  {
    if ps != [] {
      var n := |ps| - 1;
      CadenceKeepsRate(ps[..n], hz);
      var x, c := ps[n].cnt * hz, ps[n].cnt;
      assert x == x / SAMPLE_RATE * SAMPLE_RATE + x % SAMPLE_RATE;
      assert hz * (SumCount(ps[..n]) + c) == hz * SumCount(ps[..n]) + c * hz;
    }
  }

  /** The anchor is used exactly when the rearm is timely; otherwise the burst plays from now. */
  lemma StartAnchorsIff(s: Schedule, now: nat, cnt: nat, hz: nat)
    requires cnt != 0 && s.lastIrq < now && Delta(cnt, hz) > 0
    ensures Start(s, now, cnt, hz).complete == s.lastIrq + Delta(cnt, hz)
       <==> s.lastIrq != 0 && now - s.lastIrq < Delta(cnt, hz)
  {
  }

  // ---- the samples of a burst ----

  /** One PWM duty value, centred on pwmc, as a signed 16-bit sample: scaled with C's division,
      then clipped. */
  function Pcm(raw: uint16, pwmc: uint16): Sample
    requires pwmc > 0
  {
    var s := Division.TruncDiv((Signed16(raw) - pwmc) * TWO16, pwmc);
    if s > 32767 then 32767 else if s < -32768 then -32768 else s
  }

  /** The centre duty is silence, and a larger duty never gives a smaller sample. */
  lemma PcmMeans(raw: uint16, raw': uint16, pwmc: uint16)
    requires pwmc > 0 && Signed16(raw) <= Signed16(raw')
    ensures Pcm(raw, pwmc) <= Pcm(raw', pwmc)
    ensures Signed16(raw) == pwmc ==> Pcm(raw, pwmc) == 0
  {
    TruncMonotone((Signed16(raw) - pwmc) * TWO16, (Signed16(raw') - pwmc) * TWO16, pwmc);
    Division.TruncMeaning(0, pwmc, 0, 0);
    hide Division.TruncDiv;
  }

  /** Between the clipping points a sample is (duty - pwmc) * 65536 / pwmc rounded toward zero;
      outside it is the nearer end of the range. */
  lemma PcmScale(raw: uint16, pwmc: uint16)
    requires pwmc > 0
    ensures
      var x, s := (Signed16(raw) - pwmc) * TWO16, Pcm(raw, pwmc);
      && (0 <= x < 32768 * pwmc ==> s * pwmc <= x < s * pwmc + pwmc)
      && (-32769 * pwmc < x <= 0 ==> s * pwmc - pwmc < x <= s * pwmc)
      && (32768 * pwmc <= x ==> s == 32767)
      && (x <= -32769 * pwmc ==> s == -32768)
  {
    var x := (Signed16(raw) - pwmc) * TWO16;
    var q := Division.TruncDiv(x, pwmc);
    Division.TruncMeaning(x, pwmc, q, Division.TruncRem(x, pwmc));
    hide Division.TruncDiv, Division.TruncRem, Signed16;
    ScaledRange(q, pwmc);
  }

  lemma ScaledRange(q: int, m: nat)
    requires m > 0
    ensures q >= 32768 ==> m * q >= 32768 * m
    ensures q < 32768 ==> m * q <= 32767 * m
    ensures q <= -32769 ==> m * q <= -32769 * m
    ensures q > -32769 ==> m * q >= -32768 * m
    ensures m * q == q * m
  {
  }

  lemma TruncMonotone(a: int, b: int, m: nat)
    requires a <= b && m > 0
    ensures Division.TruncDiv(a, m) <= Division.TruncDiv(b, m)
  {
    if 0 <= a {
      QuotientMonotone(a, b, m);
    } else if b < 0 {
      QuotientMonotone(-b, -a, m);
    } else {
      QuotientMonotone(0, -a, m);
      QuotientMonotone(0, b, m);
      DivisionUnique(0, m, 0, 0);
    }
  }

  /** The burst: cnt halfwords read one by one through the bus, converted. */
  function ReadSamples(m: Memory, sadr: uint32, cnt: nat, pwmc: uint16): (r: (seq<Sample>, Memory))
    requires m.Valid() && pwmc > 0
    ensures |r.0| == cnt && r.1.Valid()
  {
    if cnt == 0 then ([], m)
    else
      var (samples, m1) := ReadSamples(m, sadr, cnt - 1, pwmc);
      var (raw, m2) := m1.Read16(Wrap32(sadr + 2 * (cnt - 1)));
      (samples + [Pcm(raw, pwmc)], m2)
  }

  lemma TakeOneMore(samples: seq<Sample>, x: Sample, room: nat)
    ensures (samples + [x])[..Min(|samples| + 1, room)]
         == samples[..Min(|samples|, room)] + if |samples| < room then [x] else []
  {
  }

  /** A burst in installed SRAM gives its halfwords in order, converted. */
  lemma {:induction false} BurstFromSram(m: Memory, sadr: uint32, cnt: nat, pwmc: uint16)
    requires m.Valid() && pwmc > 0 && sadr % 2 == 0 && SRAM_BASE <= sadr && sadr - SRAM_BASE + 2 * cnt <= |m.sram|
    ensures
      var (samples, m') := ReadSamples(m, sadr, cnt, pwmc);
      && m.SameBut(m', m.sram)
      && forall k | 0 <= k < cnt :: samples[k] == Pcm(Load16(m.sram, sadr - SRAM_BASE + 2 * k), pwmc)
  {
    hide Memory.Read16, Pcm, Load16;
    if cnt > 0 {
      BurstFromSram(m, sadr, cnt - 1, pwmc);
      var a := sadr + 2 * (cnt - 1);
      WrapWord(a);
      SramHalfword(ReadSamples(m, sadr, cnt - 1, pwmc).1, a);
    }
  }

  lemma SramHalfword(m: Memory, a: uint32)
    requires m.Valid() && a % 2 == 0 && SRAM_BASE <= a && a - SRAM_BASE + 1 < |m.sram|
    ensures m.Read16(a).0 == Load16(m.sram, a - SRAM_BASE) && m.SameBut(m.Read16(a).1, m.sram)
  {
    EvenAddress(a);
    hide Memory.Charge, Memory.ReadCycles, Even, Load16;
  }

  // ---- the schedule object ----

  class Sound {
    var pending: bool
    var complete: nat
    var lastIrq: nat

    constructor ()
      ensures View() == Schedule(false, 0, 0)
    {
      pending, complete, lastIrq := false, 0, 0;
    }

    function View(): Schedule
      reads this
    {
      Schedule(pending, complete, lastIrq)
    }

    /** handle_ch1_start, with no consumer step in between: the samples go into the ring as far as
        there is room, the others are dropped, and the completion is scheduled. */
    method StartBurst(bus: Bus, ring: SampleRing, sadr: uint32, cnt: nat, pwmc: uint16, now: nat, hz: nat)
      returns (dropped: nat)
      requires bus.mem.Valid() && ring.Valid()
      modifies this, bus, ring`head, ring.ring
      ensures ring.Valid()
      ensures cnt == 0 || pwmc == 0 ==>
                dropped == 0 && View() == old(View()) && bus.mem == old(bus.mem) && ring.Samples() == old(ring.Samples())
      ensures cnt > 0 && pwmc > 0 ==>
                var (samples, m) := ReadSamples(old(bus.mem), sadr, cnt, pwmc);
                var taken := Min(cnt, RING_SIZE - 1 - |old(ring.Samples())|);
                && bus.mem == m && ring.Samples() == old(ring.Samples()) + samples[..taken]
                && dropped == cnt - taken && View() == Start(old(View()), now, cnt, hz)
    {
      dropped := 0;
      if cnt == 0 || pwmc == 0 {
        return;
      }
      dropped := PushSamples(bus, ring, sadr, cnt, pwmc);
      ScheduleBurst(now, cnt, hz);
    }

    method PushSamples(bus: Bus, ring: SampleRing, sadr: uint32, cnt: nat, pwmc: uint16) returns (dropped: nat)
      requires bus.mem.Valid() && ring.Valid() && pwmc > 0
      modifies bus, ring`head, ring.ring
      ensures ring.Valid()
      ensures
        var (samples, m) := ReadSamples(old(bus.mem), sadr, cnt, pwmc);
        var taken := Min(cnt, RING_SIZE - 1 - |old(ring.Samples())|);
        && bus.mem == m && ring.Samples() == old(ring.Samples()) + samples[..taken] && dropped == cnt - taken
    {
      hide Memory.Read16, Pcm, Wrap32, Memory.Valid, Window;
      ghost var held, room := ring.Samples(), RING_SIZE - 1 - |ring.Samples()|;
      ghost var samples: seq<Sample> := [];
      dropped := 0;
      var i := 0;
      while i < cnt
        invariant i <= cnt && bus.mem.Valid() && ring.Valid() && |samples| == i
        invariant (samples, bus.mem) == ReadSamples(old(bus.mem), sadr, i, pwmc)
        invariant ring.Samples() == held + samples[..Min(i, room)] && dropped == i - Min(i, room)
      {
        var raw := bus.Read16(Wrap32(sadr + 2 * i));
        var sample := Pcm(raw, pwmc);
        var ok := ring.TryPush(sample);
        if !ok {
          dropped := dropped + 1;
        }
        TakeOneMore(samples, sample, room);
        samples := samples + [sample];
        i := i + 1;
      }
      assert samples[..Min(cnt, room)] == ReadSamples(old(bus.mem), sadr, cnt, pwmc).0[..Min(cnt, room)];
    }

    method ScheduleBurst(now: nat, cnt: nat, hz: nat)
      modifies this
      ensures View() == Start(old(View()), now, cnt, hz)
    {
      if cnt == 0 {
        return;
      }
      var delta := cnt * hz / SAMPLE_RATE;
      var base := now;
      if lastIrq != 0 && now >= lastIrq && now - lastIrq < delta {
        base := lastIrq;
      }
      complete := base + delta;
      pending := true;
    }

    method TickTo(cycles: nat) returns (fired: bool)
      modifies this
      ensures (View(), fired) == Tick(old(View()), cycles)
    {
      if !pending || cycles < complete {
        return false;
      }
      pending := false;
      lastIrq := complete;
      return true;
    }
  }
}
