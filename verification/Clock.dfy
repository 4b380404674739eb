/** Cycle time as the timers and the frontend's loop count it. */
module Clock {
  import opened DivMod

  /** The cycle of an event that will not come: UINT64_MAX. */
  const NEVER := 0xFFFF_FFFF_FFFF_FFFF

  function Min(a: nat, b: nat): nat { if a <= b then a else b }
  function Max(a: nat, b: nat): nat { if a <= b then b else a }

  /** The largest of some cycles, in whatever order they come. */
  function Latest(cs: seq<nat>): nat
    requires cs != []
  {
    if |cs| == 1 then cs[0] else Max(Latest(cs[..|cs| - 1]), cs[|cs| - 1])
  }

  lemma {:induction false} LatestMeans(cs: seq<nat>)
    requires cs != []
    ensures Latest(cs) in cs && forall i | 0 <= i < |cs| :: cs[i] <= Latest(cs)
  {
    if |cs| > 1 {
      LatestMeans(cs[..|cs| - 1]);
      assert Latest(cs) in cs[..|cs| - 1] || Latest(cs) == cs[|cs| - 1];
    }
  }

  /** The counts of a clock with period `cpc`, the next one due at `start`, up to cycle c. */
  function WindowCounts(start: nat, cpc: nat, c: nat): (n: nat)
    requires cpc != 0 && start <= c
    ensures n >= 1
  {
    (c - start) / cpc + 1
  }

  /** The window up to c holds at least k counts exactly from the cycle of the k-th count on. */
  lemma WindowReaches(start: nat, cpc: nat, c: nat, k: nat)
    requires cpc != 0 && start <= c && k >= 1
    ensures k <= WindowCounts(start, cpc, c) <==> start + (k - 1) * cpc <= c
  {
    var x := c - start;
    assert x == x / cpc * cpc + x % cpc;
    if k - 1 <= x / cpc {
      ScaleMonotone(k - 1, x / cpc, cpc);
    } else {
      ScaleMonotone(x / cpc + 1, k - 1, cpc);
      assert (x / cpc + 1) * cpc == x / cpc * cpc + cpc;
    }
  }

  /** Counting to c1 and then on to c2 counts what counting to c2 does. */
  lemma WindowsAdd(start: nat, cpc: nat, c1: nat, c2: nat)
    requires cpc != 0 && start <= c1 <= c2
    ensures
      var n := WindowCounts(start, cpc, c1);
      var start1 := start + n * cpc;
      && n * cpc >= 0
      && WindowCounts(start, cpc, c2) == n + if start1 <= c2 then WindowCounts(start1, cpc, c2) else 0
  {
    var x, y := c1 - start, c2 - start;
    var n := x / cpc + 1;
    assert x == x / cpc * cpc + x % cpc;
    assert n * cpc == x / cpc * cpc + cpc;
    if y >= n * cpc {
      DivShift(y, cpc, n);
      assert y - n * cpc == c2 - (start + n * cpc);
    } else {
      assert y == (n - 1) * cpc + (y - (n - 1) * cpc);
      DivisionUnique(y, cpc, n - 1, y - (n - 1) * cpc);
    }
  }

  /** The counts due by cycle c, none before the first. */
  function CountsBy(start: nat, cpc: nat, c: nat): nat
    requires cpc != 0
  {
    if start <= c then WindowCounts(start, cpc, c) else 0
  }

  lemma CountsByMonotone(start: nat, cpc: nat, c1: nat, c2: nat)
    requires cpc != 0 && c1 <= c2
    ensures CountsBy(start, cpc, c1) <= CountsBy(start, cpc, c2)
  {
    hide WindowCounts;
    if start <= c1 {
      WindowReaches(start, cpc, c1, WindowCounts(start, cpc, c1));
      WindowReaches(start, cpc, c2, WindowCounts(start, cpc, c1));
    }
  }

  /** The count after those of a window lies beyond its end. */
  lemma NextBeyond(start: nat, cpc: nat, c: nat)
    requires cpc != 0 && start <= c
    ensures c < start + WindowCounts(start, cpc, c) * cpc
  {
    WindowReaches(start, cpc, c, WindowCounts(start, cpc, c) + 1);
    hide WindowCounts;
  }

  lemma QuotientMonotone(a: nat, b: nat, m: nat)
    requires a <= b && m > 0
    ensures a / m <= b / m
  {
    CountsByMonotone(0, m, a, b);
  }
}
