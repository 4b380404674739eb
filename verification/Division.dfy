/** Step division: div0s / div0u, 32 times div1, div2s, div3s (cpu_class4.cpp). */
module Division {
  import opened Words
  import opened CpuState
  import opened CpuCore
  import opened DivMod

  // ---- the handlers, one step each ----

  const ZERO_DIVIDE := Trap(4, 0)

  function Div0s(c: Core, rs: RegNo): Core
    requires c.Valid()
  {
    if c.r[rs] == 0 then FlushExt(c)
    else
      var neg := Negative(c.alr);
      FlushExt(c).(ahr := if neg then 0xFFFF_FFFF else 0, psr := c.psr.(ds := neg, n := Negative(c.r[rs])))
  }

  function Div0u(c: Core, rs: RegNo): Core
    requires c.Valid()
  {
    if c.r[rs] == 0 then FlushExt(c)
    else FlushExt(c).(ahr := 0, psr := c.psr.(ds := false, n := false))
  }

  /** The trial subtraction of div1: its wrapped result, and whether it becomes a quotient bit. */
  function Trial(ahr: uint32, divisor: uint32, ds: bool, n: bool): (uint32, bool) {
    if ds == n then
      var tmp := Wrap32(ahr - divisor);
      (tmp, if ds then tmp > ahr else tmp <= ahr)
    else
      var tmp := Wrap32(ahr + divisor);
      (tmp, if ds then tmp >= ahr else tmp < ahr)
  }

  /** {AHR, ALR} shifted left by one, the trial applied to the upper half. */
  function ShiftAndTry(ahr: uint32, alr: uint32, divisor: uint32, ds: bool, n: bool): (uint32, uint32) {
    var shifted := Wrap32(2 * ahr + (if Negative(alr) then 1 else 0));
    var (tmp, bit) := Trial(shifted, divisor, ds, n);
    (if bit then tmp else shifted, Wrap32(2 * alr) + (if bit then 1 else 0))
  }

  function Div1(c: Core, rs: RegNo): (c': Core)
    requires c.Valid()
    ensures c'.Valid()
  {
    var (ahr, alr) := ShiftAndTry(c.ahr, c.alr, c.r[rs], c.psr.ds, c.psr.n);
    FlushExt(c).(ahr := ahr, alr := alr)
  }

  function Div2s(c: Core, rs: RegNo): Core
    requires c.Valid()
  {
    var tmp := if c.psr.n then Wrap32(c.ahr - c.r[rs]) else Wrap32(c.ahr + c.r[rs]);
    if c.psr.ds && tmp == 0 then FlushExt(c).(ahr := 0, alr := Wrap32(c.alr + 1)) else FlushExt(c)
  }

  function Div3s(c: Core): Core {
    if c.psr.ds != c.psr.n then FlushExt(c).(alr := Wrap32(0 - c.alr)) else FlushExt(c)
  }

  function Div1Times(c: Core, rs: RegNo, k: nat): (c': Core)
    requires c.Valid()
    ensures c'.Valid()
  {
    if k == 0 then c else Div1(Div1Times(c, rs, k - 1), rs)
  }

  // ---- division as C defines it ----

  /** Quotient truncated toward zero. */
  function TruncDiv(a: int, b: int): int
    requires b != 0
  {
    if a >= 0 then (if b > 0 then a / b else -(a / -b)) else (if b > 0 then -(-a / b) else -a / -b)
  }

  /** Remainder with the sign of the dividend. */
  function TruncRem(a: int, b: int): int
    requires b != 0
  {
    a - b * TruncDiv(a, b)
  }

  // ---- the loop invariant of the 32 steps ----

  /** |divisor| as the flags set by div0 read it. */
  function Magnitude(divisor: uint32, n: bool): int {
    if n then TWO32 - divisor else divisor
  }

  /** After some steps: `p` is the weight of the dividend bits not yet consumed, `q` that of the
      quotient bits collected, `P` the consumed prefix, `L` the rest and `Q` the quotient so far. */
  predicate Consumed(dividend: uint32, alr: uint32, p: nat, q: nat, P: nat, L: nat, Q: nat) {
    p * q == TWO32 && dividend == P * p + L && L < p && alr == L * q + Q && Q < q
  }

  /** AHR holds the partial remainder R of the prefix by e; for a negative dividend it holds -R,
      the prefix counts down from q, and R ranges over 1..e instead of 0..e-1. */
  predicate Remains(ahr: uint32, e: int, ds: bool, q: nat, P: nat, Q: nat, R: nat) {
    if ds then ahr == Wrap32(0 - R) && q - P == Q * e + R && 1 <= R <= e && (if q == 1 then P == 0 else 2 * P >= q)
    else ahr == R && P == Q * e + R && R < e
  }

  /** Shifting {AHR, ALR} moves the top bit of the rest into the prefix. */
  lemma ShiftStep(L: nat, Q: nat, p': nat, q: nat)
    requires p' * q == TWO31 && L < 2 * p' && Q < q
    ensures
      var alr := L * q + Q;
      var bit := if L >= p' then 1 else 0;
      && 0 <= alr < TWO32
      && Negative(alr) == (bit == 1)
      && Wrap32(2 * alr) == (L - bit * p') * (2 * q) + 2 * Q
      && (L - bit * p') * (2 * q) + 2 * Q + 1 < TWO32
  {
    var bit := if L >= p' then 1 else 0;
    var L' := L - bit * p';
    MultiplesAdd(L', bit * p', q);
    ScaleMonotone(L' + 1, p', q);
    MultiplesAdd(L', 1, q);
    DoubleMultiple(L', q);
    assert bit * p' * q == bit * TWO31;
    TopBitDrops(L' * q + Q, bit);
  }

  lemma DoubleMultiple(a: nat, q: nat)
    ensures a * (2 * q) == 2 * (a * q)
  {
  }

  /** Shifting a word drops its top bit. */
  lemma TopBitDrops(x: nat, bit: nat)
    requires x < TWO31 && bit <= 1
    ensures Negative(x + bit * TWO31) == (bit == 1) && Wrap32(2 * (x + bit * TWO31)) == 2 * x
  {
  }

  /** A non-negative partial remainder: the trial succeeds exactly when it is not below |divisor|. */
  lemma TrialUp(R: uint32, divisor: uint32, n: bool)
    requires divisor != 0
    ensures
      var e := Magnitude(divisor, n);
      var (tmp, bit) := Trial(R, divisor, false, n);
      bit == (R >= e) && (bit ==> tmp == R - e)
  {
  }

  /** A negative one, held as -R: it succeeds exactly when R exceeds |divisor|. */
  lemma TrialDown(R: uint32, divisor: uint32, n: bool)
    requires divisor != 0 && R != 0
    ensures
      var e := Magnitude(divisor, n);
      var (tmp, bit) := Trial(Wrap32(0 - R), divisor, true, n);
      bit == (R > e) && (bit ==> tmp == Wrap32(0 - (R - e)))
  {
    NegativeWord(R);
    WrapSum(R, Magnitude(divisor, n));
  }

  lemma NegativeWord(R: nat)
    requires 1 <= R < TWO32
    ensures Wrap32(0 - R) == TWO32 - R
  {
  }

  lemma WrapSum(R: nat, e: nat)
    requires 1 <= R < TWO32 && 1 <= e <= TWO32
    ensures Wrap32(TWO32 - R + e) == Wrap32(0 - (R - e))
    ensures Wrap32(TWO32 - R + e) == if e < R then TWO32 - R + e else e - R
    ensures Wrap32(TWO32 - R - (TWO32 - e)) == Wrap32(TWO32 - R + e)
  {
  }

  /** Halving p moves one bit of the rest into the prefix. */
  lemma PrefixStep(dividend: uint32, p: nat, q: nat, P: nat, L: nat) returns (bit: nat)
    requires p * q == TWO32 && p % 2 == 0 && dividend == P * p + L && L < p
    ensures bit == (if L >= p / 2 then 1 else 0)
    ensures p / 2 * (2 * q) == TWO32 && p / 2 * q == TWO31
    ensures dividend == (2 * P + bit) * (p / 2) + (L - bit * (p / 2)) && 0 <= L - bit * (p / 2) < p / 2
    ensures P < q
  {
    var p' := p / 2;
    bit := if L >= p' then 1 else 0;
    assert p == 2 * p';
    assert p' * (2 * q) == p * q;
    assert P * p == 2 * P * p';
    assert P >= q ==> P * p >= q * p;
  }

  lemma QuotientUp(P: nat, Q: nat, R: nat, e: nat, bit: nat) returns (Q': nat, R': nat)
    requires P == Q * e + R && R < e && bit <= 1
    ensures 2 * P + bit == Q' * e + R' && R' < e && R <= P
    ensures if 2 * R + bit >= e then Q' == 2 * Q + 1 && R' == 2 * R + bit - e else Q' == 2 * Q && R' == 2 * R + bit
  {
    assert Q * e >= 0;
    assert (2 * Q) * e == 2 * (Q * e) && (2 * Q + 1) * e == 2 * (Q * e) + e;
    if 2 * R + bit >= e {
      Q', R' := 2 * Q + 1, 2 * R + bit - e;
    } else {
      Q', R' := 2 * Q, 2 * R + bit;
    }
  }

  lemma QuotientDown(M: nat, Q: nat, R: nat, e: nat, bit: nat) returns (Q': nat, R': nat)
    requires M == Q * e + R && 1 <= R <= e && bit <= 1
    ensures 2 * M - bit == Q' * e + R' && 1 <= R' <= e && R <= M
    ensures if 2 * R - bit > e then Q' == 2 * Q + 1 && R' == 2 * R - bit - e else Q' == 2 * Q && R' == 2 * R - bit
  {
    assert Q * e >= 0;
    assert (2 * Q) * e == 2 * (Q * e) && (2 * Q + 1) * e == 2 * (Q * e) + e;
    if 2 * R - bit > e {
      Q', R' := 2 * Q + 1, 2 * R - bit - e;
    } else {
      Q', R' := 2 * Q, 2 * R - bit;
    }
  }

  /** One div1 on a non-negative dividend.  AHR stays below 2^31 before every shift, so the
      shift loses no bit even when the divisor exceeds 2^31. */
  lemma StepUp(dividend: uint32, ahr: uint32, alr: uint32, divisor: uint32, n: bool,
               p: nat, q: nat, P: nat, L: nat, Q: nat, R: nat)
    returns (P': nat, L': nat, Q': nat, R': nat)
    requires divisor != 0 && p % 2 == 0 && q <= TWO31
    requires Consumed(dividend, alr, p, q, P, L, Q) && Remains(ahr, Magnitude(divisor, n), false, q, P, Q, R)
    ensures ahr < TWO31
    ensures
      var (ahr', alr') := ShiftAndTry(ahr, alr, divisor, false, n);
      && Consumed(dividend, alr', p / 2, 2 * q, P', L', Q')
      && Remains(ahr', Magnitude(divisor, n), false, 2 * q, P', Q', R')
  {
    hide Magnitude, Negative, ShiftAndTry;
    var bit := PrefixStep(dividend, p, q, P, L);
    ShiftStep(L, Q, p / 2, q);
    P', L' := 2 * P + bit, L - bit * (p / 2);
    Q', R' := QuotientUp(P, Q, R, Magnitude(divisor, n), bit);
    TryUp(R, alr, divisor, n, bit);
    hide Wrap32;
  }

  /** The step on a non-negative remainder below 2^31. */
  lemma TryUp(R: nat, alr: uint32, divisor: uint32, n: bool, bit: nat)
    requires divisor != 0 && R < TWO31 && bit <= 1 && Negative(alr) == (bit == 1)
    ensures
      var e, r := Magnitude(divisor, n), 2 * R + bit;
      ShiftAndTry(R, alr, divisor, false, n)
      == if r >= e then (r - e, Wrap32(2 * alr) + 1) else (r, Wrap32(2 * alr) + 0)
  {
    WrapWord(2 * R + bit);
    hide Trial, Magnitude, Negative, Wrap32;
    TrialUp(2 * R + bit, divisor, n);
  }

  /** A negative dividend keeps at least half of every prefix range behind it. */
  lemma TopHalf(dividend: uint32, p: nat, q: nat, P: nat, L: nat, bit: nat)
    requires Negative(dividend) && p * q == TWO32 && p % 2 == 0 && 1 <= q <= TWO31
    requires dividend == P * p + L && bit == (if L >= p / 2 then 1 else 0)
    requires if q == 1 then P == 0 else 2 * P >= q
    ensures 2 * (2 * P + bit) >= 2 * q && q - P < TWO31
  {
    if q == 1 {
      assert p == TWO32;
    }
  }

  /** One div1 on a negative dividend. */
  lemma StepDown(dividend: uint32, ahr: uint32, alr: uint32, divisor: uint32, n: bool,
                 p: nat, q: nat, P: nat, L: nat, Q: nat, R: nat)
    returns (P': nat, L': nat, Q': nat, R': nat)
    requires divisor != 0 && p % 2 == 0 && 1 <= q <= TWO31 && Negative(dividend)
    requires Consumed(dividend, alr, p, q, P, L, Q) && Remains(ahr, Magnitude(divisor, n), true, q, P, Q, R)
    ensures
      var (ahr', alr') := ShiftAndTry(ahr, alr, divisor, true, n);
      && Consumed(dividend, alr', p / 2, 2 * q, P', L', Q')
      && Remains(ahr', Magnitude(divisor, n), true, 2 * q, P', Q', R')
  {
    hide Magnitude, ShiftAndTry;
    var bit := PrefixStep(dividend, p, q, P, L);
    ShiftStep(L, Q, p / 2, q);
    P', L' := 2 * P + bit, L - bit * (p / 2);
    TopHalf(dividend, p, q, P, L, bit);
    hide Negative;
    Q', R' := QuotientDown(q - P, Q, R, Magnitude(divisor, n), bit);
    TryDown(R, alr, divisor, n, bit);
    hide Wrap32;
  }

  /** The step on a remainder of 1..2^31, held negated. */
  lemma TryDown(R: nat, alr: uint32, divisor: uint32, n: bool, bit: nat)
    requires divisor != 0 && 1 <= R <= TWO31 && bit <= 1 && Negative(alr) == (bit == 1)
    requires 2 * R - bit < TWO32
    ensures
      var e, r := Magnitude(divisor, n), 2 * R - bit;
      ShiftAndTry(Wrap32(0 - R), alr, divisor, true, n)
      == if r > e then (Wrap32(0 - (r - e)), Wrap32(2 * alr) + 1) else (Wrap32(0 - r), Wrap32(2 * alr) + 0)
  {
    ShiftedDown(R, bit);
    hide Trial, Magnitude, Negative, Wrap32;
    TrialDown(2 * R - bit, divisor, n);
  }

  lemma ShiftedDown(R: nat, bit: nat)
    requires bit <= 1 && 1 <= R <= TWO31
    ensures Wrap32(2 * Wrap32(0 - R) + bit) == Wrap32(0 - (2 * R - bit))
  {
  }

  // ---- all 32 steps ----

  function Pow2(k: nat): nat {
    if k == 0 then 1 else 2 * Pow2(k - 1)
  }

  lemma Pow2Facts(k: nat)
    ensures Pow2(0) == 1 && Pow2(31) == TWO31 && Pow2(32) == TWO32
    ensures 1 <= Pow2(k) && (k <= 31 ==> Pow2(k) <= TWO31)
  {
    assert Pow2(8) == 0x100;
    assert Pow2(16) == 0x1_0000;
    assert Pow2(24) == 0x100_0000;
    if k > 0 {
      Pow2Facts(k - 1);
    }
    if k <= 31 {
      Pow2Monotone(k, 31);
    }
  }

  lemma Pow2Monotone(j: nat, k: nat)
    requires j <= k
    ensures Pow2(j) <= Pow2(k)
    decreases k - j
  {
    if j < k {
      Pow2Monotone(j, k - 1);
    }
  }

  lemma Pow2Halves(k: nat)
    requires 1 <= k <= 32
    ensures Pow2(33 - k) == 2 * Pow2(32 - k) && Pow2(k) == 2 * Pow2(k - 1)
    ensures Pow2(33 - k) / 2 == Pow2(32 - k) && Pow2(33 - k) % 2 == 0
  {
  }

  /** The state div0s or div0u leaves is the invariant with nothing consumed. */
  lemma Initially(c: Core, rs: RegNo)
    requires c.Valid() && c.r[rs] != 0
    requires if c.psr.ds then c.ahr == 0xFFFF_FFFF else c.ahr == 0
    ensures Consumed(c.alr, c.alr, TWO32, 1, 0, c.alr, 0)
    ensures Remains(c.ahr, Magnitude(c.r[rs], c.psr.n), c.psr.ds, 1, 0, 0, if c.psr.ds then 1 else 0)
  {
  }

  /** After k steps from a div0 state, some P, L, Q, R describe the registers. */
  lemma {:induction false} RunSteps(c: Core, rs: RegNo, k: nat) returns (P: nat, L: nat, Q: nat, R: nat)
    requires c.Valid() && c.r[rs] != 0 && k <= 32
    requires if c.psr.ds then Negative(c.alr) && c.ahr == 0xFFFF_FFFF else c.ahr == 0
    ensures
      var s := Div1Times(c, rs, k);
      && s == c.(ahr := s.ahr, alr := s.alr, pendingExt := s.pendingExt)
      && Consumed(c.alr, s.alr, Pow2(32 - k), Pow2(k), P, L, Q)
      && Remains(s.ahr, Magnitude(c.r[rs], c.psr.n), c.psr.ds, Pow2(k), P, Q, R)
  {
    hide Consumed, Remains, ShiftAndTry, Magnitude, Pow2;
    if k == 0 {
      Pow2Facts(0);
      P, L, Q, R := 0, c.alr, 0, if c.psr.ds then 1 else 0;
      Initially(c, rs);
    } else {
      P, L, Q, R := RunSteps(c, rs, k - 1);
      var s := Div1Times(c, rs, k - 1);
      Pow2Facts(k - 1);
      Pow2Halves(k);
      var p, q, n := Pow2(33 - k), Pow2(k - 1), c.psr.n;
      if c.psr.ds {
        P, L, Q, R := StepDown(c.alr, s.ahr, s.alr, c.r[rs], n, p, q, P, L, Q, R);
      } else {
        P, L, Q, R := StepUp(c.alr, s.ahr, s.alr, c.r[rs], n, p, q, P, L, Q, R);
      }
    }
  }

  lemma RemainderBelowWeight(dividend: uint32, ahr: uint32, alr: uint32, e: int,
                             p: nat, q: nat, P: nat, L: nat, Q: nat, R: nat)
    requires Consumed(dividend, alr, p, q, P, L, Q) && Remains(ahr, e, false, q, P, Q, R)
    ensures ahr < q
  {
    ScaleMonotone(0, Q, e);
    if P >= q {
      ScaleMonotone(q, P, p);
    }
  }

  /** Before each of the 32 shifts of an unsigned division AHR is below 2^31. */
  lemma RemainderFitsBeforeShift(c: Core, rs: RegNo, k: nat)
    requires c.Valid() && c.r[rs] != 0 && k < 32
    ensures Div1Times(Div0u(c, rs), rs, k).ahr < TWO31
  {
    hide Consumed, Remains, Div1Times, Pow2;
    var c0 := Div0u(c, rs);
    var P, L, Q, R := RunSteps(c0, rs, k);
    var s := Div1Times(c0, rs, k);
    RemainderBelowWeight(c.alr, s.ahr, s.alr, c.r[rs], Pow2(32 - k), Pow2(k), P, L, Q, R);
    Pow2Facts(k);
  }

  /** Unsigned division: div0u and 32 div1 leave quotient and remainder of any divisor, and
      change nothing else. */
  lemma UnsignedDivision(c: Core, rs: RegNo)
    requires c.Valid() && c.r[rs] != 0
    ensures Div1Times(Div0u(c, rs), rs, 32)
         == FlushExt(c).(alr := c.alr / c.r[rs], ahr := c.alr % c.r[rs], psr := c.psr.(ds := false, n := false))
  {
    var P, L, Q, R := RunSteps(Div0u(c, rs), rs, 32);
    Pow2Facts(0);
    DivisionUnique(c.alr, c.r[rs], Q, R);
    FlushedThroughout(Div0u(c, rs), rs, 32);
  }

  lemma {:induction false} FlushedThroughout(c: Core, rs: RegNo, k: nat)
    requires c.Valid() && c.pendingExt == []
    ensures Div1Times(c, rs, k).pendingExt == []
  {
    if k > 0 {
      FlushedThroughout(c, rs, k - 1);
    }
  }

  /** The remainder before correction ranges over 1..e; div2s turns e into 0 and bumps the quotient. */
  lemma CorrectedQuotient(m: nat, e: nat, Q: nat, R: nat)
    requires m == Q * e + R && 1 <= R <= e
    ensures if R == e then m / e == Q + 1 && m % e == 0 else m / e == Q && m % e == R
  {
    if R == e {
      assert (Q + 1) * e == Q * e + e;
      DivisionUnique(m, e, Q + 1, 0);
    } else {
      DivisionUnique(m, e, Q, R);
    }
  }

  lemma SignedProducts(e: int, q: int)
    ensures -e * -q == e * q && -e * q == -(e * q) && e * -q == -(e * q)
  {
  }

  /** Truncated division in terms of the magnitudes. */
  lemma TruncSigns(a: int, b: int)
    requires b != 0
    ensures TruncDiv(a, b) == (if (a < 0) != (b < 0) then -(Abs(a) / Abs(b)) else Abs(a) / Abs(b))
    ensures TruncRem(a, b) == (if a < 0 then -(Abs(a) % Abs(b)) else Abs(a) % Abs(b))
  {
    SignedProducts(Abs(b), Abs(a) / Abs(b));
    ModMeans(Abs(a), Abs(b));
  }

  lemma ModMeans(m: nat, e: nat)
    requires e != 0
    ensures m % e == m - e * (m / e)
  {
  }

  /** The same on the words the registers hold. */
  lemma TruncByMagnitude(x: uint32, y: uint32)
    requires y != 0
    ensures
      var a, b := Signed32(x), Signed32(y);
      var m, e := if a < 0 then -a else a, Magnitude(y, b < 0);
      && TruncDiv(a, b) == (if (a < 0) != (b < 0) then -(m / e) else m / e)
      && TruncRem(a, b) == (if a < 0 then -(m % e) else m % e)
  {
    hide TruncDiv, TruncRem;
    TruncSigns(Signed32(x), Signed32(y));
  }

  lemma TruncSatisfies(a: int, b: int)
    requires b != 0
    ensures
      var q, r := TruncDiv(a, b), TruncRem(a, b);
      a == b * q + r && Abs(r) < Abs(b) && (a >= 0 ==> r >= 0) && (a <= 0 ==> r <= 0)
  {
    TruncSigns(a, b);
    hide TruncDiv;
    if a == 0 {
      DivisionUnique(0, Abs(b), 0, 0);
    }
  }

  /** The meaning of TruncDiv and TruncRem: the one pair with a = b*q + r, |r| < |b| and r = 0 or of a's sign. */
  lemma TruncMeaning(a: int, b: int, q: int, r: int)
    requires b != 0
    ensures (q == TruncDiv(a, b) && r == TruncRem(a, b))
        <==> (a == b * q + r && Abs(r) < Abs(b) && (a >= 0 ==> r >= 0) && (a <= 0 ==> r <= 0))
  {
    hide TruncDiv, TruncRem;
    TruncSatisfies(a, b);
    var q0, r0 := TruncDiv(a, b), TruncRem(a, b);
    if a == b * q + r && Abs(r) < Abs(b) && (a >= 0 ==> r >= 0) && (a <= 0 ==> r <= 0) {
      PairUnique(b, q, r, q0, r0);
    }
  }

  lemma PairUnique(b: int, q: int, r: int, q0: int, r0: int)
    requires b != 0 && b * q + r == b * q0 + r0 && Abs(r) < Abs(b) && Abs(r0) < Abs(b)
    requires (r >= 0 && r0 >= 0) || (r <= 0 && r0 <= 0)
    ensures q == q0 && r == r0
  {
    Distribute(b, q, q0);
    if b < 0 {
      SmallMultiple(-b, q0 - q);
    } else {
      SmallMultiple(b, q - q0);
    }
  }

  lemma Distribute(b: int, q: int, q0: int)
    ensures b * (q - q0) == b * q - b * q0 && -b * (q0 - q) == b * q - b * q0
  {
  }

  function Abs(x: int): nat { if x < 0 then -x else x }

  /** The full signed sequence. */
  function SignedSequence(c: Core, rs: RegNo): Core
    requires c.Valid()
  {
    Div3s(Div2s(Div1Times(Div0s(c, rs), rs, 32), rs))
  }

  /** div2s and div3s on what the 32 steps leave. */
  lemma Finish(s: Core, rs: RegNo, Q: nat, R: nat)
    requires s.Valid() && s.r[rs] != 0 && s.alr == Q && s.pendingExt == []
    requires s.psr.n == Negative(s.r[rs])
    requires if s.psr.ds then s.ahr == Wrap32(0 - R) && 1 <= R <= Magnitude(s.r[rs], s.psr.n) else s.ahr == R
    ensures
      var f := Div3s(Div2s(s, rs));
      var bump := s.psr.ds && R == Magnitude(s.r[rs], s.psr.n);
      var q := if bump then Q + 1 else Q;
      f == s.(alr := Wrap32(if s.psr.ds != s.psr.n then -q else q), ahr := if bump then 0 else s.ahr)
  {
    NegatedWrap(Q);
    NegatedWrap(Q + 1);
    if s.psr.ds {
      CorrectionTest(R, s.r[rs], s.psr.n);
    }
    hide Wrap32, Magnitude, Negative;
  }

  lemma NegatedWrap(x: nat)
    ensures Wrap32(0 - Wrap32(x)) == Wrap32(0 - x)
    ensures x < TWO32 ==> Wrap32(x) == x
  {
  }

  /** div2s finds zero exactly when the remainder it was left is the whole divisor. */
  lemma CorrectionTest(R: nat, divisor: uint32, n: bool)
    requires divisor != 0 && 1 <= R <= Magnitude(divisor, n)
    ensures (if n then Wrap32(Wrap32(0 - R) - divisor) else Wrap32(Wrap32(0 - R) + divisor)) == 0
        <==> R == Magnitude(divisor, n)
  {
  }

  /** Once all bits are consumed ALR holds the quotient. */
  lemma AllConsumed(dividend: uint32, alr: uint32, P: nat, L: nat, Q: nat)
    requires Consumed(dividend, alr, 1, TWO32, P, L, Q)
    ensures P == dividend && alr == Q
  {
  }

  /** ALR and AHR before the two corrections. */
  lemma BeforeCorrections(c: Core, rs: RegNo) returns (s: Core, Q: nat, R: nat)
    requires c.Valid() && c.r[rs] != 0
    ensures s == Div1Times(Div0s(c, rs), rs, 32)
    ensures s == Div0s(c, rs).(ahr := s.ahr, alr := s.alr, pendingExt := []) && s.alr == Q
    ensures Remains(s.ahr, Magnitude(c.r[rs], s.psr.n), s.psr.ds, TWO32, c.alr, Q, R)
  {
    hide Div1, Div1Times, Consumed, Remains;
    var P, L;
    P, L, Q, R := RunSteps(Div0s(c, rs), rs, 32);
    s := Div1Times(Div0s(c, rs), rs, 32);
    Pow2Facts(0);
    AllConsumed(c.alr, s.alr, P, L, Q);
    FlushedThroughout(Div0s(c, rs), rs, 32);
  }

  /** Signed division: the sequence leaves the quotient truncated toward zero and the remainder
      with the dividend's sign, both modulo 2^32, and changes nothing but DS and N besides. */
  lemma SignedDivision(c: Core, rs: RegNo)
    requires c.Valid() && c.r[rs] != 0
    ensures
      var a, b := Signed32(c.alr), Signed32(c.r[rs]);
      SignedSequence(c, rs)
      == FlushExt(c).(alr := Wrap32(TruncDiv(a, b)), ahr := Wrap32(TruncRem(a, b)),
                      psr := c.psr.(ds := a < 0, n := b < 0))
  {
    hide Div1Times, Div2s, Div3s, TruncDiv, TruncRem, Magnitude, Wrap32;
    var s, Q, R := BeforeCorrections(c, rs);
    Finish(s, rs, Q, R);
    ResultWords(c.alr, c.r[rs], s.ahr, Q, R);
  }

  /** The corrected remainder and quotient of all 32 bits, as words. */
  lemma ResultWords(dividend: uint32, divisor: uint32, ahr: uint32, Q: nat, R: nat)
    requires divisor != 0
    requires Remains(ahr, Magnitude(divisor, Negative(divisor)), Negative(dividend), TWO32, dividend, Q, R)
    ensures
      var a, b := Signed32(dividend), Signed32(divisor);
      var bump := Negative(dividend) && R == Magnitude(divisor, Negative(divisor));
      var q := if bump then Q + 1 else Q;
      && Wrap32(if Negative(dividend) != Negative(divisor) then -q else q) == Wrap32(TruncDiv(a, b))
      && (if bump then 0 else ahr) == Wrap32(TruncRem(a, b))
  {
    TruncByMagnitude(dividend, divisor);
    WrapWord(ahr);
    var e := Magnitude(divisor, Negative(divisor));
    hide Magnitude, TruncDiv, TruncRem;
    if Negative(dividend) {
      CorrectedQuotient(TWO32 - dividend, e, Q, R);
    } else {
      DivisionUnique(dividend, e, Q, R);
    }
    assert Wrap32(0) == 0;
    hide Wrap32;
  }

  lemma HalvedQuotient(m: nat, e: nat)
    requires 2 <= e
    ensures 2 * (m / e) <= m
  {
    QuotientAndRest(m, e);
    ScaleMonotone(2, e, m / e);
  }

  /** The quotient register, read as signed, is the true quotient except for INT_MIN / -1. */
  lemma QuotientOverflowsIff(c: Core, rs: RegNo)
    requires c.Valid() && c.r[rs] != 0
    ensures
      var a, b := Signed32(c.alr), Signed32(c.r[rs]);
      Signed32(SignedSequence(c, rs).alr) == TruncDiv(a, b) <==> !(a == -TWO31 && b == -1)
  {
    hide SignedSequence, TruncRem;
    SignedDivision(c, rs);
    FitsIff(Signed32(c.alr), Signed32(c.r[rs]));
  }

  lemma FitsIff(a: int, b: int)
    requires -TWO31 <= a < TWO31 && -TWO31 <= b < TWO31 && b != 0
    ensures Signed32(Wrap32(TruncDiv(a, b))) == TruncDiv(a, b) <==> !(a == -TWO31 && b == -1)
  {
    TruncSigns(a, b);
    hide TruncDiv, TruncRem, Wrap32, Signed32;
    SignedWrap(TruncDiv(a, b));
    if Abs(b) >= 2 {
      HalvedQuotient(Abs(a), Abs(b));
    } else {
      DivisionUnique(Abs(a), 1, Abs(a), 0);
    }
  }

  lemma SignedWrap(q: int)
    ensures -TWO31 <= q <= TWO31 ==> (Signed32(Wrap32(q)) == q <==> q != TWO31)
  {
  }

  // ---- the handlers, in place ----

  method HandleDiv0s(cpu: Cpu, rs: RegNo)
    requires cpu.State().Valid()
    modifies cpu, cpu.bus
    ensures
      var m := old(cpu.State());
      cpu.State() == if m.core.r[rs] == 0 then m.(core := FlushExt(m.core)).DoTrap(ZERO_DIVIDE)
                     else m.(core := Div0s(m.core, rs))
  {
    cpu.core := FlushExt(cpu.core);
    var divisor := cpu.core.r[rs];
    if divisor == 0 {
      cpu.AssertTrap(ZERO_DIVIDE);
      return;
    }
    var negDividend := Negative(cpu.core.alr);
    cpu.core := cpu.core.(ahr := if negDividend then 0xFFFF_FFFF else 0);
    cpu.core := cpu.core.(psr := cpu.core.psr.(ds := negDividend));
    cpu.core := cpu.core.(psr := cpu.core.psr.(n := Negative(divisor)));
  }

  method HandleDiv0u(cpu: Cpu, rs: RegNo)
    requires cpu.State().Valid()
    modifies cpu, cpu.bus
    ensures
      var m := old(cpu.State());
      cpu.State() == if m.core.r[rs] == 0 then m.(core := FlushExt(m.core)).DoTrap(ZERO_DIVIDE)
                     else m.(core := Div0u(m.core, rs))
  {
    cpu.core := FlushExt(cpu.core);
    if cpu.core.r[rs] == 0 {
      cpu.AssertTrap(ZERO_DIVIDE);
      return;
    }
    cpu.core := cpu.core.(ahr := 0);
    cpu.core := cpu.core.(psr := cpu.core.psr.(ds := false));
    cpu.core := cpu.core.(psr := cpu.core.psr.(n := false));
  }

  method HandleDiv1(cpu: Cpu, rs: RegNo)
    requires cpu.State().Valid()
    modifies cpu`core
    ensures cpu.core == Div1(old(cpu.core), rs)
  {
    cpu.core := FlushExt(cpu.core);
    var divisor: int := cpu.core.r[rs];
    cpu.core := cpu.core.(ahr := Wrap32(2 * cpu.core.ahr + (if Negative(cpu.core.alr) then 1 else 0)),
                          alr := Wrap32(2 * cpu.core.alr));
    var ahr: int := cpu.core.ahr;
    var tmp, bit;
    if !cpu.core.psr.ds {
      if !cpu.core.psr.n {
        tmp := Wrap32(ahr - divisor);
        bit := tmp <= ahr;
      } else {
        tmp := Wrap32(ahr + divisor);
        bit := tmp < ahr;
      }
    } else {
      if !cpu.core.psr.n {
        tmp := Wrap32(ahr + divisor);
        bit := tmp >= ahr;
      } else {
        tmp := Wrap32(ahr - divisor);
        bit := tmp > ahr;
      }
    }
    if bit {
      cpu.core := cpu.core.(ahr := tmp, alr := cpu.core.alr + 1);
    }
  }

  method HandleDiv2s(cpu: Cpu, rs: RegNo)
    requires cpu.State().Valid()
    modifies cpu`core
    ensures cpu.core == Div2s(old(cpu.core), rs)
  {
    cpu.core := FlushExt(cpu.core);
    if !cpu.core.psr.ds {
      return;
    }
    var divisor := cpu.core.r[rs];
    var tmp := if cpu.core.psr.n then Wrap32(cpu.core.ahr - divisor) else Wrap32(cpu.core.ahr + divisor);
    if tmp == 0 {
      cpu.core := cpu.core.(ahr := 0, alr := Wrap32(cpu.core.alr + 1));
    }
  }

  method HandleDiv3s(cpu: Cpu)
    requires cpu.State().Valid()
    modifies cpu`core
    ensures cpu.core == Div3s(old(cpu.core))
  {
    cpu.core := FlushExt(cpu.core);
    if cpu.core.psr.ds != cpu.core.psr.n {
      cpu.core := cpu.core.(alr := Wrap32(0 - cpu.core.alr));
    }
  }
}
