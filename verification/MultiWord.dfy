/** add / adc and sub / sbc chains, and what the conditional branches decide after them
    (cpu.hpp, cpu_impl.hpp, cpu_class5.cpp, cpu_class0.cpp). */
module MultiWord {
  import opened Words
  import opened CpuState
  import opened CpuCore
  import opened Instructions
  import opened DivMod

  // ---- one instruction ----

  /** set_nzvc_add: C is bit 32 of the 64-bit sum, V the sign rule of addition. */
  function AddFlags(p: Psr, a: uint32, b: uint32, r64: uint64): Psr {
    var r := Wrap32(r64);
    p.SetNZ(r).(c := r64 / TWO32 != 0, v := Negative(a) == Negative(b) && Negative(a) != Negative(r))
  }

  /** set_nzvc_sub: the 64-bit difference wraps, so its upper half is nonzero exactly on borrow. */
  function SubFlags(p: Psr, a: uint32, b: uint32, r64: uint64): Psr {
    var r := Wrap32(r64);
    p.SetNZ(r).(c := r64 / TWO32 != 0, v := Negative(a) != Negative(b) && Negative(a) != Negative(r))
  }

  function Carry(p: Psr): int { if p.c then 1 else 0 }

  function Adc(p: Psr, a: uint32, b: uint32): (uint32, Psr) {
    var r64 := Wrap64(a as int + b + Carry(p));
    (Wrap32(r64), AddFlags(p, a, b, r64))
  }

  function Sbc(p: Psr, a: uint32, b: uint32): (uint32, Psr) {
    var r64 := Wrap64(a as int - b - Carry(p));
    (Wrap32(r64), SubFlags(p, a, b, r64))
  }

  /** add, sub and cmp ignore the incoming carry. */
  function Add(p: Psr, a: uint32, b: uint32): (uint32, Psr) { Adc(p.(c := false), a, b) }

  function Sub(p: Psr, a: uint32, b: uint32): (uint32, Psr) { Sbc(p.(c := false), a, b) }

  /** One addition step is exact once the carry out is counted; Z, N and V say whether the word is
      zero, whether its sign bit is set and whether the signed sum leaves the range; the other
      fields of PSR stay. */
  lemma AdcExact(p: Psr, a: uint32, b: uint32)
    ensures
      var (r, p') := Adc(p, a, b);
      && r + TWO32 * Carry(p') == a as int + b + Carry(p)
      && (p'.z <==> r == 0) && (p'.n <==> TWO31 <= r)
      && (p'.v <==> !(-TWO31 <= Signed32(a) + Signed32(b) + Carry(p) < TWO31))
      && p' == p.(n := p'.n, z := p'.z, v := p'.v, c := p'.c)
  {
  }

  /** The same for subtraction with its borrow; N xor V is the sign of the true difference. */
  lemma SbcExact(p: Psr, a: uint32, b: uint32)
    ensures
      var (r, p') := Sbc(p, a, b);
      && r - TWO32 * Carry(p') == a as int - b - Carry(p)
      && ((p'.n != p'.v) <==> Signed32(a) - Signed32(b) - Carry(p) < 0)
      && (p'.z <==> r == 0) && (p'.n <==> TWO31 <= r)
      && (p'.v <==> !(-TWO31 <= Signed32(a) - Signed32(b) - Carry(p) < TWO31))
      && p' == p.(n := p'.n, z := p'.z, v := p'.v, c := p'.c)
  {
    var d := a as int - b - Carry(p);
    assert Wrap64(d) == if d < 0 then d + TWO64 else d;
  }

  /** After cmp of two single words every branch decides the relation it is named for. */
  lemma CmpDecides(p: Psr, a: uint32, b: uint32)
    ensures
      var f := Sub(p, a, b).1;
      && (Taken(4, f) <==> Signed32(a) > Signed32(b))
      && (Taken(5, f) <==> Signed32(a) >= Signed32(b))
      && (Taken(6, f) <==> Signed32(a) < Signed32(b))
      && (Taken(7, f) <==> Signed32(a) <= Signed32(b))
      && (Taken(8, f) <==> a > b)
      && (Taken(9, f) <==> a >= b)
      && (Taken(10, f) <==> a < b)
      && (Taken(11, f) <==> a <= b)
      && (Taken(12, f) <==> a == b)
      && (Taken(13, f) <==> a != b)
  {
    SbcExact(p.(c := false), a, b);
    hide Sbc;
  }

  // ---- chains ----

  /** The weight of word n: 2^(32 n). */
  function Weight(n: nat): (w: nat)
    ensures 1 <= w
  {
    if n == 0 then 1 else TWO32 * Weight(n - 1)
  }

  /** The number whose words, least significant first, are `a`. */
  function Value(a: seq<uint32>): nat {
    if a == [] then 0 else Value(a[..|a| - 1]) + Weight(|a| - 1) * a[|a| - 1]
  }

  /** Its two's-complement reading. */
  function SignedValue(a: seq<uint32>): int
    requires a != []
  {
    Value(a[..|a| - 1]) + Weight(|a| - 1) * Signed32(a[|a| - 1])
  }

  /** adc word by word from the carry in `p`; with C clear on entry this is add, adc, adc, ... */
  function AdcChain(p: Psr, a: seq<uint32>, b: seq<uint32>): (r: (seq<uint32>, Psr))
    requires |a| == |b|
    ensures |r.0| == |a|
  {
    if a == [] then ([], p)
    else
      var n := |a| - 1;
      var (low, p1) := AdcChain(p, a[..n], b[..n]);
      var (top, p2) := Adc(p1, a[n], b[n]);
      (low + [top], p2)
  }

  function SbcChain(p: Psr, a: seq<uint32>, b: seq<uint32>): (r: (seq<uint32>, Psr))
    requires |a| == |b|
    ensures |r.0| == |a|
  {
    if a == [] then ([], p)
    else
      var n := |a| - 1;
      var (low, p1) := SbcChain(p, a[..n], b[..n]);
      var (top, p2) := Sbc(p1, a[n], b[n]);
      (low + [top], p2)
  }

  function SubChain(p: Psr, a: seq<uint32>, b: seq<uint32>): (seq<uint32>, Psr)
    requires |a| == |b|
  {
    SbcChain(p.(c := false), a, b)
  }

  lemma {:induction false} ValueBounded(a: seq<uint32>)
    ensures Value(a) < Weight(|a|)
  {
    if a != [] {
      ValueBounded(a[..|a| - 1]);
      WordFits(Weight(|a| - 1), a[|a| - 1]);
    }
  }

  lemma WordFits(w: nat, x: uint32)
    ensures w * x + w <= TWO32 * w
  {
    assert w * (x as int + 1) <= w * TWO32;
  }

  lemma ValueSnoc(low: seq<uint32>, top: uint32)
    ensures Value(low + [top]) == Value(low) + Weight(|low|) * top
  {
    assert (low + [top])[..|low|] == low;
  }

  /** Addition of numbers of any length: the words are the sum, the final C its carry. */
  lemma {:induction false} AdcChainExact(p: Psr, a: seq<uint32>, b: seq<uint32>)
    requires |a| == |b|
    ensures
      var (r, p') := AdcChain(p, a, b);
      Value(r) + Weight(|a|) * Carry(p') == Value(a) + Value(b) + Carry(p)
  {
    hide Adc;
    if a != [] {
      var n := |a| - 1;
      AdcChainExact(p, a[..n], b[..n]);
      var (low, p1) := AdcChain(p, a[..n], b[..n]);
      var (top, p2) := Adc(p1, a[n], b[n]);
      AdcExact(p1, a[n], b[n]);
      ValueSnoc(low, top);
      Scale(Weight(n), top, Carry(p2), a[n], b[n], Carry(p1));
    }
  }

  lemma Scale(w: nat, r: int, c': int, a: int, b: int, c: int)
    requires r + TWO32 * c' == a + b + c
    ensures w * r + TWO32 * w * c' == w * a + w * b + w * c
  {
    assert w * (r + TWO32 * c') == w * (a + b + c);
  }

  lemma ScaleDown(w: nat, r: int, c': int, a: int, b: int, c: int)
    requires r - TWO32 * c' == a - b - c
    ensures w * r - TWO32 * w * c' == w * a - w * b - w * c
  {
    assert w * (r - TWO32 * c') == w * (a - b - c);
  }

  /** Subtraction: the words are the difference, the final C its borrow. */
  lemma {:induction false} SbcChainExact(p: Psr, a: seq<uint32>, b: seq<uint32>)
    requires |a| == |b|
    ensures
      var (r, p') := SbcChain(p, a, b);
      Value(r) - Weight(|a|) * Carry(p') == Value(a) - Value(b) - Carry(p)
  {
    hide Sbc, Signed32;
    if a != [] {
      var n := |a| - 1;
      SbcChainExact(p, a[..n], b[..n]);
      var (low, p1) := SbcChain(p, a[..n], b[..n]);
      var (top, p2) := Sbc(p1, a[n], b[n]);
      SbcExact(p1, a[n], b[n]);
      ValueSnoc(low, top);
      ScaleDown(Weight(n), top, Carry(p2), a[n], b[n], Carry(p1));
    }
  }

  /** After a subtract chain jrult / jruge decide the unsigned order of the whole numbers and
      jrlt / jrge their two's-complement order. */
  lemma SubChainDecides(p: Psr, a: seq<uint32>, b: seq<uint32>)
    requires |a| == |b| && a != []
    ensures
      var f := SubChain(p, a, b).1;
      && (Taken(10, f) <==> Value(a) < Value(b))
      && (Taken(9, f) <==> Value(a) >= Value(b))
      && (Taken(6, f) <==> SignedValue(a) < SignedValue(b))
      && (Taken(5, f) <==> SignedValue(a) >= SignedValue(b))
  {
    UnsignedOrder(p, a, b);
    SignedOrder(p, a, b);
  }

  lemma UnsignedOrder(p: Psr, a: seq<uint32>, b: seq<uint32>)
    requires |a| == |b|
    ensures SubChain(p, a, b).1.c <==> Value(a) < Value(b)
  {
    var p0 := p.(c := false);
    SbcChainExact(p0, a, b);
    var (r, p') := SbcChain(p0, a, b);
    ValueBounded(r);
    assert Weight(|a|) * Carry(p') == if p'.c then Weight(|a|) else 0;
  }

  lemma SignedOrder(p: Psr, a: seq<uint32>, b: seq<uint32>)
    requires |a| == |b| && a != []
    ensures
      var f := SubChain(p, a, b).1;
      (f.n != f.v) <==> SignedValue(a) < SignedValue(b)
  {
    hide Sbc, Signed32, Weight;
    var p0, n := p.(c := false), |a| - 1;
    SbcChainExact(p0, a[..n], b[..n]);
    var (low, p1) := SbcChain(p0, a[..n], b[..n]);
    ValueBounded(low);
    SbcExact(p1, a[n], b[n]);
    TopWordDecides(Weight(n), Signed32(a[n]), Signed32(b[n]), Carry(p1), Value(low));
  }

  lemma TopWordDecides(w: int, x: int, y: int, borrow: int, low: int)
    requires 0 <= low < w
    ensures w * x - w * y - w * borrow + low < 0 <==> x - y - borrow < 0
  {
    var d := x - y - borrow;
    assert w * d == w * x - w * y - w * borrow;
    assert d < 0 ==> w * d <= -w;
    assert d >= 0 ==> w * d >= 0;
  }

  /** Words determine the number: two sequences of one length have the same value only if equal. */
  lemma {:induction false} ValueInjective(a: seq<uint32>, b: seq<uint32>)
    requires |a| == |b| && Value(a) == Value(b)
    ensures a == b
  {
    if a != [] {
      var n := |a| - 1;
      ValueBounded(a[..n]);
      ValueBounded(b[..n]);
      TopWordsAgree(Weight(n), a[n], b[n], Value(a[..n]), Value(b[..n]));
      ValueInjective(a[..n], b[..n]);
      assert a == a[..n] + [a[n]] && b == b[..n] + [b[n]];
    }
  }

  lemma TopWordsAgree(w: nat, x: int, y: int, low1: nat, low2: nat)
    requires low1 < w && low2 < w && low1 + w * x == low2 + w * y
    ensures x == y && low1 == low2
  {
    assert w * (x - y) == w * x - w * y;
    SmallMultiple(w, x - y);
  }

  /** The difference of two numbers of n words, modulo the weight of word n. */
  function Difference(a: seq<uint32>, b: seq<uint32>): nat {
    (Value(a) - Value(b)) % Weight(|a|)
  }

  lemma DifferenceIsResult(p: Psr, a: seq<uint32>, b: seq<uint32>)
    requires |a| == |b|
    ensures Value(SubChain(p, a, b).0) == Difference(a, b)
  {
    var p0 := p.(c := false);
    SbcChainExact(p0, a, b);
    var (r, p') := SbcChain(p0, a, b);
    ValueBounded(r);
    ValueBounded(a);
    ValueBounded(b);
    var d := Value(a) - Value(b);
    assert Value(r) == if p'.c then d + Weight(|a|) else d;
    Residue(d, Weight(|a|));
  }

  lemma Residue(d: int, w: nat)
    requires 0 < d + w && d < w
    ensures d % w == if d < 0 then d + w else d
  {
    if d < 0 {
      DivisionUnique(d + w, w, 0, d + w);
      ShiftedResidue(d, w);
    } else {
      DivisionUnique(d, w, 0, d);
    }
  }

  lemma ShiftedResidue(d: int, w: nat)
    requires w > 0
    ensures (d + w) % w == d % w
  {
    var q, r := d / w, d % w;
    assert d == w * q + r;
    assert d + w == w * (q + 1) + r;
    var q', r' := (d + w) / w, (d + w) % w;
    assert d + w == w * q' + r';
    assert w * (q' - (q + 1)) == w * q' - w * (q + 1);
    SmallMultiple(w, q' - (q + 1));
  }

  /** A top word of zero says that the number is below the weight of that word. */
  lemma TopWordZero(r: seq<uint32>)
    requires r != []
    ensures r[|r| - 1] == 0 <==> Value(r) < Weight(|r| - 1)
  {
    var n := |r| - 1;
    ValueBounded(r[..n]);
    hide Value, Weight;
    if r[n] >= 1 {
      ScaleMonotone(1, r[n], Weight(n));
    }
  }

  /** Z reflects the top word only: after a chain jreq decides equality of the whole numbers if
      and only if their difference is zero or reaches into the top word. */
  lemma ZeroFlagDecidesIff(p: Psr, a: seq<uint32>, b: seq<uint32>)
    requires |a| == |b| && a != []
    ensures
      var f := SubChain(p, a, b).1;
      (Taken(12, f) == (a == b)) <==> (Difference(a, b) == 0 || Weight(|a| - 1) <= Difference(a, b))
  {
    var p0, n := p.(c := false), |a| - 1;
    var (r, f) := SbcChain(p0, a, b);
    SbcExact(SbcChain(p0, a[..n], b[..n]).1, a[n], b[n]);
    assert f.z <==> r[n] == 0;
    TopWordZero(r);
    DifferenceIsResult(p, a, b);
    EqualIff(a, b);
  }

  lemma EqualIff(a: seq<uint32>, b: seq<uint32>)
    requires |a| == |b|
    ensures a == b <==> Difference(a, b) == 0
  {
    ValueBounded(a);
    ValueBounded(b);
    Residue(Value(a) - Value(b), Weight(|a|));
    if Value(a) == Value(b) {
      ValueInjective(a, b);
    }
  }

  /** Where it fails: 1 and 0 as two words each.  The difference has a zero top word. */
  lemma ZeroFlagMisses(p: Psr)
    ensures [1, 0] != [0, 0] && Taken(12, SubChain(p, [1, 0], [0, 0]).1)
  {
    var p0 := p.(c := false);
    var a, b: seq<uint32> := [1, 0], [0, 0];
    assert a[..1] == [1] && b[..1] == [0] && a[..1][..0] == [] && b[..1][..0] == [];
    assert SbcChain(p0, a[..1][..0], b[..1][..0]) == ([], p0);
    var (low, p1) := SbcChain(p0, a[..1], b[..1]);
    SbcExact(p0, 1, 0);
    SbcExact(p1, 0, 0);
  }

  // ---- the handlers, in place ----

  method HandleAdc(cpu: Cpu, rd: RegNo, rs: RegNo)
    requires cpu.State().Valid()
    modifies cpu`core
    ensures
      var c := old(cpu.core);
      var (r, p) := Adc(c.psr, c.r[rd], c.r[rs]);
      cpu.core == FlushExt(c).(r := c.r[rd := r], psr := p)
  {
    cpu.core := FlushExt(cpu.core);
    var a: int, b: int := cpu.core.r[rd], cpu.core.r[rs];
    var r64 := Wrap64(a + b + (if cpu.core.psr.c then 1 else 0));
    cpu.core := cpu.core.(r := cpu.core.r[rd := Wrap32(r64)]);
    cpu.core := cpu.core.(psr := AddFlags(cpu.core.psr, a, b, r64));
  }

  method HandleSbc(cpu: Cpu, rd: RegNo, rs: RegNo)
    requires cpu.State().Valid()
    modifies cpu`core
    ensures
      var c := old(cpu.core);
      var (r, p) := Sbc(c.psr, c.r[rd], c.r[rs]);
      cpu.core == FlushExt(c).(r := c.r[rd := r], psr := p)
  {
    cpu.core := FlushExt(cpu.core);
    var a: int, b: int := cpu.core.r[rd], cpu.core.r[rs];
    var r64 := Wrap64(a - b - (if cpu.core.psr.c then 1 else 0));
    cpu.core := cpu.core.(r := cpu.core.r[rd := Wrap32(r64)]);
    cpu.core := cpu.core.(psr := SubFlags(cpu.core.psr, a, b, r64));
  }
}
