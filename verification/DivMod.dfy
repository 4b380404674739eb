/** Facts about quotient and remainder shared by the arithmetic proofs. */
module DivMod {
  lemma SmallMultiple(e: int, k: int)
    requires -e < e * k < e
    ensures k == 0
  {
    assert k >= 1 ==> e * k >= e;
    assert k <= -1 ==> e * k <= -e;
  }

  /** Division is the only way to write a number as quotient times divisor plus remainder. */
  lemma DivisionUnique(a: nat, e: nat, Q: nat, R: nat)
    requires a == Q * e + R && R < e
    ensures Q == a / e && R == a % e
  {
    assert a == a / e * e + a % e;
    assert e * (Q - a / e) == Q * e - a / e * e;
    SmallMultiple(e, Q - a / e);
  }

  /** Counting up by one modulo m. */
  lemma ModStep(x: nat, m: nat)
    requires m > 0
    ensures (x + 1) % m == if x % m == m - 1 then 0 else x % m + 1
  {
    var q, r := x / m, x % m;
    assert x == q * m + r;
    if r == m - 1 {
      assert x + 1 == (q + 1) * m + 0;
      DivisionUnique(x + 1, m, q + 1, 0);
    } else {
      DivisionUnique(x + 1, m, q, r + 1);
    }
  }

  /** Taking n whole divisors off the dividend takes n off the quotient. */
  lemma DivShift(x: nat, m: nat, n: nat)
    requires m > 0 && n * m <= x
    ensures (x - n * m) / m == x / m - n && n <= x / m
    ensures (x - n * m) % m == x % m
  {
    var q, r := x / m, x % m;
    assert x == q * m + r;
    assert (q - n) * m == q * m - n * m;
    assert n > q ==> n * m >= (q + 1) * m;
    DivisionUnique(x - n * m, m, q - n, r);
  }

  /** Rounded down to a unit that divides the size, an offset leaves room for the whole unit. */
  lemma UnitFits(off: nat, size: nat, unit: nat)
    requires unit > 0 && size % unit == 0 && off < size
    ensures off / unit * unit + unit <= size && off / unit < size / unit
  {
    var n, k := size / unit, off / unit;
    assert size == n * unit;
    assert off == k * unit + off % unit;
    if k >= n {
      ScaleMonotone(n, k, unit);
    }
    ScaleMonotone(k + 1, n, unit);
    assert (k + 1) * unit == k * unit + unit;
  }

  lemma ScaleMonotone(a: nat, b: nat, m: nat)
    requires a <= b
    ensures a * m <= b * m
  {
  }

  /** Adding k leaves the residue alone exactly when k is a multiple of m. */
  lemma SameResidueIff(x: nat, k: nat, m: nat)
    requires m > 0
    ensures (x + k) % m == x % m <==> k % m == 0
  {
    var q, r := x / m, x % m;
    var p, z := k / m, k % m;
    QuotientAndRest(x, m);
    QuotientAndRest(k, m);
    MultiplesAdd(q, p, m);
    MultiplesAdd(q + p, 1, m);
    if r + z < m {
      DivisionUnique(x + k, m, q + p, r + z);
    } else {
      DivisionUnique(x + k, m, q + p + 1, r + z - m);
    }
  }

  lemma QuotientAndRest(x: nat, m: nat)
    requires m > 0
    ensures x == x / m * m + x % m && x % m < m
  {
  }

  lemma MultiplesAdd(a: nat, b: nat, m: nat)
    ensures (a + b) * m == a * m + b * m
  {
  }
}
